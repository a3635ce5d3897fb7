/** What the rules of a hidden surface ask for, and who captures. Times are milliseconds. */
module Rules {
  import opened Regions
  import opened Wrappers

  type Key = nat

  /** transparent: the cover word says to leave the surface out of the capture.
      hold: the rule's own hold. who: the show_to / hide_from lists that apply. */
  datatype RuleValues = RuleValues(transparent: bool, hold: Option<int>, who: nat)

  function ClampHold(ms: int): nat {
    if ms < 0 then 0 else if 60_000 < ms then 60_000 else ms
  }

  /** At most a minute; a hold that is none of the surface's own comes from the settings. */
  function HoldFor(closeHold: int, rules: RuleValues): (ms: nat)
    ensures ms <= 60_000
    ensures var asked := if rules.hold.Some? then rules.hold.value else closeHold;
            && (asked < 0 ==> ms == 0) && (0 <= asked <= 60_000 ==> ms == asked) && (asked > 60_000 ==> ms == 60_000)
  {
    ClampHold(if rules.hold.Some? then rules.hold.value else closeHold)
  }

  /** The capture client of a frame; sees: whether it sees a surface with these rules. */
  datatype Client = Client(sees: RuleValues -> bool)

  /** A surface as it was last covered while really hidden; at: when. */
  datatype LastCover = LastCover(isLayer: bool, monitor: nat, box: Box, rules: RuleValues, at: nat)
}
