/** The clock that a clip is played by. Instants and durations are nanoseconds. */
module Clock {
  import opened Arith
  import opened Wrappers

  /** What playback speed does to elapsed time: rounding aside, it keeps order and zero. */
  ghost predicate IsScaling(scale: nat -> nat) {
    scale(0) == 0 && forall a, b :: a <= b ==> scale(a) <= scale(b)
  }

  function Elapsed(started: nat, now: nat): nat {
    if now < started then 0 else now - started
  }

  const U64: nat := 0x1_0000_0000_0000_0000

  /** Nanoseconds into a clip that starts over every d of them, as 64 bits hold them. */
  function Looped(raw: nat, d: nat): (pos: nat)
    requires d > 0
    ensures pos < d && (raw < d && raw < U64 ==> pos == raw)
  {
    var r := Remainder(raw, d);
    Remainder(r, U64)
  }

  function Remainder(n: nat, d: nat): (r: nat)
    requires d > 0
    ensures r == n % d && r < d && r <= n && (n < d ==> r == n)
  {
    DivDefinition(n, d);
    MulNonNegative(n / d, d);
    DivSmall(n, d);
    n % d
  }

  lemma DivSmall(n: nat, d: nat)
    requires d > 0
    ensures n < d ==> n % d == n
  {
    if n < d {
      DivUnique(n, d, 0, n);
    }
  }

  /** Position at now of a clock that was started then. */
  function PositionAt(scale: nat -> nat, looped: bool, started: nat, now: nat, duration: Option<nat>): nat {
    var raw := scale(Elapsed(started, now));
    match duration
    case None => raw
    case Some(d) =>
      if d == 0 then raw
      else if looped then Looped(raw, d)
      else if raw < d - 1 then raw else d - 1
  }

  class PlaybackClock {
    var started: Option<nat>
    const looped: bool
    const scale: nat -> nat

    ghost predicate Valid() {
      IsScaling(scale)
    }

    constructor (scale: nat -> nat, looped: bool)
      requires IsScaling(scale)
      ensures Valid() && started == None && this.scale == scale && this.looped == looped
    {
      this.scale := scale;
      this.looped := looped;
      started := None;
    }

    /** Where playback is at now; a stopped clock starts here, at 0. */
    method Position(now: nat, duration: Option<nat>) returns (pos: nat)
      requires Valid()
      modifies this
      ensures started == Some(if old(started).Some? then old(started).value else now)
      ensures pos == PositionAt(scale, looped, started.value, now, duration)
      ensures duration.Some? && duration.value > 0 ==> pos < duration.value
      ensures old(started).None? ==> pos == 0
      ensures var raw := if now < started.value then 0 else scale(now - started.value);
              && (duration.None? || duration.value == 0 ==> pos == raw)
              && (duration.Some? && 0 < duration.value && !looped ==>
                    pos == if raw < duration.value then raw else duration.value - 1)
              && (duration.Some? && 0 < duration.value <= 0x1_0000_0000_0000_0000 && looped ==>
                    exists n: nat :: raw == n * duration.value + pos)
    {
      if started.None? {
        started := Some(now);
      }
      PositionInNumbers(scale, looped, started.value, now, duration);
      var raw := scale(Elapsed(started.value, now));
      PositionInside(scale, looped, started.value, now, duration);
      match duration {
        case Some(d) =>
          if d != 0 {
            pos := if looped then Looped(raw, d) else if raw < d - 1 then raw else d - 1;
          } else {
            pos := raw;
          }
        case None =>
          pos := raw;
      }
    }

    method Restart()
      modifies this
      ensures started == None
    {
      started := None;
    }
  }

  /** A known clip is never left, and the moment the clock starts is its first one. */
  lemma PositionInside(scale: nat -> nat, looped: bool, started: nat, now: nat, duration: Option<nat>)
    requires IsScaling(scale)
    ensures duration.Some? && duration.value > 0 ==> PositionAt(scale, looped, started, now, duration) < duration.value
    ensures now <= started ==> PositionAt(scale, looped, started, now, duration) == 0
  {
  }

  /** What the position is, in numbers: without a length the scaled time since the start; without
      looping the same up to the last moment of the clip; with looping the same less whole clips. */
  lemma PositionInNumbers(scale: nat -> nat, looped: bool, started: nat, now: nat, duration: Option<nat>)
    requires IsScaling(scale)
    ensures var pos := PositionAt(scale, looped, started, now, duration);
            var raw := if now < started then 0 else scale(now - started);
            && (duration.None? || duration.value == 0 ==> pos == raw)
            && (duration.Some? && 0 < duration.value && !looped ==>
                  pos == if raw < duration.value then raw else duration.value - 1)
            && (duration.Some? && 0 < duration.value <= 0x1_0000_0000_0000_0000 && looped ==>
                  pos < duration.value && exists n: nat :: raw == n * duration.value + pos)
  {
    if duration.Some? && 0 < duration.value <= 0x1_0000_0000_0000_0000 && looped {
      LoopedInNumbers(if now < started then 0 else scale(now - started), duration.value);
    }
  }

  lemma LoopedInNumbers(raw: nat, d: nat)
    requires 0 < d <= 0x1_0000_0000_0000_0000
    ensures exists n: nat :: raw == n * d + Looped(raw, d)
  {
    DivDefinition(raw, d);
    DivSmall(raw % d, U64);
    var n: nat := raw / d;
    assert raw == n * d + Looped(raw, d);
  }

  /** Without looping the position never goes back. */
  lemma PositionMonotone(scale: nat -> nat, started: nat, t1: nat, t2: nat, duration: Option<nat>)
    requires IsScaling(scale) && t1 <= t2
    ensures PositionAt(scale, false, started, t1, duration) <= PositionAt(scale, false, started, t2, duration)
  {
    assert scale(Elapsed(started, t1)) <= scale(Elapsed(started, t2));
  }

  /** With looping, one clip length of (scaled) time later the position is the same. */
  lemma PositionPeriodic(scale: nat -> nat, started: nat, t1: nat, t2: nat, d: nat, n: nat)
    requires d > 0 && scale(Elapsed(started, t2)) == scale(Elapsed(started, t1)) + n * d
    ensures PositionAt(scale, true, started, t1, Some(d)) == PositionAt(scale, true, started, t2, Some(d))
  {
    ModAdd(scale(Elapsed(started, t1)), n, d);
  }
}
