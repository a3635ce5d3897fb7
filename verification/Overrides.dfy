/** no_screen_share is edited on its highest-priority slot while a capture frame is drawn:
    revealed for clients that may see a surface, held a moment longer, switched off while
    the compositor draws. Every edit is undone exactly. */
module Overrides {
  import opened Wrappers
  import opened Rules

  /** Override slots of a property, lowest priority first. */
  datatype Priority = Layout | WorkspaceRule | WindowRule | SetProp

  type Slots = map<Priority, bool>

  /** The highest priority that has a value. */
  function Highest(slots: Slots): Option<Priority> {
    if SetProp in slots then Some(SetProp)
    else if WindowRule in slots then Some(WindowRule)
    else if WorkspaceRule in slots then Some(WorkspaceRule)
    else if Layout in slots then Some(Layout)
    else None
  }

  lemma HighestIsSet(slots: Slots)
    ensures Highest(slots).Some? ==> Highest(slots).value in slots
    ensures Highest(slots).None? <==> slots == map[]
  {
    if Highest(slots).None? {
      forall p: Priority ensures p !in slots {
        match p { case Layout => case WorkspaceRule => case WindowRule => case SetProp => }
      }
    }
  }

  /** The effective value; off when nothing is set. */
  predicate Hidden(slots: Slots) {
    HighestIsSet(slots);
    Highest(slots).Some? && slots[Highest(slots).value]
  }

  function Level(p: Priority): nat {
    match p
    case Layout => 0
    case WorkspaceRule => 1
    case WindowRule => 2
    case SetProp => 3
  }

  /** Hidden means: a slot that no higher one overrides says so. */
  lemma HiddenByHighest(slots: Slots)
    ensures Hidden(slots) <==>
              exists p :: p in slots && slots[p] && forall q :: q in slots ==> Level(q) <= Level(p)
  {
    if Hidden(slots) {
      HighestIsSet(slots);
      var p := Highest(slots).value;
      assert p in slots && slots[p] && forall q :: q in slots ==> Level(q) <= Level(p);
    }
  }

  /** What the highest slot held, if it was set: enough to put it back. */
  function SavedSlot(slots: Slots): Option<bool> {
    HighestIsSet(slots);
    if Highest(slots) == Some(SetProp) then Some(slots[SetProp]) else None
  }

  function PutBack(slots: Slots, prev: Option<bool>): Slots {
    if prev.Some? then slots[SetProp := prev.value] else slots - {SetProp}
  }

  /** Setting the highest slot and putting it back is no change, and while it is set it
      alone decides. */
  lemma PutBackUndoes(slots: Slots, value: bool)
    ensures PutBack(slots[SetProp := value], SavedSlot(slots)) == slots
    ensures Hidden(slots[SetProp := value]) <==> value
  {
    if SetProp !in slots {
      assert slots[SetProp := value] - {SetProp} == slots;
    }
  }

  /** A window or layer with its no_screen_share property.
      onScreen: mapped and visible; onMonitor: lands in this capture. */
  class Surface {
    const key: Key
    const rules: RuleValues
    const onScreen: bool
    const onMonitor: bool
    var slots: Slots

    constructor (key: Key, rules: RuleValues, onScreen: bool, onMonitor: bool, slots: Slots)
      ensures this.key == key && this.rules == rules && this.onScreen == onScreen && this.onMonitor == onMonitor &&
              this.slots == slots
    {
      this.key, this.rules, this.onScreen, this.onMonitor, this.slots := key, rules, onScreen, onMonitor, slots;
    }

    method SetTop(value: bool)
      modifies this
      ensures slots == old(slots)[SetProp := value]
    {
      slots := slots[SetProp := value];
    }

    method UnsetTop()
      modifies this
      ensures slots == old(slots) - {SetProp}
    {
      slots := slots - {SetProp};
    }
  }

  /** An edit and how to undo it. */
  datatype Suppressed = Suppressed(var_: Surface, prev: Option<bool>)

  type State = map<Surface, Slots>

  ghost function Snapshot(surfaces: seq<Surface>): State
    reads surfaces
  {
    map v | v in surfaces :: v.slots
  }

  ghost predicate IsState(surfaces: seq<Surface>, was: State)
    reads surfaces
  {
    forall v :: v in surfaces ==> v in was && v.slots == was[v]
  }

  /** Undoing the edits turns the surfaces back into state was; each was edited once. */
  ghost predicate Undoes(surfaces: seq<Surface>, edits: seq<Suppressed>, was: State)
    reads surfaces
  {
    && (forall i :: 0 <= i < |edits| ==> edits[i].var_ in surfaces)
    && (forall i :: 0 <= i < |edits| ==> edits[i].var_ in was)
    && (forall i :: 0 <= i < |edits| ==> PutBack(edits[i].var_.slots, edits[i].prev) == was[edits[i].var_])
    && (forall i, j :: 0 <= i < j < |edits| ==> edits[i].var_ != edits[j].var_)
    && (forall v :: v in surfaces ==> v in was)
    && (forall v :: v in surfaces ==> (v.slots == was[v] || exists i :: 0 <= i < |edits| && edits[i].var_ == v))
  }

  /** The same, of the slots that state now has. */
  ghost predicate UndoesIn(now: State, surfaces: seq<Surface>, edits: seq<Suppressed>, was: State) {
    && (forall v :: v in surfaces ==> v in now && v in was)
    && (forall i :: 0 <= i < |edits| ==> edits[i].var_ in surfaces)
    && (forall i :: 0 <= i < |edits| && edits[i].var_ in now && edits[i].var_ in was ==>
          PutBack(now[edits[i].var_], edits[i].prev) == was[edits[i].var_])
    && (forall i, j :: 0 <= i < j < |edits| ==> edits[i].var_ != edits[j].var_)
    && (forall v :: v in surfaces && v in now && v in was ==>
          now[v] == was[v] || exists i :: 0 <= i < |edits| && edits[i].var_ == v)
  }

  /** What undoes the edits in a state undoes them whenever the surfaces are in that state. */
  lemma UndoesInState(surfaces: seq<Surface>, edits: seq<Suppressed>, now: State, was: State)
    requires IsState(surfaces, now)
    ensures UndoesIn(now, surfaces, edits, was) <==> Undoes(surfaces, edits, was)
  {
  }

  /** Puts every edited slot back. */
  method RestoreNoScreenShare(surfaces: seq<Surface>, edits: seq<Suppressed>, ghost was: State)
    requires Undoes(surfaces, edits, was)
    modifies surfaces
    ensures IsState(surfaces, was)
  {
    var i := 0;
    while i < |edits|
      invariant i <= |edits|
      invariant forall k :: i <= k < |edits| ==> PutBack(edits[k].var_.slots, edits[k].prev) == was[edits[k].var_]
      invariant forall v :: v in surfaces ==> v.slots == was[v] || exists k :: i <= k < |edits| && edits[k].var_ == v
    {
      var e := edits[i];
      if e.prev.Some? {
        e.var_.SetTop(e.prev.value);
      } else {
        e.var_.UnsetTop();
      }
      i := i + 1;
    }
  }

  /** Sets the highest slot of one more surface and remembers what it was. */
  method Edit(surfaces: seq<Surface>, v: Surface, value: bool, edits: seq<Suppressed>, ghost was: State)
    returns (more: seq<Suppressed>)
    requires v in surfaces && Undoes(surfaces, edits, was)
    requires forall k :: 0 <= k < |edits| ==> edits[k].var_ != v
    modifies v
    ensures Undoes(surfaces, more, was)
    ensures more == edits + [Suppressed(v, old(SavedSlot(v.slots)))]
    ensures Hidden(v.slots) <==> value
  {
    PutBackUndoes(v.slots, value);
    assert v.slots == was[v];
    more := edits + [Suppressed(v, SavedSlot(v.slots))];
    v.SetTop(value);
    forall u | u in surfaces ensures u.slots == was[u] || exists i :: 0 <= i < |more| && more[i].var_ == u {
      if u == v {
        assert more[|edits|].var_ == v;
      } else if u.slots != was[u] {
        var i :| 0 <= i < |edits| && edits[i].var_ == u;
        assert more[i].var_ == u;
      }
    }
  }

  /** Of the surfaces looked at so far (done), exactly those in off that were hidden are
      switched off, and nothing else changed. */
  ghost predicate OffSoFar(surfaces: seq<Surface>, edits: seq<Suppressed>, done: set<Surface>, off: set<Surface>,
      was: State)
    reads surfaces
  {
    && Undoes(surfaces, edits, was)
    && (forall k :: 0 <= k < |edits| ==> !Hidden(edits[k].var_.slots))
    && (forall v :: v in surfaces ==>
          v in was && (if v in done && v in off && Hidden(was[v]) then !Hidden(v.slots) else v.slots == was[v]))
  }

  /** One surface that is to be switched off. */
  method SwitchOff(surfaces: seq<Surface>, v: Surface, edits: seq<Suppressed>,
                   ghost done: set<Surface>, ghost off: set<Surface>, ghost was: State) returns (more: seq<Suppressed>)
    requires v in surfaces && v in off && Hidden(v.slots)
    requires OffSoFar(surfaces, edits, done, off, was)
    modifies v
    ensures OffSoFar(surfaces, more, done + {v}, off, was)
  {
    more := Edit(surfaces, v, false, edits, was);
  }

  /** no_screen_share goes off for every surface except the ones in keep. */
  method SuppressNoScreenShare(surfaces: seq<Surface>, keep: set<Key>) returns (edits: seq<Suppressed>)
    modifies surfaces
    ensures Undoes(surfaces, edits, old(Snapshot(surfaces)))
    ensures forall v :: v in surfaces ==> (Hidden(v.slots) <==> old(Hidden(v.slots)) && v.key in keep)
  {
    ghost var was := Snapshot(surfaces);
    ghost var off := set v | v in surfaces && v.key !in keep;
    ghost var done: set<Surface> := {};
    edits := [];
    var i := 0;
    while i < |surfaces|
      invariant i <= |surfaces| && forall k :: 0 <= k < i ==> surfaces[k] in done
      invariant OffSoFar(surfaces, edits, done, off, was)
    {
      if surfaces[i].key !in keep && Hidden(surfaces[i].slots) {
        edits := SwitchOff(surfaces, surfaces[i], edits, done, off, was);
      }
      done := done + {surfaces[i]};
      i := i + 1;
    }
  }

  /** Addresses identify surfaces. */
  ghost predicate DistinctKeys(surfaces: seq<Surface>) {
    forall u, v :: u in surfaces && v in surfaces && u.key == v.key ==> u == v
  }

  /** keys are the addresses of exactly the surfaces in chosen. */
  ghost predicate KeysOf(surfaces: seq<Surface>, keys: set<Key>, chosen: set<Surface>) {
    && (forall v :: v in surfaces ==> (v.key in keys <==> v in chosen))
    && (forall k :: k in keys ==> exists v :: v in surfaces && v.key == k)
  }

  /** What the client is allowed to see is not hidden while its covers are painted. */
  method RevealFor(surfaces: seq<Surface>, client: Client) returns (edits: seq<Suppressed>, keys: set<Key>)
    requires DistinctKeys(surfaces)
    modifies surfaces
    ensures Undoes(surfaces, edits, old(Snapshot(surfaces)))
    ensures forall v :: v in surfaces ==> (Hidden(v.slots) <==> old(Hidden(v.slots)) && !client.sees(v.rules))
    ensures KeysOf(surfaces, keys, set v | v in surfaces && old(Hidden(v.slots)) && client.sees(v.rules))
  {
    ghost var was := Snapshot(surfaces);
    ghost var off := set v | v in surfaces && client.sees(v.rules);
    ghost var done: set<Surface> := {};
    edits, keys := [], {};
    var i := 0;
    while i < |surfaces|
      invariant i <= |surfaces| && forall k :: 0 <= k < i ==> surfaces[k] in done
      invariant OffSoFar(surfaces, edits, done, off, was)
      invariant KeysOf(surfaces, keys, set v | v in surfaces && v in done && Hidden(was[v]) && v in off)
    {
      if Hidden(surfaces[i].slots) && client.sees(surfaces[i].rules) {
        edits := SwitchOff(surfaces, surfaces[i], edits, done, off, was);
        keys := keys + {surfaces[i].key};
      }
      done := done + {surfaces[i]};
      i := i + 1;
    }
  }

  /** The surface stopped being hidden less than its hold ago, with rules this client is
      hidden from. */
  predicate Holds(lastCovers: map<Key, LastCover>, key: Key, closeHold: int, now: nat, client: Client) {
    && key in lastCovers
    && now < lastCovers[key].at + HoldFor(closeHold, lastCovers[key].rules)
    && !client.sees(lastCovers[key].rules)
  }

  /** What decides whether a surface is held in this frame. */
  datatype HoldQuery = HoldQuery(revealed: set<Key>, client: Client, lastCovers: map<Key, LastCover>, closeHold: int,
      now: nat) {
    predicate Keeps(v: Surface, hidden: bool) {
      v.onScreen && !hidden && v.key !in revealed && Holds(lastCovers, v.key, closeHold, now, client)
    }
  }

  /** Covered in this frame: hidden and not seen by the client, or held. */
  predicate Painted(v: Surface, hidden: bool, client: Client, lastCovers: map<Key, LastCover>, closeHold: int,
      now: nat)
  {
    if hidden then !client.sees(v.rules) else v.onScreen && Holds(lastCovers, v.key, closeHold, now, client)
  }

  /** The rules a covered surface has in this frame: its own, or the ones it is held with. */
  function RulesNow(v: Surface, hidden: bool, lastCovers: map<Key, LastCover>): RuleValues {
    if !hidden && v.key in lastCovers then lastCovers[v.key].rules else v.rules
  }

  class Mirror {
    var texture: nat
  }

  /** What could be seen of the overrides while the frame was drawn: the surfaces hidden in
      the scene redraw (if there was one), in the compositor's own render and in the cover
      pass; and the image the frame was drawn from. */
  datatype FrameViews = FrameViews(
    scene: Option<set<Surface>>, original: set<Surface>, paint: set<Surface>, image: nat)

  method HiddenNow(surfaces: seq<Surface>) returns (hidden: set<Surface>)
    ensures hidden == set v | v in surfaces && Hidden(v.slots)
  {
    hidden := set v | v in surfaces && Hidden(v.slots);
  }

  class Capture {
    /** The surfaces held in this frame, and the rules each is held by. */
    var held: set<Key>
    var heldRules: map<Key, RuleValues>

    constructor ()
      ensures held == {} && heldRules == map[]
    {
      held, heldRules := {}, map[];
    }

    function EffectiveRules(v: Surface): RuleValues
      reads this
    {
      if v.key in heldRules then heldRules[v.key] else v.rules
    }

    /** Of the surfaces looked at so far (done), exactly the ones to keep are held and set. */
    ghost predicate HeldSoFar(surfaces: seq<Surface>, done: set<Surface>, was: State, q: HoldQuery)
      reads this, surfaces
    {
      forall v :: v in surfaces ==>
                    && v in was
                    && (v.key in held <==> v in done && q.Keeps(v, Hidden(was[v])))
                    && (if v.key in held then Hidden(v.slots) else v.slots == was[v])
    }

    ghost predicate HeldRulesMatch(q: HoldQuery)
      reads this
    {
      heldRules.Keys == held && forall k :: k in held ==> k in q.lastCovers && heldRules[k] == q.lastCovers[k].rules
    }

    /** One surface: if it is to be held, its slot is set and its last rules are kept. */
    method Keep(surfaces: seq<Surface>, v: Surface, q: HoldQuery, edits: seq<Suppressed>, ghost was: State,
        ghost done: set<Surface>)
      returns (more: seq<Suppressed>)
      requires v in surfaces && Undoes(surfaces, edits, was) && DistinctKeys(surfaces)
      requires HeldSoFar(surfaces, done, was, q) && HeldRulesMatch(q)
      requires forall k :: 0 <= k < |edits| ==> edits[k].var_.key in held
      modifies this, v
      ensures Undoes(surfaces, more, was)
      ensures HeldSoFar(surfaces, done + {v}, was, q) && HeldRulesMatch(q)
      ensures forall k :: 0 <= k < |more| ==> more[k].var_.key in held
    {
      more := edits;
      if q.Keeps(v, Hidden(v.slots)) {
        more := Edit(surfaces, v, true, edits, was);
        held := held + {v.key};
        heldRules := heldRules[v.key := q.lastCovers[v.key].rules];
      }
    }

    /** Surfaces that stopped being hidden while still on screen keep their cover. */
    method HoldUnhidden(surfaces: seq<Surface>, q: HoldQuery) returns (edits: seq<Suppressed>)
      requires held == {} && heldRules == map[] && DistinctKeys(surfaces)
      modifies this, surfaces
      ensures Undoes(surfaces, edits, old(Snapshot(surfaces)))
      ensures forall v :: v in surfaces ==> (v.key in held <==>
                && v.onScreen && !old(Hidden(v.slots)) && v.key !in q.revealed && v.key in q.lastCovers
                && q.now < q.lastCovers[v.key].at + HoldFor(q.closeHold, q.lastCovers[v.key].rules)
                && !q.client.sees(q.lastCovers[v.key].rules))
      ensures HeldRulesMatch(q)
      ensures forall v :: v in surfaces ==> (Hidden(v.slots) <==> old(Hidden(v.slots)) || v.key in held)
    {
      edits := [];
      ghost var was := Snapshot(surfaces);
      ghost var done: set<Surface> := {};
      var i := 0;
      while i < |surfaces|
        invariant i <= |surfaces| && forall k :: 0 <= k < i ==> surfaces[k] in done
        invariant Undoes(surfaces, edits, was)
        invariant HeldSoFar(surfaces, done, was, q) && HeldRulesMatch(q)
        invariant forall k :: 0 <= k < |edits| ==> edits[k].var_.key in held
      {
        edits := Keep(surfaces, surfaces[i], q, edits, was, done);
        done := done + {surfaces[i]};
        i := i + 1;
      }
    }

    /** Hidden surfaces in this capture whose cover is to leave them out. */
    method TransparentOn(surfaces: seq<Surface>) returns (keys: set<Key>)
      requires DistinctKeys(surfaces)
      ensures KeysOf(surfaces, keys, set v | v in surfaces && Hidden(v.slots) && v.onMonitor &&
              EffectiveRules(v).transparent)
    {
      keys := {};
      var i := 0;
      while i < |surfaces|
        invariant i <= |surfaces|
        invariant KeysOf(surfaces, keys, set v | v in surfaces[..i] && Hidden(v.slots) && v.onMonitor &&
                  EffectiveRules(v).transparent)
      {
        var v := surfaces[i];
        if Hidden(v.slots) && v.onMonitor && EffectiveRules(v).transparent {
          keys := keys + {v.key};
        }
        assert surfaces[..i + 1] == surfaces[..i] + [v];
        i := i + 1;
      }
      assert surfaces[..i] == surfaces;
    }

    /** Draws the monitor again without the surfaces in left; inside, only they are hidden.
        The mirror's texture is replaced by the result. */
    method SwapScene(surfaces: seq<Surface>, left: set<Key>, mirror: Mirror, scene: nat)
      returns (hidden: set<Surface>, saved: nat)
      modifies surfaces, mirror
      ensures forall v :: v in surfaces ==> v.slots == old(v.slots)
      ensures hidden == set v | v in surfaces && old(Hidden(v.slots)) && v.key in left
      ensures saved == old(mirror.texture) && mirror.texture == scene
    {
      ghost var was := Snapshot(surfaces);
      var shown := SuppressNoScreenShare(surfaces, left);
      hidden := HiddenNow(surfaces);
      RestoreNoScreenShare(surfaces, shown, was);
      saved := mirror.texture;
      mirror.texture := scene;
    }

    /** The compositor's part of the frame: the scene is swapped in if something is left
        out, and nothing at all is hidden while the compositor renders. */
    method RenderOriginal(surfaces: seq<Surface>, mirror: Mirror, scene: nat, canDraw: bool, closing: bool)
      returns (seen: Option<set<Surface>>, original: set<Surface>, image: nat)
      requires DistinctKeys(surfaces)
      modifies surfaces, mirror
      ensures forall v :: v in surfaces ==> v.slots == old(v.slots)
      ensures mirror.texture == old(mirror.texture)
      ensures original == {}
      ensures seen.Some? ==> forall v :: v in seen.value <==>
                v in surfaces && Hidden(v.slots) && v.onMonitor && EffectiveRules(v).transparent
      ensures seen.Some? ==> canDraw && (closing || seen.value != {})
      ensures canDraw && closing ==> seen.Some?
      ensures forall v :: v in surfaces && Hidden(v.slots) && v.onMonitor && EffectiveRules(v).transparent ==>
                (canDraw ==> seen.Some?)
      ensures image == if seen.Some? then scene else mirror.texture
    {
      seen := None;
      ghost var was := Snapshot(surfaces);
      var gone := TransparentOn(surfaces);
      var saved := mirror.texture;
      if canDraw && (gone != {} || closing) {
        var hidden;
        hidden, saved := SwapScene(surfaces, gone, mirror, scene);
        seen := Some(hidden);
        if gone != {} {
          var key :| key in gone;
          var v :| v in surfaces && v.key == key;
          assert v in hidden;
        }
      }
      image := mirror.texture;
      var suppressed := SuppressNoScreenShare(surfaces, {});
      original := HiddenNow(surfaces);
      RestoreNoScreenShare(surfaces, suppressed, was);
      mirror.texture := saved;
    }

    /** Before anything is drawn: what the client sees is revealed, then what is to be held is held.
        middle: the slots in between. */
    method Prepare(surfaces: seq<Surface>, client: Client, lastCovers: map<Key, LastCover>, closeHold: int, now: nat)
      returns (revealed: seq<Suppressed>, holding: seq<Suppressed>, keys: set<Key>, ghost middle: State)
      requires held == {} && heldRules == map[] && DistinctKeys(surfaces)
      modifies this, surfaces
      ensures UndoesIn(middle, surfaces, revealed, old(Snapshot(surfaces))) && Undoes(surfaces, holding, middle)
      ensures KeysOf(surfaces, keys, set v | v in surfaces && old(Hidden(v.slots)) && client.sees(v.rules))
      ensures forall v :: v in surfaces ==>
                (Hidden(v.slots) <==> Painted(v, old(Hidden(v.slots)), client, lastCovers, closeHold, now))
      ensures forall v :: v in surfaces && Hidden(v.slots) ==>
                EffectiveRules(v) == RulesNow(v, old(Hidden(v.slots)), lastCovers)
    {
      revealed, keys := RevealFor(surfaces, client);
      middle := Snapshot(surfaces);
      UndoesInState(surfaces, revealed, middle, old(Snapshot(surfaces)));
      holding := HoldUnhidden(surfaces, HoldQuery(keys, client, lastCovers, closeHold, now));
    }

    /** Everything that is drawn: the compositor's part, then the covers. */
    method DrawFrame(surfaces: seq<Surface>, mirror: Mirror, scene: nat, canDraw: bool, closing: bool)
      returns (views: FrameViews)
      requires DistinctKeys(surfaces)
      modifies surfaces, mirror
      ensures forall v :: v in surfaces ==> v.slots == old(v.slots)
      ensures mirror.texture == old(mirror.texture) && views.original == {}
      ensures forall v :: v in views.paint <==> v in surfaces && Hidden(v.slots)
      ensures views.scene.Some? ==> forall v :: v in views.scene.value <==>
                v in views.paint && v.onMonitor && EffectiveRules(v).transparent
      ensures views.scene.Some? <==>
                canDraw && (closing || exists v :: v in views.paint && v.onMonitor && EffectiveRules(v).transparent)
      ensures views.image == if views.scene.Some? then scene else mirror.texture
    {
      var seen, original, image := RenderOriginal(surfaces, mirror, scene, canDraw, closing);
      var paint := HiddenNow(surfaces);
      views := FrameViews(seen, original, paint, image);
    }

    /** One capture frame. canDraw: the scene could be drawn; closing: something with a
        transparent cover is just closing. Afterwards every override slot, the held marks
        and the mirror's texture are what they were. */
    method RenderMonitorWithCovers(surfaces: seq<Surface>, client: Client, lastCovers: map<Key, LastCover>,
                                   closeHold: int, now: nat, mirror: Mirror, scene: nat, canDraw: bool, closing: bool)
      returns (views: FrameViews, revealedKeys: set<Key>)
      requires held == {} && heldRules == map[] && DistinctKeys(surfaces)
      modifies this, surfaces, mirror
      ensures forall v :: v in surfaces ==> v.slots == old(v.slots)
      ensures held == {} && heldRules == map[] && mirror.texture == old(mirror.texture)
      ensures views.original == {}
      ensures forall v :: v in views.paint <==>
                && v in surfaces
                && if old(Hidden(v.slots)) then !client.sees(v.rules)
                   else && v.onScreen && v.key in lastCovers
                        && now < lastCovers[v.key].at + HoldFor(closeHold, lastCovers[v.key].rules)
                        && !client.sees(lastCovers[v.key].rules)
      ensures views.scene.Some? ==> forall v :: v in views.scene.value <==>
                v in views.paint && v.onMonitor &&
                (if old(Hidden(v.slots)) then v.rules else lastCovers[v.key].rules).transparent
      ensures views.scene.Some? <==>
                canDraw && (closing || exists v ::
                              && v in views.paint && v.onMonitor
                              && (if old(Hidden(v.slots)) then v.rules else lastCovers[v.key].rules).transparent)
      ensures views.image == if views.scene.Some? then scene else mirror.texture
      ensures KeysOf(surfaces, revealedKeys, set v | v in surfaces && old(Hidden(v.slots)) && client.sees(v.rules))
    {
      ghost var start, middle := Snapshot(surfaces), Snapshot(surfaces);
      var revealed, holding;
      revealed, holding, revealedKeys, middle := Prepare(surfaces, client, lastCovers, closeHold, now);
      views := DrawFrame(surfaces, mirror, scene, canDraw, closing);
      RestoreNoScreenShare(surfaces, holding, middle);
      UndoesInState(surfaces, revealed, middle, start);
      RestoreNoScreenShare(surfaces, revealed, start);
      held, heldRules := {}, map[];
    }
  }
}
