/** Whole runs of frames, close events and pump ticks: what they keep, and one closing cover
    followed through all of it. */
module ClosingRuns {
  import opened Wrappers
  import opened Regions
  import opened Rules
  import opened Closing

  datatype Happening =
    | Shown(shot: Shot)
    | Closes(key: Key, last: LastCover, captured: bool, now: nat)
    | Ticks(renderer: bool, shared: set<nat>, animating: bool, now: nat)

  /** A fade-out object that is gone doesn't come back under the same identity. */
  ghost predicate NoRebirth(before: Fades, after: Fades, closing: seq<ClosingCover>) {
    forall i :: 0 <= i < |closing| ==> Lock(closing[i].fade, after).Some? ==> Lock(closing[i].fade, before).Some?
  }

  lemma DistinctLater(closing: seq<ClosingCover>, before: Fades, after: Fades)
    requires FadesDistinct(closing, before) && NoRebirth(before, after, closing)
    ensures FadesDistinct(closing, after)
  {
    forall i, j | 0 <= i < j < |closing| && Lock(closing[i].fade, after).Some?
      ensures Lock(closing[i].fade, after) != Lock(closing[j].fade, after)
    {
      assert Lock(closing[i].fade, before).Some?;
      assert Lock(closing[i].fade, before) != Lock(closing[j].fade, before);
    }
  }

  /** What a happening makes of everything, and the covers of closing surfaces it draws. */
  ghost predicate Goes(before: State, h: Happening, after: State, drawn: seq<ClosingCover>) {
    match h
    case Shown(s) =>
      && drawn == DrawnOf(after.closing, |after.closing|, s.mon, s.now, s.client, s.left)
      && exists keys :: Lists(keys, Recorded(before.last, s.covered, s.held)) && after == before.TakeShot(s, keys)
    case Closes(key, last, captured, now) =>
      drawn == [] && after == before.Close(key, last, captured, now)
    case Ticks(renderer, shared, animating, now) =>
      drawn == [] && after == before.Tick(renderer, shared, animating, now)
  }

  /** The state before every happening and after the last, and what each one drew. */
  datatype Trace = Trace(states: seq<State>, drawn: seq<seq<ClosingCover>>)

  ghost predicate Follows(t: Trace, hs: seq<Happening>) {
    Fits(t, hs) && forall n :: 0 <= n < |hs| ==> GoesAt(t, hs, n)
  }

  ghost predicate Fits(t: Trace, hs: seq<Happening>) {
    |t.states| == |hs| + 1 && |t.drawn| == |hs|
  }

  ghost predicate GoesAt(t: Trace, hs: seq<Happening>, n: nat)
    requires Fits(t, hs) && n < |hs|
  {
    Goes(t.states[n], hs[n], t.states[n + 1], t.drawn[n]) && (hs[n].Shown? ==> hs[n].shot.Valid())
  }

  /** One happening. */
  method Happen(c: Covers, h: Happening) returns (drawn: seq<ClosingCover>)
    requires h.Shown? ==> h.shot.Valid()
    modifies c
    ensures Goes(old(c.At()), h, c.At(), drawn)
  {
    drawn := [];
    match h {
      case Shown(shot) =>
        var keys;
        drawn, keys := c.TakeShot(shot);
      case Closes(key, last, captured, now) => c.StartClosing(key, last, captured, now);
      case Ticks(renderer, shared, animating, now) => c.PumpTick(renderer, shared, animating, now);
    }
  }

  /** The code's run is one that follows its happenings, from where it starts to where it ends. */
  method Run(c: Covers, hs: seq<Happening>) returns (ghost t: Trace, drawn: seq<seq<ClosingCover>>)
    requires forall n :: 0 <= n < |hs| && hs[n].Shown? ==> hs[n].shot.Valid()
    modifies c
    ensures Follows(t, hs) && t.drawn == drawn
    ensures t.states[0] == old(c.At()) && t.states[|hs|] == c.At()
  {
    drawn := [];
    t := Trace([c.At()], []);
    while |drawn| < |hs|
      invariant |drawn| <= |hs| && t.drawn == drawn && Follows(t, hs[..|drawn|])
      invariant t.states[0] == old(c.At()) && t.states[|drawn|] == c.At()
    {
      ghost var n, before := |drawn|, t;
      var d := Happen(c, hs[|drawn|]);
      drawn := drawn + [d];
      t := Trace(t.states + [c.At()], drawn);
      FollowsOn(before, t, hs, n);
    }
    assert hs[..|drawn|] == hs;
  }

  lemma FollowsOn(before: Trace, after: Trace, hs: seq<Happening>, n: nat)
    requires n < |hs| && Follows(before, hs[..n]) && Fits(after, hs[..n + 1])
    requires after.states[..n + 1] == before.states && after.drawn[..n] == before.drawn
    requires Goes(before.states[n], hs[n], after.states[n + 1], after.drawn[n])
    requires hs[n].Shown? ==> hs[n].shot.Valid()
    ensures Follows(after, hs[..n + 1])
  {
    var done := hs[..n + 1];
    forall m | 0 <= m <= n ensures GoesAt(after, done, m) {
      assert m < n ==> GoesAt(before, hs[..n], m);
      assert after.states[m] == after.states[..n + 1][m];
      assert m < n ==> after.states[m + 1] == after.states[..n + 1][m + 1];
      assert m < n ==> after.drawn[m] == after.drawn[..n][m];
    }
  }

  // ---- fade-outs ----

  /** One happening binds no fade-out twice, and only ones that exist. */
  lemma GoesDistinct(before: State, h: Happening, after: State, drawn: seq<ClosingCover>, fades: Fades)
    requires Goes(before, h, after, drawn) && (h.Shown? ==> h.shot.fades == fades)
    ensures FadesDistinct(before.closing, fades) ==> FadesDistinct(after.closing, fades)
    ensures BoundFrom(after.closing, before.closing, fades)
  {
    match h {
      case Shown(s) =>
        var keys :| Lists(keys, Recorded(before.last, s.covered, s.held)) && after == before.TakeShot(s, keys);
        ShotDistinct(before, s, keys);
      case Closes(_, _, _, _) =>
      case Ticks(_, shared, _, now) =>
        SurvivingBound(before.closing, shared, now, fades);
        if FadesDistinct(before.closing, fades) {
          SurvivingDistinct(before.closing, shared, now, fades);
        }
    }
  }

  lemma ShotDistinct(before: State, s: Shot, keys: seq<Key>)
    requires Lists(keys, Recorded(before.last, s.covered, s.held))
    ensures var after := before.TakeShot(s, keys);
            && (FadesDistinct(before.closing, s.fades) ==> FadesDistinct(after.closing, s.fades))
            && BoundFrom(after.closing, before.closing, s.fades)
  {
    var last := Recorded(before.last, s.covered, s.held);
    var tracked := Tracked(last, keys, before.closing, s.AsFrame(), s.fades).0;
    TrackedBound(last, keys, before.closing, s.AsFrame(), s.fades);
    PaintedBound(tracked, |tracked|, s.mon, s.now, s.fades, s.closeHold);
    if FadesDistinct(before.closing, s.fades) {
      TrackedKeepsDistinct(last, keys, before.closing, s.AsFrame(), s.fades);
      PaintedKeepsDistinct(tracked, |tracked|, s.mon, s.now, s.fades, s.closeHold);
    }
  }

  /** The fade-outs that exist before every happening, and after the last; the ones in between are
      new objects. */
  ghost predicate Fading(t: Trace, hs: seq<Happening>, world: seq<Fades>) {
    && Fits(t, hs) && |world| == |hs| + 1
    && (forall n :: 0 <= n < |hs| && hs[n].Shown? ==> hs[n].shot.fades == world[n + 1])
    && (forall n: nat, id: nat {:trigger NeverBefore(t.states[0].closing, world, n, id)} ::
          n < |hs| && id in world[n + 1].live && id !in world[n].live ==>
            NeverBefore(t.states[0].closing, world, n, id))
  }

  /** In any run, with fade-outs starting and ending in between, no fade-out that still exists is
      ever bound to two closing covers. */
  lemma {:induction false} FadesStayDistinct(t: Trace, hs: seq<Happening>, world: seq<Fades>, n: nat)
    requires Follows(t, hs) && Fading(t, hs, world) && FadesDistinct(t.states[0].closing, world[0]) && n <= |hs|
    ensures FadesDistinct(t.states[n].closing, world[n])
    ensures forall i :: 0 <= i < |t.states[n].closing| && t.states[n].closing[i].fade.Some? ==>
              !NeverBefore(t.states[0].closing, world, n, t.states[n].closing[i].fade.value)
  {
    if n > 0 {
      FadesStayDistinct(t, hs, world, n - 1);
      StillDistinct(t.states[n - 1].closing, t.states[0].closing, world, n - 1);
      assert GoesAt(t, hs, n - 1);
      GoesDistinct(t.states[n - 1], hs[n - 1], t.states[n], t.drawn[n - 1], world[n]);
    }
  }

  /** Between two happenings no fade-out comes back that was bound before. */
  lemma StillDistinct(closing: seq<ClosingCover>, first: seq<ClosingCover>, world: seq<Fades>, n: nat)
    requires n + 1 < |world| && FadesDistinct(closing, world[n])
    requires forall i :: 0 <= i < |closing| && closing[i].fade.Some? ==>
             !NeverBefore(first, world, n, closing[i].fade.value)
    requires forall id: nat :: id in world[n + 1].live && id !in world[n].live ==> NeverBefore(first, world, n, id)
    ensures FadesDistinct(closing, world[n + 1])
  {
    forall i | 0 <= i < |closing| && Lock(closing[i].fade, world[n + 1]).Some?
      ensures Lock(closing[i].fade, world[n]).Some?
    {
    }
    DistinctLater(closing, world[n], world[n + 1]);
  }

  /** id is no fade-out of the first n + 1 moments, nor bound at the start. */
  ghost predicate NeverBefore(closing: seq<ClosingCover>, world: seq<Fades>, n: nat, id: FadeId)
    requires n < |world|
  {
    && (forall m :: 0 <= m <= n ==> id !in world[m].live)
    && (forall i :: 0 <= i < |closing| ==> closing[i].fade != Some(id))
  }

  // ---- what is started ----

  /** What is newly started was remembered and is not covered now, or closes; and only covered
      surfaces are newly remembered. */
  ghost predicate Bookkept(before: State, h: Happening, after: State) {
    && before.started <= after.started
    && (forall i :: |before.started| <= i < |after.started| ==>
          (h.Shown? && after.started[i] in before.last) || (h.Closes? && h.captured && after.started[i] == h.key))
    && (forall k :: k in after.last && k !in before.last ==> h.Shown? && k in KeysIn(h.shot.covered))
    && (h.Closes? && h.captured ==> h.key !in after.last && after.started == before.started + [h.key])
  }

  lemma GoesBookkept(before: State, h: Happening, after: State, drawn: seq<ClosingCover>)
    requires Goes(before, h, after, drawn) && (h.Shown? ==> h.shot.Valid())
    ensures Bookkept(before, h, after)
  {
    if h.Shown? {
      var s := h.shot;
      var keys :| Lists(keys, Recorded(before.last, s.covered, s.held)) && after == before.TakeShot(s, keys);
      ShotStarts(before, s, keys);
    }
  }

  lemma ShotStarts(before: State, s: Shot, keys: seq<Key>)
    requires s.Valid() && Lists(keys, Recorded(before.last, s.covered, s.held))
    ensures Bookkept(before, Shown(s), before.TakeShot(s, keys))
  {
    var recorded, f := Recorded(before.last, s.covered, s.held), s.AsFrame();
    var started := before.TakeShot(s, keys).started;
    RecordedExactly(before.last, s.covered, s.held);
    StartedWereClosed(recorded, keys, before.closing, f, s.fades, before.started);
    assert started == before.started + Tracked(recorded, keys, before.closing, f, s.fades).1;
    forall i | |before.started| <= i < |started| ensures started[i] in before.last {
      assert Closed(recorded[started[i]], started[i], f) && started[i] !in KeysIn(s.covered);
    }
  }

  /** Nothing after the first happening covers the surface or closes it again. */
  ghost predicate GoneAfterFirst(key: Key, hs: seq<Happening>) {
    forall n :: 0 < n < |hs| ==>
      match hs[n]
      case Shown(shot) => key !in KeysIn(shot.covered)
      case Closes(k, _, _, _) => k != key
      case Ticks(_, _, _, _) => true
  }

  /** A close event leads to one closing cover: as long as the surface is not covered in a
      frame again, nothing that happens later starts another one for it. */
  lemma {:induction false} OneCoverPerClose(t: Trace, hs: seq<Happening>, key: Key, n: nat)
    requires Follows(t, hs) && 0 < n <= |hs|
    requires hs[0].Closes? && hs[0].captured && hs[0].key == key && GoneAfterFirst(key, hs)
    ensures var first := t.states[0].started;
            && key !in t.states[n].last && first + [key] <= t.states[n].started
            && forall i :: |first| < i < |t.states[n].started| ==> t.states[n].started[i] != key
  {
    assert GoesAt(t, hs, n - 1);
    GoesBookkept(t.states[n - 1], hs[n - 1], t.states[n], t.drawn[n - 1]);
    if n > 1 {
      OneCoverPerClose(t, hs, key, n - 1);
    }
  }

  // ---- where an entry is in the list ----

  lemma {:induction false} SurvivingSplit(a: seq<ClosingCover>, b: seq<ClosingCover>, shared: set<nat>, now: nat)
    ensures Surviving(a + b, shared, now) == Surviving(a, shared, now) + Surviving(b, shared, now)
  {
    if a == [] {
      assert a + b == b;
    } else {
      SurvivingSplit(a[1..], b, shared, now);
      assert (a + b)[1..] == a[1..] + b;
      var head := if Survives(a[0], shared, now) then [a[0]] else [];
      var x, y := Surviving(a[1..], shared, now), Surviving(b, shared, now);
      assert Surviving(a + b, shared, now) == head + (x + y);
      assert head + (x + y) == head + x + y;
    }
  }

  /** A surviving entry moves down by as many as were dropped before it. */
  lemma SurvivingAt(closing: seq<ClosingCover>, k: nat, shared: set<nat>, now: nat)
    requires k < |closing| && Survives(closing[k], shared, now)
    ensures var i := |Surviving(closing[..k], shared, now)|;
            i < |Surviving(closing, shared, now)| && Surviving(closing, shared, now)[i] == closing[k]
  {
    var rest := closing[k..];
    assert closing == closing[..k] + rest;
    assert rest[0] == closing[k];
    SurvivingSplit(closing[..k], rest, shared, now);
  }

  /** Where the entry at k is after a happening, if it is still there. */
  function Moved(before: seq<ClosingCover>, h: Happening, k: nat): Option<nat>
    requires k < |before|
  {
    if !h.Ticks? then Some(k)
    else if h.renderer && Survives(before[k], h.shared, h.now) then Some(|Surviving(before[..k], h.shared, h.now)|)
    else None
  }

  /** Where the entry that starts at k is before happening n. */
  function PlaceAt(t: Trace, hs: seq<Happening>, k: nat, n: nat): Option<nat>
    requires n <= |hs| < |t.states|
  {
    if n == 0 then Some(k)
    else
      var p := PlaceAt(t, hs, k, n - 1);
      var closing := t.states[n - 1].closing;
      if p.Some? && p.value < |closing| then Moved(closing, hs[n - 1], p.value) else None
  }

  /** The entry itself; None once it is dropped. */
  function EntryAt(t: Trace, hs: seq<Happening>, k: nat, n: nat): Option<ClosingCover>
    requires n <= |hs| < |t.states|
  {
    var p := PlaceAt(t, hs, k, n);
    if p.Some? && p.value < |t.states[n].closing| then Some(t.states[n].closing[p.value]) else None
  }

  // ---- what a happening does to it ----

  /** The monitor stays captured, and closeHold is the setting all along. */
  predicate Captured(h: Happening, mon: nat, closeHold: int) {
    match h
    case Shown(s) => s.closeHold == closeHold
    case Closes(_, _, _, _) => true
    case Ticks(renderer, shared, _, _) => renderer && mon in shared
  }

  /** A frame of the entry's monitor. */
  predicate FrameOf(h: Happening, mon: nat) {
    h.Shown? && h.shot.mon == mon
  }

  /** A fade-out that the entry follows outlives the frame that sees it done. */
  predicate Outlives(e: Option<ClosingCover>, h: Happening, mon: nat) {
    FrameOf(h, mon) && PhaseOf(e) == Following ==> e.value.fade.value in h.shot.fades.live
  }

  ghost predicate GoodRun(t: Trace, hs: seq<Happening>, k: nat, mon: nat, closeHold: int) {
    && Follows(t, hs) && k < |t.states[0].closing|
    && t.states[0].closing[k].monitor == mon && t.states[0].closing[k].holdUntil.None?
    && forall n :: 0 <= n < |hs| ==> GoodAt(t, hs, k, n, mon, closeHold)
  }

  predicate GoodAt(t: Trace, hs: seq<Happening>, k: nat, n: nat, mon: nat, closeHold: int)
    requires n < |hs| < |t.states|
  {
    Captured(hs[n], mon, closeHold) && Outlives(EntryAt(t, hs, k, n), hs[n], mon)
  }

  /** A frame of its monitor in which its fade-out is seen done. */
  predicate SeesDone(e: ClosingCover, h: Happening, mon: nat) {
    && FrameOf(h, mon) && e.fade.Some? && e.fade.value in h.shot.fades.live && h.shot.fades.live[e.fade.value].done
  }

  /** A happening starts the entry's hold: a frame of its monitor, which sees its fade-out done if
      it follows one (the hold counts from that frame), and comes after the end of the search if
      it doesn't (the hold counts from there). */
  predicate StartsHold(e: ClosingCover, h: Happening, mon: nat, closeHold: int, end: nat) {
    && e.holdUntil.None? && FrameOf(h, mon)
    && if e.fade.Some? then SeesDone(e, h, mon) && end == h.shot.now + HoldFor(closeHold, e.rules)
       else h.shot.now >= e.bindUntil && end == e.bindUntil + HoldFor(closeHold, e.rules)
  }

  /** What one happening makes of an entry. A frame of its monitor binds it to a fade-out, moves it
      along with that, or starts its hold; a tick drops it if its hold is over; nothing else touches it. */
  ghost predicate Forward(e: ClosingCover, h: Happening, e': Option<ClosingCover>, mon: nat, closeHold: int) {
    && Rank(PhaseOf(Some(e))) <= Rank(PhaseOf(e'))
    && (e'.Some? ==>
          && e'.value.bindUntil == e.bindUntil && e'.value.rules == e.rules && e'.value.monitor == mon
          && (e.holdUntil.None? && e'.value.holdUntil.Some? ==>
                StartsHold(e, h, mon, closeHold, e'.value.holdUntil.value)))
    && if FrameOf(h, mon) then e'.Some? && FrameMoves(e, h.shot.now, h.shot.fades, closeHold, e'.value)
       else if h.Ticks? && e.holdUntil.Some? && e.holdUntil.value <= h.now then e'.None?
       else e' == Some(e)
  }

  /** A fade-out that it binds is the nearest that is left: each one that suits and is nearer has
      another closing cover by the end of the frame; and if it binds none, each one that suits has. */
  ghost predicate BindsNearest(e: ClosingCover, h: Happening, e': Option<ClosingCover>, mon: nat,
                               after: seq<ClosingCover>) {
    FrameOf(h, mon) && e.holdUntil.None? && e.fade.None? && h.shot.now < e.bindUntil ==>
      e'.Some? && NoneNearer(e, e'.value.fade, after, h.shot.fades)
  }

  function Entry(s: State, p: Option<nat>): Option<ClosingCover> {
    if p.Some? && p.value < |s.closing| then Some(s.closing[p.value]) else None
  }

  lemma ShotMoves(before: State, s: Shot, keys: seq<Key>, p: nat, mon: nat)
    requires Lists(keys, Recorded(before.last, s.covered, s.held))
    requires p < |before.closing| && before.closing[p].monitor == mon
    requires Outlives(Some(before.closing[p]), Shown(s), mon)
    ensures p < |before.TakeShot(s, keys).closing|
    ensures var after := before.TakeShot(s, keys).closing;
            && Forward(before.closing[p], Shown(s), Some(after[p]), mon, s.closeHold)
            && BindsNearest(before.closing[p], Shown(s), Some(after[p]), mon, after)
  {
    var last := Recorded(before.last, s.covered, s.held);
    var tracked := Tracked(last, keys, before.closing, s.AsFrame(), s.fades).0;
    TrackedBound(last, keys, before.closing, s.AsFrame(), s.fades);
    assert tracked[p] == before.closing[p];
    var found := FrameIsMoment(tracked, |tracked|, p, s.mon, s.now, s.fades, s.closeHold);
    if s.mon == mon {
      NextMovesForward(Some(before.closing[p]), InFrame(s.now, found, s.fades), s.closeHold);
    }
  }

  lemma TickMoves(before: State, h: Happening, p: nat, mon: nat, closeHold: int)
    requires h.Ticks? && Captured(h, mon, closeHold) && p < |before.closing| && before.closing[p].monitor == mon
    ensures var after := before.Tick(h.renderer, h.shared, h.animating, h.now);
            var q := Moved(before.closing, h, p);
            && (q.Some? ==> q.value < |after.closing|)
            && Forward(before.closing[p], h, Entry(after, q), mon, closeHold)
            && before.closing[p].box in NewlyDamaged(before, after)
  {
    var damage := before.TickDamage(h.renderer, h.shared, h.animating);
    assert (before.damaged + damage)[|before.damaged|..] == damage;
    TickDamages(before.closing, h.shared, h.now);
    if Survives(before.closing[p], h.shared, h.now) {
      SurvivingAt(before.closing, p, h.shared, h.now);
    }
  }

  /** What was damaged between two states. */
  function NewlyDamaged(before: State, after: State): seq<Box> {
    if before.damaged <= after.damaged then after.damaged[|before.damaged|..] else []
  }

  /** One happening, wherever in the list the entry is; what drops it damages its box. */
  lemma EntryMoves(before: State, h: Happening, after: State, drawn: seq<ClosingCover>, p: nat, mon: nat,
      closeHold: int)
    requires Goes(before, h, after, drawn) && p < |before.closing| && before.closing[p].monitor == mon
    requires Captured(h, mon, closeHold) && Outlives(Some(before.closing[p]), h, mon)
    ensures var q := Moved(before.closing, h, p);
            && (q.Some? ==> q.value < |after.closing|)
            && Forward(before.closing[p], h, Entry(after, q), mon, closeHold)
            && BindsNearest(before.closing[p], h, Entry(after, q), mon, after.closing)
            && (q.None? ==> before.closing[p].box in NewlyDamaged(before, after))
  {
    match h {
      case Shown(s) =>
        var keys :| Lists(keys, Recorded(before.last, s.covered, s.held)) && after == before.TakeShot(s, keys);
        ShotMoves(before, s, keys, p, mon);
      case Closes(_, _, _, _) =>
      case Ticks(_, _, _, _) => TickMoves(before, h, p, mon, closeHold);
    }
  }

  lemma {:induction false} EntryStays(t: Trace, hs: seq<Happening>, k: nat, n: nat, mon: nat, closeHold: int)
    requires GoodRun(t, hs, k, mon, closeHold) && n <= |hs| && PlaceAt(t, hs, k, n).Some?
    ensures EntryAt(t, hs, k, n).Some? && EntryAt(t, hs, k, n).value.monitor == mon
    ensures n > 0 ==> PlaceAt(t, hs, k, n - 1).Some? && EntryAt(t, hs, k, n - 1).Some?
  {
    if n > 0 {
      EntryStays(t, hs, k, n - 1, mon, closeHold);
      var p := PlaceAt(t, hs, k, n - 1).value;
      assert GoesAt(t, hs, n - 1) && GoodAt(t, hs, k, n - 1, mon, closeHold);
      EntryMoves(t.states[n - 1], hs[n - 1], t.states[n], t.drawn[n - 1], p, mon, closeHold);
    }
  }

  /** One happening of the run. */
  lemma EntryStep(t: Trace, hs: seq<Happening>, k: nat, n: nat, mon: nat, closeHold: int)
    requires GoodRun(t, hs, k, mon, closeHold) && n < |hs| && EntryAt(t, hs, k, n).Some?
    ensures EntryAt(t, hs, k, n).value.monitor == mon
    ensures Forward(EntryAt(t, hs, k, n).value, hs[n], EntryAt(t, hs, k, n + 1), mon, closeHold)
    ensures BindsNearest(EntryAt(t, hs, k, n).value, hs[n], EntryAt(t, hs, k, n + 1), mon, t.states[n + 1].closing)
    ensures EntryAt(t, hs, k, n + 1).None? ==>
              EntryAt(t, hs, k, n).value.box in NewlyDamaged(t.states[n], t.states[n + 1])
  {
    EntryStays(t, hs, k, n, mon, closeHold);
    var p := PlaceAt(t, hs, k, n).value;
    assert GoesAt(t, hs, n) && GoodAt(t, hs, k, n, mon, closeHold);
    EntryMoves(t.states[n], hs[n], t.states[n + 1], t.drawn[n], p, mon, closeHold);
  }

  // ---- over the whole run ----

  /** Happening m started the hold that ends at end. */
  ghost predicate HoldStarted(t: Trace, hs: seq<Happening>, k: nat, m: nat, mon: nat, closeHold: int, end: nat)
    requires m < |hs| < |t.states|
  {
    EntryAt(t, hs, k, m).Some? && StartsHold(EntryAt(t, hs, k, m).value, hs[m], mon, closeHold, end)
  }

  /** A hold was started by one happening of the run, to the frame that saw the fade-out done if
      the entry followed one just before, to the end of its search if not, plus the hold of the
      rules it closed with. */
  lemma {:induction false} HoldIsRight(t: Trace, hs: seq<Happening>, k: nat, n: nat, mon: nat, closeHold: int)
    requires GoodRun(t, hs, k, mon, closeHold) && n <= |hs| && EntryAt(t, hs, k, n).Some?
    ensures var e := EntryAt(t, hs, k, n).value;
            && e.rules == t.states[0].closing[k].rules && e.bindUntil == t.states[0].closing[k].bindUntil
            && (e.holdUntil.Some? ==>
                  exists m :: 0 <= m < n && HoldStarted(t, hs, k, m, mon, closeHold, e.holdUntil.value))
  {
    if n > 0 {
      EntryStays(t, hs, k, n, mon, closeHold);
      HoldIsRight(t, hs, k, n - 1, mon, closeHold);
      EntryStep(t, hs, k, n - 1, mon, closeHold);
      var before, e := EntryAt(t, hs, k, n - 1).value, EntryAt(t, hs, k, n).value;
      if e.holdUntil.Some? {
        if before.holdUntil.None? {
          assert HoldStarted(t, hs, k, n - 1, mon, closeHold, e.holdUntil.value);
        }
      }
    }
  }

  lemma {:induction false} DrawnOfExactly(closing: seq<ClosingCover>, n: nat, c: ClosingCover, mon: nat, now: nat,
      client: Client, left: bool)
    requires n <= |closing|
    ensures c in DrawnOf(closing, n, mon, now, client, left) <==>
              && c in closing[..n] && c.monitor == mon && (c.holdUntil.None? || now < c.holdUntil.value)
              && !client.sees(c.rules) && !(left && c.rules.transparent)
  {
    if n > 0 {
      DrawnOfExactly(closing, n - 1, c, mon, now, client, left);
      assert closing[..n] == closing[..n - 1] + [closing[n - 1]];
    }
  }

  /** In every frame of its monitor the entry is there, and drawn if and only if its hold, if it has
      started, is not over, unless the client sees it or transparent surfaces are left out and it is
      one. As long as its fade-out runs, it has no hold and lies where that is in this frame. */
  lemma DrawnUntilHoldEnds(t: Trace, hs: seq<Happening>, k: nat, n: nat, mon: nat, closeHold: int)
    requires GoodRun(t, hs, k, mon, closeHold) && n < |hs| && EntryAt(t, hs, k, n).Some? && FrameOf(hs[n], mon)
    ensures var e, s := EntryAt(t, hs, k, n + 1), hs[n].shot;
            && e.Some?
            && (e.value in t.drawn[n] <==>
                  && (e.value.holdUntil.None? || s.now < e.value.holdUntil.value)
                  && !s.client.sees(e.value.rules) && !(s.left && e.value.rules.transparent))
            && (e.value.holdUntil.None? && e.value.fade.Some? ==>
                  && e.value.fade.value in s.fades.live && !s.fades.live[e.value.fade.value].done
                  && e.value.box == s.fades.live[e.value.fade.value].box)
            && e.value.rules == t.states[0].closing[k].rules
            && (e.value.holdUntil.Some? ==>
                  exists m :: 0 <= m <= n && HoldStarted(t, hs, k, m, mon, closeHold, e.value.holdUntil.value))
  {
    EntryStep(t, hs, k, n, mon, closeHold);
    HoldIsRight(t, hs, k, n + 1, mon, closeHold);
    assert GoesAt(t, hs, n);
    var e, after := EntryAt(t, hs, k, n + 1).value, t.states[n + 1].closing;
    assert e in after && after[..|after|] == after;
    var s := hs[n].shot;
    DrawnOfExactly(after, |after|, e, s.mon, s.now, s.client, s.left);
  }

  /** In happening m, a frame of its monitor, the entry followed its fade-out. */
  ghost predicate FollowedIn(t: Trace, hs: seq<Happening>, k: nat, m: nat, mon: nat)
    requires m < |hs| < |t.states|
  {
    FrameOf(hs[m], mon) && PhaseOf(EntryAt(t, hs, k, m + 1)) == Following
  }

  /** It did in happening m, and in none of those between m and n. */
  ghost predicate LastFollowed(t: Trace, hs: seq<Happening>, k: nat, m: nat, n: nat, mon: nat)
    requires m < n <= |hs| < |t.states|
  {
    && FollowedIn(t, hs, k, m, mon) && EntryAt(t, hs, k, m + 1).value.fade.value in hs[m].shot.fades.live
    && forall j :: m < j < n ==> !FollowedIn(t, hs, k, j, mon)
  }

  /** The entry lies where its fade-out was in the last frame that it followed it in, and where the
      surface closed if there is none. */
  lemma {:induction false} BoxIsRight(t: Trace, hs: seq<Happening>, k: nat, n: nat, mon: nat, closeHold: int)
    requires GoodRun(t, hs, k, mon, closeHold) && n <= |hs| && EntryAt(t, hs, k, n).Some?
    ensures var box := EntryAt(t, hs, k, n).value.box;
            if forall m :: 0 <= m < n ==> !FollowedIn(t, hs, k, m, mon) then box == t.states[0].closing[k].box
            else exists m :: 0 <= m < n && LastFollowed(t, hs, k, m, n, mon) &&
                   box == hs[m].shot.fades.live[EntryAt(t, hs, k, m + 1).value.fade.value].box
  {
    if n > 0 {
      EntryStays(t, hs, k, n, mon, closeHold);
      BoxIsRight(t, hs, k, n - 1, mon, closeHold);
      EntryStep(t, hs, k, n - 1, mon, closeHold);
      if FollowedIn(t, hs, k, n - 1, mon) {
        assert LastFollowed(t, hs, k, n - 1, n, mon);
      } else if m :| 0 <= m < n - 1 && LastFollowed(t, hs, k, m, n - 1, mon) &&
                     EntryAt(t, hs, k, n - 1).value.box ==
                       hs[m].shot.fades.live[EntryAt(t, hs, k, m + 1).value.fade.value].box {
        assert LastFollowed(t, hs, k, m, n, mon);
      }
    }
  }

  /** The entry only goes forward, from searching to following to holding to dropped, and keeps the
      hold it got; what drops it is a tick at or after the end of its hold, and that tick damages
      its box. */
  lemma {:induction false} EntryLife(t: Trace, hs: seq<Happening>, k: nat, m: nat, n: nat, mon: nat, closeHold: int)
    requires GoodRun(t, hs, k, mon, closeHold) && m <= n <= |hs|
    ensures Rank(PhaseOf(EntryAt(t, hs, k, m))) <= Rank(PhaseOf(EntryAt(t, hs, k, n)))
    ensures PhaseOf(EntryAt(t, hs, k, m)) == Following ==> PhaseOf(EntryAt(t, hs, k, n)) != Searching
    ensures EntryAt(t, hs, k, m).None? ==> EntryAt(t, hs, k, n).None?
    ensures PhaseOf(EntryAt(t, hs, k, m)) == Holding && EntryAt(t, hs, k, n).Some? ==>
              EntryAt(t, hs, k, n) == EntryAt(t, hs, k, m)
    ensures EntryAt(t, hs, k, m).Some? && EntryAt(t, hs, k, n).None? ==>
              exists d :: m <= d < n && DroppedAt(t, hs, k, d, mon, closeHold)
  {
    if m < n {
      EntryLife(t, hs, k, m, n - 1, mon, closeHold);
      if EntryAt(t, hs, k, n - 1).Some? {
        OneStep(t, hs, k, n - 1, mon, closeHold);
      } else {
        StaysDropped(t, hs, k, n - 1, mon, closeHold);
      }
    }
  }

  lemma OneStep(t: Trace, hs: seq<Happening>, k: nat, n: nat, mon: nat, closeHold: int)
    requires GoodRun(t, hs, k, mon, closeHold) && n < |hs| && EntryAt(t, hs, k, n).Some?
    ensures Rank(PhaseOf(EntryAt(t, hs, k, n))) <= Rank(PhaseOf(EntryAt(t, hs, k, n + 1)))
    ensures PhaseOf(EntryAt(t, hs, k, n)) == Holding && EntryAt(t, hs, k, n + 1).Some? ==>
              EntryAt(t, hs, k, n + 1) == EntryAt(t, hs, k, n)
    ensures EntryAt(t, hs, k, n + 1).None? ==> DroppedAt(t, hs, k, n, mon, closeHold)
  {
    EntryStep(t, hs, k, n, mon, closeHold);
    HoldIsRight(t, hs, k, n, mon, closeHold);
  }

  ghost predicate DroppedAt(t: Trace, hs: seq<Happening>, k: nat, d: nat, mon: nat, closeHold: int)
    requires d < |hs| < |t.states|
  {
    var e := EntryAt(t, hs, k, d);
    && hs[d].Ticks? && e.Some? && e.value.holdUntil.Some? && e.value.holdUntil.value <= hs[d].now
    && (exists m :: 0 <= m < d && HoldStarted(t, hs, k, m, mon, closeHold, e.value.holdUntil.value))
    && e.value.box in NewlyDamaged(t.states[d], t.states[d + 1])
  }

  lemma StaysDropped(t: Trace, hs: seq<Happening>, k: nat, n: nat, mon: nat, closeHold: int)
    requires GoodRun(t, hs, k, mon, closeHold) && n < |hs| && EntryAt(t, hs, k, n).None?
    ensures EntryAt(t, hs, k, n + 1).None?
  {
    if PlaceAt(t, hs, k, n).Some? {
      EntryStays(t, hs, k, n, mon, closeHold);
    }
  }
}
