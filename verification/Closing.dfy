/** Closing surfaces: their cover looks for the fade-out, follows it, and stays for the hold;
    and the pump that has all this repainted. Times are milliseconds. */
module Closing {
  import opened Wrappers
  import opened Regions
  import opened Rules

  const FADE_BIND_WINDOW: nat := 150
  const STALE_COVER: nat := 1_000

  type FadeId = nat

  /** A running fade-out of the compositor. */
  datatype Fade = Fade(isLayer: bool, monitor: nat, box: Box, done: bool)

  /** The fade-outs in the compositor's order, and the objects that still exist. */
  datatype Fades = Fades(order: seq<FadeId>, live: map<FadeId, Fade>)

  datatype ClosingCover = ClosingCover(
    isLayer: bool, monitor: nat, box: Box, rules: RuleValues, fade: Option<FadeId>, bindUntil: nat,
        holdUntil: Option<nat>)

  /** What a weak reference to a fade-out still reaches. */
  function Lock(fade: Option<FadeId>, fades: Fades): (r: Option<FadeId>)
    ensures r.Some? <==> fade.Some? && fade.value in fades.live
    ensures r.Some? ==> r == fade
  {
    if fade.Some? && fade.value in fades.live then fade else None
  }

  // ---- the fade-out of a closing surface ----

  /** Squared distance of the middles, in half pixels. */
  function Distance(a: Box, b: Box): int {
    var dx, dy := (2 * a.x + a.w) - (2 * b.x + b.w), (2 * a.y + a.h) - (2 * b.y + b.h);
    dx * dx + dy * dy
  }

  function Reach(b: Box): int {
    var m := if b.w < b.h then b.h else b.w;
    if m < 0 then -1 else 4 * m * m
  }

  predicate Taken(closing: seq<ClosingCover>, f: FadeId, fades: Fades) {
    exists i :: 0 <= i < |closing| && Lock(closing[i].fade, fades) == Some(f)
  }

  /** A running fade-out that may be this cover's: kind and monitor fit, and it is nobody else's. */
  predicate Candidate(c: ClosingCover, mon: nat, f: FadeId, closing: seq<ClosingCover>, fades: Fades) {
    && f in fades.live && !fades.live[f].done && fades.live[f].isLayer == c.isLayer && fades.live[f].monitor == mon
    && !Taken(closing, f, fades)
    && Distance(fades.live[f].box, c.box) <= Reach(c.box)
  }

  /** The nearest candidate among the first n fade-outs, the later one of equally near. */
  function FindFade(c: ClosingCover, mon: nat, closing: seq<ClosingCover>, fades: Fades, n: nat): (r: Option<FadeId>)
    requires n <= |fades.order|
    ensures r.Some? ==> r.value in fades.order[..n] && Candidate(c, mon, r.value, closing, fades)
  {
    if n == 0 then None
    else
      var best := FindFade(c, mon, closing, fades, n - 1);
      var f := fades.order[n - 1];
      assert fades.order[..n] == fades.order[..n - 1] + [f];
      if Candidate(c, mon, f, closing, fades) &&
         (best.None? || Distance(fades.live[f].box, c.box) <= Distance(fades.live[best.value].box, c.box))
      then Some(f) else best
  }

  // ---- the same in plain geometry ----

  /** The middle of a box, and how far apart two are, squared. */
  ghost function MiddleX(b: Box): real {
    b.x as real + b.w as real / 2.0
  }

  ghost function MiddleY(b: Box): real {
    b.y as real + b.h as real / 2.0
  }

  ghost function Apart(a: Box, b: Box): real {
    var dx, dy := MiddleX(a) - MiddleX(b), MiddleY(a) - MiddleY(b);
    dx * dx + dy * dy
  }

  /** Kind and monitor fit, it still runs, and its middle is no further away than the longer side. */
  ghost predicate Suits(isLayer: bool, box: Box, mon: nat, f: FadeId, fades: Fades) {
    && f in fades.live && !fades.live[f].done && fades.live[f].isLayer == isLayer && fades.live[f].monitor == mon
    && (var far: int := if box.w < box.h then box.h else box.w;
        far >= 0 && Apart(fades.live[f].box, box) <= far as real * far as real)
  }

  ghost predicate BoundIn(closing: seq<ClosingCover>, f: FadeId) {
    exists j :: 0 <= j < |closing| && closing[j].fade == Some(f)
  }

  lemma DistanceIsApart(a: Box, b: Box)
    ensures Distance(a, b) as real == 4.0 * Apart(a, b)
  {
    var x, y := (2 * a.x + a.w) - (2 * b.x + b.w), (2 * a.y + a.h) - (2 * b.y + b.h);
    var dx, dy := MiddleX(a) - MiddleX(b), MiddleY(a) - MiddleY(b);
    assert x as real == 2.0 * dx && y as real == 2.0 * dy;
    SquareOf(x);
    SquareOf(y);
    assert (2.0 * dx) * (2.0 * dx) == 4.0 * (dx * dx);
    assert (2.0 * dy) * (2.0 * dy) == 4.0 * (dy * dy);
  }

  lemma SquareOf(x: int)
    ensures (x * x) as real == x as real * x as real
  {
  }

  lemma SquareNotNegative(x: int)
    ensures 0 <= x * x
  {
  }

  lemma DistanceNotNegative(a: Box, b: Box)
    ensures 0 <= Distance(a, b)
  {
    SquareNotNegative((2 * a.x + a.w) - (2 * b.x + b.w));
    SquareNotNegative((2 * a.y + a.h) - (2 * b.y + b.h));
  }

  /** The longer side of a box, in whole pixels, and its square in half ones. */
  lemma ReachIsFar(b: Box)
    ensures var far := if b.w < b.h then b.h else b.w;
            if far < 0 then Reach(b) < 0 else Reach(b) as real == 4.0 * (far as real * far as real)
  {
    var far := if b.w < b.h then b.h else b.w;
    SquareOf(far);
    assert 4 * far * far == 4 * (far * far);
  }

  lemma TakenIsBound(closing: seq<ClosingCover>, f: FadeId, fades: Fades)
    requires f in fades.live
    ensures Taken(closing, f, fades) <==> BoundIn(closing, f)
  {
    forall j | 0 <= j < |closing| && closing[j].fade == Some(f) ensures Lock(closing[j].fade, fades) == Some(f) {
    }
  }

  lemma CandidateInNumbers(c: ClosingCover, mon: nat, f: FadeId, closing: seq<ClosingCover>, fades: Fades)
    ensures Candidate(c, mon, f, closing, fades) <==>
              Suits(c.isLayer, c.box, mon, f, fades) && !BoundIn(closing, f)
  {
    if f in fades.live {
      var box := fades.live[f].box;
      TakenIsBound(closing, f, fades);
      assert Distance(box, c.box) as real == 4.0 * Apart(box, c.box) && Distance(box, c.box) >= 0 by {
        DistanceIsApart(box, c.box);
        DistanceNotNegative(box, c.box);
      }
      ReachIsFar(c.box);
    }
  }

  /** It suits, and no closing cover has it. */
  ghost predicate Free(c: ClosingCover, mon: nat, f: FadeId, closing: seq<ClosingCover>, fades: Fades) {
    Suits(c.isLayer, c.box, mon, f, fades) && !BoundIn(closing, f)
  }

  /** One of the first n of the order is r, free, with no free one of them nearer, and none after it
      as near. */
  ghost predicate Nearest(c: ClosingCover, mon: nat, r: FadeId, n: nat, closing: seq<ClosingCover>, fades: Fades)
    requires n <= |fades.order|
  {
    Free(c, mon, r, closing, fades) &&
    exists p: nat :: p < n && fades.order[p] == r && forall k: nat :: k < n ==> NotBefore(c, mon, p, k, closing, fades)
  }

  ghost predicate NotBefore(c: ClosingCover, mon: nat, p: nat, k: nat, closing: seq<ClosingCover>, fades: Fades)
    requires p < |fades.order| && k < |fades.order| && fades.order[p] in fades.live
  {
    var r, f := fades.order[p], fades.order[k];
    Free(c, mon, f, closing, fades) ==>
      var d, d' := Apart(fades.live[r].box, c.box), Apart(fades.live[f].box, c.box);
      d <= d' && (p < k ==> d < d')
  }

  /** What the search found so far, and where. */
  ghost predicate Found(
    c: ClosingCover, mon: nat, r: FadeId, p: nat, n: nat, closing: seq<ClosingCover>, fades: Fades)
  {
    && p < n <= |fades.order| && fades.order[p] == r && r in fades.live && Candidate(c, mon, r, closing, fades)
    && forall k: nat :: k < n ==> NoCloser(c, mon, p, k, closing, fades)
  }

  ghost predicate NoCloser(c: ClosingCover, mon: nat, p: nat, k: nat, closing: seq<ClosingCover>, fades: Fades)
    requires p < |fades.order| && k < |fades.order| && fades.order[p] in fades.live
  {
    Candidate(c, mon, fades.order[k], closing, fades) ==>
      var d, d' := Distance(fades.live[fades.order[p]].box, c.box), Distance(fades.live[fades.order[k]].box, c.box);
      d <= d' && (p < k ==> d < d')
  }

  lemma {:induction false} FindFadeFinds(c: ClosingCover, mon: nat, closing: seq<ClosingCover>, fades: Fades, n: nat)
    returns (p: nat)
    requires n <= |fades.order|
    ensures var r := FindFade(c, mon, closing, fades, n);
            && (r.None? <==> forall k :: 0 <= k < n ==> !Candidate(c, mon, fades.order[k], closing, fades))
            && (r.Some? ==> Found(c, mon, r.value, p, n, closing, fades))
  {
    p := 0;
    if n > 0 {
      p := FindFadeFinds(c, mon, closing, fades, n - 1);
      var best, q := FindFade(c, mon, closing, fades, n - 1), n - 1;
      var f := fades.order[q];
      if Candidate(c, mon, f, closing, fades) &&
         (best.None? || Distance(fades.live[f].box, c.box) <= Distance(fades.live[best.value].box, c.box)) {
        forall k: nat | k < n ensures NoCloser(c, mon, q, k, closing, fades) {
          if best.Some? && k < q {
            assert NoCloser(c, mon, p, k, closing, fades);
          }
        }
        p := q;
      } else if best.Some? {
        assert NoCloser(c, mon, p, q, closing, fades);
      }
    }
  }

  lemma CloserInNumbers(c: ClosingCover, mon: nat, p: nat, k: nat, closing: seq<ClosingCover>, fades: Fades)
    requires p < |fades.order| && k < |fades.order| && fades.order[p] in fades.live
    ensures NoCloser(c, mon, p, k, closing, fades) ==> NotBefore(c, mon, p, k, closing, fades)
  {
    var f := fades.order[k];
    CandidateInNumbers(c, mon, f, closing, fades);
    if f in fades.live {
      DistanceIsApart(fades.live[fades.order[p]].box, c.box);
      DistanceIsApart(fades.live[f].box, c.box);
    }
  }

  /** It finds one exactly if one is free, and that is the nearest, the last of equally near. */
  lemma FindFadeIsNearest(c: ClosingCover, mon: nat, closing: seq<ClosingCover>, fades: Fades, n: nat)
    requires n <= |fades.order|
    ensures var r := FindFade(c, mon, closing, fades, n);
            && (r.None? <==> forall k :: 0 <= k < n ==> !Free(c, mon, fades.order[k], closing, fades))
            && (r.Some? ==> Nearest(c, mon, r.value, n, closing, fades))
  {
    var p := FindFadeFinds(c, mon, closing, fades, n);
    forall k | 0 <= k < n
      ensures Candidate(c, mon, fades.order[k], closing, fades) <==> Free(c, mon, fades.order[k], closing, fades)
    {
      CandidateInNumbers(c, mon, fades.order[k], closing, fades);
    }
    var r := FindFade(c, mon, closing, fades, n);
    if r.Some? {
      CandidateInNumbers(c, mon, r.value, closing, fades);
      forall k: nat | k < n ensures NotBefore(c, mon, p, k, closing, fades) {
        CloserInNumbers(c, mon, p, k, closing, fades);
      }
    }
  }

  /** No fade-out that still exists is bound to two closing covers. */
  ghost predicate FadesDistinct(closing: seq<ClosingCover>, fades: Fades) {
    forall i, j :: 0 <= i < j < |closing| && Lock(closing[i].fade, fades).Some? ==>
                     Lock(closing[i].fade, fades) != Lock(closing[j].fade, fades)
  }

  /** Every fade-out bound afterwards was bound before, or exists in fades. */
  ghost predicate BoundFrom(after: seq<ClosingCover>, before: seq<ClosingCover>, fades: Fades) {
    forall i :: 0 <= i < |after| && after[i].fade.Some? ==>
      after[i].fade.value in fades.live || BoundIn(before, after[i].fade.value)
  }

  // ---- one closing cover in one frame ----

  /** It looks for its fade-out in this frame. */
  predicate Searches(c: ClosingCover, now: nat, fades: Fades) {
    c.holdUntil.None? && Lock(c.fade, fades).None? && now < c.bindUntil
  }

  /** The entry after a frame at now; found: what a search gives. */
  function Updated(c: ClosingCover, found: Option<FadeId>, now: nat, fades: Fades, closeHold: int): ClosingCover {
    if c.holdUntil.Some? then c
    else
      var search := Searches(c, now, fades);
      var fade := if search then Lock(found, fades) else Lock(c.fade, fades);
      var c1 := if search then c.(fade := found) else c;
      if fade.Some? && !fades.live[fade.value].done then c1.(box := fades.live[fade.value].box)
      else if fade.Some? || now >= c.bindUntil then
        c1.(holdUntil := Some((if fade.Some? then now else c.bindUntil) + HoldFor(closeHold, c.rules)))
      else c1
  }

  predicate IsLive(c: ClosingCover, now: nat) {
    c.holdUntil.None? || now < c.holdUntil.value
  }

  /** It gets a cover in this frame (after its update). */
  predicate Drawn(c: ClosingCover, mon: nat, now: nat, client: Client, left: bool) {
    c.monitor == mon && IsLive(c, now) && !client.sees(c.rules) && !(left && c.rules.transparent)
  }

  /** The list after the first n entries had their turn; each search sees the others. */
  function PaintedList(closing: seq<ClosingCover>, n: nat, mon: nat, now: nat, fades: Fades,
      closeHold: int): (r: seq<ClosingCover>)
    requires n <= |closing|
    ensures |r| == |closing| && forall k :: n <= k < |r| ==> r[k] == closing[k]
  {
    if n == 0 then closing
    else
      var l := PaintedList(closing, n - 1, mon, now, fades, closeHold);
      l[n - 1 := PaintedEntry(l, n - 1, mon, now, fades, closeHold)]
  }

  function PaintedEntry(l: seq<ClosingCover>, k: nat, mon: nat, now: nat, fades: Fades, closeHold: int): ClosingCover
    requires k < |l|
  {
    if l[k].monitor != mon then l[k]
    else
      var found := if Searches(l[k], now, fades) then FindFade(l[k], mon, l, fades, |fades.order|) else None;
      Updated(l[k], found, now, fades, closeHold)
  }

  lemma {:induction false} PaintedKeepsDistinct(closing: seq<ClosingCover>, n: nat, mon: nat, now: nat, fades: Fades,
      closeHold: int)
    requires n <= |closing| && FadesDistinct(closing, fades)
    ensures FadesDistinct(PaintedList(closing, n, mon, now, fades, closeHold), fades)
  {
    if n > 0 {
      PaintedKeepsDistinct(closing, n - 1, mon, now, fades, closeHold);
      var l := PaintedList(closing, n - 1, mon, now, fades, closeHold);
      var c := PaintedEntry(l, n - 1, mon, now, fades, closeHold);
      if Lock(c.fade, fades) != Lock(l[n - 1].fade, fades) {
        assert forall i :: 0 <= i < |l| ==> Lock(l[i].fade, fades) != Lock(c.fade, fades);
      }
    }
  }

  lemma {:induction false} PaintedBound(closing: seq<ClosingCover>, n: nat, mon: nat, now: nat, fades: Fades,
      closeHold: int)
    requires n <= |closing|
    ensures BoundFrom(PaintedList(closing, n, mon, now, fades, closeHold), closing, fades)
  {
    if n > 0 {
      PaintedBound(closing, n - 1, mon, now, fades, closeHold);
    }
  }

  // ---- surfaces that disappeared ----

  /** What trackClosed is asked about: the frame's monitor, the monitors that still exist,
      the keys covered or shown in this frame, the surfaces still on screen. */
  datatype Frame = Frame(mon: nat, monitors: set<nat>, seen: set<Key>, onScreen: set<Key>, now: nat)

  predicate Kept(last: LastCover, k: Key, f: Frame) {
    last.monitor in f.monitors && (last.monitor != f.mon || k in f.seen)
  }

  /** It disappeared from this frame's monitor by closing, not by being moved or shown. */
  predicate Closed(last: LastCover, k: Key, f: Frame) {
    last.monitor in f.monitors && !Kept(last, k, f) && k !in f.onScreen
  }

  predicate Fresh(last: LastCover, now: nat) {
    now < last.at + STALE_COVER
  }

  function NewClosing(last: LastCover, mon: nat, now: nat): ClosingCover {
    ClosingCover(last.isLayer, mon, last.box, last.rules, None, now + FADE_BIND_WINDOW, None)
  }

  /** The closing cover an entry leaves behind, if any: a stale one only with its fade-out. */
  function LeftBehind(last: LastCover, k: Key, closing: seq<ClosingCover>, f: Frame,
      fades: Fades): Option<ClosingCover> {
    if !Closed(last, k, f) then None
    else
      var c := NewClosing(last, f.mon, f.now);
      if Fresh(last, f.now) then Some(c)
      else
        var fade := FindFade(c, f.mon, closing, fades, |fades.order|);
        if fade.Some? then Some(c.(fade := fade)) else None
  }

  /** The closing covers, and the keys they were started for, after the entries of keys
      were looked at in that order. */
  function Tracked(last: map<Key, LastCover>, keys: seq<Key>, closing: seq<ClosingCover>, f: Frame,
      fades: Fades): (seq<ClosingCover>, seq<Key>)
    requires forall i :: 0 <= i < |keys| ==> keys[i] in last
  {
    if keys == [] then (closing, [])
    else
      var k := keys[|keys| - 1];
      var (before, started) := Tracked(last, keys[..|keys| - 1], closing, f, fades);
      var c := LeftBehind(last[k], k, before, f, fades);
      if c.Some? then (before + [c.value], started + [k]) else (before, started)
  }

  lemma TrackedStep(last: map<Key, LastCover>, keys: seq<Key>, i: nat, closing: seq<ClosingCover>, f: Frame,
      fades: Fades)
    requires i < |keys| && forall j :: 0 <= j < |keys| ==> keys[j] in last
    ensures var (before, started) := Tracked(last, keys[..i], closing, f, fades);
            var c := LeftBehind(last[keys[i]], keys[i], before, f, fades);
            Tracked(last, keys[..i + 1], closing, f, fades) ==
              if c.Some? then (before + [c.value], started + [keys[i]]) else (before, started)
  {
    assert keys[..i + 1][..i] == keys[..i];
  }

  /** The remembered covers after those of keys were looked at. */
  function Remaining(last: map<Key, LastCover>, keys: seq<Key>, f: Frame): map<Key, LastCover>
    requires forall i :: 0 <= i < |keys| ==> keys[i] in last
  {
    if keys == [] then last
    else
      var k := keys[|keys| - 1];
      var m := Remaining(last, keys[..|keys| - 1], f);
      if Kept(last[k], k, f) then m else m - {k}
  }

  /** It belongs to another monitor that still exists, or to this one and is in this frame. */
  ghost predicate StillRemembered(last: LastCover, k: Key, f: Frame) {
    last.monitor in f.monitors && (last.monitor == f.mon ==> k in f.seen)
  }

  lemma {:induction false} RemainingExactly(last: map<Key, LastCover>, keys: seq<Key>, f: Frame)
    requires forall i :: 0 <= i < |keys| ==> keys[i] in last
    ensures var m := Remaining(last, keys, f);
            && (forall k :: k in m <==> k in last && (k in keys ==> StillRemembered(last[k], k, f)))
            && (forall k :: k in m ==> m[k] == last[k])
  {
    if keys != [] {
      RemainingExactly(last, keys[..|keys| - 1], f);
      assert keys == keys[..|keys| - 1] + [keys[|keys| - 1]];
    }
  }

  lemma RemainingStep(last: map<Key, LastCover>, keys: seq<Key>, i: nat, f: Frame)
    requires Lists(keys, last) && i < |keys|
    ensures var m := Remaining(last, keys[..i], f);
            && keys[i] in m && m[keys[i]] == last[keys[i]]
            && Remaining(last, keys[..i + 1], f) == if Kept(last[keys[i]], keys[i], f) then m else m - {keys[i]}
  {
    RemainingExactly(last, keys[..i], f);
    assert keys[..i + 1][..i] == keys[..i];
  }

  /** The first n keys were looked at: what is still remembered, the closing covers, and the keys
      they were started for. */
  ghost predicate TrackedSoFar(
    was: map<Key, LastCover>, keys: seq<Key>, n: nat, closing: seq<ClosingCover>, started: seq<Key>, f: Frame,
    fades: Fades, last: map<Key, LastCover>, closing': seq<ClosingCover>, started': seq<Key>)
    requires n <= |keys| && forall i :: 0 <= i < |keys| ==> keys[i] in was
  {
    && last == Remaining(was, keys[..n], f)
    && closing' == Tracked(was, keys[..n], closing, f, fades).0
    && started' == started + Tracked(was, keys[..n], closing, f, fades).1
  }

  lemma TrackedNext(
    was: map<Key, LastCover>, keys: seq<Key>, n: nat, closing: seq<ClosingCover>, started: seq<Key>, f: Frame,
    fades: Fades, last: map<Key, LastCover>, closing': seq<ClosingCover>, started': seq<Key>)
    requires Lists(keys, was) && n < |keys|
    requires TrackedSoFar(was, keys, n, closing, started, f, fades, last, closing', started')
    ensures keys[n] in last
    ensures var k := keys[n];
            var c := LeftBehind(last[k], k, closing', f, fades);
            TrackedSoFar(was, keys, n + 1, closing, started, f, fades,
                         if Kept(last[k], k, f) then last else last - {k},
                         if c.Some? then closing' + [c.value] else closing',
                         if c.Some? then started' + [k] else started')
  {
    TrackedStep(was, keys, n, closing, f, fades);
    RemainingStep(was, keys, n, f);
    var before := Tracked(was, keys[..n], closing, f, fades).1;
    assert started + before + [keys[n]] == started + (before + [keys[n]]);
  }

  /** Every key is asked once, in the order of the hash map. */
  ghost predicate Lists(keys: seq<Key>, last: map<Key, LastCover>) {
    && (forall i :: 0 <= i < |keys| ==> keys[i] in last)
    && (forall i, j :: 0 <= i < j < |keys| ==> keys[i] != keys[j])
    && (forall k :: k in last ==> k in keys)
  }

  ghost predicate NoFadeLeft(c: ClosingCover, mon: nat, closing: seq<ClosingCover>, fades: Fades) {
    forall k :: 0 <= k < |fades.order| ==> !Free(c, mon, fades.order[k], closing, fades)
  }

  lemma MoreTaken(c: ClosingCover, mon: nat, before: seq<ClosingCover>, after: seq<ClosingCover>, fades: Fades)
    requires before <= after && NoFadeLeft(c, mon, before, fades)
    ensures NoFadeLeft(c, mon, after, fades)
  {
    forall k | 0 <= k < |fades.order| ensures !Free(c, mon, fades.order[k], after, fades) {
      if BoundIn(before, fades.order[k]) {
        var i :| 0 <= i < |before| && before[i].fade == Some(fades.order[k]);
        assert after[i] == before[i];
      }
    }
  }

  /** It was covered on this monitor, which still exists, and is neither in this frame nor on screen. */
  ghost predicate Disappeared(last: LastCover, k: Key, f: Frame) {
    last.monitor == f.mon && f.mon in f.monitors && k !in f.seen && k !in f.onScreen
  }

  /** Closing cover c was started for an entry that disappeared: where it was, to look for its fade-out
      for 150 ms; at once if it was covered in the last second, else with a fade-out that suits. */
  ghost predicate StartedFor(last: LastCover, k: Key, c: ClosingCover, f: Frame, fades: Fades) {
    && Disappeared(last, k, f)
    && c == ClosingCover(last.isLayer, f.mon, last.box, last.rules, c.fade, f.now + 150, None)
    && (if f.now < last.at + 1_000 then c.fade.None?
        else c.fade.Some? && Suits(last.isLayer, last.box, f.mon, c.fade.value, fades))
  }

  /** It was covered longer ago, and no fade-out is free for it. */
  ghost predicate Missed(last: LastCover, closing: seq<ClosingCover>, f: Frame, fades: Fades) {
    && last.at + 1_000 <= f.now
    && NoFadeLeft(ClosingCover(last.isLayer, f.mon, last.box, last.rules, None, f.now + 150, None), f.mon, closing,
                  fades)
  }

  lemma LeavesBehind(last: LastCover, k: Key, closing: seq<ClosingCover>, f: Frame, fades: Fades)
    ensures var c := LeftBehind(last, k, closing, f, fades);
            && (c.Some? ==> StartedFor(last, k, c.value, f, fades))
            && (c.None? && Disappeared(last, k, f) ==> Missed(last, closing, f, fades))
  {
    var c := NewClosing(last, f.mon, f.now);
    FindFadeIsNearest(c, f.mon, closing, fades, |fades.order|);
  }

  /** The old covers stay, and each new one belongs to a closed entry, one each. */
  lemma {:induction false} TrackedStarts(last: map<Key, LastCover>, keys: seq<Key>, closing: seq<ClosingCover>,
      f: Frame, fades: Fades)
    requires forall i :: 0 <= i < |keys| ==> keys[i] in last
    requires forall i, j :: 0 <= i < j < |keys| ==> keys[i] != keys[j]
    ensures var (after, started) := Tracked(last, keys, closing, f, fades);
            && |after| == |closing| + |started| && after[..|closing|] == closing
            && (forall i :: 0 <= i < |started| ==>
                  started[i] in keys && StartedFor(last[started[i]], started[i], after[|closing| + i], f, fades))
            && (forall i, j :: 0 <= i < j < |started| ==> started[i] != started[j])
  {
    if keys != [] {
      var k := keys[|keys| - 1];
      var rest := keys[..|keys| - 1];
      TrackedStarts(last, rest, closing, f, fades);
      LeavesBehind(last[k], k, Tracked(last, rest, closing, f, fades).0, f, fades);
      assert keys == rest + [k] && k !in rest;
    }
  }

  /** A closed entry is passed over only if it is stale and no fade-out is left for it. */
  lemma {:induction false} TrackedMisses(last: map<Key, LastCover>, keys: seq<Key>, closing: seq<ClosingCover>,
      f: Frame, fades: Fades)
    requires forall i :: 0 <= i < |keys| ==> keys[i] in last
    requires forall i, j :: 0 <= i < j < |keys| ==> keys[i] != keys[j]
    ensures var (after, started) := Tracked(last, keys, closing, f, fades);
            forall k :: k in keys && Disappeared(last[k], k, f) && k !in started ==> Missed(last[k], after, f, fades)
  {
    if keys != [] {
      var k := keys[|keys| - 1];
      var rest := keys[..|keys| - 1];
      TrackedMisses(last, rest, closing, f, fades);
      var (after, started) := Tracked(last, keys, closing, f, fades);
      var (before, started') := Tracked(last, rest, closing, f, fades);
      assert keys == rest + [k] && (started == started' || started == started' + [k]);
      LeavesBehind(last[k], k, before, f, fades);
      forall j | j in keys && Disappeared(last[j], j, f) && j !in started ensures Missed(last[j], after, f, fades) {
        MoreTaken(ClosingCover(last[j].isLayer, f.mon, last[j].box, last[j].rules, None, f.now + 150, None), f.mon,
                  before, after, fades);
      }
    }
  }

  lemma {:induction false} TrackedBound(last: map<Key, LastCover>, keys: seq<Key>, closing: seq<ClosingCover>,
      f: Frame, fades: Fades)
    requires forall i :: 0 <= i < |keys| ==> keys[i] in last
    ensures closing <= Tracked(last, keys, closing, f, fades).0
    ensures BoundFrom(Tracked(last, keys, closing, f, fades).0, closing, fades)
  {
    if keys != [] {
      TrackedBound(last, keys[..|keys| - 1], closing, f, fades);
    }
  }

  lemma {:induction false} TrackedKeepsDistinct(last: map<Key, LastCover>, keys: seq<Key>, closing: seq<ClosingCover>,
      f: Frame, fades: Fades)
    requires forall i :: 0 <= i < |keys| ==> keys[i] in last
    requires FadesDistinct(closing, fades)
    ensures FadesDistinct(Tracked(last, keys, closing, f, fades).0, fades)
  {
    if keys != [] {
      var k := keys[|keys| - 1];
      var rest := keys[..|keys| - 1];
      TrackedKeepsDistinct(last, rest, closing, f, fades);
      var before := Tracked(last, rest, closing, f, fades).0;
      var c := LeftBehind(last[k], k, before, f, fades);
      if c.Some? && Lock(c.value.fade, fades).Some? {
        assert !Taken(before, c.value.fade.value, fades);
      }
    }
  }

  /** What to repaint while a monitor shows an animated cover. */
  datatype AnimBox = AnimBox(monitor: nat, box: Box)

  /** Everything the covers below hold and have done: what is remembered, the closing covers, the
      keys they were started for (oldest first, dropped ones included), what to repaint, whether
      the pump's timer is armed, and what it has damaged so far. */
  datatype State = State(
    last: map<Key, LastCover>, closing: seq<ClosingCover>, started: seq<Key>, animBoxes: seq<AnimBox>, armed: bool,
    damaged: seq<Box>)
  {
    function Close(key: Key, c: LastCover, captured: bool, now: nat): State {
      if !captured then this
      else this.(last := last - {key}, closing := closing + [NewClosing(c, c.monitor, now)], started := started + [key],
                 armed := true)
    }

    /** A frame, with the remembered covers looked at in the order of keys. */
    function TakeShot(s: Shot, keys: seq<Key>): State
      requires forall i :: 0 <= i < |keys| ==> keys[i] in Recorded(last, s.covered, s.held)
    {
      var (tracked, more) := TrackedIn(s, last, keys, closing, started);
      var painted := PaintedList(tracked, |tracked|, s.mon, s.now, s.fades, s.closeHold);
      this.(last := RememberedAfter(last, s), closing := painted, started := more,
            armed := armed || painted != [] || (s.animating && animBoxes != []))
    }

    /** What a tick damages. */
    function TickDamage(renderer: bool, shared: set<nat>, animating: bool): seq<Box> {
      if !renderer then []
      else (if animating then AnimDamage(animBoxes, shared) else []) + ClosingDamage(closing, shared)
    }

    function Tick(renderer: bool, shared: set<nat>, animating: bool, now: nat): State {
      var damage := TickDamage(renderer, shared, animating);
      State(last, if renderer then Surviving(closing, shared, now) else [], started,
            if damage != [] then animBoxes else [], damage != [], damaged + damage)
    }
  }

  class Covers {
    var lastCovers: map<Key, LastCover>
    var closing: seq<ClosingCover>
    var animBoxes: seq<AnimBox>
    /** Whether the pump's timer is armed, and what it has damaged so far. */
    var armed: bool
    var damaged: seq<Box>
    /** The key each closing cover was started for, oldest first, dropped ones included. */
    ghost var started: seq<Key>

    ghost function At(): State
      reads this
    {
      State(lastCovers, closing, started, animBoxes, armed, damaged)
    }

    constructor ()
      ensures At() == State(map[], [], [], [], false, [])
    {
      lastCovers, closing, animBoxes, armed, damaged := map[], [], [], false, [];
      started := [];
    }

    /** The close event of a hidden surface: the cover starts at once, and
        what was remembered of the surface is forgotten. */
    method StartClosing(key: Key, last: LastCover, captured: bool, now: nat)
      modifies this`lastCovers, this`closing, this`armed, this`started
      ensures if captured
              then && lastCovers == old(lastCovers) - {key}
                   && closing == old(closing) +
                        [ClosingCover(last.isLayer, last.monitor, last.box, last.rules, None, now + 150, None)]
                   && started == old(started) + [key] && armed
              else && lastCovers == old(lastCovers) && closing == old(closing)
                   && started == old(started) && armed == old(armed)
      ensures forall fades :: FadesDistinct(old(closing), fades) ==> FadesDistinct(closing, fades)
      ensures At() == old(At()).Close(key, last, captured, now)
    {
      if !captured {
        return;
      }
      lastCovers := lastCovers - {key};
      closing := closing + [NewClosing(last, last.monitor, now)];
      started := started + [key];
      armed := true;
    }

    method FindFadeFor(c: ClosingCover, mon: nat, fades: Fades) returns (best: Option<FadeId>)
      ensures best == FindFade(c, mon, closing, fades, |fades.order|)
    {
      best := None;
      var bestDistance := Reach(c.box);
      var n := 0;
      while n < |fades.order|
        invariant n <= |fades.order|
        invariant best == FindFade(c, mon, closing, fades, n)
        invariant bestDistance == if best.None? then Reach(c.box) else Distance(fades.live[best.value].box, c.box)
        invariant bestDistance <= Reach(c.box)
      {
        var id := fades.order[n];
        if id in fades.live {
          var f := fades.live[id];
          if !f.done && f.isLayer == c.isLayer && f.monitor == mon && !Taken(closing, id, fades) {
            var d := Distance(f.box, c.box);
            if d <= bestDistance {
              best := Some(id);
              bestDistance := d;
            }
          }
        }
        n := n + 1;
      }
    }

    /** One remembered cover: kept, turned into a closing cover, or forgotten. */
    method TrackOne(k: Key, f: Frame, fades: Fades)
      requires k in lastCovers
      modifies this`lastCovers, this`closing, this`started
      ensures lastCovers == if Kept(old(lastCovers)[k], k, f) then old(lastCovers) else old(lastCovers) - {k}
      ensures var c := LeftBehind(old(lastCovers)[k], k, old(closing), f, fades);
              && closing == (if c.Some? then old(closing) + [c.value] else old(closing))
              && started == (if c.Some? then old(started) + [k] else old(started))
    {
      var last := lastCovers[k];
      if Kept(last, k, f) {
        return;
      }
      if last.monitor in f.monitors && k !in f.onScreen {
        var c := NewClosing(last, f.mon, f.now);
        if !Fresh(last, f.now) {
          var fade := FindFadeFor(c, f.mon, fades);
          c := c.(fade := fade);
        }
        if Fresh(last, f.now) || c.fade.Some? {
          closing := closing + [c];
          started := started + [k];
        }
      }
      lastCovers := lastCovers - {k};
    }

    /** Covered surfaces of the frame's monitor that are not in this frame any more. keys:
        the order the hash map happens to be walked in. */
    method TrackClosed(f: Frame, fades: Fades, keys: seq<Key>)
      requires Lists(keys, lastCovers)
      modifies this`lastCovers, this`closing, this`started
      ensures old(closing) <= closing && BoundFrom(closing, old(closing), fades)
      ensures forall k :: k in lastCovers <==> k in old(lastCovers) && StillRemembered(old(lastCovers)[k], k, f)
      ensures forall k :: k in lastCovers ==> lastCovers[k] == old(lastCovers)[k]
      ensures closing == Tracked(old(lastCovers), keys, old(closing), f, fades).0
      ensures started == old(started) + Tracked(old(lastCovers), keys, old(closing), f, fades).1
      ensures FadesDistinct(old(closing), fades) ==> FadesDistinct(closing, fades)
    {
      ghost var was := lastCovers;
      assert old(started) + [] == started;
      var i := 0;
      while i < |keys|
        invariant i <= |keys|
        invariant TrackedSoFar(was, keys, i, old(closing), old(started), f, fades, lastCovers, closing, started)
      {
        TrackedNext(was, keys, i, old(closing), old(started), f, fades, lastCovers, closing, started);
        TrackOne(keys[i], f, fades);
        i := i + 1;
      }
      assert keys[..i] == keys;
      RemainingExactly(was, keys, f);
      TrackedBound(was, keys, old(closing), f, fades);
      if FadesDistinct(old(closing), fades) {
        TrackedKeepsDistinct(was, keys, old(closing), f, fades);
      }
    }

    /** Entry k in its turn: looks for its fade-out, follows it, or starts its hold. */
    method UpdateEntry(k: nat, now: nat, fades: Fades, closeHold: int) returns (c: ClosingCover)
      requires k < |closing|
      ensures c == PaintedEntry(closing, k, closing[k].monitor, now, fades, closeHold)
    {
      c := closing[k];
      if c.holdUntil.None? {
        var fade := Lock(c.fade, fades);
        if fade.None? && now < c.bindUntil {
          fade := FindFadeFor(c, c.monitor, fades);
          c := c.(fade := fade);
        }
        if fade.Some? && !fades.live[fade.value].done {
          c := c.(box := fades.live[fade.value].box);
        } else if fade.Some? || now >= c.bindUntil {
          c := c.(holdUntil := Some((if fade.Some? then now else c.bindUntil) + HoldFor(closeHold, c.rules)));
        }
      }
    }

    /** Closing covers in a frame: each is updated in its turn; returns the ones drawn. */
    method PaintClosing(mon: nat, now: nat, client: Client, left: bool, fades: Fades, closeHold: int)
      returns (drawn: seq<ClosingCover>)
      modifies this`closing
      ensures closing == PaintedList(old(closing), |old(closing)|, mon, now, fades, closeHold)
      ensures drawn == DrawnOf(closing, |closing|, mon, now, client, left)
      ensures BoundFrom(closing, old(closing), fades)
      ensures FadesDistinct(old(closing), fades) ==> FadesDistinct(closing, fades)
    {
      drawn := [];
      var k := 0;
      while k < |closing|
        invariant k <= |closing| == |old(closing)|
        invariant closing == PaintedList(old(closing), k, mon, now, fades, closeHold)
        invariant drawn == DrawnOf(closing, k, mon, now, client, left)
      {
        if closing[k].monitor == mon {
          ghost var before := closing;
          var c := UpdateEntry(k, now, fades, closeHold);
          closing := closing[k := c];
          DrawnPrefix(before, closing, k, mon, now, client, left);
          if IsLive(c, now) && !client.sees(c.rules) && !(left && c.rules.transparent) {
            drawn := drawn + [c];
          }
        }
        k := k + 1;
      }
      PaintedBound(old(closing), |old(closing)|, mon, now, fades, closeHold);
      if FadesDistinct(old(closing), fades) {
        PaintedKeepsDistinct(old(closing), |old(closing)|, mon, now, fades, closeHold);
      }
    }

    /** Covers drawn in this frame are remembered with its time. */
    method RecordCovered(covered: seq<Covered>, held: set<Key>) returns (seen: set<Key>)
      modifies this`lastCovers
      ensures lastCovers == Recorded(old(lastCovers), covered, held)
      ensures seen == KeysIn(covered)
    {
      seen := {};
      var n := 0;
      while n < |covered|
        invariant n <= |covered|
        invariant lastCovers == Recorded(old(lastCovers), covered[..n], held)
        invariant seen == KeysIn(covered[..n])
      {
        var c := covered[n];
        assert covered[..n + 1][..n] == covered[..n];
        assert covered[..n + 1] == covered[..n] + [c];
        assert KeysIn(covered[..n + 1]) == KeysIn(covered[..n]) + {c.key} by {
          forall k | k in KeysIn(covered[..n]) ensures k in KeysIn(covered[..n + 1]) {
            var i :| 0 <= i < n && covered[..n][i].key == k;
            assert covered[..n + 1][i].key == k;
          }
          assert covered[..n + 1][n].key == c.key;
        }
        seen := seen + {c.key};
        if c.key !in held {
          lastCovers := lastCovers[c.key := c.last];
        }
        n := n + 1;
      }
      assert covered[..n] == covered;
    }

    /** The order the hash map happens to be walked in: any. */
    method WalkOrder() returns (keys: seq<Key>)
      ensures Lists(keys, lastCovers)
    {
      keys := [];
      var left := lastCovers.Keys;
      while left != {}
        invariant left <= lastCovers.Keys
        invariant forall i :: 0 <= i < |keys| ==> keys[i] in lastCovers && keys[i] !in left
        invariant forall i, j :: 0 <= i < j < |keys| ==> keys[i] != keys[j]
        invariant forall k :: k in lastCovers ==> k in left || k in keys
        decreases left
      {
        var k :| k in left;
        keys := keys + [k];
        left := left - {k};
      }
    }

    /** Records a frame's covers and looks for what disappeared. */
    method Bookkeep(s: Shot) returns (keys: seq<Key>)
      requires s.Valid()
      modifies this`lastCovers, this`closing, this`started
      ensures Lists(keys, Recorded(old(lastCovers), s.covered, s.held))
      ensures (closing, started) == TrackedIn(s, old(lastCovers), keys, old(closing), old(started))
      ensures old(closing) <= closing
      ensures BoundFrom(closing, old(closing), s.fades)
      ensures FadesDistinct(old(closing), s.fades) ==> FadesDistinct(closing, s.fades)
      ensures lastCovers == RememberedAfter(old(lastCovers), s)
      ensures old(started) <= started
      ensures forall i :: |old(started)| <= i < |started| ==>
                started[i] in old(lastCovers) && started[i] !in KeysIn(s.covered) && started[i] !in s.onScreen
    {
      var seen := RecordCovered(s.covered, s.held);
      seen := seen + s.revealed;
      assert Frame(s.mon, s.monitors, seen, s.onScreen, s.now) == s.AsFrame();
      keys := WalkOrder();
      ghost var before, closing', started' := lastCovers, closing, started;
      TrackClosed(Frame(s.mon, s.monitors, seen, s.onScreen, s.now), s.fades, keys);
      StartedWereClosed(before, keys, closing', s.AsFrame(), s.fades, started');
      RecordedExactly(old(lastCovers), s.covered, s.held);
    }

    /** A whole frame: bookkeeping, then the covers of what is closing. */
    method TakeShot(s: Shot) returns (drawn: seq<ClosingCover>, keys: seq<Key>)
      requires s.Valid()
      modifies this
      ensures Lists(keys, Recorded(old(lastCovers), s.covered, s.held))
      ensures var tracked := TrackedIn(s, old(lastCovers), keys, old(closing), old(started));
              && closing == PaintedList(tracked.0, |tracked.0|, s.mon, s.now, s.fades, s.closeHold)
              && started == tracked.1 && old(closing) <= tracked.0
      ensures At() == old(At()).TakeShot(s, keys)
      ensures drawn == DrawnOf(closing, |closing|, s.mon, s.now, s.client, s.left)
      ensures armed <==> old(armed) || closing != [] || (s.animating && animBoxes != [])
      ensures animBoxes == old(animBoxes) && damaged == old(damaged)
      ensures BoundFrom(closing, old(closing), s.fades)
      ensures FadesDistinct(old(closing), s.fades) ==> FadesDistinct(closing, s.fades)
      ensures lastCovers == RememberedAfter(old(lastCovers), s)
      ensures old(started) <= started
      ensures forall i :: |old(started)| <= i < |started| ==>
                started[i] in old(lastCovers) && started[i] !in KeysIn(s.covered) && started[i] !in s.onScreen
    {
      keys := Bookkeep(s);
      drawn := PaintClosing(s.mon, s.now, s.client, s.left, s.fades, s.closeHold);
      armed := armed || closing != [] || (s.animating && animBoxes != []);
    }

    method DamageAnimated(shared: set<nat>) returns (any: bool)
      modifies this`damaged
      ensures damaged == old(damaged) + AnimDamage(animBoxes, shared)
      ensures any <==> AnimDamage(animBoxes, shared) != []
    {
      any := false;
      var n := 0;
      while n < |animBoxes|
        invariant n <= |animBoxes|
        invariant damaged == old(damaged) + AnimDamage(animBoxes[..n], shared)
        invariant any <==> AnimDamage(animBoxes[..n], shared) != []
      {
        assert animBoxes[..n + 1][..n] == animBoxes[..n];
        if animBoxes[n].monitor in shared {
          damaged := damaged + [animBoxes[n].box];
          any := true;
        }
        n := n + 1;
      }
      assert animBoxes[..n] == animBoxes;
    }

    method DamageClosing(shared: set<nat>) returns (any: bool)
      modifies this`damaged
      ensures damaged == old(damaged) + ClosingDamage(closing, shared)
      ensures any <==> ClosingDamage(closing, shared) != []
    {
      any := false;
      var n := 0;
      while n < |closing|
        invariant n <= |closing|
        invariant damaged == old(damaged) + ClosingDamage(closing[..n], shared)
        invariant any <==> ClosingDamage(closing[..n], shared) != []
      {
        assert closing[..n + 1][..n] == closing[..n];
        if closing[n].monitor in shared {
          damaged := damaged + [closing[n].box];
          any := true;
        }
        n := n + 1;
      }
      assert closing[..n] == closing;
    }

    /** What a tick damages, if there is anything. */
    method PumpDamage(renderer: bool, shared: set<nat>, animating: bool) returns (any: bool)
      modifies this`damaged
      ensures damaged == old(damaged) + old(At()).TickDamage(renderer, shared, animating)
      ensures any <==> old(At()).TickDamage(renderer, shared, animating) != []
    {
      any := false;
      if renderer {
        if animating {
          any := DamageAnimated(shared);
        }
        var more := DamageClosing(shared);
        any := any || more;
      }
    }

    /** One tick of the pump: everything still shown is damaged, also what the tick drops.
        With nothing left to repaint it goes idle. */
    method PumpTick(renderer: bool, shared: set<nat>, animating: bool, now: nat)
      modifies this`closing, this`animBoxes, this`damaged, this`armed
      ensures At() == old(At()).Tick(renderer, shared, animating, now)
    {
      TickDamages(closing, shared, now);
      var any := PumpDamage(renderer, shared, animating);
      if renderer {
        closing := Surviving(closing, shared, now);
      }
      if !any {
        animBoxes, closing := [], [];
      }
      armed := any;
    }
  }

  /** A surface that gets a cover in a frame, as it is remembered. */
  datatype Covered = Covered(key: Key, last: LastCover)

  function KeysIn(covered: seq<Covered>): set<Key> {
    set i | 0 <= i < |covered| :: covered[i].key
  }

  /** One capture frame as the bookkeeping sees it: the surfaces covered on its monitor,
      which of them are only held, the ones its client sees, what else is on screen. */
  datatype Shot = Shot(
    mon: nat, monitors: set<nat>, covered: seq<Covered>, held: set<Key>, revealed: set<Key>, onScreen: set<Key>,
    now: nat, client: Client, left: bool, fades: Fades, closeHold: int, animating: bool)
  {
    function AsFrame(): Frame {
      Frame(mon, monitors, KeysIn(covered) + revealed, onScreen, now)
    }

    ghost predicate Valid() {
      && mon in monitors
      && (forall i :: 0 <= i < |covered| ==> covered[i].last.monitor == mon)
      && (forall i, j :: 0 <= i < j < |covered| ==> covered[i].key != covered[j].key)
      && held <= KeysIn(covered)
    }
  }

  /** The remembered covers after a frame's own covers were recorded: a held one is
      left as it was remembered. */
  function Recorded(last: map<Key, LastCover>, covered: seq<Covered>, held: set<Key>): map<Key, LastCover> {
    if covered == [] then last
    else
      var c := covered[|covered| - 1];
      var m := Recorded(last, covered[..|covered| - 1], held);
      if c.key in held then m else m[c.key := c.last]
  }

  lemma {:induction false} RecordedExactly(last: map<Key, LastCover>, covered: seq<Covered>, held: set<Key>)
    requires forall i, j :: 0 <= i < j < |covered| ==> covered[i].key != covered[j].key
    ensures var m := Recorded(last, covered, held);
            && (forall k :: k in m <==> k in last || (k in KeysIn(covered) && k !in held))
            && (forall i :: 0 <= i < |covered| && covered[i].key !in held ==> m[covered[i].key] == covered[i].last)
            && (forall k :: k in last && (k !in KeysIn(covered) || k in held) ==> m[k] == last[k])
  {
    if covered != [] {
      var n := |covered| - 1;
      RecordedExactly(last, covered[..n], held);
      assert covered == covered[..n] + [covered[n]];
      assert KeysIn(covered) == KeysIn(covered[..n]) + {covered[n].key};
    }
  }

  /** The closing covers, and the keys they were started for, after a frame's bookkeeping. */
  function TrackedIn(s: Shot, last: map<Key, LastCover>, keys: seq<Key>, closing: seq<ClosingCover>,
      started: seq<Key>): (seq<ClosingCover>, seq<Key>)
    requires forall i :: 0 <= i < |keys| ==> keys[i] in Recorded(last, s.covered, s.held)
  {
    var (after, more) := Tracked(Recorded(last, s.covered, s.held), keys, closing, s.AsFrame(), s.fades);
    (after, started + more)
  }

  function EntryOf(last: map<Key, LastCover>, k: Key): Option<LastCover> {
    if k in last then Some(last[k]) else None
  }

  /** The remembered covers after a whole frame. */
  function RememberedAfter(last: map<Key, LastCover>, s: Shot): map<Key, LastCover> {
    var m := Recorded(last, s.covered, s.held);
    map k | k in m && Kept(m[k], k, s.AsFrame()) :: m[k]
  }

  /** Every covered surface is remembered with this frame's cover, or as it was if it is only
      held; everything else stays as it was, if it stays at all. */
  lemma RememberedExactly(last: map<Key, LastCover>, s: Shot)
    requires s.Valid()
    ensures forall i :: 0 <= i < |s.covered| ==>
              var k := s.covered[i].key;
              var before := EntryOf(last, k);
              (before.Some? && k in s.held ==> before.value.monitor in s.monitors) ==>
                EntryOf(RememberedAfter(last, s), k) == if k in s.held then before else Some(s.covered[i].last)
    ensures forall k :: k !in KeysIn(s.covered) ==>
              EntryOf(RememberedAfter(last, s), k) ==
                if k in last && (if last[k].monitor == s.mon then k in s.revealed else last[k].monitor in s.monitors)
                then Some(last[k]) else None
  {
    RecordedExactly(last, s.covered, s.held);
  }

  lemma StartedWereClosed(
    before: map<Key, LastCover>, keys: seq<Key>, closing: seq<ClosingCover>, f: Frame, fades: Fades, started: seq<Key>)
    requires Lists(keys, before)
    ensures var after := started + Tracked(before, keys, closing, f, fades).1;
            forall i :: |started| <= i < |after| ==> after[i] in before && Closed(before[after[i]], after[i], f)
  {
    TrackedStarts(before, keys, closing, f, fades);
    var tracked := Tracked(before, keys, closing, f, fades).1;
    var after := started + tracked;
    forall i | |started| <= i < |after| ensures after[i] in before && Closed(before[after[i]], after[i], f) {
      assert after[i] == tracked[i - |started|];
    }
  }

  /** The entries of a frame's monitor that get a cover, among the first n. */
  function DrawnOf(closing: seq<ClosingCover>, n: nat, mon: nat, now: nat, client: Client,
      left: bool): seq<ClosingCover>
    requires n <= |closing|
  {
    if n == 0 then []
    else DrawnOf(closing, n - 1, mon, now, client, left) +
         (if Drawn(closing[n - 1], mon, now, client, left) then [closing[n - 1]] else [])
  }

  lemma {:induction false} DrawnPrefix(a: seq<ClosingCover>, b: seq<ClosingCover>, n: nat, mon: nat, now: nat,
      client: Client, left: bool)
    requires n <= |a| && n <= |b| && a[..n] == b[..n]
    ensures DrawnOf(a, n, mon, now, client, left) == DrawnOf(b, n, mon, now, client, left)
  {
    if n > 0 {
      assert a[n - 1] == a[..n][n - 1] && b[n - 1] == b[..n][n - 1];
      assert a[..n - 1] == a[..n][..n - 1] && b[..n - 1] == b[..n][..n - 1];
      DrawnPrefix(a, b, n - 1, mon, now, client, left);
    }
  }

  /** A tick keeps it: its monitor is captured and its hold is not over. */
  predicate Survives(c: ClosingCover, shared: set<nat>, now: nat) {
    c.monitor in shared && IsLive(c, now)
  }

  function Surviving(closing: seq<ClosingCover>, shared: set<nat>, now: nat): seq<ClosingCover> {
    if closing == [] then []
    else (if Survives(closing[0], shared, now) then [closing[0]] else []) + Surviving(closing[1..], shared, now)
  }

  lemma {:induction false} SurvivingFrom(closing: seq<ClosingCover>, shared: set<nat>, now: nat)
    ensures forall c :: c in Surviving(closing, shared, now) <==>
              c in closing && c.monitor in shared && (c.holdUntil.None? || now < c.holdUntil.value)
  {
    if closing != [] {
      SurvivingFrom(closing[1..], shared, now);
      assert closing == [closing[0]] + closing[1..];
    }
  }

  lemma SurvivingBound(closing: seq<ClosingCover>, shared: set<nat>, now: nat, fades: Fades)
    ensures BoundFrom(Surviving(closing, shared, now), closing, fades)
  {
    SurvivingFrom(closing, shared, now);
    var left := Surviving(closing, shared, now);
    forall i | 0 <= i < |left| && left[i].fade.Some? ensures BoundIn(closing, left[i].fade.value) {
      assert left[i] in closing;
    }
  }

  lemma {:induction false} SurvivingDistinct(closing: seq<ClosingCover>, shared: set<nat>, now: nat, fades: Fades)
    requires FadesDistinct(closing, fades)
    ensures FadesDistinct(Surviving(closing, shared, now), fades)
  {
    if closing != [] {
      var rest := closing[1..];
      forall i, j | 0 <= i < j < |rest| && Lock(rest[i].fade, fades).Some?
        ensures Lock(rest[i].fade, fades) != Lock(rest[j].fade, fades)
      {
        assert rest[i] == closing[i + 1] && rest[j] == closing[j + 1];
      }
      SurvivingDistinct(rest, shared, now, fades);
      SurvivingFrom(rest, shared, now);
      var left := Surviving(rest, shared, now);
      forall j | 0 <= j < |left| && Lock(closing[0].fade, fades).Some?
        ensures Lock(closing[0].fade, fades) != Lock(left[j].fade, fades)
      {
        assert left[j] in left;
        var m :| 0 <= m < |rest| && rest[m] == left[j];
        assert closing[m + 1] == rest[m];
      }
    }
  }

  /** A tick damages the box of everything on a captured monitor, so also of every entry
      that it drops there; and if it damages nothing, nothing is left. */
  lemma {:induction false} TickDamages(closing: seq<ClosingCover>, shared: set<nat>, now: nat)
    ensures forall c :: c in closing && c.monitor in shared ==> c.box in ClosingDamage(closing, shared)
    ensures forall b :: b in ClosingDamage(closing, shared) ==> ClosingBox(b, closing, shared)
    ensures Surviving(closing, shared, now) != [] ==> ClosingDamage(closing, shared) != []
  {
    if closing != [] {
      var n := |closing| - 1;
      TickDamages(closing[..n], shared, now);
      assert closing == closing[..n] + [closing[n]];
      var left := Surviving(closing, shared, now);
      if left != [] {
        SurvivingFrom(closing, shared, now);
        var c := left[0];
        assert c in closing && c.box in ClosingDamage(closing, shared);
      }
    }
  }

  function ClosingDamage(closing: seq<ClosingCover>, shared: set<nat>): seq<Box> {
    if closing == [] then []
    else ClosingDamage(closing[..|closing| - 1], shared) +
         (if closing[|closing| - 1].monitor in shared then [closing[|closing| - 1].box] else [])
  }

  function AnimDamage(boxes: seq<AnimBox>, shared: set<nat>): seq<Box> {
    if boxes == [] then []
    else AnimDamage(boxes[..|boxes| - 1], shared) +
         (if boxes[|boxes| - 1].monitor in shared then [boxes[|boxes| - 1].box] else [])
  }

  ghost predicate ClosingBox(b: Box, closing: seq<ClosingCover>, shared: set<nat>) {
    exists c :: c in closing && c.monitor in shared && c.box == b
  }

  ghost predicate AnimatedBox(b: Box, boxes: seq<AnimBox>, shared: set<nat>) {
    exists a :: a in boxes && a.monitor in shared && a.box == b
  }

  lemma {:induction false} AnimatedDamages(boxes: seq<AnimBox>, shared: set<nat>)
    ensures forall b :: b in AnimDamage(boxes, shared) <==> AnimatedBox(b, boxes, shared)
  {
    if boxes != [] {
      var n := |boxes| - 1;
      AnimatedDamages(boxes[..n], shared);
      assert boxes == boxes[..n] + [boxes[n]];
    }
  }

  /** A tick damages the boxes of everything animated, while something animates, and of everything
      closing, on captured monitors. It drops what closed on others and what is held no longer. With
      nothing damaged it forgets the boxes and goes idle. */
  lemma TickExactly(s: State, renderer: bool, shared: set<nat>, animating: bool, now: nat)
    ensures var t := s.Tick(renderer, shared, animating, now);
            && s.damaged <= t.damaged
            && (var damage := t.damaged[|s.damaged|..];
                && (forall b :: b in damage <==>
                      && renderer
                      && ((animating && AnimatedBox(b, s.animBoxes, shared)) || ClosingBox(b, s.closing, shared)))
                && (t.armed <==> damage != []))
            && t.animBoxes == (if t.armed then s.animBoxes else [])
            && (forall c :: c in t.closing <==>
                  && renderer && c in s.closing && c.monitor in shared
                  && (c.holdUntil.None? || now < c.holdUntil.value))
            && t.last == s.last && t.started == s.started
  {
    var damage := s.TickDamage(renderer, shared, animating);
    assert (s.damaged + damage)[|s.damaged|..] == damage;
    TickDamages(s.closing, shared, now);
    AnimatedDamages(s.animBoxes, shared);
    SurvivingFrom(s.closing, shared, now);
  }

  // ---- the life of one closing cover ----

  datatype Phase = Searching | Following | Holding | Dropped

  /** Where an entry is; None once a tick has dropped it. */
  function PhaseOf(e: Option<ClosingCover>): Phase {
    if e.None? then Dropped
    else if e.value.holdUntil.Some? then Holding
    else if e.value.fade.Some? then Following
    else Searching
  }

  function Rank(p: Phase): nat {
    match p
    case Searching => 0
    case Following => 1
    case Holding => 2
    case Dropped => 3
  }

  /** What can happen to an entry: a frame of its monitor, in which a search would give
      found, or a tick of the pump while the monitor is captured. */
  datatype Moment = InFrame(now: nat, found: Option<FadeId>, fades: Fades) | Tick(now: nat)

  /** The search gives a fade-out that suits the entry, or none. */
  ghost predicate Possible(e: Option<ClosingCover>, m: Moment) {
    e.Some? && m.InFrame? && m.found.Some? ==>
      Suits(e.value.isLayer, e.value.box, e.value.monitor, m.found.value, m.fades)
  }

  /** A bound fade-out outlives the frame that sees it done. */
  ghost predicate FadeOutlives(e: Option<ClosingCover>, m: Moment) {
    m.InFrame? && PhaseOf(e) == Following ==> e.value.fade.value in m.fades.live
  }

  function Next(e: Option<ClosingCover>, m: Moment, closeHold: int): Option<ClosingCover> {
    if e.None? then None
    else
      match m
      case InFrame(now, found, fades) => Some(Updated(e.value, found, now, fades, closeHold))
      case Tick(now) => if IsLive(e.value, now) then e else None
  }

  /** What a frame of its monitor makes of an entry. One with a hold stays as it is. Else it keeps its
      fade-out, or binds one that suits before the end of its search. While that runs, the entry lies
      where it is and has no hold. Seen done, it starts the hold in this frame; without one, the hold
      counts from the end of the search. Nothing else moves or changes the entry. */
  ghost predicate FrameMoves(e: ClosingCover, now: nat, fades: Fades, closeHold: int, e': ClosingCover) {
    if e.holdUntil.Some? then e' == e
    else
      && e'.(fade := e.fade, box := e.box, holdUntil := None) == e
      && (e.fade.Some? ==> e'.fade == e.fade)
      && (e'.fade != e.fade ==> now < e.bindUntil && Suits(e.isLayer, e.box, e.monitor, e'.fade.value, fades))
      && if e'.fade.Some? && e'.fade.value in fades.live && !fades.live[e'.fade.value].done
         then e'.box == fades.live[e'.fade.value].box && e'.holdUntil.None?
         else && e'.box == e.box
              && e'.holdUntil == if e'.fade.Some? then Some(now + HoldFor(closeHold, e.rules))
                                 else if now < e.bindUntil then None
                                 else Some(e.bindUntil + HoldFor(closeHold, e.rules))
  }

  /** One moment only moves an entry forward. A frame binds, moves and holds it as above, and a tick
      drops it if its hold is over and else leaves it alone. */
  lemma NextMovesForward(e: Option<ClosingCover>, m: Moment, closeHold: int)
    requires Possible(e, m) && FadeOutlives(e, m)
    ensures var e' := Next(e, m, closeHold);
            && Rank(PhaseOf(e)) <= Rank(PhaseOf(e'))
            && (e.None? ==> e'.None?)
            && (e.Some? && m.InFrame? ==> e'.Some? && FrameMoves(e.value, m.now, m.fades, closeHold, e'.value))
            && (e.Some? && m.Tick? ==>
                  e' == if e.value.holdUntil.Some? && e.value.holdUntil.value <= m.now then None else e)
  {
  }

  /** Of the fade-outs that suit an entry that searched, each has a closing cover by the end of the
      frame, or is not nearer than the one it found. */
  ghost predicate NoneNearer(e: ClosingCover, found: Option<FadeId>, after: seq<ClosingCover>, fades: Fades) {
    forall i :: 0 <= i < |fades.order| && Suits(e.isLayer, e.box, e.monitor, fades.order[i], fades) ==>
      || BoundIn(after, fades.order[i])
      || (found.Some? && found.value in fades.live &&
          Apart(fades.live[found.value].box, e.box) <= Apart(fades.live[fades.order[i]].box, e.box))
  }

  lemma NearestIsNoneNearer(e: ClosingCover, closing: seq<ClosingCover>, fades: Fades)
    ensures NoneNearer(e, FindFade(e, e.monitor, closing, fades, |fades.order|), closing, fades)
  {
    FindFadeIsNearest(e, e.monitor, closing, fades, |fades.order|);
    var found := FindFade(e, e.monitor, closing, fades, |fades.order|);
    if found.Some? {
      var p: nat :| p < |fades.order| && fades.order[p] == found.value &&
                    forall k: nat :: k < |fades.order| ==> NotBefore(e, e.monitor, p, k, closing, fades);
      forall i | 0 <= i < |fades.order| && Free(e, e.monitor, fades.order[i], closing, fades)
        ensures Apart(fades.live[found.value].box, e.box) <= Apart(fades.live[fades.order[i]].box, e.box)
      {
        assert NotBefore(e, e.monitor, p, i, closing, fades);
      }
    }
  }

  /** A turn takes no fade-out that exists away from anyone. */
  lemma BoundStays(l: seq<ClosingCover>, k: nat, mon: nat, now: nat, fades: Fades, closeHold: int,
      e: ClosingCover, found: Option<FadeId>)
    requires k < |l| && NoneNearer(e, found, l, fades)
    ensures NoneNearer(e, found, l[k := PaintedEntry(l, k, mon, now, fades, closeHold)], fades)
  {
    var after := l[k := PaintedEntry(l, k, mon, now, fades, closeHold)];
    forall i | 0 <= i < |fades.order| && fades.order[i] in fades.live && BoundIn(l, fades.order[i])
      ensures BoundIn(after, fades.order[i])
    {
      var j :| 0 <= j < |l| && l[j].fade == Some(fades.order[i]);
      assert after[j].fade == Some(fades.order[i]);
    }
  }

  /** What a frame does to an entry of its monitor is the InFrame moment, for what its turn in the
      list found, if it searches: the nearest that nobody has; entries of other monitors are left alone. */
  lemma {:induction false} FrameIsMoment(closing: seq<ClosingCover>, n: nat, k: nat, mon: nat, now: nat, fades: Fades,
      closeHold: int)
    returns (found: Option<FadeId>)
    requires k < n <= |closing|
    ensures var c, after := closing[k], PaintedList(closing, n, mon, now, fades, closeHold);
            if c.monitor == mon
              then && Possible(Some(c), InFrame(now, found, fades))
                   && after[k] == Next(Some(c), InFrame(now, found, fades), closeHold).value
                   && (c.holdUntil.None? && c.fade.None? && now < c.bindUntil ==> NoneNearer(c, found, after, fades))
              else after[k] == c
  {
    var l := PaintedList(closing, n - 1, mon, now, fades, closeHold);
    if k == n - 1 {
      found := if Searches(l[k], now, fades) then FindFade(l[k], mon, l, fades, |fades.order|) else None;
      if closing[k].monitor == mon {
        FindFadeIsNearest(l[k], mon, l, fades, |fades.order|);
        NearestIsNoneNearer(l[k], l, fades);
      }
    } else {
      found := FrameIsMoment(closing, n - 1, k, mon, now, fades, closeHold);
    }
    var c := closing[k];
    if c.monitor == mon && c.holdUntil.None? && c.fade.None? && now < c.bindUntil {
      BoundStays(l, n - 1, mon, now, fades, closeHold, c, found);
    }
  }
}
