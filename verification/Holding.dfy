/** Holds: a visible surface whose rules no longer hide it stays covered a moment longer, and
    that moment never renews itself. */
module Holding {
  import opened Wrappers
  import opened Rules
  import Overrides
  import opened Closing

  /** A frame of the monitor the surface is on. check: when it is asked what to hold;
      hidden: the surface is really hidden now, to be remembered like this; shot: the rest
      of the frame, which goes on after check. */
  datatype HoldFrame = HoldFrame(check: nat, hidden: Option<LastCover>, shot: Shot)

  /** Frames of one monitor, in order, from clients that don't see the surface, which is on
      screen in all of them. */
  ghost predicate Watches(frames: seq<HoldFrame>, key: Key, mon: nat, closeHold: int) {
    && (forall n :: 0 <= n < |frames| ==> Watch(frames[n], key, mon, closeHold))
    && (forall n :: 0 < n < |frames| ==> frames[n - 1].shot.now <= frames[n].check)
    && (forall n, m :: 0 <= n < |frames| && 0 <= m < |frames| && frames[m].hidden.Some? ==>
          !frames[n].shot.client.sees(frames[m].hidden.value.rules))
  }

  ghost predicate Watch(f: HoldFrame, key: Key, mon: nat, closeHold: int) {
    && f.shot.Valid() && f.shot.mon == mon && f.shot.closeHold == closeHold && f.check <= f.shot.now
    && key !in KeysIn(f.shot.covered) && key !in f.shot.revealed && key in f.shot.onScreen
    && (f.hidden.Some? ==> f.hidden.value.monitor == mon && f.hidden.value.at == f.shot.now)
  }

  /** At time check, after the first n frames: the last frame it was really hidden in is less
      ago than the hold of the rules it had then. */
  ghost predicate WithinHold(frames: seq<HoldFrame>, n: nat, check: nat, closeHold: int)
    requires n <= |frames|
  {
    exists m :: 0 <= m < n && LastHidden(frames, m, n) &&
                check < frames[m].hidden.value.at + HoldFor(closeHold, frames[m].hidden.value.rules)
  }

  ghost predicate LastHidden(frames: seq<HoldFrame>, m: nat, n: nat)
    requires m < n <= |frames|
  {
    frames[m].hidden.Some? && forall j :: m < j < n ==> frames[j].hidden.None?
  }

  /** What is remembered of the surface after the first n frames. */
  function Remembered(frames: seq<HoldFrame>, n: nat, closeHold: int): Option<LastCover>
    requires n <= |frames|
  {
    if n == 0 then None
    else
      var e := Remembered(frames, n - 1, closeHold);
      if frames[n - 1].hidden.Some? then frames[n - 1].hidden
      else if StillHeld(e, frames[n - 1].check, closeHold) then e
      else None
  }

  predicate StillHeld(e: Option<LastCover>, check: nat, closeHold: int) {
    e.Some? && check < e.value.at + HoldFor(closeHold, e.value.rules)
  }

  /** What is remembered decides exactly as the last really hidden frame would. */
  lemma {:induction false} RememberedDecides(frames: seq<HoldFrame>, n: nat, check: nat, closeHold: int)
    requires n <= |frames|
    requires forall m :: 0 < m < |frames| ==> frames[m - 1].check <= frames[m].check
    requires n > 0 ==> frames[n - 1].check <= check
    ensures StillHeld(Remembered(frames, n, closeHold), check, closeHold) <==> WithinHold(frames, n, check, closeHold)
  {
    if n > 0 {
      var f := frames[n - 1];
      if f.hidden.Some? {
        assert LastHidden(frames, n - 1, n);
      } else {
        RememberedDecides(frames, n - 1, f.check, closeHold);
        RememberedDecides(frames, n - 1, check, closeHold);
        assert forall m :: 0 <= m < n - 1 ==> (LastHidden(frames, m, n) <==> LastHidden(frames, m, n - 1));
      }
    }
  }

  /** What is remembered is from one of the frames, of their monitor. */
  ghost predicate FromFrames(e: Option<LastCover>, frames: seq<HoldFrame>, mon: nat) {
    e.Some? ==> e.value.monitor == mon && exists m :: 0 <= m < |frames| && frames[m].hidden == e
  }

  /** Covered exactly while hidden, or last really hidden less than the hold before. */
  ghost predicate CoveredInHold(frames: seq<HoldFrame>, k: nat, closeHold: int, covered: bool)
    requires k < |frames|
  {
    covered <==> frames[k].hidden.Some? || WithinHold(frames, k, frames[k].check, closeHold)
  }

  /** The code's decision: hidden now, or held on to because of what is remembered. */
  predicate IsCovered(f: HoldFrame, key: Key, last: map<Key, LastCover>) {
    f.hidden.Some? || Overrides.Holds(last, key, f.shot.closeHold, f.check, f.shot.client)
  }

  /** The frame with the surface in it, if it is covered: as it is now, or held. */
  function TakenShot(f: HoldFrame, key: Key, last: map<Key, LastCover>): Shot {
    var s := f.shot;
    if f.hidden.Some? then s.(covered := s.covered + [Covered(key, f.hidden.value)])
    else if IsCovered(f, key, last) then
      s.(covered := s.covered + [Covered(key, last[key].(at := s.now))], held := s.held + {key})
    else s
  }

  /** What every frame of a run decides and remembers; trace: what is remembered before each
      frame, and after the last. */
  ghost predicate Decides(trace: seq<map<Key, LastCover>>, frames: seq<HoldFrame>, key: Key, covered: seq<bool>)
  {
    |trace| == |covered| + 1 && |covered| <= |frames| && forall n :: 0 <= n < |covered| ==>
      (covered[n] <==> IsCovered(frames[n], key, trace[n])) &&
      trace[n + 1] == RememberedAfter(trace[n], TakenShot(frames[n], key, trace[n]))
  }

  /** Over a run of frames the code covers the surface in a frame exactly when it is hidden
      then, or was last really hidden less than its hold before. */
  method RunHold(c: Covers, key: Key, mon: nat, frames: seq<HoldFrame>, closeHold: int)
    returns (covered: seq<bool>, ghost trace: seq<map<Key, LastCover>>)
    requires key !in c.lastCovers && Watches(frames, key, mon, closeHold)
    modifies c
    ensures |covered| == |frames| && |trace| == |frames| + 1
    ensures trace[0] == old(c.lastCovers) && trace[|frames|] == c.lastCovers
    ensures Decides(trace, frames, key, covered)
    ensures forall n :: 0 <= n < |frames| ==> CoveredInHold(frames, n, closeHold, covered[n])
  {
    covered, trace := [], [c.lastCovers];
    while |covered| < |frames|
      invariant Going(frames, key, mon, closeHold, covered, trace, old(c.lastCovers), c.lastCovers)
    {
      ghost var n, last := |covered|, c.lastCovers;
      var now := RunHoldStep(c, key, mon, frames, |covered|, closeHold, Remembered(frames, n, closeHold));
      GoingOn(frames, key, mon, closeHold, covered, trace, old(c.lastCovers), last, now, c.lastCovers);
      covered, trace := covered + [now], trace + [c.lastCovers];
    }
  }

  /** The first frames were taken: decided as the code does, right each time. */
  ghost predicate Going(frames: seq<HoldFrame>, key: Key, mon: nat, closeHold: int, covered: seq<bool>,
                        trace: seq<map<Key, LastCover>>, first: map<Key, LastCover>, last: map<Key, LastCover>)
  {
    && Decides(trace, frames, key, covered) && trace[0] == first && trace[|covered|] == last
    && EntryOf(last, key) == Remembered(frames, |covered|, closeHold)
    && FromFrames(Remembered(frames, |covered|, closeHold), frames, mon)
    && forall k :: 0 <= k < |covered| ==> CoveredInHold(frames, k, closeHold, covered[k])
  }

  lemma GoingOn(frames: seq<HoldFrame>, key: Key, mon: nat, closeHold: int, covered: seq<bool>,
                trace: seq<map<Key, LastCover>>, first: map<Key, LastCover>, last: map<Key, LastCover>,
                now: bool, next: map<Key, LastCover>)
    requires Going(frames, key, mon, closeHold, covered, trace, first, last) && |covered| < |frames|
    requires var n := |covered|;
             && (now <==> IsCovered(frames[n], key, last))
             && next == RememberedAfter(last, TakenShot(frames[n], key, last))
             && CoveredInHold(frames, n, closeHold, now) && EntryOf(next, key) == Remembered(frames, n + 1, closeHold)
             && FromFrames(Remembered(frames, n + 1, closeHold), frames, mon)
    ensures Going(frames, key, mon, closeHold, covered + [now], trace + [next], first, next)
  {
    DecidesMore(trace, frames, key, covered, now, next);
  }

  lemma DecidesMore(trace: seq<map<Key, LastCover>>, frames: seq<HoldFrame>, key: Key, covered: seq<bool>,
                    now: bool, next: map<Key, LastCover>)
    requires Decides(trace, frames, key, covered) && |covered| < |frames|
    requires var n := |covered|;
             (now <==> IsCovered(frames[n], key, trace[n])) &&
                 next == RememberedAfter(trace[n], TakenShot(frames[n], key, trace[n]))
    ensures Decides(trace + [next], frames, key, covered + [now])
  {
  }

  /** Frame n of the run, with e remembered before it. */
  method RunHoldStep(c: Covers, key: Key, mon: nat, frames: seq<HoldFrame>, n: nat, closeHold: int,
      ghost e: Option<LastCover>)
    returns (covered: bool)
    requires n < |frames| && Watches(frames, key, mon, closeHold)
    requires e == Remembered(frames, n, closeHold) == EntryOf(c.lastCovers, key) && FromFrames(e, frames, mon)
    modifies c
    ensures covered <==> IsCovered(frames[n], key, old(c.lastCovers))
    ensures c.lastCovers == RememberedAfter(old(c.lastCovers), TakenShot(frames[n], key, old(c.lastCovers)))
    ensures CoveredInHold(frames, n, closeHold, covered)
    ensures EntryOf(c.lastCovers, key) == Remembered(frames, n + 1, closeHold)
    ensures FromFrames(Remembered(frames, n + 1, closeHold), frames, mon)
  {
    var f := frames[n];
    assert Watch(f, key, mon, closeHold);
    forall m | 0 < m < |frames| ensures frames[m - 1].check <= frames[m].check {
      assert Watch(frames[m - 1], key, mon, closeHold);
    }
    RememberedDecides(frames, n, f.check, closeHold);
    covered := f.hidden.Some? || Overrides.Holds(c.lastCovers, key, closeHold, f.check, f.shot.client);
    assert f.hidden.None? ==> (covered <==> StillHeld(e, f.check, closeHold));
    TakenEntry(f, key, c.lastCovers);
    var drawn, keys := c.TakeShot(TakenShot(f, key, c.lastCovers));
  }

  /** What such a frame leaves remembered of the surface. */
  lemma TakenEntry(f: HoldFrame, key: Key, last: map<Key, LastCover>)
    requires Watch(f, key, f.shot.mon, f.shot.closeHold)
    requires key in last ==> last[key].monitor == f.shot.mon
    ensures var s := TakenShot(f, key, last);
            && s.Valid()
            && EntryOf(RememberedAfter(last, s), key) ==
                 if f.hidden.Some? then f.hidden else if IsCovered(f, key, last) then EntryOf(last, key) else None
  {
    var s := TakenShot(f, key, last);
    if IsCovered(f, key, last) {
      var others := f.shot.covered;
      assert s.covered[|others|].key == key;
      forall k | k in KeysIn(others) ensures k in KeysIn(s.covered) {
        var i :| 0 <= i < |others| && others[i].key == k;
        assert s.covered[i].key == k;
      }
      assert forall i :: 0 <= i < |others| ==> others[i].key in KeysIn(others);
    }
    RememberedExactly(last, s);
  }
}
