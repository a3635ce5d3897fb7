/** What patching the finished image amounts to: recomposing the stack with covers
    (refinement), and never showing what is hidden (non-interference). */
module PainterProofs {
  import opened Regions
  import opened Stacking
  import opened Painter

  /** Bottom-up composition at p of the first k windows of order, the ones left out
      skipped. asCovers: every hidden window is replaced by its cover. */
  ghost function Scene(f: Frame, order: seq<nat>, k: nat, asCovers: bool, p: Pixel, c: Color): Color
    requires k <= |order| && forall a :: 0 <= a < |order| ==> order[a] < |f.wins|
  {
    if k == 0 then c
    else
      var below := Scene(f, order, k - 1, asCovers, p, c);
      var w := f.wins[order[k - 1]];
      if Gone(f, w) then below
      else if asCovers && w.hidden then (if w.shape(p) then w.cover(p) else below)
      else w.look(p, below)
  }

  /** What the window passes make of the finished window stack over colour c. */
  ghost function Patched(f: Frame, order: seq<nat>, p: Pixel, c: Color): Color
    requires ValidFrame(f) && BottomToTop(Layers(f), order)
  {
    RedrawPass(f, order, |order|, p, CoverPass(f, |f.wins|, p, Scene(f, order, |order|, false, p, c)))
  }

  ghost predicate Rectangular(f: Frame) {
    && (forall i :: 0 <= i < |f.wins| ==> f.wins[i].round == 0)
    && (forall i, p :: 0 <= i < |f.wins| ==> (f.wins[i].shape(p) <==> f.wins[i].box.Contains(p)))
  }

  /** t is the topmost window covered at p. */
  ghost predicate TopmostCover(f: Frame, t: nat, p: Pixel)
    requires ValidFrame(f) && t < |f.wins|
  {
    CoveredAt(f, t, p) && forall i :: 0 <= i < |f.wins| && CoveredAt(f, i, p) ==> i == t || IsAbove(f, t, i)
  }

  /** The topmost window covered at p is also the last one in the list. */
  ghost predicate ListAgrees(f: Frame, p: Pixel)
    requires ValidFrame(f)
  {
    forall t, i :: 0 <= t < |f.wins| && 0 <= i < |f.wins| && TopmostCover(f, t, p) && CoveredAt(f, i, p) ==> i <= t
  }

  /** The highest position in order that is covered at p. */
  ghost predicate TopPosition(f: Frame, order: seq<nat>, top: nat, p: Pixel)
    requires ValidFrame(f) && BottomToTop(Layers(f), order)
  {
    && top < |order| && CoveredAt(f, order[top], p)
    && forall m :: top < m < |order| ==> !CoveredAt(f, order[m], p)
  }

  lemma {:induction false} FindTop(f: Frame, order: seq<nat>, n: nat, p: Pixel) returns (top: nat)
    requires ValidFrame(f) && BottomToTop(Layers(f), order) && n <= |order|
    requires exists m :: 0 <= m < n && CoveredAt(f, order[m], p)
    requires forall m :: n <= m < |order| ==> !CoveredAt(f, order[m], p)
    ensures TopPosition(f, order, top, p)
  {
    if CoveredAt(f, order[n - 1], p) {
      top := n - 1;
    } else {
      top := FindTop(f, order, n - 1, p);
    }
  }

  lemma TopIsTopmost(f: Frame, order: seq<nat>, top: nat, p: Pixel)
    requires ValidFrame(f) && BottomToTop(Layers(f), order) && TopPosition(f, order, top, p)
    ensures TopmostCover(f, order[top], p)
  {
    forall i | 0 <= i < |f.wins| && CoveredAt(f, i, p) ensures i == order[top] || IsAbove(f, order[top], i) {
      assert i in order;
      var m :| 0 <= m < |order| && order[m] == i;
      assert m == top || Above(Layers(f), order[top], order[m]);
    }
  }

  /** Above the topmost cover at p, nothing opaque or covered reaches p, and exactly the
      translucent windows there are drawn again. */
  lemma AboveTop(f: Frame, order: seq<nat>, top: nat, m: nat, p: Pixel)
    requires ValidFrame(f) && BottomToTop(Layers(f), order) && TopPosition(f, order, top, p)
    requires top < m < |order|
    ensures !Blocks(f, order[m], p)
    ensures !(Covered(f, order[m]) && f.wins[order[m]].box.Contains(p))
    ensures RedrawnAt(f, order[m], p) <==>
            !f.wins[order[m]].solid && !f.wins[order[m]].hidden && f.wins[order[m]].box.Contains(p)
  {
    var t, j, n := order[top], order[m], |f.wins|;
    assert IsAbove(f, j, t);
    assert !Blocked(f, t, n, p);
    forall o | 0 <= o < n && IsAbove(f, o, j) ensures !Blocks(f, o, p) {
      assert IsAbove(f, o, t);
    }
    assert !Blocked(f, j, n, p);
    assert CoverBelow(f, j, p);
    forall i | 0 <= i < n && IsAbove(f, i, j) ensures !CoveredAt(f, i, p) {
      TopIsTopmost(f, order, top, p);
      assert IsAbove(f, i, t) && !IsAbove(f, t, i);
    }
    assert !CoverAbove(f, j, p);
  }

  lemma BelowTop(f: Frame, order: seq<nat>, top: nat, m: nat, p: Pixel)
    requires ValidFrame(f) && BottomToTop(Layers(f), order) && TopPosition(f, order, top, p)
    requires m <= top
    ensures !RedrawnAt(f, order[m], p)
  {
    if m < top {
      assert IsAbove(f, order[top], order[m]);
      assert CoverAbove(f, order[m], p);
    }
  }

  /** Up to the topmost cover nothing is drawn again. */
  lemma {:induction false} RedrawUpToTop(f: Frame, order: seq<nat>, top: nat, k: nat, p: Pixel, c: Color)
    requires ValidFrame(f) && BottomToTop(Layers(f), order) && TopPosition(f, order, top, p)
    requires k <= top + 1
    ensures RedrawPass(f, order, k, p, c) == c
  {
    if k > 0 {
      RedrawUpToTop(f, order, top, k - 1, p, c);
      BelowTop(f, order, top, k - 1, p);
    }
  }

  /** Above it, drawing again is composing, once the topmost cover is on top at p. */
  lemma {:induction false} RedrawIsScene(f: Frame, order: seq<nat>, top: nat, k: nat, p: Pixel, c: Color, bg: Color)
    requires ValidFrame(f) && Rectangular(f) && BottomToTop(Layers(f), order) && TopPosition(f, order, top, p)
    requires top < k <= |order| && c == f.wins[order[top]].cover(p)
    ensures RedrawPass(f, order, k, p, c) == Scene(f, order, k, true, p, bg)
  {
    if k == top + 1 {
      RedrawUpToTop(f, order, top, k, p, c);
    } else {
      RedrawIsScene(f, order, top, k - 1, p, c, bg);
      AboveTop(f, order, top, k - 1, p);
      var w := f.wins[order[k - 1]];
      assert InCore(w.box, w.round, p) <==> w.box.Contains(p);
    }
  }

  /** The last window in the list that is covered at p gives the cover pass its colour. */
  lemma {:induction false} LastCoverWins(f: Frame, n: nat, i: nat, p: Pixel, c: Color)
    requires ValidFrame(f) && Rectangular(f) && i < n <= |f.wins|
    requires CoveredAt(f, i, p) && forall j :: i < j < n ==> !CoveredAt(f, j, p)
    ensures CoverPass(f, n, p, c) == f.wins[i].cover(p)
  {
    if n - 1 > i {
      LastCoverWins(f, n - 1, i, p, c);
    }
  }

  /** Where nothing is covered, hidden windows don't show in the finished image either. */
  lemma {:induction false} UncoveredScene(f: Frame, order: seq<nat>, k: nat, p: Pixel, c: Color)
    requires ValidFrame(f) && Rectangular(f) && BottomToTop(Layers(f), order) && k <= |order|
    requires !SomeCover(f, |f.wins|, p)
    ensures (forall m :: k <= m < |order| ==> !Blocks(f, order[m], p)) ==>
              Scene(f, order, k, true, p, c) == Scene(f, order, k, false, p, c)
  {
    if k > 0 && forall m :: k <= m < |order| ==> !Blocks(f, order[m], p) {
      var j := order[k - 1];
      var w := f.wins[j];
      assert InCore(w.box, w.round, p) <==> w.box.Contains(p);
      NothingAboveBlocks(f, order, k - 1, p);
      assert !(Covered(f, j) && w.box.Contains(p)) by {
        assert Covered(f, j) && w.box.Contains(p) ==> CoveredAt(f, j, p);
      }
      if !Blocks(f, j, p) {
        forall m | k - 1 <= m < |order| ensures !Blocks(f, order[m], p) {
        }
        UncoveredScene(f, order, k - 1, p, c);
      }
    }
  }

  lemma NothingAboveBlocks(f: Frame, order: seq<nat>, m: nat, p: Pixel)
    requires ValidFrame(f) && BottomToTop(Layers(f), order) && m < |order|
    requires forall a :: m < a < |order| ==> !Blocks(f, order[a], p)
    ensures !Blocked(f, order[m], |f.wins|, p)
  {
    forall o | 0 <= o < |f.wins| && IsAbove(f, o, order[m]) ensures !Blocks(f, o, p) {
      forall a | 0 <= a < m ensures order[a] != o {
        assert IsAbove(f, order[m], order[a]);
      }
      assert o in order;
      var a :| 0 <= a < |order| && order[a] == o;
    }
  }

  /** Where something is covered, whatever the image was before (c), the window passes leave
      the recomposition over any background (bg). */
  lemma CoveredPatch(f: Frame, order: seq<nat>, p: Pixel, c: Color, bg: Color)
    requires ValidFrame(f) && Rectangular(f) && BottomToTop(Layers(f), order)
    requires ListAgrees(f, p) && SomeCover(f, |f.wins|, p)
    ensures RedrawPass(f, order, |order|, p, CoverPass(f, |f.wins|, p, c)) == Scene(f, order, |order|, true, p, bg)
  {
    SomeCoverPosition(f, order, p);
    var top := FindTop(f, order, |order|, p);
    TopIsTopmost(f, order, top, p);
    LastCoverWins(f, |f.wins|, order[top], p, c);
    RedrawIsScene(f, order, top, |order|, p, f.wins[order[top]].cover(p), bg);
  }

  /** A rounded opaque window that lacks a corner pixel of its box is a window like any other. */
  lemma RoundedWindowExists(b: Box, round: int, a: Color)
    requires b.w >= 2 && b.h >= 2 && round > 0
    ensures exists w: Window :: ValidWindow(w) && w.box == b && w.round == round && w.solid && !w.shape(Pixel(b.x, b.y))
  {
    var corner := Pixel(b.x, b.y);
    var shape := (p: Pixel) => b.Contains(p) && p != corner;
    var w := Window(b, round, 0, true, false, false, shape,
                    (p: Pixel, c: Color) => if shape(p) then a else c, (p: Pixel) => a);
    CoreInNumbers(b, round, corner);
    assert ValidWindow(w) && w.box == b && w.round == round && w.solid && !w.shape(corner);
  }

  /** Refinement: at every pixel where the topmost cover is the last one in the list, the
      patched image is the bottom-up recomposition with covers in place of hidden windows. */
  lemma PatchIsRecomposition(f: Frame, order: seq<nat>, p: Pixel, c: Color)
    requires ValidFrame(f) && Rectangular(f) && BottomToTop(Layers(f), order)
    requires ListAgrees(f, p)
    ensures Patched(f, order, p, c) == Scene(f, order, |order|, true, p, c)
  {
    var finished := Scene(f, order, |order|, false, p, c);
    if SomeCover(f, |f.wins|, p) {
      CoveredPatch(f, order, p, finished, c);
    } else {
      CoverPassChanges(f, |f.wins|, p, finished);
      RedrawPassChanges(f, order, |order|, p, finished);
      UncoveredScene(f, order, |order|, p, c);
    }
  }

  lemma SomeCoverPosition(f: Frame, order: seq<nat>, p: Pixel)
    requires ValidFrame(f) && BottomToTop(Layers(f), order) && SomeCover(f, |f.wins|, p)
    ensures exists m :: 0 <= m < |order| && CoveredAt(f, order[m], p)
  {
    var i :| 0 <= i < |f.wins| && CoveredAt(f, i, p);
    assert i in order;
  }

  /** The condition holds wherever the topmost hidden window is opaque or last in the list
      among the hidden windows there. */
  lemma OpaqueOrLastAgrees(f: Frame, t: nat, p: Pixel)
    requires ValidFrame(f) && Rectangular(f) && t < |f.wins|
    requires Covered(f, t) && f.wins[t].box.Contains(p)
    requires forall i :: 0 <= i < |f.wins| && Covered(f, i) && f.wins[i].box.Contains(p) ==> i == t || IsAbove(f, t, i)
    requires f.wins[t].solid || forall i :: 0 <= i < |f.wins| && Covered(f, i) && f.wins[i].box.Contains(p) ==> i <= t
    ensures ListAgrees(f, p)
  {
    if f.wins[t].solid {
      assert InCore(f.wins[t].box, f.wins[t].round, p) && Blocks(f, t, p);
      forall i | 0 <= i < |f.wins| && i != t ensures !CoveredAt(f, i, p) {
        assert Covered(f, i) && f.wins[i].box.Contains(p) ==> Blocked(f, i, |f.wins|, p);
      }
    } else {
      forall s, i | 0 <= s < |f.wins| && 0 <= i < |f.wins| && TopmostCover(f, s, p) && CoveredAt(f, i, p)
        ensures i <= s
      {
        CoveredAbove(f, s, t, p);
      }
    }
  }

  /** Whatever blocks p above t would block the covers below it as well. */
  lemma CoveredAbove(f: Frame, s: nat, t: nat, p: Pixel)
    requires ValidFrame(f) && s < |f.wins| && t < |f.wins| && CoveredAt(f, s, p)
    requires Covered(f, t) && f.wins[t].box.Contains(p) && (s == t || IsAbove(f, t, s))
    ensures CoveredAt(f, t, p)
  {
    assert !Blocked(f, s, |f.wins|, p);
    forall o | 0 <= o < |f.wins| && IsAbove(f, o, t) ensures !Blocks(f, o, p) {
      assert IsAbove(f, o, s);
    }
  }

  // ---- exactly there: elsewhere some contents tell the two apart ----

  ghost predicate SameGeometry(f: Frame, g: Frame) {
    && f.left == g.left && |f.wins| == |g.wins|
    && forall i :: 0 <= i < |f.wins| ==> SameBut(f.wins[i], g.wins[i])
  }

  /** The two windows differ at most in what they and their covers look like. */
  ghost predicate SameBut(v: Window, w: Window) {
    && v.box == w.box && v.round == w.round && v.layer == w.layer && v.solid == w.solid
    && v.hidden == w.hidden && v.transparent == w.transparent && v.shape == w.shape
  }

  lemma GeometryDecides(f: Frame, g: Frame, p: Pixel)
    requires ValidFrame(f) && ValidFrame(g) && SameGeometry(f, g)
    ensures Layers(f) == Layers(g)
    ensures forall i :: 0 <= i < |f.wins| ==> (CoveredAt(f, i, p) <==> CoveredAt(g, i, p))
    ensures forall i :: 0 <= i < |f.wins| ==> (RedrawnAt(f, i, p) <==> RedrawnAt(g, i, p))
  {
    assert Layers(f) == Layers(g);
    var n := |f.wins|;
    forall i | 0 <= i < n
      ensures Blocks(f, i, p) <==> Blocks(g, i, p)
      ensures Covered(f, i) <==> Covered(g, i)
      ensures forall o :: 0 <= o < n ==> (IsAbove(f, o, i) <==> IsAbove(g, o, i))
    {
      assert SameBut(f.wins[i], g.wins[i]);
    }
    forall i | 0 <= i < n ensures Blocked(f, i, n, p) <==> Blocked(g, i, n, p) {
    }
    forall i | 0 <= i < n ensures CoveredAt(f, i, p) <==> CoveredAt(g, i, p) {
      assert SameBut(f.wins[i], g.wins[i]);
    }
    forall i | 0 <= i < n ensures RedrawnAt(f, i, p) <==> RedrawnAt(g, i, p) {
      assert SameBut(f.wins[i], g.wins[i]);
      assert CoverBelow(f, i, p) <==> CoverBelow(g, i, p);
      assert CoverAbove(f, i, p) <==> CoverAbove(g, i, p);
    }
  }

  /** Same geometry, simplest contents: translucent windows draw nothing, opaque ones and
      the cover of t draw a, every other cover draws b. */
  ghost function Repaint(f: Frame, t: nat, a: Color, b: Color): (g: Frame)
    ensures SameGeometry(f, g)
  {
    f.(wins := seq(|f.wins|, i requires 0 <= i < |f.wins| => RepaintWindow(f.wins[i], if i == t then a else b, a)))
  }

  ghost function RepaintWindow(w: Window, cover: Color, a: Color): (v: Window)
    ensures SameBut(w, v)
  {
    var shape := w.shape;
    w.(look := if w.solid then (p: Pixel, c: Color) => if shape(p) then a else c else (p: Pixel, c: Color) => c,
       cover := (p: Pixel) => cover)
  }

  lemma RepaintIsValid(f: Frame, t: nat, a: Color, b: Color)
    requires ValidFrame(f) && Rectangular(f)
    ensures ValidFrame(Repaint(f, t, a, b)) && Rectangular(Repaint(f, t, a, b))
  {
    var g := Repaint(f, t, a, b);
    forall i | 0 <= i < |g.wins| ensures ValidWindow(g.wins[i]) {
      assert ValidWindow(f.wins[i]) && SameBut(f.wins[i], g.wins[i]);
    }
    forall i, p | 0 <= i < |g.wins|
      ensures g.wins[i].round == 0 && (g.wins[i].shape(p) <==> g.wins[i].box.Contains(p))
    {
      assert SameBut(f.wins[i], g.wins[i]);
      assert f.wins[i].round == 0 && (f.wins[i].shape(p) <==> f.wins[i].box.Contains(p));
    }
  }

  lemma {:induction false} RepaintRedrawsNothing(f: Frame, t: nat, a: Color, b: Color, order: seq<nat>, k: nat,
      p: Pixel, c: Color)
    requires ValidFrame(Repaint(f, t, a, b)) && k <= |order|
    requires forall m :: 0 <= m < |order| ==> order[m] < |f.wins|
    ensures RedrawPass(Repaint(f, t, a, b), order, k, p, c) == c
  {
    if k > 0 {
      RepaintRedrawsNothing(f, t, a, b, order, k - 1, p, c);
    }
  }

  lemma {:induction false} LastCovered(f: Frame, n: nat, i: nat, p: Pixel) returns (last: nat)
    requires ValidFrame(f) && i < n <= |f.wins| && CoveredAt(f, i, p)
    ensures i <= last < n && CoveredAt(f, last, p) && forall j :: last < j < n ==> !CoveredAt(f, j, p)
  {
    if CoveredAt(f, n - 1, p) {
      last := n - 1;
    } else {
      last := LastCovered(f, n - 1, i, p);
    }
  }

  lemma TopmostPosition(f: Frame, order: seq<nat>, t: nat, p: Pixel) returns (top: nat)
    requires ValidFrame(f) && BottomToTop(Layers(f), order) && t < |f.wins| && TopmostCover(f, t, p)
    ensures TopPosition(f, order, top, p) && order[top] == t
  {
    assert t in order;
    top :| 0 <= top < |order| && order[top] == t;
    forall m | top < m < |order| ensures !CoveredAt(f, order[m], p) {
      assert IsAbove(f, order[m], t) && !IsAbove(f, t, order[m]);
    }
  }

  /** The repainted frame at p, where t is the topmost cover and i comes after it in the list. */
  lemma RepaintTells(f: Frame, order: seq<nat>, t: nat, i: nat, p: Pixel, a: Color, b: Color, c: Color)
    requires ValidFrame(f) && Rectangular(f) && BottomToTop(Layers(f), order)
    requires t < i < |f.wins| && TopmostCover(f, t, p) && CoveredAt(f, i, p)
    ensures var g := Repaint(f, t, a, b);
            ValidFrame(g) && Rectangular(g) && Layers(g) == Layers(f) &&
            Patched(g, order, p, c) == b && Scene(g, order, |order|, true, p, c) == a
  {
    var g := Repaint(f, t, a, b);
    RepaintIsValid(f, t, a, b);
    GeometryDecides(f, g, p);
    assert TopmostCover(g, t, p) by {
      forall j | 0 <= j < |g.wins| && CoveredAt(g, j, p) ensures j == t || IsAbove(g, t, j) {
        assert j == t || IsAbove(f, t, j);
      }
    }
    var top := TopmostPosition(g, order, t, p);
    var last := LastCovered(g, |g.wins|, i, p);
    var finished := Scene(g, order, |order|, false, p, c);
    LastCoverWins(g, |g.wins|, last, p, finished);
    RepaintRedrawsNothing(f, t, a, b, order, |order|, p, CoverPass(g, |g.wins|, p, finished));
    RepaintRedrawsNothing(f, t, a, b, order, |order|, p, a);
    RedrawIsScene(g, order, top, |order|, p, a, c);
  }

  /** Where the list disagrees, the patch shows another cover than the recomposition. */
  lemma ListDecides(f: Frame, order: seq<nat>, p: Pixel, a: Color, b: Color, c: Color)
    requires ValidFrame(f) && Rectangular(f) && BottomToTop(Layers(f), order)
    requires !ListAgrees(f, p) && a != b
    ensures exists g: Frame :: ValidFrame(g) && Rectangular(g) && SameGeometry(f, g) && Layers(g) == Layers(f) &&
                               Patched(g, order, p, c) == b && Scene(g, order, |order|, true, p, c) == a
  {
    var t, i :| 0 <= t < |f.wins| && 0 <= i < |f.wins| && TopmostCover(f, t, p) && CoveredAt(f, i, p) && i > t;
    RepaintTells(f, order, t, i, p, a, b, c);
  }

  /** A translucent window of one pixel that draws nothing itself, hidden. */
  function HiddenDot(layer: int, cover: Color): Window {
    Window(Box(0, 0, 1, 1), 0, layer, false, true, false,
           (p: Pixel) => p == Pixel(0, 0), (p: Pixel, c: Color) => c, (p: Pixel) => cover)
  }

  /** The upper one comes first in the list. */
  function CrossedFrame(upper: Color, lower: Color): Frame {
    Frame(false, [HiddenDot(1, upper), HiddenDot(0, lower)], [], [], (p: Pixel) => upper)
  }

  lemma CrossedCovered(upper: Color, lower: Color)
    ensures var f, p := CrossedFrame(upper, lower), Pixel(0, 0);
            && ValidFrame(f) && Rectangular(f) && BottomToTop(Layers(f), [1, 0])
            && CoveredAt(f, 0, p) && CoveredAt(f, 1, p) && IsAbove(f, 0, 1)
  {
    var f, p := CrossedFrame(upper, lower), Pixel(0, 0);
    assert Layers(f) == [1, 0];
    assert [1, 0][0] == 1 && [1, 0][1] == 0;
    assert !Blocked(f, 0, 2, p) && !Blocked(f, 1, 2, p);
  }

  /** An input that fails: of two such windows the painter shows the lower one's cover, and the
      recomposition the upper one's. */
  lemma CrossedWindows(upper: Color, lower: Color, c: Color)
    ensures var f, p := CrossedFrame(upper, lower), Pixel(0, 0);
            && ValidFrame(f) && Rectangular(f) && BottomToTop(Layers(f), [1, 0]) && !ListAgrees(f, p)
            && Patched(f, [1, 0], p, c) == lower && Scene(f, [1, 0], 2, true, p, c) == upper
  {
    var f, p := CrossedFrame(upper, lower), Pixel(0, 0);
    CrossedCovered(upper, lower);
    assert TopmostCover(f, 0, p) && TopPosition(f, [1, 0], 1, p);
    var finished := Scene(f, [1, 0], 2, false, p, c);
    LastCoverWins(f, 2, 1, p, finished);
    RedrawUpToTop(f, [1, 0], 1, 2, p, CoverPass(f, 2, p, finished));
    RedrawUpToTop(f, [1, 0], 1, 2, p, upper);
    RedrawIsScene(f, [1, 0], 1, 2, p, upper, c);
  }

  /** The exact condition: given the geometry alone, the patch equals the recomposition at p
      for all contents if and only if the topmost cover there is the last one in the list. */
  lemma PatchFaithfulExactly(f: Frame, order: seq<nat>, p: Pixel, a: Color, b: Color)
    requires ValidFrame(f) && Rectangular(f) && BottomToTop(Layers(f), order) && a != b
    ensures ListAgrees(f, p) <==>
            forall g: Frame, c: Color ::
              ValidFrame(g) && Rectangular(g) && SameGeometry(f, g) && BottomToTop(Layers(g), order) ==>
                Patched(g, order, p, c) == Scene(g, order, |order|, true, p, c)
  {
    if ListAgrees(f, p) {
      forall g: Frame, c: Color |
        ValidFrame(g) && Rectangular(g) && SameGeometry(f, g) && BottomToTop(Layers(g), order)
        ensures Patched(g, order, p, c) == Scene(g, order, |order|, true, p, c)
      {
        GeometryDecides(f, g, p);
        assert ListAgrees(g, p) by {
          forall t, i | 0 <= t < |g.wins| && 0 <= i < |g.wins| && TopmostCover(g, t, p) && CoveredAt(g, i, p)
            ensures i <= t
          {
            assert TopmostCover(f, t, p) by {
              forall j | 0 <= j < |f.wins| && CoveredAt(f, j, p) ensures j == t || IsAbove(f, t, j) {
                assert j == t || IsAbove(g, t, j);
              }
            }
          }
        }
        PatchIsRecomposition(g, order, p, c);
      }
    } else {
      ListDecides(f, order, p, a, b, a);
    }
  }

  // ---- the whole frame, layers included ----

  /** Bottom-up composition at p of the layers of one level, the ones left out skipped. */
  ghost function LevelScene(f: Frame, level: nat, n: nat, p: Pixel, c: Color): Color
    requires n <= |f.layers|
  {
    if n == 0 then c
    else
      var l := f.layers[n - 1];
      var below := LevelScene(f, level, n - 1, p, c);
      if l.level == level && !GoneLayer(f, l) then l.look(p, below) else below
  }

  /** The image the compositor finished: wallpaper, low layers, windows, high layers. */
  ghost function Finished(f: Frame, order: seq<nat>, p: Pixel): Color
    requires forall a :: 0 <= a < |order| ==> order[a] < |f.wins|
  {
    var n := |f.layers|;
    var low := LevelScene(f, 1, n, p, LevelScene(f, 0, n, p, f.wallpaper(p)));
    var windows := Scene(f, order, |order|, false, p, low);
    LevelScene(f, 3, n, p, LevelScene(f, 2, n, p, windows))
  }

  /** Everything from the wallpaper up, with covers in place of hidden windows. */
  ghost function Recomposed(f: Frame, order: seq<nat>, p: Pixel): Color
    requires forall a :: 0 <= a < |order| ==> order[a] < |f.wins|
  {
    var n := |f.layers|;
    var low := LevelScene(f, 1, n, p, LevelScene(f, 0, n, p, f.wallpaper(p)));
    var windows := Scene(f, order, |order|, true, p, low);
    LevelScene(f, 3, n, p, LevelScene(f, 2, n, p, windows))
  }

  /** A hidden layer that is in the image reaches p. */
  ghost predicate HiddenLayerAt(f: Frame, n: nat, p: Pixel)
    requires n <= |f.layers|
  {
    exists k :: 0 <= k < n && f.layers[k].hidden && !GoneLayer(f, f.layers[k]) && f.layers[k].box.Contains(p)
  }

  lemma {:induction false} LayerPassChanges(f: Frame, n: nat, p: Pixel, c: Color)
    requires n <= |f.layers| && !HiddenLayerAt(f, |f.layers|, p)
    ensures LayerPass(f, n, p, c) == c
  {
    if n > 0 {
      LayerPassChanges(f, n - 1, p, c);
    }
  }

  /** Over a cover, drawing the shown layers of a level again is composing them. */
  lemma {:induction false} TopLayersCompose(f: Frame, level: nat, n: nat, p: Pixel, c: Color)
    requires ValidFrame(f) && n <= |f.layers| && !HiddenLayerAt(f, |f.layers|, p) && CoverArea(f, p)
    ensures TopLayerPass(f, level, n, p, c) == LevelScene(f, level, n, p, c)
  {
    if n > 0 {
      TopLayersCompose(f, level, n - 1, p, c);
      var l := f.layers[n - 1];
      assert l in f.layers;
    }
  }

  /** Refinement of the whole frame: where no hidden layer and nothing closing reaches p, the
      painted image is everything recomposed, low layers, windows and top layers. */
  lemma FrameIsRecomposition(f: Frame, order: seq<nat>, p: Pixel)
    requires ValidFrame(f) && Rectangular(f) && BottomToTop(Layers(f), order) && ListAgrees(f, p)
    requires !HiddenLayerAt(f, |f.layers|, p) && !ClosingArea(f, |f.closing|, p)
    ensures Painted(f, order, p, Finished(f, order, p)) == Recomposed(f, order, p)
  {
    var n := |f.layers|;
    var finished := Finished(f, order, p);
    var low := LevelScene(f, 1, n, p, LevelScene(f, 0, n, p, f.wallpaper(p)));
    var windows := RedrawPass(f, order, |order|, p, CoverPass(f, |f.wins|, p, finished));
    LayerPassChanges(f, n, p, windows);
    ClosingPassChanges(f, |f.closing|, p, windows);
    if SomeCover(f, |f.wins|, p) {
      CoveredPatch(f, order, p, finished, low);
      TopLayersCompose(f, 2, n, p, windows);
      TopLayersCompose(f, 3, n, p, LevelScene(f, 2, n, p, windows));
    } else {
      CoverPassChanges(f, |f.wins|, p, finished);
      RedrawPassChanges(f, order, |order|, p, finished);
      TopLayerPassChanges(f, 2, n, p, finished);
      TopLayerPassChanges(f, 3, n, p, finished);
      UncoveredScene(f, order, |order|, p, low);
    }
  }

  /** The painter at work on the finished image, whichever way its sort lists the windows. */
  method PaintFrame(c: Canvas, f: Frame, ghost order: seq<nat>)
    requires ValidFrame(f) && BottomToTop(Layers(f), order)
    requires forall p :: c.image(p) == Finished(f, order, p)
    modifies c
    ensures forall p :: c.image(p) == Painted(f, order, p, Finished(f, order, p))
    ensures Rectangular(f) ==>
              forall p :: ListAgrees(f, p) && !HiddenLayerAt(f, |f.layers|, p) && !ClosingArea(f, |f.closing|, p) ==>
                c.image(p) == Recomposed(f, order, p)
  {
    var sorted := c.PaintCovers(f);
    StackingIsUnique(Layers(f), sorted, order, |f.wins|);
    assert sorted[..|f.wins|] == sorted && order[..|f.wins|] == order;
    forall p | Rectangular(f) && ListAgrees(f, p) && !HiddenLayerAt(f, |f.layers|, p) && !ClosingArea(f, |f.closing|, p)
      ensures c.image(p) == Recomposed(f, order, p)
    {
      FrameIsRecomposition(f, order, p);
    }
  }

  // ---- non-interference ----

  ghost predicate SameLayer(l: Layer, m: Layer) {
    && l.box == m.box && l.level == m.level && l.hidden == m.hidden && l.transparent == m.transparent
    && l.cover == m.cover && (!l.hidden ==> l.look == m.look)
  }

  /** The two frames differ only in the contents of hidden windows and hidden layers. */
  ghost predicate DifferInHidden(f: Frame, g: Frame) {
    && SameGeometry(f, g)
    && (forall i :: 0 <= i < |f.wins| ==>
          f.wins[i].cover == g.wins[i].cover && (!f.wins[i].hidden ==> f.wins[i].look == g.wins[i].look))
    && |f.layers| == |g.layers|
    && (forall n :: 0 <= n < |f.layers| ==> SameLayer(f.layers[n], g.layers[n]))
    && f.closing == g.closing && f.wallpaper == g.wallpaper
  }

  lemma {:induction false} LevelSceneSame(f: Frame, g: Frame, level: nat, n: nat, p: Pixel, c: Color)
    requires ValidFrame(f) && ValidFrame(g) && DifferInHidden(f, g) && n <= |f.layers|
    requires !HiddenLayerAt(f, |f.layers|, p)
    ensures LevelScene(f, level, n, p, c) == LevelScene(g, level, n, p, c)
  {
    if n > 0 {
      LevelSceneSame(f, g, level, n - 1, p, c);
      var l, m := f.layers[n - 1], g.layers[n - 1];
      assert SameLayer(l, m) && l in f.layers && m in g.layers;
    }
  }

  /** From a common colour on, windows that don't show anything hidden at p agree. */
  lemma {:induction false} SceneSame(f: Frame, g: Frame, order: seq<nat>, from: nat, k: nat, p: Pixel, c: Color)
    requires ValidFrame(f) && ValidFrame(g) && DifferInHidden(f, g)
    requires from <= k <= |order| && forall a :: 0 <= a < |order| ==> order[a] < |f.wins|
    requires Scene(f, order, from, false, p, c) == Scene(g, order, from, false, p, c)
    requires forall m :: from <= m < k ==> !(Covered(f, order[m]) && f.wins[order[m]].shape(p))
    ensures Scene(f, order, k, false, p, c) == Scene(g, order, k, false, p, c)
  {
    if k > from {
      SceneSame(f, g, order, from, k - 1, p, c);
      var j := order[k - 1];
      assert SameBut(f.wins[j], g.wins[j]);
      assert ValidWindow(f.wins[j]) && ValidWindow(g.wins[j]);
    }
  }

  lemma {:induction false} TopHidden(f: Frame, order: seq<nat>, n: nat, p: Pixel) returns (top: int)
    requires n <= |order| && forall a :: 0 <= a < |order| ==> order[a] < |f.wins|
    requires forall m :: n <= m < |order| ==> !(Covered(f, order[m]) && f.wins[order[m]].shape(p))
    ensures -1 <= top < |order|
    ensures top >= 0 ==> Covered(f, order[top]) && f.wins[order[top]].shape(p)
    ensures forall m :: top < m < |order| ==> !(Covered(f, order[m]) && f.wins[order[m]].shape(p))
  {
    if n == 0 {
      top := -1;
    } else if Covered(f, order[n - 1]) && f.wins[order[n - 1]].shape(p) {
      top := n - 1;
    } else {
      top := TopHidden(f, order, n - 1, p);
    }
  }

  /** Either a cover is drawn on p, or the window stack shows nothing hidden there. */
  lemma CoveredOrSame(f: Frame, g: Frame, order: seq<nat>, p: Pixel, c: Color)
    requires ValidFrame(f) && ValidFrame(g) && DifferInHidden(f, g) && BottomToTop(Layers(f), order)
    ensures || (exists i :: 0 <= i < |f.wins| && CoveredAt(f, i, p) && f.wins[i].shape(p))
            || Scene(f, order, |order|, false, p, c) == Scene(g, order, |order|, false, p, c)
  {
    var top := TopHidden(f, order, |order|, p);
    if top < 0 {
      SceneSame(f, g, order, 0, |order|, p, c);
    } else if !CoveredAt(f, order[top], p) {
      assert ValidWindow(f.wins[order[top]]);
      var k := BlockerAbove(f, order, top, p);
      BlockerShowsItself(f, g, order, k, p, c);
      SceneSame(f, g, order, k + 1, |order|, p, c);
    }
  }

  lemma BlockerAbove(f: Frame, order: seq<nat>, m: nat, p: Pixel) returns (k: nat)
    requires ValidFrame(f) && BottomToTop(Layers(f), order) && m < |order| && Blocked(f, order[m], |f.wins|, p)
    ensures m < k < |order| && Blocks(f, order[k], p)
  {
    var o :| 0 <= o < |f.wins| && IsAbove(f, o, order[m]) && Blocks(f, o, p);
    forall a | 0 <= a < m ensures order[a] != o {
      assert IsAbove(f, order[m], order[a]);
    }
    assert o in order;
    k :| 0 <= k < |order| && order[k] == o;
  }

  lemma BlockerShowsItself(f: Frame, g: Frame, order: seq<nat>, k: nat, p: Pixel, c: Color)
    requires ValidFrame(f) && ValidFrame(g) && DifferInHidden(f, g) && BottomToTop(Layers(f), order)
    requires k < |order| && Blocks(f, order[k], p)
    requires !(Covered(f, order[k]) && f.wins[order[k]].shape(p))
    ensures Scene(f, order, k + 1, false, p, c) == Scene(g, order, k + 1, false, p, c)
  {
    var v, w := f.wins[order[k]], g.wins[order[k]];
    assert SameBut(v, w) && ValidWindow(v) && ValidWindow(w);
    assert v.look == w.look;
    var below, below' := Scene(f, order, k, false, p, c), Scene(g, order, k, false, p, c);
    assert v.look(p, below) == v.look(p, below');
  }

  lemma {:induction false} CoverPassSame(f: Frame, g: Frame, n: nat, p: Pixel, c: Color, d: Color)
    requires ValidFrame(f) && ValidFrame(g) && DifferInHidden(f, g) && n <= |f.wins|
    requires c == d || exists i :: 0 <= i < n && CoveredAt(f, i, p) && f.wins[i].shape(p)
    ensures CoverPass(f, n, p, c) == CoverPass(g, n, p, d)
  {
    if n > 0 {
      GeometryDecides(f, g, p);
      assert SameBut(f.wins[n - 1], g.wins[n - 1]);
      if !(CoveredAt(f, n - 1, p) && f.wins[n - 1].shape(p)) {
        CoverPassSame(f, g, n - 1, p, c, d);
      }
    }
  }

  lemma {:induction false} RedrawPassSame(f: Frame, g: Frame, order: seq<nat>, k: nat, p: Pixel, c: Color)
    requires ValidFrame(f) && ValidFrame(g) && DifferInHidden(f, g)
    requires k <= |order| && forall a :: 0 <= a < |order| ==> order[a] < |f.wins|
    ensures RedrawPass(f, order, k, p, c) == RedrawPass(g, order, k, p, c)
  {
    if k > 0 {
      RedrawPassSame(f, g, order, k - 1, p, c);
      GeometryDecides(f, g, p);
    }
  }

  lemma {:induction false} LayerPassSame(f: Frame, g: Frame, n: nat, p: Pixel, c: Color, d: Color)
    requires DifferInHidden(f, g) && n <= |f.layers|
    requires c == d || HiddenLayerAt(f, n, p)
    ensures LayerPass(f, n, p, c) == LayerPass(g, n, p, d)
  {
    if n > 0 {
      var l := f.layers[n - 1];
      assert SameLayer(l, g.layers[n - 1]);
      if !(l.hidden && !GoneLayer(f, l) && l.box.Contains(p)) {
        LayerPassSame(f, g, n - 1, p, c, d);
      }
    }
  }

  lemma {:induction false} ClosingPassSame(f: Frame, g: Frame, n: nat, p: Pixel, c: Color)
    requires f.closing == g.closing && n <= |f.closing|
    ensures ClosingPass(f, n, p, c) == ClosingPass(g, n, p, c)
  {
    if n > 0 {
      ClosingPassSame(f, g, n - 1, p, c);
    }
  }

  lemma {:induction false} TopLayerPassSame(f: Frame, g: Frame, level: nat, n: nat, p: Pixel, c: Color)
    requires ValidFrame(f) && ValidFrame(g) && DifferInHidden(f, g) && n <= |f.layers|
    ensures TopLayerPass(f, level, n, p, c) == TopLayerPass(g, level, n, p, c)
  {
    if n > 0 {
      TopLayerPassSame(f, g, level, n - 1, p, c);
      assert SameLayer(f.layers[n - 1], g.layers[n - 1]);
      GeometryDecides(f, g, p);
      assert SomeCover(f, |f.wins|, p) <==> SomeCover(g, |g.wins|, p);
      assert ClosingArea(f, |f.closing|, p) <==> ClosingArea(g, |g.closing|, p);
    }
  }

  /** Non-interference: whatever hidden windows and hidden layers look like, for any stacking
      and any rounded shapes, the painted frame is the same at every pixel. */
  lemma HiddenContentsNeverShow(f: Frame, g: Frame, order: seq<nat>, p: Pixel)
    requires ValidFrame(f) && ValidFrame(g) && DifferInHidden(f, g) && BottomToTop(Layers(f), order)
    ensures Painted(f, order, p, Finished(f, order, p)) == Painted(g, order, p, Finished(g, order, p))
  {
    var c, d := Finished(f, order, p), Finished(g, order, p);
    var n := |f.layers|;
    var hidden := HiddenLayerAt(f, n, p);
    var covered := exists i :: 0 <= i < |f.wins| && CoveredAt(f, i, p) && f.wins[i].shape(p);
    if !hidden && !covered {
      LevelSceneSame(f, g, 0, n, p, f.wallpaper(p));
      var low0 := LevelScene(f, 0, n, p, f.wallpaper(p));
      LevelSceneSame(f, g, 1, n, p, low0);
      var low := LevelScene(f, 1, n, p, low0);
      CoveredOrSame(f, g, order, p, low);
      var windows := Scene(f, order, |order|, false, p, low);
      LevelSceneSame(f, g, 2, n, p, windows);
      LevelSceneSame(f, g, 3, n, p, LevelScene(f, 2, n, p, windows));
      assert c == d;
    }
    var c1, d1 := CoverPass(f, |f.wins|, p, c), CoverPass(g, |g.wins|, p, d);
    var c2, d2 := RedrawPass(f, order, |order|, p, c1), RedrawPass(g, order, |order|, p, d1);
    if !hidden {
      CoverPassSame(f, g, |f.wins|, p, c, d);
      RedrawPassSame(f, g, order, |order|, p, c1);
    }
    LayerPassSame(f, g, n, p, c2, d2);
    var c3 := LayerPass(f, n, p, c2);
    ClosingPassSame(f, g, |f.closing|, p, c3);
    var c4 := ClosingPass(f, |f.closing|, p, c3);
    TopLayerPassSame(f, g, 2, n, p, c4);
    TopLayerPassSame(f, g, 3, n, p, TopLayerPass(f, 2, n, p, c4));
  }

  // ---- what is left out leaves no trace ----

  /** With something left out, the two frames differ only in what hidden windows and layers with a
      transparent cover look like, their covers included. */
  ghost predicate DifferInLeftOut(f: Frame, g: Frame) {
    && f.left && SameGeometry(f, g)
    && (forall i :: 0 <= i < |f.wins| ==> (f.wins[i].hidden && f.wins[i].transparent) || f.wins[i] == g.wins[i])
    && |f.layers| == |g.layers| && (forall n :: 0 <= n < |f.layers| ==> LayerDiffersLeftOut(f.layers[n], g.layers[n]))
    && f.closing == g.closing && f.wallpaper == g.wallpaper
  }

  ghost predicate LayerDiffersLeftOut(l: Layer, m: Layer) {
    && l.box == m.box && l.level == m.level && l.hidden == m.hidden && l.transparent == m.transparent
    && ((l.hidden && l.transparent) || l == m)
  }

  lemma {:induction false} WindowsWithoutLeftOut(f: Frame, g: Frame, order: seq<nat>, k: nat, p: Pixel, c: Color)
    requires ValidFrame(f) && ValidFrame(g) && DifferInLeftOut(f, g) && k <= |order|
    requires forall m :: 0 <= m < |order| ==> order[m] < |f.wins|
    ensures Scene(f, order, k, false, p, c) == Scene(g, order, k, false, p, c)
    ensures RedrawPass(f, order, k, p, c) == RedrawPass(g, order, k, p, c)
  {
    if k > 0 {
      WindowsWithoutLeftOut(f, g, order, k - 1, p, c);
      GeometryDecides(f, g, p);
      var j := order[k - 1];
      assert SameBut(f.wins[j], g.wins[j]) && ((f.wins[j].hidden && f.wins[j].transparent) || f.wins[j] == g.wins[j]);
    }
  }

  lemma {:induction false} CoversWithoutLeftOut(f: Frame, g: Frame, n: nat, p: Pixel, c: Color)
    requires ValidFrame(f) && ValidFrame(g) && DifferInLeftOut(f, g) && n <= |f.wins|
    ensures CoverPass(f, n, p, c) == CoverPass(g, n, p, c)
  {
    if n > 0 {
      CoversWithoutLeftOut(f, g, n - 1, p, c);
      GeometryDecides(f, g, p);
      assert SameBut(f.wins[n - 1], g.wins[n - 1]);
      assert (f.wins[n - 1].hidden && f.wins[n - 1].transparent) || f.wins[n - 1] == g.wins[n - 1];
    }
  }

  lemma {:induction false} LayersWithoutLeftOut(f: Frame, g: Frame, level: nat, n: nat, p: Pixel, c: Color)
    requires ValidFrame(f) && ValidFrame(g) && DifferInLeftOut(f, g) && n <= |f.layers|
    ensures LevelScene(f, level, n, p, c) == LevelScene(g, level, n, p, c)
    ensures LayerPass(f, n, p, c) == LayerPass(g, n, p, c)
    ensures TopLayerPass(f, level, n, p, c) == TopLayerPass(g, level, n, p, c)
  {
    if n > 0 {
      LayersWithoutLeftOut(f, g, level, n - 1, p, c);
      GeometryDecides(f, g, p);
      assert SomeCover(f, |f.wins|, p) <==> SomeCover(g, |g.wins|, p);
      assert ClosingArea(f, |f.closing|, p) <==> ClosingArea(g, |g.closing|, p);
      assert LayerDiffersLeftOut(f.layers[n - 1], g.layers[n - 1]);
    }
  }

  lemma FinishedWithoutLeftOut(f: Frame, g: Frame, order: seq<nat>, p: Pixel)
    requires ValidFrame(f) && ValidFrame(g) && DifferInLeftOut(f, g) && BottomToTop(Layers(f), order)
    ensures Finished(f, order, p) == Finished(g, order, p)
  {
    var n, c0 := |f.layers|, f.wallpaper(p);
    LayersWithoutLeftOut(f, g, 0, n, p, c0);
    var c1 := LevelScene(f, 0, n, p, c0);
    LayersWithoutLeftOut(f, g, 1, n, p, c1);
    var c2 := LevelScene(f, 1, n, p, c1);
    WindowsWithoutLeftOut(f, g, order, |order|, p, c2);
    var c3 := Scene(f, order, |order|, false, p, c2);
    LayersWithoutLeftOut(f, g, 2, n, p, c3);
    LayersWithoutLeftOut(f, g, 3, n, p, LevelScene(f, 2, n, p, c3));
  }

  /** A hidden window or layer with a transparent cover leaves no trace in a frame without it: not
      itself, and not its cover. */
  lemma LeftOutNeverShows(f: Frame, g: Frame, order: seq<nat>, p: Pixel)
    requires ValidFrame(f) && ValidFrame(g) && DifferInLeftOut(f, g) && BottomToTop(Layers(f), order)
    ensures Painted(f, order, p, Finished(f, order, p)) == Painted(g, order, p, Finished(g, order, p))
  {
    FinishedWithoutLeftOut(f, g, order, p);
    var n, c := |f.layers|, Finished(f, order, p);
    CoversWithoutLeftOut(f, g, |f.wins|, p, c);
    var c1 := CoverPass(f, |f.wins|, p, c);
    WindowsWithoutLeftOut(f, g, order, |order|, p, c1);
    var c2 := RedrawPass(f, order, |order|, p, c1);
    LayersWithoutLeftOut(f, g, 2, n, p, c2);
    var c3 := LayerPass(f, n, p, c2);
    ClosingPassSame(f, g, |f.closing|, p, c3);
    var c4 := ClosingPass(f, |f.closing|, p, c3);
    LayersWithoutLeftOut(f, g, 2, n, p, c4);
    LayersWithoutLeftOut(f, g, 3, n, p, TopLayerPass(f, 2, n, p, c4));
  }

  /** Every other hidden window is covered: alone at a pixel, it shows as its cover. */
  lemma HiddenWindowIsCovered(f: Frame, order: seq<nat>, i: nat, p: Pixel, c: Color)
    requires ValidFrame(f) && BottomToTop(Layers(f), order) && i < |f.wins|
    requires f.wins[i].hidden && !(f.left && f.wins[i].transparent) && f.wins[i].shape(p)
    requires forall j :: 0 <= j < |f.wins| && j != i ==> !f.wins[j].box.Contains(p)
    requires forall l :: l in f.layers ==> !l.box.Contains(p)
    requires forall k :: 0 <= k < |f.closing| ==> !f.closing[k].box.Contains(p)
    ensures Painted(f, order, p, c) == f.wins[i].cover(p)
  {
    assert ValidWindow(f.wins[i]);
    forall o | 0 <= o < |f.wins| && IsAbove(f, o, i) ensures !Blocks(f, o, p) {
    }
    assert CoveredAt(f, i, p);
    OnlyCover(f, |f.wins|, i, p, c);
    AloneNotRedrawn(f, order, |order|, i, p, f.wins[i].cover(p));
    var shown := f.wins[i].cover(p);
    AwayFromLayers(f, 2, |f.layers|, p, shown);
    AwayFromLayers(f, 3, |f.layers|, p, shown);
    ClosingPassChanges(f, |f.closing|, p, shown);
  }

  lemma {:induction false} OnlyCover(f: Frame, n: nat, i: nat, p: Pixel, c: Color)
    requires ValidFrame(f) && i < n <= |f.wins| && CoveredAt(f, i, p) && f.wins[i].shape(p)
    requires forall j :: 0 <= j < |f.wins| && j != i ==> !f.wins[j].box.Contains(p)
    ensures CoverPass(f, n, p, c) == f.wins[i].cover(p)
  {
    if i < n - 1 {
      OnlyCover(f, n - 1, i, p, c);
    }
  }

  lemma {:induction false} AloneNotRedrawn(f: Frame, order: seq<nat>, k: nat, i: nat, p: Pixel, c: Color)
    requires ValidFrame(f) && k <= |order| && forall a :: 0 <= a < |order| ==> order[a] < |f.wins|
    requires i < |f.wins| && f.wins[i].hidden && forall j :: 0 <= j < |f.wins| && j != i ==> !f.wins[j].box.Contains(p)
    ensures RedrawPass(f, order, k, p, c) == c
  {
    if k > 0 {
      AloneNotRedrawn(f, order, k - 1, i, p, c);
    }
  }

  lemma {:induction false} AwayFromLayers(f: Frame, level: nat, n: nat, p: Pixel, c: Color)
    requires ValidFrame(f) && n <= |f.layers| && forall l :: l in f.layers ==> !l.box.Contains(p)
    ensures LayerPass(f, n, p, c) == c && TopLayerPass(f, level, n, p, c) == c
  {
    if n > 0 {
      AwayFromLayers(f, level, n - 1, p, c);
      assert f.layers[n - 1] in f.layers;
    }
  }

  /** So is every other hidden layer, over everything but shown high layers that are drawn again. */
  lemma {:induction false} HiddenLayerIsCovered(f: Frame, t: nat, n: nat, p: Pixel, c: Color)
    requires t < n <= |f.layers| && f.layers[t].box.Contains(p)
    requires f.layers[t].hidden && !(f.left && f.layers[t].transparent)
    requires forall i :: t < i < |f.layers| ==> !(f.layers[i].hidden && f.layers[i].box.Contains(p))
    ensures LayerPass(f, n, p, c) == f.layers[t].cover(p)
  {
    if t < n - 1 {
      HiddenLayerIsCovered(f, t, n - 1, p, c);
    }
  }
}
