/** The whole frame, layers and closing covers included: exactly where painting over the finished
    image is recomposing everything, with a cover in the place of whatever is hidden. */
module FrameProofs {
  import opened Regions
  import opened Stacking
  import opened Painter
  import opened PainterProofs

  /** Levels are 0 to 3, and closing covers fill their boxes. */
  ghost predicate Plain(f: Frame) {
    && ValidFrame(f) && Rectangular(f)
    && (forall i :: 0 <= i < |f.layers| ==> f.layers[i].level <= 3)
    && (forall k, p :: 0 <= k < |f.closing| ==> (f.closing[k].shape(p) <==> f.closing[k].box.Contains(p)))
  }

  predicate Hides(f: Frame, i: nat, p: Pixel)
    requires i < |f.layers|
  {
    f.layers[i].hidden && !GoneLayer(f, f.layers[i]) && f.layers[i].box.Contains(p)
  }

  predicate Shows(f: Frame, i: nat, p: Pixel)
    requires i < |f.layers|
  {
    !f.layers[i].hidden && f.layers[i].box.Contains(p)
  }

  /** Bottom-up composition at p of the layers of one level, covers in place of hidden ones. */
  ghost function LevelCovers(f: Frame, level: nat, n: nat, p: Pixel, c: Color): Color
    requires n <= |f.layers|
  {
    if n == 0 then c
    else
      var l := f.layers[n - 1];
      var below := LevelCovers(f, level, n - 1, p, c);
      if l.level != level || GoneLayer(f, l) then below
      else if l.hidden then (if l.box.Contains(p) then l.cover(p) else below)
      else l.look(p, below)
  }

  /** Everything from the wallpaper up: low layers, windows, what is closing, high layers. */
  ghost function AllRecomposed(f: Frame, order: seq<nat>, p: Pixel): Color
    requires forall m :: 0 <= m < |order| ==> order[m] < |f.wins|
  {
    var n := |f.layers|;
    var low := LevelCovers(f, 1, n, p, LevelCovers(f, 0, n, p, f.wallpaper(p)));
    var windows := ClosingPass(f, |f.closing|, p, Scene(f, order, |order|, true, p, low));
    LevelCovers(f, 3, n, p, LevelCovers(f, 2, n, p, windows))
  }

  // ---- the condition ----

  predicate LayerAbove(f: Frame, i: nat, t: nat)
    requires i < |f.layers| && t < |f.layers|
  {
    f.layers[i].level > f.layers[t].level || (f.layers[i].level == f.layers[t].level && i > t)
  }

  /** The painter draws layer i again at p, if the layer is shown. */
  ghost predicate DrawnAgain(f: Frame, i: nat, p: Pixel)
    requires ValidFrame(f) && i < |f.layers|
  {
    f.layers[i].level >= 2 && CoverArea(f, p)
  }

  /** t is the last hidden layer in the list that reaches p: its cover is painted last. */
  ghost predicate LastHidden(f: Frame, t: nat, p: Pixel)
    requires t < |f.layers|
  {
    Hides(f, t, p) && forall i :: t < i < |f.layers| ==> !Hides(f, i, p)
  }

  /** It is the topmost hidden layer too. */
  ghost predicate TopHiddenLayer(f: Frame, t: nat, p: Pixel)
    requires t < |f.layers|
  {
    forall i :: 0 <= i < |f.layers| && Hides(f, i, p) ==> i == t || LayerAbove(f, t, i)
  }

  /** No window is over it. */
  predicate NoWindowOver(f: Frame, t: nat, p: Pixel)
    requires t < |f.layers|
  {
    f.layers[t].level < 2 ==> forall w :: 0 <= w < |f.wins| ==> Gone(f, f.wins[w]) || !f.wins[w].box.Contains(p)
  }

  /** The shown layers over it are exactly the ones that are drawn again. */
  ghost predicate ShownOverAreAgain(f: Frame, t: nat, p: Pixel)
    requires ValidFrame(f) && t < |f.layers|
  {
    forall i :: 0 <= i < |f.layers| && Shows(f, i, p) ==> (LayerAbove(f, i, t) <==> DrawnAgain(f, i, p))
  }

  ghost predicate TopsAgree(f: Frame, t: nat, p: Pixel)
    requires ValidFrame(f) && t < |f.layers|
  {
    TopHiddenLayer(f, t, p) && NoWindowOver(f, t, p) && ShownOverAreAgain(f, t, p)
  }

  /** Where something closes, no high layer may be hidden; where a layer is hidden, the last one
      must be on top with exactly the right things over it; elsewhere the windows decide. */
  ghost predicate FrameAgrees(f: Frame, p: Pixel)
    requires ValidFrame(f)
  {
    if ClosingArea(f, |f.closing|, p) then forall i :: 0 <= i < |f.layers| && Hides(f, i, p) ==> f.layers[i].level < 2
    else if exists i :: 0 <= i < |f.layers| && Hides(f, i, p) then
      forall t :: 0 <= t < |f.layers| && LastHidden(f, t, p) ==> TopsAgree(f, t, p)
    else ListAgrees(f, p)
  }

  // ---- it suffices ----

  lemma {:induction false} NothingHidden(f: Frame, level: nat, n: nat, p: Pixel, c: Color)
    requires ValidFrame(f) && n <= |f.layers|
    requires forall i :: 0 <= i < |f.layers| ==> !(f.layers[i].level == level && Hides(f, i, p))
    ensures LevelCovers(f, level, n, p, c) == LevelScene(f, level, n, p, c)
  {
    if n > 0 {
      NothingHidden(f, level, n - 1, p, c);
      var l := f.layers[n - 1];
      assert l in f.layers && !(l.level == level && Hides(f, n - 1, p));
    }
  }

  /** Over covers, drawing a level without hidden layers again is composing it. */
  lemma {:induction false} AgainComposes(f: Frame, level: nat, n: nat, p: Pixel, c: Color)
    requires ValidFrame(f) && n <= |f.layers| && CoverArea(f, p)
    requires forall i :: 0 <= i < |f.layers| ==> !(f.layers[i].level == level && Hides(f, i, p))
    ensures TopLayerPass(f, level, n, p, c) == LevelCovers(f, level, n, p, c)
  {
    if n > 0 {
      AgainComposes(f, level, n - 1, p, c);
      var l := f.layers[n - 1];
      assert l in f.layers && !(l.level == level && Hides(f, n - 1, p));
    }
  }

  lemma {:induction false} ClosingDecides(f: Frame, n: nat, p: Pixel, c: Color, d: Color)
    requires Plain(f) && n <= |f.closing| && ClosingArea(f, n, p)
    ensures ClosingPass(f, n, p, c) == ClosingPass(f, n, p, d)
  {
    if n > 0 && !f.closing[n - 1].box.Contains(p) {
      ClosingDecides(f, n - 1, p, c, d);
    }
  }

  lemma WhereClosing(f: Frame, order: seq<nat>, p: Pixel)
    requires Plain(f) && BottomToTop(Layers(f), order) && ClosingArea(f, |f.closing|, p)
    requires forall i :: 0 <= i < |f.layers| && Hides(f, i, p) ==> f.layers[i].level < 2
    ensures Painted(f, order, p, Finished(f, order, p)) == AllRecomposed(f, order, p)
  {
    var n := |f.layers|;
    var windows := RedrawPass(f, order, |order|, p, CoverPass(f, |f.wins|, p, Finished(f, order, p)));
    var low := LevelCovers(f, 1, n, p, LevelCovers(f, 0, n, p, f.wallpaper(p)));
    ClosingDecides(f, |f.closing|, p, LayerPass(f, n, p, windows), Scene(f, order, |order|, true, p, low));
    var c := ClosingPass(f, |f.closing|, p, LayerPass(f, n, p, windows));
    AgainComposes(f, 2, n, p, c);
    AgainComposes(f, 3, n, p, LevelCovers(f, 2, n, p, c));
  }

  lemma WhereNothingHidden(f: Frame, order: seq<nat>, p: Pixel)
    requires Plain(f) && BottomToTop(Layers(f), order) && ListAgrees(f, p)
    requires !ClosingArea(f, |f.closing|, p) && forall i :: 0 <= i < |f.layers| ==> !Hides(f, i, p)
    ensures Painted(f, order, p, Finished(f, order, p)) == AllRecomposed(f, order, p)
  {
    var n := |f.layers|;
    assert !HiddenLayerAt(f, n, p) by {
      forall i | 0 <= i < n ensures !(f.layers[i].hidden && !GoneLayer(f, f.layers[i]) && f.layers[i].box.Contains(p)) {
        assert !Hides(f, i, p);
      }
    }
    FrameIsRecomposition(f, order, p);
    NothingHidden(f, 0, n, p, f.wallpaper(p));
    var low0 := LevelScene(f, 0, n, p, f.wallpaper(p));
    NothingHidden(f, 1, n, p, low0);
    var windows := Scene(f, order, |order|, true, p, LevelScene(f, 1, n, p, low0));
    ClosingPassChanges(f, |f.closing|, p, windows);
    NothingHidden(f, 2, n, p, windows);
    NothingHidden(f, 3, n, p, LevelScene(f, 2, n, p, windows));
  }

  /** What the painter draws of one level over a layer's cover: nothing below level 2. */
  ghost function Again(f: Frame, level: nat, n: nat, p: Pixel, c: Color): Color
    requires ValidFrame(f) && n <= |f.layers|
  {
    if level < 2 then c else TopLayerPass(f, level, n, p, c)
  }

  /** On its own level the last hidden layer's cover comes out, with what is drawn again over it. */
  lemma {:induction false} OwnLevel(f: Frame, t: nat, n: nat, p: Pixel, x: Color)
    requires Plain(f) && t < |f.layers| && LastHidden(f, t, p) && ShownOverAreAgain(f, t, p) && n <= |f.layers|
    ensures var level, c := f.layers[t].level, f.layers[t].cover(p);
            && (n <= t ==> Again(f, level, n, p, c) == c)
            && (t < n ==> LevelCovers(f, level, n, p, x) == Again(f, level, n, p, c))
  {
    if n > 0 {
      OwnLevel(f, t, n - 1, p, x);
      OneLayer(f, t, n - 1, p);
    }
  }

  /** What layer i can be, if t is the last hidden one. */
  lemma OneLayer(f: Frame, t: nat, i: nat, p: Pixel)
    requires Plain(f) && t < |f.layers| && LastHidden(f, t, p) && ShownOverAreAgain(f, t, p) && i < |f.layers|
    ensures i > t ==> !Hides(f, i, p)
    ensures Shows(f, i, p) ==> (LayerAbove(f, i, t) <==> DrawnAgain(f, i, p))
    ensures forall c :: !f.layers[i].box.Contains(p) ==> f.layers[i].look(p, c) == c
  {
    assert f.layers[i] in f.layers;
  }

  lemma {:induction false} HigherLevel(f: Frame, t: nat, level: nat, n: nat, p: Pixel, c: Color)
    requires Plain(f) && t < |f.layers| && LastHidden(f, t, p) && TopHiddenLayer(f, t, p) && ShownOverAreAgain(f, t, p)
    requires f.layers[t].level < level && n <= |f.layers|
    ensures LevelCovers(f, level, n, p, c) == Again(f, level, n, p, c)
  {
    if n > 0 {
      HigherLevel(f, t, level, n - 1, p, c);
      OneLayer(f, t, n - 1, p);
      assert f.layers[n - 1].level == level ==> !Hides(f, n - 1, p);
    }
  }

  lemma {:induction false} LowerLevel(f: Frame, t: nat, level: nat, n: nat, p: Pixel, c: Color)
    requires Plain(f) && t < |f.layers| && LastHidden(f, t, p) && ShownOverAreAgain(f, t, p)
    requires level < f.layers[t].level && n <= |f.layers|
    ensures Again(f, level, n, p, c) == c
  {
    if n > 0 {
      LowerLevel(f, t, level, n - 1, p, c);
      OneLayer(f, t, n - 1, p);
    }
  }

  lemma {:induction false} LastHiddenWins(f: Frame, t: nat, n: nat, p: Pixel, c: Color)
    requires t < n <= |f.layers| && LastHidden(f, t, p)
    ensures LayerPass(f, n, p, c) == f.layers[t].cover(p)
  {
    if n - 1 > t {
      assert !Hides(f, n - 1, p);
      LastHiddenWins(f, t, n - 1, p, c);
    }
  }

  lemma {:induction false} NoWindowHere(f: Frame, order: seq<nat>, k: nat, p: Pixel, c: Color)
    requires Plain(f) && k <= |order| && forall m :: 0 <= m < |order| ==> order[m] < |f.wins|
    requires forall w :: 0 <= w < |f.wins| ==> Gone(f, f.wins[w]) || !f.wins[w].box.Contains(p)
    ensures Scene(f, order, k, true, p, c) == c
  {
    if k > 0 {
      NoWindowHere(f, order, k - 1, p, c);
      var w := order[k - 1];
      assert ValidWindow(f.wins[w]) && (f.wins[w].shape(p) <==> f.wins[w].box.Contains(p));
    }
  }

  /** Low levels that hide something come out as its cover. */
  lemma LowComesOut(f: Frame, t: nat, p: Pixel, x: Color)
    requires Plain(f) && t < |f.layers| && LastHidden(f, t, p) && TopsAgree(f, t, p) && f.layers[t].level < 2
    ensures var n := |f.layers|; LevelCovers(f, 1, n, p, LevelCovers(f, 0, n, p, x)) == f.layers[t].cover(p)
  {
    var n, c := |f.layers|, f.layers[t].cover(p);
    OwnLevel(f, t, n, p, x);
    OwnLevel(f, t, n, p, LevelCovers(f, 0, n, p, x));
    if f.layers[t].level == 0 {
      HigherLevel(f, t, 1, n, p, c);
    }
  }

  /** High levels come out as they are drawn again over the cover; over: what is below them. */
  lemma HighComesOut(f: Frame, t: nat, p: Pixel, over: Color)
    requires Plain(f) && t < |f.layers| && LastHidden(f, t, p) && TopsAgree(f, t, p)
    requires f.layers[t].level < 2 ==> over == f.layers[t].cover(p)
    ensures var n := |f.layers|;
            LevelCovers(f, 3, n, p, LevelCovers(f, 2, n, p, over)) ==
            Again(f, 3, n, p, Again(f, 2, n, p, f.layers[t].cover(p)))
  {
    var n, c, level := |f.layers|, f.layers[t].cover(p), f.layers[t].level;
    if level < 2 {
      HigherLevel(f, t, 2, n, p, c);
      HigherLevel(f, t, 3, n, p, Again(f, 2, n, p, c));
    } else if level == 2 {
      OwnLevel(f, t, n, p, over);
      HigherLevel(f, t, 3, n, p, Again(f, 2, n, p, c));
    } else {
      LowerLevel(f, t, 2, n, p, c);
      OwnLevel(f, t, n, p, LevelCovers(f, 2, n, p, over));
    }
  }

  lemma WhereHidden(f: Frame, order: seq<nat>, t: nat, p: Pixel)
    requires Plain(f) && BottomToTop(Layers(f), order) && !ClosingArea(f, |f.closing|, p)
    requires t < |f.layers| && LastHidden(f, t, p) && TopsAgree(f, t, p)
    ensures Painted(f, order, p, Finished(f, order, p)) == AllRecomposed(f, order, p)
  {
    var n := |f.layers|;
    var windows := RedrawPass(f, order, |order|, p, CoverPass(f, |f.wins|, p, Finished(f, order, p)));
    LastHiddenWins(f, t, n, p, windows);
    ClosingPassChanges(f, |f.closing|, p, f.layers[t].cover(p));
    var low := LevelCovers(f, 1, n, p, LevelCovers(f, 0, n, p, f.wallpaper(p)));
    var over := Scene(f, order, |order|, true, p, low);
    ClosingPassChanges(f, |f.closing|, p, over);
    if f.layers[t].level < 2 {
      LowComesOut(f, t, p, f.wallpaper(p));
      NoWindowHere(f, order, |order|, p, low);
    }
    HighComesOut(f, t, p, over);
  }

  lemma {:induction false} FindLastHidden(f: Frame, n: nat, i: nat, p: Pixel) returns (t: nat)
    requires i < n <= |f.layers| && Hides(f, i, p) && forall j :: n <= j < |f.layers| ==> !Hides(f, j, p)
    ensures t < |f.layers| && LastHidden(f, t, p)
  {
    if Hides(f, n - 1, p) {
      t := n - 1;
    } else {
      t := FindLastHidden(f, n - 1, i, p);
    }
  }

  lemma AgreeingSuffices(f: Frame, order: seq<nat>, p: Pixel)
    requires Plain(f) && BottomToTop(Layers(f), order) && FrameAgrees(f, p)
    ensures Painted(f, order, p, Finished(f, order, p)) == AllRecomposed(f, order, p)
  {
    if ClosingArea(f, |f.closing|, p) {
      WhereClosing(f, order, p);
    } else if exists i :: 0 <= i < |f.layers| && Hides(f, i, p) {
      var i :| 0 <= i < |f.layers| && Hides(f, i, p);
      var t := FindLastHidden(f, |f.layers|, i, p);
      WhereHidden(f, order, t, p);
    } else {
      WhereNothingHidden(f, order, p);
    }
  }

  // ---- and it is needed: elsewhere some contents tell the two apart ----

  ghost predicate SameLayerBut(l: Layer, m: Layer) {
    l.box == m.box && l.level == m.level && l.hidden == m.hidden && l.transparent == m.transparent
  }

  /** The two frames differ at most in what things and their covers look like. */
  ghost predicate SameShapes(f: Frame, g: Frame) {
    && SameGeometry(f, g)
    && |f.layers| == |g.layers| && (forall i :: 0 <= i < |f.layers| ==> SameLayerBut(f.layers[i], g.layers[i]))
    && |f.closing| == |g.closing|
    && (forall k :: 0 <= k < |f.closing| ==>
          f.closing[k].box == g.closing[k].box && f.closing[k].shape == g.closing[k].shape)
  }

  lemma ShapesDecide(f: Frame, g: Frame, p: Pixel)
    requires Plain(f) && Plain(g) && SameShapes(f, g)
    ensures Layers(f) == Layers(g)
    ensures ClosingArea(f, |f.closing|, p) <==> ClosingArea(g, |g.closing|, p)
    ensures CoverArea(f, p) <==> CoverArea(g, p)
    ensures forall i :: 0 <= i < |f.layers| ==> (Hides(f, i, p) <==> Hides(g, i, p))
    ensures forall i :: 0 <= i < |f.layers| ==> (Shows(f, i, p) <==> Shows(g, i, p))
    ensures forall i, t :: 0 <= i < |f.layers| && 0 <= t < |f.layers| ==> (LayerAbove(f, i, t) <==> LayerAbove(g, i, t))
    ensures ListAgrees(f, p) <==> ListAgrees(g, p)
  {
    GeometryDecides(f, g, p);
    assert SomeCover(f, |f.wins|, p) <==> SomeCover(g, |g.wins|, p);
    forall i | 0 <= i < |f.layers| ensures SameLayerBut(f.layers[i], g.layers[i]) {
    }
    forall t | 0 <= t < |f.wins| ensures TopmostCover(f, t, p) <==> TopmostCover(g, t, p) {
      forall i | 0 <= i < |f.wins| ensures IsAbove(f, t, i) <==> IsAbove(g, t, i) {
      }
    }
  }

  lemma WindowsSame(f: Frame, g: Frame, t: nat, p: Pixel)
    requires SameShapes(f, g) && t < |f.layers|
    ensures NoWindowOver(f, t, p) <==> NoWindowOver(g, t, p)
  {
    assert SameLayerBut(f.layers[t], g.layers[t]);
    forall w | 0 <= w < |f.wins|
      ensures Gone(f, f.wins[w]) <==> Gone(g, g.wins[w])
      ensures f.wins[w].box == g.wins[w].box
    {
      assert SameBut(f.wins[w], g.wins[w]);
    }
  }

  lemma TopsSame(f: Frame, g: Frame, t: nat, p: Pixel)
    requires Plain(f) && Plain(g) && SameShapes(f, g) && t < |f.layers|
    ensures LastHidden(f, t, p) <==> LastHidden(g, t, p)
    ensures TopHiddenLayer(f, t, p) <==> TopHiddenLayer(g, t, p)
    ensures NoWindowOver(f, t, p) <==> NoWindowOver(g, t, p)
    ensures ShownOverAreAgain(f, t, p) <==> ShownOverAreAgain(g, t, p)
  {
    ShapesDecide(f, g, p);
    WindowsSame(f, g, t, p);
    forall i | 0 <= i < |f.layers| ensures DrawnAgain(f, i, p) <==> DrawnAgain(g, i, p) {
      assert SameLayerBut(f.layers[i], g.layers[i]);
    }
  }

  lemma AgreesTheSame(f: Frame, g: Frame, p: Pixel)
    requires Plain(f) && Plain(g) && SameShapes(f, g) && FrameAgrees(f, p)
    ensures FrameAgrees(g, p)
  {
    ShapesDecide(f, g, p);
    forall i | 0 <= i < |f.layers| ensures f.layers[i].level == g.layers[i].level {
      assert SameLayerBut(f.layers[i], g.layers[i]);
    }
    if !ClosingArea(g, |g.closing|, p) && exists i :: 0 <= i < |g.layers| && Hides(g, i, p) {
      forall t | 0 <= t < |g.layers| && LastHidden(g, t, p) ensures TopsAgree(g, t, p) {
        TopsSame(f, g, t, p);
      }
    }
  }

  /** The same shapes in few colours: every window draws a, and so does its cover; layers draw
      nothing, except that loud draws a where it is; covers as given. */
  ghost function Paint(f: Frame, a: Color, loud: int, cover: nat -> Color, closing: Color): (g: Frame)
    ensures SameShapes(f, g)
  {
    f.(wins := seq(|f.wins|, i requires 0 <= i < |f.wins| => Flood(f.wins[i], a)),
       layers := Tinted(f.layers, a, loud, cover),
       closing := seq(|f.closing|, k requires 0 <= k < |f.closing| => f.closing[k].(cover := (p: Pixel) => closing)))
  }

  ghost function Flood(w: Window, a: Color): (v: Window)
    ensures SameBut(w, v)
  {
    var shape := w.shape;
    w.(look := (p: Pixel, c: Color) => if shape(p) then a else c, cover := (p: Pixel) => a)
  }

  ghost function Tinted(layers: seq<Layer>, a: Color, loud: int, cover: nat -> Color): (tinted: seq<Layer>)
    ensures |tinted| == |layers|
    ensures forall i :: 0 <= i < |layers| ==> tinted[i] == Tint(layers[i], cover(i), i == loud, a)
  {
    seq(|layers|, i requires 0 <= i < |layers| => Tint(layers[i], cover(i), i == loud, a))
  }

  ghost function Tint(l: Layer, cover: Color, loud: bool, a: Color): (m: Layer)
    ensures SameLayerBut(l, m)
    ensures forall p, c :: !l.box.Contains(p) ==> m.look(p, c) == c
  {
    var box := l.box;
    l.(look := (p: Pixel, c: Color) => if loud && box.Contains(p) then a else c, cover := (p: Pixel) => cover)
  }

  lemma PaintIsPlain(f: Frame, a: Color, loud: int, cover: nat -> Color, closing: Color)
    requires Plain(f)
    ensures Plain(Paint(f, a, loud, cover, closing))
  {
    var g := Paint(f, a, loud, cover, closing);
    forall i | 0 <= i < |g.wins|
      ensures ValidWindow(g.wins[i]) && g.wins[i].round == 0
      ensures forall p :: g.wins[i].shape(p) <==> g.wins[i].box.Contains(p)
    {
      assert ValidWindow(f.wins[i]) && SameBut(f.wins[i], g.wins[i]);
      assert forall p :: f.wins[i].shape(p) <==> f.wins[i].box.Contains(p);
    }
    forall l, p, c | l in g.layers && !l.box.Contains(p) ensures l.look(p, c) == c {
      var i :| 0 <= i < |g.layers| && g.layers[i] == l;
      assert l == Tint(f.layers[i], cover(i), i == loud, a);
    }
    forall i | 0 <= i < |g.layers| ensures g.layers[i].level <= 3 {
      assert SameLayerBut(f.layers[i], g.layers[i]);
    }
    forall k, p | 0 <= k < |g.closing| ensures g.closing[k].shape(p) <==> g.closing[k].box.Contains(p) {
      assert f.closing[k].shape(p) <==> f.closing[k].box.Contains(p);
    }
  }

  /** What the layers of a painted frame look like at p. */
  ghost predicate PaintedLayers(g: Frame, a: Color, loud: int, cover: nat -> Color, p: Pixel) {
    forall i :: 0 <= i < |g.layers| ==> PaintedLayer(g, a, loud, cover, p, i)
  }

  ghost predicate PaintedLayer(g: Frame, a: Color, loud: int, cover: nat -> Color, p: Pixel, i: nat)
    requires i < |g.layers|
  {
    && g.layers[i].cover(p) == cover(i)
    && forall c :: g.layers[i].look(p, c) == if i == loud && g.layers[i].box.Contains(p) then a else c
  }

  lemma PaintLayers(f: Frame, a: Color, loud: int, cover: nat -> Color, closing: Color, p: Pixel)
    ensures PaintedLayers(Paint(f, a, loud, cover, closing), a, loud, cover, p)
  {
  }

  lemma PaintReady(f: Frame, a: Color, loud: int, cover: nat -> Color, p: Pixel, order: seq<nat>)
    requires Plain(f) && BottomToTop(Layers(f), order)
    ensures var g := Paint(f, a, loud, cover, a);
            && Plain(g) && BottomToTop(Layers(g), order) && PaintedLayers(g, a, loud, cover, p) && Flooded(g, a, p)
            && (ClosingArea(f, |f.closing|, p) <==> ClosingArea(g, |g.closing|, p))
            && forall i :: 0 <= i < |f.layers| ==> (Hides(f, i, p) <==> Hides(g, i, p))
  {
    var g := Paint(f, a, loud, cover, a);
    PaintIsPlain(f, a, loud, cover, a);
    PaintLayers(f, a, loud, cover, a, p);
    PaintFloods(f, a, loud, cover, a, p);
    ShapesDecide(f, g, p);
  }

  // ---- what comes out of painted frames ----

  /** A level leaves a colour alone if nothing of another colour is on it from layer from on. */
  lemma {:induction false} LevelStays(g: Frame, a: Color, loud: int, cover: nat -> Color, level: nat, n: nat, p: Pixel,
      c: Color, x: Color)
    requires n <= |g.layers| && PaintedLayers(g, a, loud, cover, p)
    requires forall i :: 0 <= i < n && g.layers[i].level == level ==> (Hides(g, i, p) ==> cover(i) == c)
    requires forall i :: 0 <= i < n && g.layers[i].level == level ==> (Shows(g, i, p) && i == loud ==> a == c)
    requires x == c
    ensures LevelCovers(g, level, n, p, x) == c
  {
    if n > 0 {
      LevelStays(g, a, loud, cover, level, n - 1, p, c, x);
      assert PaintedLayer(g, a, loud, cover, p, n - 1);
      assert g.layers[n - 1].level == level && Hides(g, n - 1, p) ==> cover(n - 1) == c;
    }
  }

  /** From the layer h on, its colour c stays, if nothing of another colour is over it there. */
  lemma {:induction false} LevelBecomes(g: Frame, a: Color, loud: int, cover: nat -> Color, h: nat, n: nat, p: Pixel,
      c: Color, x: Color)
    requires h < n <= |g.layers| && PaintedLayers(g, a, loud, cover, p)
    requires (Hides(g, h, p) && cover(h) == c) || (Shows(g, h, p) && h == loud && a == c)
    requires forall i :: h < i < n && g.layers[i].level == g.layers[h].level ==> (Hides(g, i, p) ==> cover(i) == c)
    requires forall i :: h < i < n && g.layers[i].level == g.layers[h].level ==>
               (Shows(g, i, p) && i == loud ==> a == c)
    ensures LevelCovers(g, g.layers[h].level, n, p, x) == c
  {
    assert PaintedLayer(g, a, loud, cover, p, n - 1);
    if h < n - 1 {
      LevelBecomes(g, a, loud, cover, h, n - 1, p, c, x);
      assert g.layers[n - 1].level == g.layers[h].level && Hides(g, n - 1, p) ==> cover(n - 1) == c;
    }
  }

  /** Everything over layer h is of colour c, as h is itself. */
  ghost predicate OneColourFrom(g: Frame, a: Color, loud: int, cover: nat -> Color, h: nat, p: Pixel, c: Color)
    requires h < |g.layers|
  {
    && ((Hides(g, h, p) && cover(h) == c) || (Shows(g, h, p) && h == loud && a == c))
    && forall i :: 0 <= i < |g.layers| && LayerAbove(g, i, h) ==>
         (Hides(g, i, p) ==> cover(i) == c) && (Shows(g, i, p) && i == loud ==> a == c)
  }

  lemma LevelAbove(g: Frame, a: Color, loud: int, cover: nat -> Color, h: nat, level: nat, p: Pixel, c: Color)
    requires h < |g.layers| && PaintedLayers(g, a, loud, cover, p) && OneColourFrom(g, a, loud, cover, h, p, c)
    requires g.layers[h].level < level
    ensures LevelCovers(g, level, |g.layers|, p, c) == c
  {
    forall i | 0 <= i < |g.layers| && g.layers[i].level == level ensures LayerAbove(g, i, h) {
    }
    LevelStays(g, a, loud, cover, level, |g.layers|, p, c, c);
  }

  lemma LevelOf(g: Frame, a: Color, loud: int, cover: nat -> Color, h: nat, p: Pixel, c: Color, x: Color)
    requires h < |g.layers| && PaintedLayers(g, a, loud, cover, p) && OneColourFrom(g, a, loud, cover, h, p, c)
    ensures LevelCovers(g, g.layers[h].level, |g.layers|, p, x) == c
  {
    forall i | h < i < |g.layers| && g.layers[i].level == g.layers[h].level ensures LayerAbove(g, i, h) {
    }
    LevelBecomes(g, a, loud, cover, h, |g.layers|, p, c, x);
  }

  /** The windows of a flooded frame draw a where any is, and nothing elsewhere. */
  lemma {:induction false} FloodedScene(g: Frame, a: Color, order: seq<nat>, k: nat, p: Pixel, c: Color)
    requires Plain(g) && k <= |order| && forall m :: 0 <= m < |order| ==> order[m] < |g.wins|
    requires Flooded(g, a, p)
    ensures Scene(g, order, k, true, p, c) ==
            if exists m :: 0 <= m < k && !Gone(g, g.wins[order[m]]) && g.wins[order[m]].box.Contains(p) then a else c
  {
    if k > 0 {
      FloodedScene(g, a, order, k - 1, p, c);
      var w := g.wins[order[k - 1]];
      assert w.shape(p) <==> w.box.Contains(p);
    }
  }

  ghost predicate Flooded(g: Frame, a: Color, p: Pixel) {
    forall i :: 0 <= i < |g.wins| ==>
      g.wins[i].cover(p) == a && forall c :: g.wins[i].look(p, c) == if g.wins[i].shape(p) then a else c
  }

  lemma PaintFloods(f: Frame, a: Color, loud: int, cover: nat -> Color, closing: Color, p: Pixel)
    ensures Flooded(Paint(f, a, loud, cover, closing), a, p)
  {
  }

  /** Recomposing a painted frame gives the colour c of layer h, if everything over h is c: high
      layers, and for a low h the windows (a) and what is closing (nothing). */
  lemma RecomposedFrom(g: Frame, a: Color, loud: int, cover: nat -> Color, order: seq<nat>, h: nat, p: Pixel, c: Color)
    requires Plain(g) && BottomToTop(Layers(g), order) && h < |g.layers|
    requires PaintedLayers(g, a, loud, cover, p) && Flooded(g, a, p) && OneColourFrom(g, a, loud, cover, h, p, c)
    requires g.layers[h].level < 2 ==> !ClosingArea(g, |g.closing|, p) && (c == a || NoWindowOver(g, h, p))
    ensures AllRecomposed(g, order, p) == c
  {
    var n, level := |g.layers|, g.layers[h].level;
    var low0 := LevelCovers(g, 0, n, p, g.wallpaper(p));
    var low := LevelCovers(g, 1, n, p, low0);
    var windows := Scene(g, order, |order|, true, p, low);
    var over := ClosingPass(g, |g.closing|, p, windows);
    var high2 := LevelCovers(g, 2, n, p, over);
    if level < 2 {
      LevelOf(g, a, loud, cover, h, p, c, if level == 0 then g.wallpaper(p) else low0);
      if level == 0 {
        LevelAbove(g, a, loud, cover, h, 1, p, c);
      }
      assert low == c;
      FloodedScene(g, a, order, |order|, p, low);
      if NoWindowOver(g, h, p) {
        NoWindowHere(g, order, |order|, p, low);
      }
      ClosingPassChanges(g, |g.closing|, p, windows);
      LevelAbove(g, a, loud, cover, h, 2, p, c);
      LevelAbove(g, a, loud, cover, h, 3, p, c);
    } else if level == 2 {
      LevelOf(g, a, loud, cover, h, p, c, over);
      LevelAbove(g, a, loud, cover, h, 3, p, c);
    } else {
      LevelOf(g, a, loud, cover, h, p, c, high2);
    }
  }

  /** A level drawn again: the loud layer's colour if it is on it, reaches p and is drawn again. */
  lemma {:induction false} AgainPainted(g: Frame, a: Color, loud: int, cover: nat -> Color, level: nat, n: nat,
      p: Pixel, c: Color)
    requires Plain(g) && n <= |g.layers| && PaintedLayers(g, a, loud, cover, p)
    ensures TopLayerPass(g, level, n, p, c) ==
            if 0 <= loud < n && g.layers[loud].level == level && Shows(g, loud, p) && CoverArea(g, p) then a else c
  {
    if n > 0 {
      AgainPainted(g, a, loud, cover, level, n - 1, p, c);
      assert PaintedLayer(g, a, loud, cover, p, n - 1);
    }
  }

  /** What the painter makes of a painted frame where t is the last hidden layer. */
  lemma PaintedOverHidden(g: Frame, a: Color, loud: int, cover: nat -> Color, order: seq<nat>, t: nat, p: Pixel)
    requires Plain(g) && BottomToTop(Layers(g), order) && !ClosingArea(g, |g.closing|, p)
    requires PaintedLayers(g, a, loud, cover, p) && t < |g.layers| && LastHidden(g, t, p)
    ensures Painted(g, order, p, Finished(g, order, p)) ==
            if 0 <= loud < |g.layers| && Shows(g, loud, p) && DrawnAgain(g, loud, p) then a else cover(t)
  {
    var n := |g.layers|;
    var windows := RedrawPass(g, order, |order|, p, CoverPass(g, |g.wins|, p, Finished(g, order, p)));
    LastHiddenWins(g, t, n, p, windows);
    assert PaintedLayer(g, a, loud, cover, p, t);
    ClosingPassChanges(g, |g.closing|, p, cover(t));
    AgainPainted(g, a, loud, cover, 2, n, p, cover(t));
    AgainPainted(g, a, loud, cover, 3, n, p, TopLayerPass(g, 2, n, p, cover(t)));
    assert 0 <= loud < n ==> g.layers[loud].level <= 3;
  }

  /** There are contents of these shapes that the painter shows otherwise than recomposed. */
  ghost predicate Differs(f: Frame, g: Frame, order: seq<nat>, p: Pixel) {
    && Plain(g) && SameShapes(f, g) && BottomToTop(Layers(g), order)
    && Painted(g, order, p, Finished(g, order, p)) != AllRecomposed(g, order, p)
  }

  /** The last hidden layer t is not on top. */
  lemma NotOnTop(f: Frame, order: seq<nat>, t: nat, p: Pixel, a: Color, b: Color) returns (g: Frame)
    requires Plain(f) && BottomToTop(Layers(f), order) && a != b && !ClosingArea(f, |f.closing|, p)
    requires t < |f.layers| && LastHidden(f, t, p) && !TopHiddenLayer(f, t, p)
    ensures Differs(f, g, order, p)
  {
    var cover := (i: nat) => if i == t then b else a;
    g := Paint(f, a, -1, cover, a);
    PaintReady(f, a, -1, cover, p, order);
    TopsSame(f, g, t, p);
    var h :| 0 <= h < |g.layers| && Hides(g, h, p) && h != t && !LayerAbove(g, t, h);
    PaintedOverHidden(g, a, -1, cover, order, t, p);
    RecomposedFrom(g, a, -1, cover, order, h, p, a);
  }

  /** A window is over the last hidden layer t. */
  lemma WindowOver(f: Frame, order: seq<nat>, t: nat, p: Pixel, a: Color, b: Color) returns (g: Frame)
    requires Plain(f) && BottomToTop(Layers(f), order) && a != b && !ClosingArea(f, |f.closing|, p)
    requires t < |f.layers| && LastHidden(f, t, p) && TopHiddenLayer(f, t, p) && !NoWindowOver(f, t, p)
    ensures Differs(f, g, order, p)
  {
    var cover := (i: nat) => b;
    g := Paint(f, a, -1, cover, a);
    PaintReady(f, a, -1, cover, p, order);
    TopsSame(f, g, t, p);
    PaintedOverHidden(g, a, -1, cover, order, t, p);
    WindowsShow(g, a, cover, order, t, p);
  }

  lemma WindowsShow(g: Frame, a: Color, cover: nat -> Color, order: seq<nat>, t: nat, p: Pixel)
    requires Plain(g) && BottomToTop(Layers(g), order) && !ClosingArea(g, |g.closing|, p)
    requires PaintedLayers(g, a, -1, cover, p) && Flooded(g, a, p)
    requires t < |g.layers| && TopHiddenLayer(g, t, p) && !NoWindowOver(g, t, p)
    ensures AllRecomposed(g, order, p) == a
  {
    var n := |g.layers|;
    var low := LevelCovers(g, 1, n, p, LevelCovers(g, 0, n, p, g.wallpaper(p)));
    var w :| 0 <= w < |g.wins| && !Gone(g, g.wins[w]) && g.wins[w].box.Contains(p);
    assert w in order;
    FloodedScene(g, a, order, |order|, p, low);
    ClosingPassChanges(g, |g.closing|, p, a);
    forall i | 0 <= i < n && Hides(g, i, p) ensures g.layers[i].level < 2 {
      assert i == t || LayerAbove(g, t, i);
    }
    LevelStays(g, a, -1, cover, 2, n, p, a, a);
    LevelStays(g, a, -1, cover, 3, n, p, a, a);
  }

  /** A shown layer is over the last hidden one and is not drawn again, or the other way round. */
  lemma WrongAgain(f: Frame, order: seq<nat>, t: nat, p: Pixel, a: Color, b: Color) returns (g: Frame)
    requires Plain(f) && BottomToTop(Layers(f), order) && a != b && !ClosingArea(f, |f.closing|, p)
    requires t < |f.layers| && LastHidden(f, t, p) && TopHiddenLayer(f, t, p) && NoWindowOver(f, t, p)
    requires !ShownOverAreAgain(f, t, p)
    ensures Differs(f, g, order, p)
  {
    var l :| 0 <= l < |f.layers| && Shows(f, l, p) && (LayerAbove(f, l, t) <==> !DrawnAgain(f, l, p));
    var cover := (i: nat) => b;
    g := Paint(f, a, l, cover, a);
    PaintReady(f, a, l, cover, p, order);
    TopsSame(f, g, t, p);
    ShapesDecide(f, g, p);
    assert SameLayerBut(f.layers[l], g.layers[l]);
    PaintedOverHidden(g, a, l, cover, order, t, p);
    if LayerAbove(g, l, t) {
      RecomposedFrom(g, a, l, cover, order, l, p, a);
    } else {
      RecomposedFrom(g, a, l, cover, order, t, p, b);
    }
  }

  /** Something is closing over a hidden high layer. */
  lemma ClosingOver(f: Frame, order: seq<nat>, h: nat, p: Pixel, a: Color, b: Color) returns (g: Frame)
    requires Plain(f) && BottomToTop(Layers(f), order) && a != b && ClosingArea(f, |f.closing|, p)
    requires h < |f.layers| && Hides(f, h, p) && f.layers[h].level >= 2
    ensures Differs(f, g, order, p)
  {
    var cover := (i: nat) => b;
    g := Paint(f, a, -1, cover, a);
    PaintReady(f, a, -1, cover, p, order);
    assert SameLayerBut(f.layers[h], g.layers[h]);
    var n := |g.layers|;
    var windows := RedrawPass(g, order, |order|, p, CoverPass(g, |g.wins|, p, Finished(g, order, p)));
    ClosingPainted(g, a, |g.closing|, p, LayerPass(g, n, p, windows));
    AgainPainted(g, a, -1, cover, 2, n, p, a);
    AgainPainted(g, a, -1, cover, 3, n, p, a);
    RecomposedFrom(g, a, -1, cover, order, h, p, b);
  }

  lemma {:induction false} ClosingPainted(g: Frame, a: Color, n: nat, p: Pixel, c: Color)
    requires Plain(g) && n <= |g.closing| && ClosingArea(g, n, p)
    requires forall k :: 0 <= k < |g.closing| ==> g.closing[k].cover(p) == a
    ensures ClosingPass(g, n, p, c) == a
  {
    if n > 0 && !g.closing[n - 1].box.Contains(p) {
      ClosingPainted(g, a, n - 1, p, c);
    }
  }

  // ---- where only the windows decide ----

  /** The same frame with layers that draw nothing. */
  ghost function Quiet(f: Frame, a: Color): (g: Frame)
    ensures SameShapes(f, g)
  {
    f.(layers := seq(|f.layers|, i requires 0 <= i < |f.layers| => Tint(f.layers[i], a, false, a)))
  }

  /** No layer draws anything at p. */
  ghost predicate Silent(g: Frame, p: Pixel) {
    forall i, c :: 0 <= i < |g.layers| ==> g.layers[i].look(p, c) == c
  }

  lemma QuietIsPlain(f: Frame, t: nat, a: Color, b: Color, p: Pixel)
    requires Plain(f)
    ensures var g := Repaint(Quiet(f, a), t, a, b); Plain(Quiet(f, a)) && Plain(g) && SameShapes(f, g) && Silent(g, p)
  {
    var q := Quiet(f, a);
    forall i | 0 <= i < |q.layers| ensures q.layers[i].level <= 3 {
      assert SameLayerBut(f.layers[i], q.layers[i]);
    }
    forall l, p, c | l in q.layers && !l.box.Contains(p) ensures l.look(p, c) == c {
    }
    RepaintIsValid(q, t, a, b);
  }

  lemma {:induction false} SilentLevel(g: Frame, level: nat, n: nat, p: Pixel, c: Color)
    requires ValidFrame(g) && n <= |g.layers| && Silent(g, p)
    ensures LevelScene(g, level, n, p, c) == c && TopLayerPass(g, level, n, p, c) == c
  {
    if n > 0 {
      SilentLevel(g, level, n - 1, p, c);
    }
  }

  /** With silent layers, and nothing hidden but windows, only the windows are left. */
  lemma SilentFrame(g: Frame, order: seq<nat>, p: Pixel)
    requires Plain(g) && BottomToTop(Layers(g), order) && Silent(g, p)
    requires !ClosingArea(g, |g.closing|, p) && forall i :: 0 <= i < |g.layers| ==> !Hides(g, i, p)
    ensures Painted(g, order, p, Finished(g, order, p)) == Patched(g, order, p, g.wallpaper(p))
    ensures AllRecomposed(g, order, p) == Scene(g, order, |order|, true, p, g.wallpaper(p))
  {
    var n, c := |g.layers|, g.wallpaper(p);
    forall level: nat, d ensures LevelScene(g, level, n, p, d) == d && TopLayerPass(g, level, n, p, d) == d {
      SilentLevel(g, level, n, p, d);
    }
    forall level: nat, d ensures LevelCovers(g, level, n, p, d) == d {
      NothingHidden(g, level, n, p, d);
    }
    forall d ensures LayerPass(g, n, p, d) == d {
      assert !HiddenLayerAt(g, n, p) by {
        forall i | 0 <= i < n
          ensures !(g.layers[i].hidden && !GoneLayer(g, g.layers[i]) && g.layers[i].box.Contains(p))
        {
          assert !Hides(g, i, p);
        }
      }
      LayerPassChanges(g, n, p, d);
    }
    forall d ensures ClosingPass(g, |g.closing|, p, d) == d {
      ClosingPassChanges(g, |g.closing|, p, d);
    }
  }

  /** The list disagrees. */
  lemma ListWrong(f: Frame, order: seq<nat>, p: Pixel, a: Color, b: Color) returns (g: Frame)
    requires Plain(f) && BottomToTop(Layers(f), order) && a != b && !ListAgrees(f, p)
    requires !ClosingArea(f, |f.closing|, p) && forall i :: 0 <= i < |f.layers| ==> !Hides(f, i, p)
    ensures Differs(f, g, order, p)
  {
    var q := Quiet(f, a);
    QuietIsPlain(f, 0, a, b, p);
    ShapesDecide(f, q, p);
    var t, i :| 0 <= t < |q.wins| && 0 <= i < |q.wins| && TopmostCover(q, t, p) && CoveredAt(q, i, p) && i > t;
    g := Repaint(q, t, a, b);
    RepaintTells(q, order, t, i, p, a, b, g.wallpaper(p));
    QuietReady(f, order, t, a, b, p);
    SilentFrame(g, order, p);
  }

  lemma QuietReady(f: Frame, order: seq<nat>, t: nat, a: Color, b: Color, p: Pixel)
    requires Plain(f) && BottomToTop(Layers(f), order)
    requires !ClosingArea(f, |f.closing|, p) && forall i :: 0 <= i < |f.layers| ==> !Hides(f, i, p)
    ensures var g := Repaint(Quiet(f, a), t, a, b);
            && Plain(g) && SameShapes(f, g) && BottomToTop(Layers(g), order) && Silent(g, p)
            && !ClosingArea(g, |g.closing|, p) && forall i :: 0 <= i < |g.layers| ==> !Hides(g, i, p)
  {
    QuietIsPlain(f, t, a, b, p);
    ShapesDecide(f, Repaint(Quiet(f, a), t, a, b), p);
  }

  lemma DisagreeingDiffers(f: Frame, order: seq<nat>, p: Pixel, a: Color, b: Color) returns (g: Frame)
    requires Plain(f) && BottomToTop(Layers(f), order) && a != b && !FrameAgrees(f, p)
    ensures Differs(f, g, order, p)
  {
    if ClosingArea(f, |f.closing|, p) {
      var h :| 0 <= h < |f.layers| && Hides(f, h, p) && f.layers[h].level >= 2;
      g := ClosingOver(f, order, h, p, a, b);
    } else if exists i :: 0 <= i < |f.layers| && Hides(f, i, p) {
      var t :| 0 <= t < |f.layers| && LastHidden(f, t, p) && !TopsAgree(f, t, p);
      if !TopHiddenLayer(f, t, p) {
        g := NotOnTop(f, order, t, p, a, b);
      } else if !NoWindowOver(f, t, p) {
        g := WindowOver(f, order, t, p, a, b);
      } else {
        g := WrongAgain(f, order, t, p, a, b);
      }
    } else {
      g := ListWrong(f, order, p, a, b);
    }
  }

  /** A one-pixel layer of one colour. */
  function LayerDot(level: nat, hidden: bool, colour: Color): Layer {
    var box := Box(0, 0, 1, 1);
    Layer(box, level, hidden, false,
          (p: Pixel, c: Color) => if box.Contains(p) then colour else c, (p: Pixel) => colour)
  }

  /** A hidden layer of level 2 under a shown one of level 3, and nothing else. */
  function OverlayFrame(under: Color, overlay: Color): Frame {
    Frame(false, [], [LayerDot(2, true, under), LayerDot(3, false, overlay)], [], (p: Pixel) => under)
  }

  /** An input that fails: the cover of the hidden layer goes over the shown one, which is not drawn
      again, as no window is covered there. */
  lemma CoveredOverlay(under: Color, overlay: Color)
    ensures var f, p := OverlayFrame(under, overlay), Pixel(0, 0);
            && Plain(f) && BottomToTop(Layers(f), [])
            && Painted(f, [], p, Finished(f, [], p)) == under && AllRecomposed(f, [], p) == overlay
  {
    var f, p := OverlayFrame(under, overlay), Pixel(0, 0);
    assert Hides(f, 0, p) && !Hides(f, 1, p) && LastHidden(f, 0, p);
    assert Shows(f, 1, p) && !DrawnAgain(f, 1, p);
    LastHiddenWins(f, 0, 2, p, Finished(f, [], p));
    TopLayerPassChanges(f, 2, 2, p, under);
    TopLayerPassChanges(f, 3, 2, p, under);
    var low := LevelCovers(f, 1, 2, p, LevelCovers(f, 0, 2, p, under));
    var over := LevelCovers(f, 2, 2, p, Scene(f, [], 0, true, p, low));
    assert f.layers[1].look(p, LevelCovers(f, 3, 1, p, over)) == overlay;
  }

  /** The exact condition for the whole frame: given the shapes alone, painting over the finished
      image equals recomposing everything at p for all contents if and only if they agree there. */
  lemma FrameFaithfulExactly(f: Frame, order: seq<nat>, p: Pixel, a: Color, b: Color)
    requires Plain(f) && BottomToTop(Layers(f), order) && a != b
    ensures FrameAgrees(f, p) <==>
            forall g: Frame :: Plain(g) && SameShapes(f, g) && BottomToTop(Layers(g), order) ==>
              Painted(g, order, p, Finished(g, order, p)) == AllRecomposed(g, order, p)
  {
    if FrameAgrees(f, p) {
      forall g: Frame | Plain(g) && SameShapes(f, g) && BottomToTop(Layers(g), order)
        ensures Painted(g, order, p, Finished(g, order, p)) == AllRecomposed(g, order, p)
      {
        AgreesTheSame(f, g, p);
        AgreeingSuffices(g, order, p);
      }
    } else {
      var g := DisagreeingDiffers(f, order, p, a, b);
    }
  }
}
