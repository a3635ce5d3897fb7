/** The cover painter: the finished frame is patched in place. Covers go over the visible
    parts of hidden windows, and what was stacked above them goes back on top. */
module Painter {
  import opened Regions
  import opened Stacking

  /** A pixel's colour. Nothing about colours matters except what is drawn from what. */
  type Color(!new)

  /** A window in the frame's pixels.
      shape: the pixels it draws on; look: what it makes of the colour below it;
      cover: what stands in for it when it is hidden. */
  datatype Window = Window(
    box: Box, round: int, layer: int, solid: bool, hidden: bool, transparent: bool,
    shape: Pixel -> bool, look: (Pixel, Color) -> Color, cover: Pixel -> Color)

  /** A layer-shell surface: level 0 and 1 below the windows, 2 and 3 above them. */
  datatype Layer = Layer(
    box: Box, level: nat, hidden: bool, transparent: bool,
    look: (Pixel, Color) -> Color, cover: Pixel -> Color)

  /** The cover of something that is just closing. */
  datatype ClosingCover = ClosingCover(box: Box, shape: Pixel -> bool, cover: Pixel -> Color)

  /** left: what has a transparent cover is not in the finished image. */
  datatype Frame = Frame(
    left: bool, wins: seq<Window>, layers: seq<Layer>, closing: seq<ClosingCover>,
    wallpaper: Pixel -> Color)

  ghost predicate ValidWindow(w: Window) {
    && w.box.Drawable()
    && (forall p :: w.shape(p) ==> w.box.Contains(p))
    && (forall p :: InCore(w.box, w.round, p) ==> w.shape(p))
    && (forall p, c :: !w.shape(p) ==> w.look(p, c) == c)
    && (w.solid ==> forall p, c, d :: InCore(w.box, w.round, p) ==> w.look(p, c) == w.look(p, d))
  }

  ghost predicate ValidFrame(f: Frame) {
    && (forall i :: 0 <= i < |f.wins| ==> ValidWindow(f.wins[i]))
    && (forall l, p, c :: l in f.layers && !l.box.Contains(p) ==> l.look(p, c) == c)
    && (forall k, p :: 0 <= k < |f.closing| && f.closing[k].shape(p) ==> f.closing[k].box.Contains(p))
  }

  function Layers(f: Frame): (ls: seq<int>)
    ensures |ls| == |f.wins| && forall i :: 0 <= i < |ls| ==> ls[i] == f.wins[i].layer
  {
    seq(|f.wins|, i requires 0 <= i < |f.wins| => f.wins[i].layer)
  }

  /** Not in the image at all. */
  predicate Gone(f: Frame, w: Window) {
    f.left && w.hidden && w.transparent
  }

  predicate GoneLayer(f: Frame, l: Layer) {
    f.left && l.hidden && l.transparent
  }

  predicate IsAbove(f: Frame, o: nat, me: nat)
    requires o < |f.wins| && me < |f.wins|
  {
    Above(Layers(f), o, me)
  }

  predicate Covered(f: Frame, i: nat)
    requires i < |f.wins|
  {
    f.wins[i].hidden && !Gone(f, f.wins[i])
  }

  /** An opaque window that is in the image and surely fills p. */
  ghost predicate Blocks(f: Frame, o: nat, p: Pixel)
    requires ValidFrame(f) && o < |f.wins|
  {
    f.wins[o].solid && !Gone(f, f.wins[o]) && InCore(f.wins[o].box, f.wins[o].round, p)
  }

  /** One of the first n windows is above window i and blocks p. */
  ghost predicate Blocked(f: Frame, i: nat, n: nat, p: Pixel)
    requires ValidFrame(f) && i < |f.wins| && n <= |f.wins|
  {
    exists o :: 0 <= o < n && IsAbove(f, o, i) && Blocks(f, o, p)
  }

  /** p is in the visible region of window i. */
  ghost predicate Visible(f: Frame, i: nat, p: Pixel)
    requires ValidFrame(f) && i < |f.wins|
  {
    f.wins[i].box.Contains(p) && !Blocked(f, i, |f.wins|, p)
  }

  ghost predicate CoveredAt(f: Frame, i: nat, p: Pixel)
    requires ValidFrame(f) && i < |f.wins|
  {
    Covered(f, i) && Visible(f, i, p)
  }

  ghost predicate CoverBelow(f: Frame, j: nat, p: Pixel)
    requires ValidFrame(f) && j < |f.wins|
  {
    exists i :: 0 <= i < |f.wins| && IsAbove(f, j, i) && CoveredAt(f, i, p)
  }

  ghost predicate CoverAbove(f: Frame, j: nat, p: Pixel)
    requires ValidFrame(f) && j < |f.wins|
  {
    exists i :: 0 <= i < |f.wins| && IsAbove(f, i, j) && CoveredAt(f, i, p)
  }

  ghost predicate SomeCover(f: Frame, n: nat, p: Pixel)
    requires ValidFrame(f) && n <= |f.wins|
  {
    exists i :: 0 <= i < n && CoveredAt(f, i, p)
  }

  /** Window j, translucent and not hidden, is drawn again at p. */
  ghost predicate RedrawnAt(f: Frame, j: nat, p: Pixel)
    requires ValidFrame(f) && j < |f.wins|
  {
    && !f.wins[j].solid && !f.wins[j].hidden && f.wins[j].box.Contains(p)
    && CoverBelow(f, j, p) && !Blocked(f, j, |f.wins|, p) && !CoverAbove(f, j, p)
  }

  // ---- what the passes make of one pixel that starts with colour c ----

  ghost function CoverPass(f: Frame, n: nat, p: Pixel, c: Color): Color
    requires ValidFrame(f) && n <= |f.wins|
  {
    if n == 0 then c
    else if CoveredAt(f, n - 1, p) && f.wins[n - 1].shape(p) then f.wins[n - 1].cover(p)
    else CoverPass(f, n - 1, p, c)
  }

  ghost function RedrawPass(f: Frame, order: seq<nat>, k: nat, p: Pixel, c: Color): Color
    requires ValidFrame(f) && k <= |order| && forall a :: 0 <= a < |order| ==> order[a] < |f.wins|
  {
    if k == 0 then c
    else
      var below := RedrawPass(f, order, k - 1, p, c);
      if RedrawnAt(f, order[k - 1], p) then f.wins[order[k - 1]].look(p, below) else below
  }

  /** Hidden layers are covered over their whole box, in list order. */
  function LayerPass(f: Frame, n: nat, p: Pixel, c: Color): Color
    requires n <= |f.layers|
  {
    if n == 0 then c
    else
      var l := f.layers[n - 1];
      if l.hidden && !GoneLayer(f, l) && l.box.Contains(p) then l.cover(p) else LayerPass(f, n - 1, p, c)
  }

  function ClosingPass(f: Frame, n: nat, p: Pixel, c: Color): Color
    requires n <= |f.closing|
  {
    if n == 0 then c
    else if f.closing[n - 1].shape(p) then f.closing[n - 1].cover(p)
    else ClosingPass(f, n - 1, p, c)
  }

  ghost predicate ClosingArea(f: Frame, n: nat, p: Pixel)
    requires n <= |f.closing|
  {
    exists k :: 0 <= k < n && f.closing[k].box.Contains(p)
  }

  /** p was covered for a window or for something closing. */
  ghost predicate CoverArea(f: Frame, p: Pixel)
    requires ValidFrame(f)
  {
    ClosingArea(f, |f.closing|, p) || SomeCover(f, |f.wins|, p)
  }

  ghost function TopLayerPass(f: Frame, level: nat, n: nat, p: Pixel, c: Color): Color
    requires ValidFrame(f) && n <= |f.layers|
  {
    if n == 0 then c
    else
      var l := f.layers[n - 1];
      var below := TopLayerPass(f, level, n - 1, p, c);
      if l.level == level && !l.hidden && l.box.Contains(p) && CoverArea(f, p) then l.look(p, below) else below
  }

  ghost function Painted(f: Frame, order: seq<nat>, p: Pixel, c: Color): Color
    requires ValidFrame(f) && forall a :: 0 <= a < |order| ==> order[a] < |f.wins|
  {
    var windows := RedrawPass(f, order, |order|, p, CoverPass(f, |f.wins|, p, c));
    var covers := ClosingPass(f, |f.closing|, p, LayerPass(f, |f.layers|, p, windows));
    TopLayerPass(f, 3, |f.layers|, p, TopLayerPass(f, 2, |f.layers|, p, covers))
  }

  /** One window's drawn cover, as the painter remembers it. */
  datatype DrawnCover = DrawnCover(index: nat, clip: set<Pixel>)

  /** drawn holds the nonempty visible regions of the covered windows below n. */
  ghost predicate DrawnMatches(f: Frame, n: nat, drawn: seq<DrawnCover>)
    requires ValidFrame(f) && n <= |f.wins|
  {
    && (forall k :: 0 <= k < |drawn| ==> DrawnMatch(f, n, drawn[k]))
    && (forall i :: 0 <= i < n && Covered(f, i) ==>
          (exists k :: 0 <= k < |drawn| && drawn[k].index == i) || forall p :: !Visible(f, i, p))
  }

  ghost predicate DrawnMatch(f: Frame, n: nat, d: DrawnCover)
    requires ValidFrame(f) && n <= |f.wins|
  {
    d.index < n && Covered(f, d.index) && forall p :: p in d.clip <==> Visible(f, d.index, p)
  }

  /** A remembered clip of a window that window j is above of (below) holds p. */
  ghost predicate ClipBelow(f: Frame, drawn: seq<DrawnCover>, j: nat, n: nat, p: Pixel)
    requires j < |f.wins| && n <= |drawn| && forall k :: 0 <= k < |drawn| ==> drawn[k].index < |f.wins|
  {
    exists d :: 0 <= d < n && IsAbove(f, j, drawn[d].index) && p in drawn[d].clip
  }

  ghost predicate ClipAbove(f: Frame, drawn: seq<DrawnCover>, j: nat, n: nat, p: Pixel)
    requires j < |f.wins| && n <= |drawn| && forall k :: 0 <= k < |drawn| ==> drawn[k].index < |f.wins|
  {
    exists d :: 0 <= d < n && IsAbove(f, drawn[d].index, j) && p in drawn[d].clip
  }

  ghost predicate InClips(drawn: seq<DrawnCover>, n: nat, p: Pixel)
    requires n <= |drawn|
  {
    exists d :: 0 <= d < n && p in drawn[d].clip
  }

  lemma DrawnIndices(f: Frame, drawn: seq<DrawnCover>)
    requires ValidFrame(f) && DrawnMatches(f, |f.wins|, drawn)
    ensures forall k :: 0 <= k < |drawn| ==> drawn[k].index < |f.wins|
  {
    forall k | 0 <= k < |drawn| ensures drawn[k].index < |f.wins| {
      assert DrawnMatch(f, |f.wins|, drawn[k]);
    }
  }

  /** A remembered clip is the visible region of a covered window, and none is missing. */
  lemma DrawnIsCovered(f: Frame, drawn: seq<DrawnCover>, p: Pixel)
    requires ValidFrame(f) && DrawnMatches(f, |f.wins|, drawn)
    ensures forall k :: 0 <= k < |drawn| && p in drawn[k].clip ==>
                          drawn[k].index < |f.wins| && CoveredAt(f, drawn[k].index, p)
    ensures forall i :: 0 <= i < |f.wins| && CoveredAt(f, i, p) ==>
                          exists k :: 0 <= k < |drawn| && drawn[k].index == i && p in drawn[k].clip
  {
    forall k | 0 <= k < |drawn| && p in drawn[k].clip
      ensures drawn[k].index < |f.wins| && CoveredAt(f, drawn[k].index, p)
    {
      assert DrawnMatch(f, |f.wins|, drawn[k]);
    }
    forall i | 0 <= i < |f.wins| && CoveredAt(f, i, p)
      ensures exists k :: 0 <= k < |drawn| && drawn[k].index == i && p in drawn[k].clip
    {
      var k :| 0 <= k < |drawn| && drawn[k].index == i;
      assert DrawnMatch(f, |f.wins|, drawn[k]);
    }
  }

  /** What the remembered clips say at p is what the visible regions say. */
  lemma DrawnAgrees(f: Frame, drawn: seq<DrawnCover>, p: Pixel)
    requires ValidFrame(f) && DrawnMatches(f, |f.wins|, drawn)
    requires forall k :: 0 <= k < |drawn| ==> drawn[k].index < |f.wins|
    ensures forall j :: 0 <= j < |f.wins| ==> (ClipBelow(f, drawn, j, |drawn|, p) <==> CoverBelow(f, j, p))
    ensures forall j :: 0 <= j < |f.wins| ==> (ClipAbove(f, drawn, j, |drawn|, p) <==> CoverAbove(f, j, p))
    ensures InClips(drawn, |drawn|, p) <==> SomeCover(f, |f.wins|, p)
  {
    DrawnIsCovered(f, drawn, p);
  }

  /** A pixel that no cover went over is not drawn again. */
  lemma {:induction false} RedrawPassChanges(f: Frame, order: seq<nat>, k: nat, p: Pixel, c: Color)
    requires ValidFrame(f) && k <= |order| && forall a :: 0 <= a < |order| ==> order[a] < |f.wins|
    requires !SomeCover(f, |f.wins|, p)
    ensures RedrawPass(f, order, k, p, c) == c
  {
    if k > 0 {
      RedrawPassChanges(f, order, k - 1, p, c);
    }
  }

  lemma {:induction false} CoverPassChanges(f: Frame, n: nat, p: Pixel, c: Color)
    requires ValidFrame(f) && n <= |f.wins|
    requires !SomeCover(f, n, p)
    ensures CoverPass(f, n, p, c) == c
  {
    if n > 0 {
      CoverPassChanges(f, n - 1, p, c);
    }
  }

  lemma {:induction false} ClosingPassChanges(f: Frame, n: nat, p: Pixel, c: Color)
    requires ValidFrame(f) && n <= |f.closing|
    requires !ClosingArea(f, n, p)
    ensures ClosingPass(f, n, p, c) == c
  {
    if n > 0 {
      assert !f.closing[n - 1].box.Contains(p);
      ClosingPassChanges(f, n - 1, p, c);
    }
  }

  lemma {:induction false} TopLayerPassChanges(f: Frame, level: nat, n: nat, p: Pixel, c: Color)
    requires ValidFrame(f) && n <= |f.layers|
    requires !CoverArea(f, p)
    ensures TopLayerPass(f, level, n, p, c) == c
  {
    if n > 0 {
      TopLayerPassChanges(f, level, n - 1, p, c);
    }
  }

  lemma SomeCoverGrows(f: Frame, i: nat)
    requires ValidFrame(f) && i < |f.wins|
    ensures forall p :: SomeCover(f, i + 1, p) <==> SomeCover(f, i, p) || CoveredAt(f, i, p)
  {
    forall p ensures SomeCover(f, i + 1, p) <==> SomeCover(f, i, p) || CoveredAt(f, i, p) {
    }
  }

  lemma DrawnGrows(f: Frame, i: nat, known: seq<DrawnCover>, drawn: seq<DrawnCover>)
    requires ValidFrame(f) && i < |f.wins| && DrawnMatches(f, i, known)
    requires drawn == known ==> !Covered(f, i) || forall p :: !Visible(f, i, p)
    requires drawn != known ==> |drawn| == |known| + 1 && drawn[..|known|] == known &&
                                drawn[|known|].index == i && DrawnMatch(f, i + 1, drawn[|known|])
    ensures DrawnMatches(f, i + 1, drawn)
  {
    forall k | 0 <= k < |drawn| ensures DrawnMatch(f, i + 1, drawn[k]) {
      if k < |known| {
        assert DrawnMatch(f, i, known[k]) && drawn[k] == known[k];
      }
    }
    forall m | 0 <= m < i + 1 && Covered(f, m)
      ensures (exists k :: 0 <= k < |drawn| && drawn[k].index == m) || forall p :: !Visible(f, m, p)
    {
      if m < i && exists k :: 0 <= k < |known| && known[k].index == m {
        var k :| 0 <= k < |known| && known[k].index == m;
        assert drawn[k] == known[k];
      }
    }
  }

  /** The covers of the first n windows were painted over an image. */
  ghost predicate CoveredSoFar(
    f: Frame, n: nat, drawn: seq<DrawnCover>, was: Pixel -> Color, area: set<Pixel>, image: Pixel -> Color,
    painted: set<Pixel>)
    requires ValidFrame(f) && n <= |f.wins|
  {
    && DrawnMatches(f, n, drawn)
    && (forall p :: image(p) == CoverPass(f, n, p, was(p)))
    && (forall p :: p in painted <==> p in area || SomeCover(f, n, p))
  }

  lemma CoversStart(f: Frame, image: Pixel -> Color, painted: set<Pixel>)
    requires ValidFrame(f)
    ensures CoveredSoFar(f, 0, [], image, painted, image, painted)
  {
  }

  lemma CoversMore(
    f: Frame, n: nat, drawn: seq<DrawnCover>, drawn': seq<DrawnCover>, was: Pixel -> Color, area: set<Pixel>,
    image: Pixel -> Color, painted: set<Pixel>, image': Pixel -> Color, painted': set<Pixel>)
    requires ValidFrame(f) && n < |f.wins| && CoveredSoFar(f, n, drawn, was, area, image, painted)
    requires DrawnMatches(f, n + 1, drawn')
    requires forall p :: image'(p) == if CoveredAt(f, n, p) && f.wins[n].shape(p) then f.wins[n].cover(p) else image(p)
    requires forall p :: p in painted' <==> p in painted || CoveredAt(f, n, p)
    ensures CoveredSoFar(f, n + 1, drawn', was, area, image', painted')
  {
    SomeCoverGrows(f, n);
    forall p ensures image'(p) == CoverPass(f, n + 1, p, was(p)) {
      assert image(p) == CoverPass(f, n, p, was(p));
    }
  }

  /** The frame's image and the area painted over so far. */
  class Canvas {
    var image: Pixel -> Color
    var painted: set<Pixel>

    /** image: the finished image the compositor drew. */
    constructor (image: Pixel -> Color)
      ensures this.image == image && painted == {}
    {
      this.image := image;
      painted := {};
    }

    /** Draws an opaque picture over shape, only within clip. */
    method DrawCover(clip: set<Pixel>, shape: Pixel -> bool, cover: Pixel -> Color)
      modifies this
      ensures painted == old(painted) + clip
      ensures forall p :: image(p) == if p in clip && shape(p) then cover(p) else old(image)(p)
    {
      var before := image;
      image := (p: Pixel) => if p in clip && shape(p) then cover(p) else before(p);
      painted := painted + clip;
    }

    /** Draws a surface again over what is there, only within clip. */
    method DrawAgain(clip: set<Pixel>, look: (Pixel, Color) -> Color)
      modifies this`image
      ensures forall p :: image(p) == if p in clip then look(p, old(image)(p)) else old(image)(p)
    {
      var before := image;
      image := (p: Pixel) => if p in clip then look(p, before(p)) else before(p);
    }

    /** Takes out of a region of window i whatever opaque windows above it hide. */
    method SubtractBlockers(f: Frame, i: nat, region: Region)
      requires ValidFrame(f) && i < |f.wins|
      modifies region
      ensures forall p :: p in region.px <==> p in old(region.px) && !Blocked(f, i, |f.wins|, p)
    {
      var j := 0;
      while j < |f.wins|
        invariant j <= |f.wins|
        invariant forall p :: p in region.px <==> p in old(region.px) && !Blocked(f, i, j, p)
      {
        ghost var before := region.px;
        if IsAbove(f, j, i) && f.wins[j].solid && !Gone(f, f.wins[j]) {
          region.SubtractRounded(f.wins[j].box, f.wins[j].round);
        }
        forall p ensures Blocked(f, i, j + 1, p) <==> Blocked(f, i, j, p) || (IsAbove(f, j, i) && Blocks(f, j, p)) {
        }
        j := j + 1;
      }
    }

    method VisibleRegion(f: Frame, i: nat) returns (region: Region)
      requires ValidFrame(f) && i < |f.wins|
      ensures fresh(region)
      ensures forall p :: p in region.px <==> Visible(f, i, p)
    {
      region := new Region.FromBox(f.wins[i].box);
      SubtractBlockers(f, i, region);
    }

    /** One step of the cover loop: window i, if it gets a cover. */
    method PaintWindowCover(f: Frame, i: nat, known: seq<DrawnCover>) returns (drawn: seq<DrawnCover>)
      requires ValidFrame(f) && i < |f.wins| && DrawnMatches(f, i, known)
      modifies this
      ensures DrawnMatches(f, i + 1, drawn)
      ensures forall p :: image(p) == if CoveredAt(f, i, p) && f.wins[i].shape(p) then f.wins[i].cover(p)
              else old(image)(p)
      ensures forall p :: p in painted <==> p in old(painted) || CoveredAt(f, i, p)
    {
      drawn := known;
      if Covered(f, i) {
        var clip := VisibleRegion(f, i);
        if clip.px != {} {
          DrawCover(clip.px, f.wins[i].shape, f.wins[i].cover);
          drawn := drawn + [DrawnCover(i, clip.px)];
        }
      }
      DrawnGrows(f, i, known, drawn);
    }

    /** Covers of hidden windows in list order, each only where its window is visible. */
    method PaintWindowCovers(f: Frame) returns (drawn: seq<DrawnCover>)
      requires ValidFrame(f)
      modifies this
      ensures DrawnMatches(f, |f.wins|, drawn)
      ensures forall p :: image(p) == CoverPass(f, |f.wins|, p, old(image)(p))
      ensures forall p :: p in painted <==> p in old(painted) || SomeCover(f, |f.wins|, p)
    {
      drawn := [];
      var i := 0;
      CoversStart(f, image, painted);
      while i < |f.wins|
        invariant i <= |f.wins| && CoveredSoFar(f, i, drawn, old(image), old(painted), image, painted)
      {
        drawn := PaintNextCover(f, i, drawn, old(image), old(painted));
        i := i + 1;
      }
    }

    /** Window i, after the covers of all before it went over image was. */
    method PaintNextCover(f: Frame, i: nat, known: seq<DrawnCover>, ghost was: Pixel -> Color, ghost area: set<Pixel>)
      returns (drawn: seq<DrawnCover>)
      requires ValidFrame(f) && i < |f.wins| && CoveredSoFar(f, i, known, was, area, image, painted)
      modifies this
      ensures CoveredSoFar(f, i + 1, drawn, was, area, image, painted)
    {
      drawn := PaintWindowCover(f, i, known);
      CoversMore(f, i, known, drawn, was, area, old(image), old(painted), image, painted);
    }

    /** Where translucent window j goes over a cover again. */
    method RedrawRegion(f: Frame, drawn: seq<DrawnCover>, j: nat) returns (region: Region)
      requires ValidFrame(f) && j < |f.wins| && DrawnMatches(f, |f.wins|, drawn)
      requires !f.wins[j].solid && !f.wins[j].hidden
      ensures fresh(region)
      ensures forall p :: p in region.px <==> RedrawnAt(f, j, p)
    {
      DrawnIndices(f, drawn);
      region := new Region.Empty();
      var k := 0;
      while k < |drawn|
        invariant k <= |drawn|
        invariant forall p :: p in region.px <==> ClipBelow(f, drawn, j, k, p)
      {
        if IsAbove(f, j, drawn[k].index) {
          region.Add(drawn[k].clip);
        }
        k := k + 1;
      }
      if region.px != {} {
        region.Intersect(f.wins[j].box.Pixels());
        SubtractBlockers(f, j, region);
        SubtractClipsAbove(f, drawn, j, region);
      }
      forall p ensures p in region.px <==> RedrawnAt(f, j, p) {
        DrawnAgrees(f, drawn, p);
      }
    }

    method SubtractClipsAbove(f: Frame, drawn: seq<DrawnCover>, j: nat, region: Region)
      requires j < |f.wins| && forall k :: 0 <= k < |drawn| ==> drawn[k].index < |f.wins|
      modifies region
      ensures forall p :: p in region.px <==> p in old(region.px) && !ClipAbove(f, drawn, j, |drawn|, p)
    {
      var k := 0;
      while k < |drawn|
        invariant k <= |drawn|
        invariant forall p :: p in region.px <==> p in old(region.px) && !ClipAbove(f, drawn, j, k, p)
      {
        if IsAbove(f, drawn[k].index, j) {
          region.Subtract(drawn[k].clip);
        }
        k := k + 1;
      }
    }

    /** Translucent windows over a cover, bottom to top. */
    method RedrawTranslucent(f: Frame, drawn: seq<DrawnCover>, order: seq<nat>)
      requires ValidFrame(f) && DrawnMatches(f, |f.wins|, drawn)
      requires forall a :: 0 <= a < |order| ==> order[a] < |f.wins|
      modifies this`image
      ensures forall p :: image(p) == RedrawPass(f, order, |order|, p, old(image)(p))
    {
      var k := 0;
      while k < |order|
        invariant k <= |order|
        invariant forall p :: image(p) == RedrawPass(f, order, k, p, old(image)(p))
      {
        var j := order[k];
        if !f.wins[j].solid && !f.wins[j].hidden {
          var region := RedrawRegion(f, drawn, j);
          if region.px != {} {
            DrawAgain(region.px, f.wins[j].look);
          }
        }
        k := k + 1;
      }
    }

    method PaintHiddenLayers(f: Frame)
      modifies this
      ensures forall p :: image(p) == LayerPass(f, |f.layers|, p, old(image)(p))
      ensures forall p :: old(image)(p) != image(p) ==> p in painted
      ensures old(painted) <= painted
    {
      var n := 0;
      while n < |f.layers|
        invariant n <= |f.layers|
        invariant forall p :: image(p) == LayerPass(f, n, p, old(image)(p))
        invariant forall p :: old(image)(p) != image(p) ==> p in painted
        invariant old(painted) <= painted
      {
        var l := f.layers[n];
        if l.hidden && !GoneLayer(f, l) {
          DrawCover(l.box.Pixels(), (p: Pixel) => true, l.cover);
        }
        n := n + 1;
      }
    }

    method PaintClosingCover(c: ClosingCover, area: Region)
      requires area as object != this
      modifies this, area
      ensures forall p :: image(p) == if c.box.Contains(p) && c.shape(p) then c.cover(p) else old(image)(p)
      ensures forall p :: p in area.px <==> p in old(area.px) || c.box.Contains(p)
      ensures forall p :: p in painted <==> p in old(painted) || c.box.Contains(p)
    {
      var box := c.box.Pixels();
      DrawCover(box, c.shape, c.cover);
      area.Add(box);
    }

    /** Covers of closing surfaces; returns the area they went over. */
    method PaintClosing(f: Frame) returns (area: Region)
      requires ValidFrame(f)
      modifies this
      ensures fresh(area)
      ensures forall p :: p in area.px <==> ClosingArea(f, |f.closing|, p)
      ensures forall p :: image(p) == ClosingPass(f, |f.closing|, p, old(image)(p))
      ensures forall p :: old(image)(p) != image(p) ==> p in painted
      ensures forall p :: p in painted <==> p in old(painted) || ClosingArea(f, |f.closing|, p)
    {
      area := new Region.Empty();
      var n := 0;
      while n < |f.closing|
        invariant n <= |f.closing|
        invariant forall p :: p in area.px <==> ClosingArea(f, n, p)
        invariant forall p :: image(p) == ClosingPass(f, n, p, old(image)(p))
        invariant forall p :: p in painted <==> p in old(painted) || ClosingArea(f, n, p)
      {
        PaintClosingCover(f.closing[n], area);
        forall p ensures ClosingArea(f, n + 1, p) <==> ClosingArea(f, n, p) || f.closing[n].box.Contains(p) {
        }
        n := n + 1;
      }
      forall p | !ClosingArea(f, |f.closing|, p)
        ensures ClosingPass(f, |f.closing|, p, old(image)(p)) == old(image)(p)
      {
        ClosingPassChanges(f, |f.closing|, p, old(image)(p));
      }
    }

    /** Visible layers of one level go over the covers again. */
    method RedrawLayers(f: Frame, level: nat, coverArea: set<Pixel>)
      requires ValidFrame(f)
      requires forall p :: p in coverArea <==> CoverArea(f, p)
      modifies this`image
      ensures forall p :: image(p) == TopLayerPass(f, level, |f.layers|, p, old(image)(p))
    {
      var n := 0;
      while n < |f.layers|
        invariant n <= |f.layers|
        invariant forall p :: image(p) == TopLayerPass(f, level, n, p, old(image)(p))
      {
        var l := f.layers[n];
        if l.level == level && !l.hidden {
          var region := new Region.FromBox(l.box);
          region.Intersect(coverArea);
          if region.px != {} {
            DrawAgain(region.px, l.look);
          }
          forall p ensures p in region.px <==> l.box.Contains(p) && CoverArea(f, p) {
          }
        }
        n := n + 1;
      }
    }

    /** The window passes: covers, then what is above them again. */
    method PaintWindows(f: Frame) returns (drawn: seq<DrawnCover>, order: seq<nat>)
      requires ValidFrame(f)
      modifies this
      ensures DrawnMatches(f, |f.wins|, drawn)
      ensures BottomToTop(Layers(f), order)
      ensures forall p :: image(p) == RedrawPass(f, order, |order|, p, CoverPass(f, |f.wins|, p, old(image)(p)))
      ensures forall p :: image(p) != old(image)(p) ==> p in painted
      ensures forall p :: p in painted <==> p in old(painted) || SomeCover(f, |f.wins|, p)
    {
      drawn := PaintWindowCovers(f);
      ghost var covered := image;
      order := StableSortByLayer(Layers(f));
      if drawn != [] {
        RedrawTranslucent(f, drawn, order);
      }
      forall p | drawn == [] || !SomeCover(f, |f.wins|, p)
        ensures RedrawPass(f, order, |order|, p, covered(p)) == covered(p) == old(image)(p)
      {
        DrawnIsCovered(f, drawn, p);
        RedrawPassChanges(f, order, |order|, p, covered(p));
        CoverPassChanges(f, |f.wins|, p, old(image)(p));
      }
    }

    /** closing plus what was drawn for windows. */
    method AddDrawn(drawn: seq<DrawnCover>, area: Region)
      modifies area
      ensures forall p :: p in area.px <==> p in old(area.px) || InClips(drawn, |drawn|, p)
    {
      var k := 0;
      while k < |drawn|
        invariant k <= |drawn|
        invariant forall p :: p in area.px <==> p in old(area.px) || InClips(drawn, k, p)
      {
        area.Add(drawn[k].clip);
        k := k + 1;
      }
    }

    /** Layers above the windows go over the covers again, level by level. */
    method PaintTopLayers(f: Frame, drawn: seq<DrawnCover>, area: Region)
      requires ValidFrame(f) && DrawnMatches(f, |f.wins|, drawn)
      requires forall p :: p in area.px <==> ClosingArea(f, |f.closing|, p)
      requires forall p :: p in painted <== CoverArea(f, p)
      requires area as object != this
      modifies this`image, area
      ensures forall p :: image(p) == TopLayerPass(f, 3, |f.layers|, p,
              TopLayerPass(f, 2, |f.layers|, p, old(image)(p)))
      ensures forall p :: image(p) != old(image)(p) ==> p in painted
    {
      AddDrawn(drawn, area);
      forall p ensures p in area.px <==> CoverArea(f, p) {
        DrawnIndices(f, drawn);
        DrawnAgrees(f, drawn, p);
      }
      ghost var before := image;
      forall p, level: nat, c | !CoverArea(f, p) ensures TopLayerPass(f, level, |f.layers|, p, c) == c {
        TopLayerPassChanges(f, level, |f.layers|, p, c);
      }
      if area.px != {} {
        RedrawLayers(f, 2, area.px);
        RedrawLayers(f, 3, area.px);
      }
    }

    /** The whole frame. Nothing outside the painted area changes. */
    method PaintCovers(f: Frame) returns (order: seq<nat>)
      requires ValidFrame(f)
      modifies this
      ensures BottomToTop(Layers(f), order)
      ensures forall p :: image(p) == Painted(f, order, p, old(image)(p))
      ensures forall p :: image(p) != old(image)(p) ==> p in painted
    {
      var drawn;
      drawn, order := PaintWindows(f);
      PaintHiddenLayers(f);
      var area := PaintClosing(f);
      PaintTopLayers(f, drawn, area);
    }
  }
}
