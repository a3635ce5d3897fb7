/** GIF playback: frames are drawn one on another, and what is seen must always be the picture the
    disposal rules of the GIF89a specification (section 23) give for the shown frame. */
module Gif {
  import opened Arith
  import opened Wrappers
  import opened Clock

  datatype Disposal = Any | Keep | Background | Previous

  /** delay in nanoseconds; rgba: four bytes a pixel, alpha 0 where it lets through. */
  datatype GifFrame = GifFrame(
    delay: nat, dispose: Disposal, left: nat, top: nat, width: nat, height: nat, rgba: seq<byte>)

  type Bytes = seq<byte>

  ghost predicate ValidData(f: GifFrame) {
    |f.rgba| == f.width * f.height * 4 && f.delay > 0
  }

  // ---- pixels of a w pixel wide picture, four bytes each, row after row ----

  function Col(i: nat, w: nat): nat
    requires w > 0
  {
    (i / 4) % w
  }

  function Row(i: nat, w: nat): nat
    requires w > 0
  {
    (i / 4) / w
  }

  predicate InRect(f: GifFrame, x: nat, y: nat) {
    f.left <= x < f.left + f.width && f.top <= y < f.top + f.height
  }

  lemma PixelOffset(x: nat, y: nat, w: nat, h: nat)
    requires x < w && y < h
    ensures 0 <= (y * w + x) * 4 && (y * w + x) * 4 + 4 <= w * h * 4
    ensures (y * w + x) / w == y && (y * w + x) % w == x
  {
    MulNonNegative(y, w);
    MulStep(y, h, w);
    DivUnique(y * w + x, w, y, x);
  }

  /** The byte of frame pixel (x, y) that goes to canvas byte c (BGRA, alpha 255). */
  function SourceByte(f: GifFrame, x: nat, y: nat, c: nat): byte
    requires ValidData(f) && InRect(f, x, y) && c < 4
  {
    PixelOffset(x - f.left, y - f.top, f.width, f.height);
    var s := ((y - f.top) * f.width + (x - f.left)) * 4;
    if c == 3 then 255 else f.rgba[s + 2 - c]
  }

  predicate Solid(f: GifFrame, x: nat, y: nat)
    requires ValidData(f)
  {
    InRect(f, x, y) &&
    (PixelOffset(x - f.left, y - f.top, f.width, f.height);
     f.rgba[((y - f.top) * f.width + (x - f.left)) * 4 + 3] != 0)
  }

  // ---- reference picture, straight from the disposal rules ----

  /** The canvas with a frame's solid pixels over it. */
  ghost function Over(canvas: Bytes, w: nat, f: GifFrame): (r: Bytes)
    requires w > 0 && ValidData(f)
    ensures |r| == |canvas|
  {
    seq(|canvas|, i requires 0 <= i < |canvas| =>
      if Solid(f, Col(i, w), Row(i, w)) then SourceByte(f, Col(i, w), Row(i, w), i % 4) else canvas[i])
  }

  /** The canvas with what was there before (inside) put back where the frame was. */
  ghost function Inside(canvas: Bytes, w: nat, f: GifFrame, inside: Bytes): (r: Bytes)
    requires w > 0 && |inside| == |canvas|
    ensures |r| == |canvas|
  {
    seq(|canvas|, i requires 0 <= i < |canvas| => if InRect(f, Col(i, w), Row(i, w)) then inside[i] else canvas[i])
  }

  ghost function Blank(n: nat, bg: seq<byte>): (r: Bytes)
    requires |bg| == 4
    ensures |r| == n * 4
  {
    seq(n * 4, i requires 0 <= i < n * 4 => bg[i % 4])
  }

  // ---- the same, pixel by pixel: (x, y) has the four bytes from (y * w + x) * 4 on ----

  lemma PixelBytes(w: nat, h: nat, x: nat, y: nat, c: nat)
    requires x < w && y < h && c < 4
    ensures var i := (y * w + x) * 4 + c; 0 <= i < w * h * 4 && Col(i, w) == x && Row(i, w) == y && i % 4 == c
  {
    PixelOffset(x, y, w, h);
  }

  /** A frame's pixel replaces the canvas', blue first and solid, unless it is transparent. */
  lemma OverPixel(canvas: Bytes, w: nat, h: nat, f: GifFrame, x: nat, y: nat)
    requires |canvas| == w * h * 4 && x < w && y < h && ValidData(f)
    ensures (y * w + x) * 4 + 4 <= |canvas|
    ensures f.left <= x < f.left + f.width && f.top <= y < f.top + f.height ==>
              var s := ((y - f.top) * f.width + (x - f.left)) * 4;
              0 <= s && s + 4 <= |f.rgba|
    ensures var at, r := (y * w + x) * 4, Over(canvas, w, f);
            var s := ((y - f.top) * f.width + (x - f.left)) * 4;
            if f.left <= x < f.left + f.width && f.top <= y < f.top + f.height && f.rgba[s + 3] != 0
            then r[at] == f.rgba[s + 2] && r[at + 1] == f.rgba[s + 1] && r[at + 2] == f.rgba[s] && r[at + 3] == 255
            else r[at..at + 4] == canvas[at..at + 4]
  {
    PixelBytes(w, h, x, y, 0);
    PixelBytes(w, h, x, y, 1);
    PixelBytes(w, h, x, y, 2);
    PixelBytes(w, h, x, y, 3);
    if InRect(f, x, y) {
      PixelOffset(x - f.left, y - f.top, f.width, f.height);
    }
  }

  /** What is put back is put back where the frame was, and nowhere else. */
  lemma InsidePixel(canvas: Bytes, w: nat, h: nat, f: GifFrame, inside: Bytes, x: nat, y: nat, c: nat)
    requires |canvas| == |inside| == w * h * 4 && x < w && y < h && c < 4
    ensures var i := (y * w + x) * 4 + c;
            && 0 <= i < |canvas|
            && Inside(canvas, w, f, inside)[i] ==
                 if f.left <= x < f.left + f.width && f.top <= y < f.top + f.height then inside[i] else canvas[i]
  {
    PixelBytes(w, h, x, y, c);
  }

  datatype Clip = Clip(width: nat, height: nat, bg: seq<byte>, frames: seq<GifFrame>) {
    ghost predicate Valid() {
      && width > 0 && height > 0 && |bg| == 4 && |frames| > 0
      && forall k :: 0 <= k < |frames| ==> ValidData(frames[k])
    }

    ghost function Clean(): Bytes
      requires Valid()
    {
      Blank(width * height, bg)
    }

    /** The canvas just before frame k is drawn: frame k - 1 has been disposed of. */
    ghost function Before(k: nat): (r: Bytes)
      requires Valid() && k < |frames|
      ensures |r| == width * height * 4
      decreases k, 0
    {
      if k == 0 then Clean()
      else
        match frames[k - 1].dispose
        case Background => Inside(Picture(k - 1), width, frames[k - 1], Clean())
        case Previous => Inside(Picture(k - 1), width, frames[k - 1], Before(k - 1))
        case Keep => Picture(k - 1)
        case Any => Picture(k - 1)
    }

    /** The picture while frame k is shown. */
    ghost function Picture(k: nat): (r: Bytes)
      requires Valid() && k < |frames|
      ensures |r| == width * height * 4
      decreases k, 1
    {
      Over(Before(k), width, frames[k])
    }

    /** Putting the frame's area back undoes the frame: it draws nowhere else. */
    lemma RestoreArea(k: nat)
      requires Valid() && k < |frames|
      ensures Inside(Picture(k), width, frames[k], Before(k)) == Before(k)
    {
      var r := Inside(Picture(k), width, frames[k], Before(k));
      forall i | 0 <= i < |r| ensures r[i] == Before(k)[i] {
      }
    }

    function Total(k: nat): nat
      requires k <= |frames|
    {
      if k == 0 then 0 else Total(k - 1) + frames[k - 1].delay
    }

    /** What is on the canvas when frame k comes: the background in the beginning; after a frame, its
        picture, with the background or what was there before in its place if it asks for that. */
    lemma DisposalInNumbers(k: nat, x: nat, y: nat, c: nat)
      requires Valid() && k < |frames| && x < width && y < height && c < 4
      ensures var i := (y * width + x) * 4 + c;
              && 0 <= i < width * height * 4
              && (k == 0 ==> Before(k)[i] == bg[c])
              && (k > 0 ==>
                    var f := frames[k - 1];
                    var there := f.left <= x < f.left + f.width && f.top <= y < f.top + f.height;
                    match f.dispose
                    case Background => Before(k)[i] == if there then bg[c] else Picture(k - 1)[i]
                    case Previous => Before(k)[i] == Before(k - 1)[i]
                    case Keep => Before(k)[i] == Picture(k - 1)[i]
                    case Any => Before(k)[i] == Picture(k - 1)[i])
    {
      PixelBytes(width, height, x, y, c);
      if k > 0 {
        RestoreArea(k - 1);
        InsidePixel(Picture(k - 1), width, height, frames[k - 1], Clean(), x, y, c);
      }
    }

    /** A frame starts where the ones before it end. */
    lemma TotalInNumbers(k: nat)
      requires k < |frames|
      ensures Total(0) == 0 && Total(k + 1) - Total(k) == frames[k].delay
    {
    }

    /** The frame visible at position pos: the first whose end lies after it. */
    function FrameAt(pos: nat, from: nat): (k: nat)
      requires |frames| > 0 && from < |frames|
      ensures from <= k < |frames|
      ensures from == 0 || Total(from) <= pos ==> k == 0 || Total(k) <= pos
      ensures k + 1 < |frames| ==> pos < Total(k + 1)
      decreases |frames| - from
    {
      if pos < Total(from + 1) || from + 1 == |frames| then from else FrameAt(pos, from + 1)
    }

    lemma {:induction false} TotalMonotone(a: nat, b: nat)
      requires a <= b <= |frames|
      requires forall k :: 0 <= k < |frames| ==> frames[k].delay > 0
      ensures Total(a) <= Total(b) && (a < b ==> Total(a) < Total(b))
    {
      if a < b {
        TotalMonotone(a, b - 1);
      }
    }

    /** Inside the clip, the frame at pos is the one whose interval contains it. */
    lemma FrameAtExact(pos: nat, k: nat)
      requires Valid() && pos < Total(|frames|) && k < |frames|
      ensures FrameAt(pos, 0) == k <==> Total(k) <= pos < Total(k + 1)
    {
      var j := FrameAt(pos, 0);
      if j < k {
        TotalMonotone(j + 1, k);
      } else if k < j {
        TotalMonotone(k + 1, j);
      }
    }

    lemma FrameAtMonotone(p1: nat, p2: nat)
      requires Valid() && p1 <= p2
      ensures FrameAt(p1, 0) <= FrameAt(p2, 0)
    {
      var a, b := FrameAt(p1, 0), FrameAt(p2, 0);
      if b < a {
        TotalMonotone(b + 1, a);
      }
    }
  }

  // ---- opening: what the decoder delivers becomes a clip ----

  /** delay in hundredths of a second. */
  datatype RawFrame = RawFrame(delay: nat, dispose: Disposal, left: nat, top: nat, width: nat, height: nat, rgba: Bytes)

  /** background: an index into the global palette (three bytes a colour). */
  datatype RawGif = RawGif(width: nat, height: nat, background: Option<nat>, palette: Option<Bytes>,
      frames: seq<RawFrame>)

  const CENTISECOND: nat := 10_000_000

  /** Delays 0 and 1 count as 10. */
  function Opened(f: RawFrame): GifFrame {
    GifFrame((if f.delay <= 1 then 10 else f.delay) * CENTISECOND, f.dispose, f.left, f.top, f.width, f.height, f.rgba)
  }

  /** Area, pixels and disposal of the file's frame; its delay, of which the shortest two count
      as a tenth of a second. */
  predicate SameFrame(f: GifFrame, raw: RawFrame) {
    && (f.left, f.top, f.width, f.height) == (raw.left, raw.top, raw.width, raw.height)
    && f.rgba == raw.rgba && f.dispose == raw.dispose
    && (raw.delay >= 2 ==> f.delay == raw.delay * 10_000_000) && (raw.delay < 2 ==> f.delay == 100_000_000)
  }

  function BackgroundOf(raw: RawGif): (bg: seq<byte>)
    ensures |bg| == 4
  {
    if raw.background.Some? && raw.palette.Some? && raw.background.value * 3 + 2 < |raw.palette.value| then
      var i, pal := raw.background.value * 3, raw.palette.value;
      [pal[i + 2], pal[i + 1], pal[i], 255]
    else [0, 0, 0, 0]
  }

  /** A GIF opens unless it is empty, and what opens can be played: its pictures have the
      canvas' size and no frame takes less than two hundredths of a second. */
  function Open(raw: RawGif): (r: Result<Clip, string>)
    requires forall k :: 0 <= k < |raw.frames| ==>
             |raw.frames[k].rgba| == raw.frames[k].width * raw.frames[k].height * 4
    ensures r.Err? <==> raw.width == 0 || raw.height == 0 || raw.frames == []
    ensures r.Ok? ==> r.value.Valid() && |r.value.frames| == |raw.frames|
    ensures r.Ok? ==> r.value.width == raw.width && r.value.height == raw.height
    ensures r.Ok? && raw.background.Some? && raw.palette.Some? ==>
              var i, pal := raw.background.value, raw.palette.value;
              r.value.bg == if i * 3 + 2 < |pal| then [pal[i * 3 + 2], pal[i * 3 + 1], pal[i * 3], 255]
                            else [0, 0, 0, 0]
    ensures r.Ok? && (raw.background.None? || raw.palette.None?) ==> r.value.bg == [0, 0, 0, 0]
    ensures r.Ok? ==> forall k :: 0 <= k < |raw.frames| ==> SameFrame(r.value.frames[k], raw.frames[k])
  {
    if raw.width == 0 || raw.height == 0 then Err("empty GIF")
    else if raw.frames == [] then Err("GIF has no frames")
    else
      Ok(Clip(raw.width, raw.height, BackgroundOf(raw),
          seq(|raw.frames|, k requires 0 <= k < |raw.frames| => Opened(raw.frames[k]))))
  }

  // ---- the source: canvas, backup and counters that change step by step ----

  function PutPixel(canvas: Bytes, at: nat, color: seq<byte>): (r: Bytes)
    requires |color| == 4 && at + 4 <= |canvas|
    ensures |r| == |canvas|
    ensures forall i :: 0 <= i < |r| ==> r[i] == if at <= i < at + 4 then color[i - at] else canvas[i]
  {
    canvas[..at] + color + canvas[at + 4..]
  }

  /** Writing pixel (x, y) changes exactly the bytes of that pixel. */
  lemma PutPixelAt(canvas: Bytes, w: nat, h: nat, x: nat, y: nat, color: seq<byte>)
    requires |color| == 4 && |canvas| == w * h * 4 && x < w && y < h
    ensures (y * w + x) * 4 + 4 <= |canvas|
    ensures var r := PutPixel(canvas, (y * w + x) * 4, color);
            forall i :: 0 <= i < |canvas| ==>
              r[i] == if Col(i, w) == x && Row(i, w) == y then color[i % 4] else canvas[i]
  {
    PixelOffset(x, y, w, h);
    var at := (y * w + x) * 4;
    forall i | 0 <= i < |canvas|
      ensures Col(i, w) == x && Row(i, w) == y <==> at <= i < at + 4
      ensures at <= i < at + 4 ==> i - at == i % 4
    {
      DivDefinition(i / 4, w);
    }
  }

  lemma BytesInside(w: nat, h: nat, i: nat)
    requires w > 0 && i < w * h * 4
    ensures Row(i, w) < h
  {
    DivDefinition(i / 4, w);
    if h <= Row(i, w) {
      MulMonotone(h, Row(i, w), w);
    }
  }

  function MinNat(a: nat, b: nat): nat {
    if a < b then a else b
  }

  datatype Frame = Frame(generation: nat, pixels: Bytes)

  class GifSource {
    const clip: Clip
    const total: nat
    const clock: PlaybackClock
    var canvas: Bytes
    var backup: Option<Bytes>
    /** The frame the canvas shows; None when only the background is there. */
    var shown: Option<nat>
    var generation: nat
    var sent: Option<nat>
    /** The last frame handed out. */
    ghost var handed: Option<Frame>

    ghost predicate Valid()
      reads this
    {
      && clip.Valid() && clock.Valid() && total == clip.Total(|clip.frames|) && total > 0
      && CanvasMatches()
      && (sent.None? <==> handed.None?)
      && (sent.Some? ==> sent.value < |clip.frames| &&
                         handed == Some(Frame(generation, clip.Picture(sent.value))))
    }

    /** The canvas is the reference picture of the shown frame, and while a Previous frame
        is shown the backup is the picture before it. */
    ghost predicate CanvasMatches()
      reads this
      requires clip.Valid()
    {
      && |canvas| == clip.width * clip.height * 4
      && match shown
         case None => canvas == clip.Clean()
         case Some(k) =>
           && k < |clip.frames| && canvas == clip.Picture(k)
           && (clip.frames[k].dispose == Previous ==> backup == Some(clip.Before(k)))
    }

    constructor (clip: Clip, clock: PlaybackClock)
      requires clip.Valid() && clock.Valid()
      ensures Valid() && this.clip == clip && this.clock == clock && handed == None && generation == 0
    {
      this.clip, this.clock := clip, clock;
      this.total := clip.Total(|clip.frames|);
      canvas, backup, shown := [], None, None;
      generation, sent, handed := 0, None, None;
      new;
      clip.TotalMonotone(0, |clip.frames|);
      ClearCanvas();
    }

    method ClearCanvas()
      requires clip.Valid()
      modifies this`canvas, this`shown, this`backup
      ensures canvas == clip.Clean() && shown == None && backup == None
    {
      var px := clip.width * clip.height;
      canvas := [];
      var n := 0;
      while n < px
        invariant n <= px && canvas == Blank(n, clip.bg)
      {
        canvas := canvas + clip.bg;
        n := n + 1;
      }
      shown, backup := None, None;
    }

    /** Fills the frame's area with the background colour. */
    method FillRect(left: nat, top: nat, w: nat, h: nat, color: seq<byte>)
      requires clip.Valid() && |canvas| == clip.width * clip.height * 4 && |color| == 4
      modifies this`canvas
      ensures |canvas| == |old(canvas)|
      ensures forall i :: 0 <= i < |canvas| ==>
                canvas[i] == if left <= Col(i, clip.width) < left + w && top <= Row(i, clip.width) < top + h
                             then color[i % 4] else old(canvas)[i]
    {
      var x0, x1 := MinNat(left, clip.width), MinNat(left + w, clip.width);
      var y0, y1 := MinNat(top, clip.height), MinNat(top + h, clip.height);
      var y := y0;
      while y < y1
        invariant y0 <= y <= y1 && |canvas| == |old(canvas)|
        invariant forall i :: 0 <= i < |canvas| ==>
                    canvas[i] == if x0 <= Col(i, clip.width) < x1 && y0 <= Row(i, clip.width) < y
                                 then color[i % 4] else old(canvas)[i]
      {
        FillRow(y, x0, x1, color);
        y := y + 1;
      }
      forall i | 0 <= i < |canvas| ensures Row(i, clip.width) < clip.height {
        BytesInside(clip.width, clip.height, i);
      }
    }

    /** Columns x0 up to x1 of row y. */
    method FillRow(y: nat, x0: nat, x1: nat, color: seq<byte>)
      requires clip.Valid() && |canvas| == clip.width * clip.height * 4 && |color| == 4
      requires y < clip.height && x0 <= x1 <= clip.width
      modifies this`canvas
      ensures |canvas| == |old(canvas)|
      ensures forall i :: 0 <= i < |canvas| ==>
                canvas[i] == if Row(i, clip.width) == y && x0 <= Col(i, clip.width) < x1 then color[i % 4]
                    else old(canvas)[i]
    {
      var x := x0;
      while x < x1
        invariant x0 <= x <= x1 && |canvas| == |old(canvas)|
        invariant forall i :: 0 <= i < |canvas| ==>
                    canvas[i] == if Row(i, clip.width) == y && x0 <= Col(i, clip.width) < x then color[i % 4]
                        else old(canvas)[i]
      {
        PutPixelAt(canvas, clip.width, clip.height, x, y, color);
        canvas := PutPixel(canvas, (y * clip.width + x) * 4, color);
        x := x + 1;
      }
    }

    /** Draws frame index over the canvas, transparent pixels left alone. */
    method Blit(index: nat)
      requires clip.Valid() && |canvas| == clip.width * clip.height * 4 && index < |clip.frames|
      modifies this`canvas
      ensures canvas == Over(old(canvas), clip.width, clip.frames[index])
    {
      var f := clip.frames[index];
      ghost var w := clip.width;
      var y := 0;
      while y < f.height
        invariant y <= f.height
        invariant |canvas| == |old(canvas)|
        invariant forall i :: 0 <= i < |canvas| ==> canvas[i] == Drawn(old(canvas), w, f, i, Row(i, w) < f.top + y)
      {
        var dy := f.top + y;
        if dy >= clip.height {
          forall i | 0 <= i < |canvas| ensures Row(i, w) < f.top + y {
            BytesInside(w, clip.height, i);
          }
          break;
        }
        BlitRow(f, y);
        y := y + 1;
      }
      assert canvas == Over(old(canvas), w, f);
    }

    method BlitRow(f: GifFrame, y: nat)
      requires clip.Valid() && |canvas| == clip.width * clip.height * 4
      requires ValidData(f) && y < f.height && f.top + y < clip.height
      modifies this`canvas
      ensures |canvas| == |old(canvas)|
      ensures forall i :: 0 <= i < |canvas| ==>
                canvas[i] == Drawn(old(canvas), clip.width, f, i, Row(i, clip.width) == f.top + y)
    {
      var dy := f.top + y;
      ghost var w := clip.width;
      var x := 0;
      while x < f.width
        invariant x <= f.width
        invariant |canvas| == |old(canvas)|
        invariant forall i :: 0 <= i < |canvas| ==>
                    canvas[i] == Drawn(old(canvas), w, f, i, Row(i, w) == dy && Col(i, w) < f.left + x)
      {
        if f.left + x >= clip.width {
          break;
        }
        BlitPixel(f, x, y);
        x := x + 1;
      }
    }

    /** One frame pixel onto the canvas; a transparent one leaves it as it is. */
    method BlitPixel(f: GifFrame, x: nat, y: nat)
      requires clip.Valid() && |canvas| == clip.width * clip.height * 4
      requires ValidData(f) && x < f.width && y < f.height && f.left + x < clip.width && f.top + y < clip.height
      modifies this`canvas
      ensures |canvas| == |old(canvas)|
      ensures forall i :: 0 <= i < |canvas| ==>
                canvas[i] == Drawn(old(canvas), clip.width, f, i, Col(i, clip.width) == f.left + x &&
                    Row(i, clip.width) == f.top + y)
    {
      var dx, dy := f.left + x, f.top + y;
      PixelOffset(x, y, f.width, f.height);
      var s := (y * f.width + x) * 4;
      var src := f.rgba[s..s + 4];
      PutPixelAt(canvas, clip.width, clip.height, dx, dy, [src[2], src[1], src[0], 255]);
      if src[3] != 0 {
        canvas := PutPixel(canvas, (dy * clip.width + dx) * 4, [src[2], src[1], src[0], 255]);
      }
    }

    /** Disposes of the previous frame as it asks and composites the next one. */
    method Step()
      requires clip.Valid() && CanvasMatches()
      modifies this`canvas, this`shown, this`backup
      ensures CanvasMatches()
      ensures var next := if old(shown).Some? then old(shown).value + 1 else 0;
              shown == if next < |clip.frames| then Some(next) else old(shown)
    {
      var next := if shown.Some? then shown.value + 1 else 0;
      if next >= |clip.frames| {
        return;
      }
      if shown.Some? {
        var f := clip.frames[shown.value];
        ghost var picture := canvas;
        match f.dispose {
          case Background =>
            FillRect(f.left, f.top, f.width, f.height, clip.bg);
            assert canvas == Inside(picture, clip.width, f, clip.Clean());
          case Previous =>
            if backup.Some? {
              canvas := backup.value;
              backup := None;
            }
            clip.RestoreArea(shown.value);
          case Keep =>
          case Any =>
        }
      }
      assert canvas == clip.Before(next);
      if clip.frames[next].dispose == Previous {
        backup := Some(canvas);
      }
      Blit(next);
      shown := Some(next);
    }

    /** From any reachable state: the canvas becomes the picture of target, and the bound
        on the number of steps always suffices. */
    method Show(target: nat)
      requires clip.Valid() && CanvasMatches() && target < |clip.frames|
      modifies this`canvas, this`shown, this`backup
      ensures CanvasMatches() && shown == Some(target) && canvas == clip.Picture(target)
    {
      if shown == Some(target) {
        return;
      }
      if shown.Some? && target < shown.value {
        ClearCanvas();
      }
      ghost var first := if shown.Some? then shown.value + 1 else 0;
      var n := 0;
      while n <= |clip.frames|
        invariant clip.Valid() && CanvasMatches() && n <= |clip.frames|
        invariant (if shown.Some? then shown.value + 1 else 0) == first + n <= target + 1
      {
        if shown == Some(target) {
          break;
        }
        Step();
        n := n + 1;
      }
    }

    method FrameAt(pos: nat) returns (k: nat)
      requires clip.Valid()
      ensures k == clip.FrameAt(pos, 0)
    {
      var acc := 0;
      var i := 0;
      while i < |clip.frames|
        invariant i <= |clip.frames| && acc == clip.Total(i)
        invariant i < |clip.frames| ==> clip.FrameAt(pos, 0) == clip.FrameAt(pos, i)
        invariant i == |clip.frames| ==> clip.FrameAt(pos, 0) == |clip.frames| - 1
      {
        acc := acc + clip.frames[i].delay;
        if pos < acc {
          return i;
        }
        i := i + 1;
      }
      k := |clip.frames| - 1;
    }

    /** Somebody looks at it for the first time: playback starts over. */
    method Shown()
      requires Valid()
      modifies clock
      ensures Valid() && clock.started == None
    {
      clock.Restart();
    }

    /** After every poll the last frame handed out is the reference picture of the frame at
        the clock position; nothing is handed out again while it stays the same frame. */
    method Poll(now: nat) returns (r: Option<Frame>)
      requires Valid()
      modifies this, clock
      ensures Valid()
      ensures clock.started == Some(if old(clock.started).Some? then old(clock.started).value else now)
      ensures var pos := PositionAt(clock.scale, clock.looped, clock.started.value, now, Some(total));
              && pos < total
              && sent == Some(clip.FrameAt(pos, 0))
              && handed.Some? && handed.value.pixels == clip.Picture(clip.FrameAt(pos, 0))
      ensures var k, raw := sent.value, if now < clock.started.value then 0 else clock.scale(now - clock.started.value);
              && k < |clip.frames| && handed.value.pixels == clip.Picture(k)
              && ShownAt(clip, clock.looped, raw, k)
      ensures r.Some? <==> sent != old(sent)
      ensures r.Some? ==> r == handed && r.value.generation == generation == old(generation) + 1
      ensures r.None? ==> handed == old(handed) && generation == old(generation)
    {
      var pos := clock.Position(now, Some(total));
      FrameInNumbers(clip, clock.scale, clock.looped, clock.started.value, now);
      var target := FrameAt(pos);
      Show(target);
      if sent == Some(target) {
        return None;
      }
      sent := Some(target);
      generation := generation + 1;
      r := Some(Frame(generation, canvas));
      handed := r;
    }
  }

  /** Canvas byte i after the frame went over the pixels done so far. */
  ghost function Drawn(canvas: Bytes, w: nat, f: GifFrame, i: nat, done: bool): byte
    requires w > 0 && ValidData(f) && i < |canvas|
  {
    if done && Solid(f, Col(i, w), Row(i, w)) then SourceByte(f, Col(i, w), Row(i, w), i % 4) else canvas[i]
  }

  /** Frame k is the one for a scaled playing time: its time in the clip, less whole clips when
      looping, holds it; without looping the last frame stays when the clip is over. */
  ghost predicate ShownAt(clip: Clip, looped: bool, raw: nat, k: nat)
    requires k < |clip.frames|
  {
    var total := clip.Total(|clip.frames|);
    && (!looped && raw < total ==> clip.Total(k) <= raw < clip.Total(k + 1))
    && (!looped && total <= raw ==> k == |clip.frames| - 1)
    && (looped && total <= 0x1_0000_0000_0000_0000 ==>
          exists n: nat :: n * total + clip.Total(k) <= raw < n * total + clip.Total(k + 1))
  }

  lemma FrameInNumbers(clip: Clip, scale: nat -> nat, looped: bool, started: nat, now: nat)
    requires clip.Valid() && IsScaling(scale)
    ensures var raw := if now < started then 0 else scale(now - started);
            var total := clip.Total(|clip.frames|);
            ShownAt(clip, looped, raw, clip.FrameAt(PositionAt(scale, looped, started, now, Some(total)), 0))
  {
    var raw, total := if now < started then 0 else scale(now - started), clip.Total(|clip.frames|);
    clip.TotalMonotone(0, |clip.frames|);
    PositionInside(scale, looped, started, now, Some(total));
    PositionInNumbers(scale, looped, started, now, Some(total));
    var pos := PositionAt(scale, looped, started, now, Some(total));
    var k := clip.FrameAt(pos, 0);
    clip.FrameAtExact(pos, k);
    if !looped && total <= raw {
      clip.FrameAtExact(total - 1, |clip.frames| - 1);
      clip.TotalMonotone(|clip.frames| - 1, |clip.frames|);
    }
    if looped && total <= 0x1_0000_0000_0000_0000 {
      var n: nat :| raw == n * total + pos;
      assert n * total + clip.Total(k) <= raw < n * total + clip.Total(k + 1);
    }
  }

  datatype Event = Polled(now: nat) | Restarted

  /** Poll instants never go back. */
  ghost predicate InOrder(events: seq<Event>) {
    forall a, b :: 0 <= a < b < |events| && events[a].Polled? && events[b].Polled? ==> events[a].now <= events[b].now
  }

  function StartedBy(started: Option<nat>, event: Event): Option<nat> {
    match event
    case Restarted => None
    case Polled(now) => if started.Some? then started else Some(now)
  }

  /** When the clock was started, after the first n events. */
  function StartedAfter(started: Option<nat>, events: seq<Event>, n: nat): Option<nat>
    requires n <= |events|
  {
    if n == 0 then started else StartedBy(StartedAfter(started, events, n - 1), events[n - 1])
  }

  /** The picture on screen is the one the clock position asks for. */
  ghost predicate ShowsPosition(g: GifSource, started: Option<nat>, now: nat, screen: Option<Bytes>)
    requires g.clip.Valid()
  {
    && started.Some?
    && var pos := PositionAt(g.clock.scale, g.clock.looped, started.value, now, Some(g.total));
       pos < g.total && screen == Some(g.clip.Picture(g.clip.FrameAt(pos, 0)))
  }

  /** One event; current is the picture on screen before it. */
  method PlayEvent(g: GifSource, event: Event, current: Option<Bytes>) returns (screen: Option<Bytes>)
    requires g.Valid()
    requires g.handed.Some? ==> current == Some(g.handed.value.pixels)
    modifies g, g.clock
    ensures g.Valid()
    ensures g.handed.Some? ==> screen == Some(g.handed.value.pixels)
    ensures g.clock.started == StartedBy(old(g.clock.started), event)
    ensures event.Polled? ==> ShowsPosition(g, g.clock.started, event.now, screen)
  {
    screen := current;
    match event {
      case Restarted => g.Shown();
      case Polled(now) =>
        var r := g.Poll(now);
        if r.Some? {
          screen := Some(r.value.pixels);
        }
    }
  }

  /** A run of polls and restarts: what is on screen after each event, starting with what
      was handed out before (initial). */
  method Play(g: GifSource, events: seq<Event>, initial: Option<Bytes>) returns (screens: seq<Option<Bytes>>)
    requires g.Valid()
    requires g.handed.Some? ==> initial == Some(g.handed.value.pixels)
    modifies g, g.clock
    ensures g.Valid() && |screens| == |events|
    ensures g.clock.started == StartedAfter(old(g.clock.started), events, |events|)
    ensures g.handed.Some? ==> Last(screens, initial) == Some(g.handed.value.pixels)
    ensures ScreensRight(g, old(g.clock.started), events, screens)
  {
    screens := [];
    while |screens| < |events|
      invariant Playing(g, old(g.clock.started), events, screens, initial)
    {
      screens := PlayNext(g, old(g.clock.started), events, screens, initial);
    }
  }

  /** What is on screen after some events. */
  function Last(screens: seq<Option<Bytes>>, initial: Option<Bytes>): Option<Bytes> {
    if screens == [] then initial else screens[|screens| - 1]
  }

  /** The first events were played. */
  ghost predicate Playing(g: GifSource, started: Option<nat>, events: seq<Event>, screens: seq<Option<Bytes>>,
      initial: Option<Bytes>)
    reads g, g.clock
  {
    && g.Valid() && |screens| <= |events| && g.clock.started == StartedAfter(started, events, |screens|)
    && (g.handed.Some? ==> Last(screens, initial) == Some(g.handed.value.pixels))
    && ScreensRight(g, started, events, screens)
  }

  method PlayNext(g: GifSource, ghost started: Option<nat>, events: seq<Event>, screens: seq<Option<Bytes>>,
      initial: Option<Bytes>) returns (more: seq<Option<Bytes>>)
    requires Playing(g, started, events, screens, initial) && |screens| < |events|
    modifies g, g.clock
    ensures Playing(g, started, events, more, initial) && |more| == |screens| + 1
  {
    var screen := PlayEvent(g, events[|screens|], Last(screens, initial));
    ScreensMore(g, started, events, screens, screen);
    more := screens + [screen];
  }

  /** After each of the first events that is a poll, the screen shows what the clock asks for. */
  ghost predicate ScreensRight(g: GifSource, started: Option<nat>, events: seq<Event>, screens: seq<Option<Bytes>>)
    requires g.clip.Valid() && |screens| <= |events|
  {
    forall m :: 0 <= m < |screens| && events[m].Polled? ==>
      ShowsPosition(g, StartedAfter(started, events, m + 1), events[m].now, screens[m])
  }

  lemma ScreensMore(g: GifSource, started: Option<nat>, events: seq<Event>, screens: seq<Option<Bytes>>,
                    screen: Option<Bytes>)
    requires g.clip.Valid() && |screens| < |events| && ScreensRight(g, started, events, screens)
    requires var n := |screens|;
             events[n].Polled? ==> ShowsPosition(g, StartedAfter(started, events, n + 1), events[n].now, screen)
    ensures ScreensRight(g, started, events, screens + [screen])
  {
  }

  /** Between restarts the clock keeps its start. */
  lemma {:induction false} StartKept(started: Option<nat>, events: seq<Event>, a: nat, b: nat)
    requires a <= b <= |events|
    requires StartedAfter(started, events, a).Some?
    requires forall n :: a <= n < b ==> events[n].Polled?
    ensures StartedAfter(started, events, b) == StartedAfter(started, events, a)
  {
    if a < b {
      StartKept(started, events, a, b - 1);
    }
  }

  /** Without looping, playback never steps back between restarts: of two polls with no
      restart in between, the later one shows the same or a later frame. */
  lemma NeverStepsBack(clip: Clip, scale: nat -> nat, started: Option<nat>, events: seq<Event>, a: nat, b: nat)
    requires clip.Valid() && IsScaling(scale) && InOrder(events)
    requires a < b < |events| && forall n :: a <= n <= b ==> events[n].Polled?
    ensures var s, t := StartedAfter(started, events, a + 1), StartedAfter(started, events, b + 1);
            && s.Some? && s == t
            && var total := Some(clip.Total(|clip.frames|));
               clip.FrameAt(PositionAt(scale, false, s.value, events[a].now, total), 0)
                 <= clip.FrameAt(PositionAt(scale, false, t.value, events[b].now, total), 0)
  {
    StartKept(started, events, a + 1, b + 1);
    var s := StartedAfter(started, events, a + 1).value;
    var total := Some(clip.Total(|clip.frames|));
    PositionMonotone(scale, s, events[a].now, events[b].now, total);
    clip.FrameAtMonotone(PositionAt(scale, false, s, events[a].now, total),
                         PositionAt(scale, false, s, events[b].now, total));
  }
}
