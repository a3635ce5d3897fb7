/** YUV to BGRA: plane checks, fixed-point coefficients, rows converted band by band. */
module Yuv {
  import opened Wrappers
  import opened Arith

  type Bytes = seq<byte>

  datatype Matrix = Bt601 | Bt709 | Bt2020 {
    function Kr(): real {
      match this
      case Bt601 => 0.299
      case Bt709 => 0.2126
      case Bt2020 => 0.2627
    }

    function Kb(): real {
      match this
      case Bt601 => 0.114
      case Bt709 => 0.0722
      case Bt2020 => 0.0593
    }
  }

  // ---- one pixel ----

  const ONE: int := 16_384
  const HALF: int := 8_192

  /** Rounding to the nearest integer, halves away from zero, of a value that is not negative. */
  function Round(v: real): int
    requires v >= 0.0
  {
    (v + 0.5).Floor
  }

  /** The conversion's real coefficients: luma scale, and the parts of U and V in R, G, B. */
  datatype Weights = Weights(y: real, rv: real, gu: real, gv: real, bu: real)

  function Exact(m: Matrix, full: bool): (w: Weights)
    ensures Positive(w)
  {
    var kr, kb := m.Kr(), m.Kb();
    var kg := 1.0 - kr - kb;
    var ys := if full then 1.0 else 255.0 / 219.0;
    var cs := if full then 1.0 else 255.0 / 224.0;
    Weights(ys, 2.0 * (1.0 - kr) * cs, 2.0 * (1.0 - kb) * kb / kg * cs, 2.0 * (1.0 - kr) * kr / kg * cs,
        2.0 * (1.0 - kb) * cs)
  }

  function Offset(full: bool): int {
    if full then 0 else 16
  }

  datatype Coefs = Coefs(yOff: int, yMul: int, rv: int, gu: int, gv: int, bu: int)

  predicate Positive(w: Weights) {
    w.y >= 0.0 && w.rv >= 0.0 && w.gu >= 0.0 && w.gv >= 0.0 && w.bu >= 0.0
  }

  function Scaled(w: Weights, yOff: int): Coefs
    requires Positive(w)
  {
    Coefs(yOff, Round(w.y * 16384.0), Round(w.rv * 16384.0), Round(w.gu * 16384.0), Round(w.gv * 16384.0),
        Round(w.bu * 16384.0))
  }

  function NewCoefs(m: Matrix, full: bool): Coefs {
    Scaled(Exact(m, full), Offset(full))
  }

  function Clamp255(v: int): byte {
    if v < 0 then 0 else if 255 < v then 255 else v
  }

  /** A fixed-point channel to a byte; the shift rounds down, so this rounds to nearest. */
  function Channel(x: int): byte {
    Clamp255((x + HALF) / ONE)
  }

  /** Luma and one chroma part; luma and two chroma parts taken away. */
  function Plus(a: int, b: int, l: int, d: int): int {
    l * a + b * d
  }

  function Minus(a: int, b: int, c: int, l: int, d: int, e: int): int {
    l * a - b * d - c * e
  }

  function Red(c: Coefs, y: int, v: int): int {
    Plus(c.yMul, c.rv, y - c.yOff, v - 128)
  }

  function Green(c: Coefs, y: int, u: int, v: int): int {
    Minus(c.yMul, c.gu, c.gv, y - c.yOff, u - 128, v - 128)
  }

  function Blue(c: Coefs, y: int, u: int): int {
    Plus(c.yMul, c.bu, y - c.yOff, u - 128)
  }

  /** One pixel, BGRA. */
  function Px(c: Coefs, y: int, u: int, v: int): (r: Bytes)
    ensures |r| == 4
  {
    [Channel(Blue(c, y, u)), Channel(Green(c, y, u, v)), Channel(Red(c, y, v)), 255]
  }

  // ---- how far it is from the exact conversion ----

  function ClampReal(v: real): real {
    if v < 0.0 then 0.0 else if v > 255.0 then 255.0 else v
  }

  predicate Near(a: real, b: real, by_: real) {
    -by_ <= a - b <= by_
  }

  lemma NonNegative(a: real, b: real)
    requires a >= 0.0 && b >= 0.0
    ensures a * b >= 0.0
  {
  }

  lemma ScaledBound(d: real, x: real, bound: real)
    requires -0.5 <= d <= 0.5 && -bound <= x <= bound
    ensures -bound / 2.0 <= d * x <= bound / 2.0
  {
    NonNegative(0.5 - d, bound - x);
    NonNegative(0.5 + d, bound + x);
    NonNegative(0.5 - d, bound + x);
    NonNegative(0.5 + d, bound - x);
    assert (0.5 - d) * (bound - x) + (0.5 + d) * (bound + x) == bound + 2.0 * (d * x);
    assert (0.5 - d) * (bound + x) + (0.5 + d) * (bound - x) == bound - 2.0 * (d * x);
  }

  /** Rounding a scaled coefficient moves its product with x by at most half of |x|. */
  lemma RoundedProduct(w: real, x: int, bound: int)
    requires w >= 0.0 && -bound <= x <= bound
    ensures Near((Round(w * 16384.0) * x) as real, (w * x as real) * 16384.0, bound as real / 2.0)
  {
    var r := Round(w * 16384.0);
    var d := r as real - w * 16384.0;
    ScaledBound(d, x as real, bound as real);
    assert (r * x) as real == r as real * x as real;
    assert d * x as real == r as real * x as real - (w * 16384.0) * x as real;
    assert (w * 16384.0) * x as real == (w * x as real) * 16384.0;
  }

  /** A byte from a sum that is within slack / 2^14 of exact is within half plus that. */
  lemma ChannelNear(x: int, exact: real, slack: real)
    requires slack >= 0.0 && Near(x as real, exact * 16384.0, slack)
    ensures Near(Channel(x) as real, ClampReal(exact), 0.5 + slack / 16384.0)
  {
    var q := (x + HALF) / ONE;
    assert q * ONE <= x + HALF < q * ONE + ONE;
    assert Near(q as real * 16384.0, x as real, 8192.0);
    assert Near(q as real, exact, 0.5 + slack / 16384.0);
  }

  predicate EightBit(y: int, u: int, v: int) {
    0 <= y <= 255 && 0 <= u <= 255 && 0 <= v <= 255
  }

  function ExactPlus(a: real, b: real, l: int, d: int): real {
    a * l as real + b * d as real
  }

  function ExactMinus(a: real, b: real, c: real, l: int, d: int, e: int): real {
    a * l as real - b * d as real - c * e as real
  }

  /** The exact conversion of one pixel, before clamping. */
  function ExactRed(w: Weights, yOff: int, y: int, v: int): real {
    ExactPlus(w.y, w.rv, y - yOff, v - 128)
  }

  function ExactGreen(w: Weights, yOff: int, y: int, u: int, v: int): real {
    ExactMinus(w.y, w.gu, w.gv, y - yOff, u - 128, v - 128)
  }

  function ExactBlue(w: Weights, yOff: int, y: int, u: int): real {
    ExactPlus(w.y, w.bu, y - yOff, u - 128)
  }

  lemma TwoTermsNear(a: real, b: real, l: int, d: int)
    requires a >= 0.0 && b >= 0.0 && -255 <= l <= 255 && -128 <= d <= 128
    ensures Near(Channel(Plus(Round(a * 16384.0), Round(b * 16384.0), l, d)) as real, ClampReal(ExactPlus(a, b, l, d)),
            0.52)
  {
    var p, q := Round(a * 16384.0) * l, Round(b * 16384.0) * d;
    RoundedProduct(a, l, 255);
    RoundedProduct(b, d, 128);
    assert l * Round(a * 16384.0) == p;
    var x, y := a * l as real, b * d as real;
    assert (x + y) * 16384.0 == x * 16384.0 + y * 16384.0;
    ChannelNear(p + q, x + y, 191.5);
  }

  lemma ThreeTermsNear(a: real, b: real, c: real, l: int, d: int, e: int)
    requires a >= 0.0 && b >= 0.0 && c >= 0.0 && -255 <= l <= 255 && -128 <= d <= 128 && -128 <= e <= 128
    ensures Near(Channel(Minus(Round(a * 16384.0), Round(b * 16384.0), Round(c * 16384.0), l, d, e)) as real,
                 ClampReal(ExactMinus(a, b, c, l, d, e)), 0.52)
  {
    var p, q, r := Round(a * 16384.0) * l, Round(b * 16384.0) * d, Round(c * 16384.0) * e;
    RoundedProduct(a, l, 255);
    RoundedProduct(b, d, 128);
    RoundedProduct(c, e, 128);
    assert l * Round(a * 16384.0) == p;
    var x, y, z := a * l as real, b * d as real, c * e as real;
    assert (x - y - z) * 16384.0 == x * 16384.0 - y * 16384.0 - z * 16384.0;
    ChannelNear(p - q - r, x - y - z, 255.5);
  }

  /** Every channel of the pixel is within 0.52 of the exact conversion clamped to a byte. */
  predicate PxNear(p: Bytes, w: Weights, yOff: int, y: int, u: int, v: int)
    requires |p| == 4
  {
    && Near(p[0] as real, ClampReal(ExactBlue(w, yOff, y, u)), 0.52)
    && Near(p[1] as real, ClampReal(ExactGreen(w, yOff, y, u, v)), 0.52)
    && Near(p[2] as real, ClampReal(ExactRed(w, yOff, y, v)), 0.52)
    && p[3] == 255
  }

  lemma RedIsNear(w: Weights, yOff: int, y: int, v: int)
    requires Positive(w) && 0 <= yOff <= 16 && 0 <= y <= 255 && 0 <= v <= 255
    ensures Near(Channel(Red(Scaled(w, yOff), y, v)) as real, ClampReal(ExactRed(w, yOff, y, v)), 0.52)
  {
    TwoTermsNear(w.y, w.rv, y - yOff, v - 128);
  }

  lemma GreenIsNear(w: Weights, yOff: int, y: int, u: int, v: int)
    requires Positive(w) && 0 <= yOff <= 16 && EightBit(y, u, v)
    ensures Near(Channel(Green(Scaled(w, yOff), y, u, v)) as real, ClampReal(ExactGreen(w, yOff, y, u, v)), 0.52)
  {
    ThreeTermsNear(w.y, w.gu, w.gv, y - yOff, u - 128, v - 128);
  }

  lemma BlueIsNear(w: Weights, yOff: int, y: int, u: int)
    requires Positive(w) && 0 <= yOff <= 16 && 0 <= y <= 255 && 0 <= u <= 255
    ensures Near(Channel(Blue(Scaled(w, yOff), y, u)) as real, ClampReal(ExactBlue(w, yOff, y, u)), 0.52)
  {
    TwoTermsNear(w.y, w.bu, y - yOff, u - 128);
  }

  lemma ScaledIsNear(w: Weights, yOff: int, y: int, u: int, v: int)
    requires Positive(w) && 0 <= yOff <= 16 && EightBit(y, u, v)
    ensures PxNear(Px(Scaled(w, yOff), y, u, v), w, yOff, y, u, v)
  {
    BlueIsNear(w, yOff, y, u);
    GreenIsNear(w, yOff, y, u, v);
    RedIsNear(w, yOff, y, v);
  }

  /** For every matrix, range and 8-bit sample. */
  lemma PxIsNearExact(m: Matrix, full: bool, y: int, u: int, v: int)
    requires EightBit(y, u, v)
    ensures PxNear(Px(NewCoefs(m, full), y, u, v), Exact(m, full), Offset(full), y, u, v)
  {
    ScaledIsNear(Exact(m, full), Offset(full), y, u, v);
  }

  /** The luma of a colour, by the weights of red and blue. */
  ghost function Luma(kr: real, kb: real, red: real, green: real, blue: real): real {
    kr * red + (1.0 - kr - kb) * green + kb * blue
  }

  /** The samples that a colour of this luma, red and blue has: what cameras compute. */
  ghost predicate IsForward(
    kr: real, kb: real, full: bool, luma: real, red: real, blue: real, y: int, u: int, v: int)
  {
    var y0, ySpan, cSpan := if full then 0 else 16, if full then 255.0 else 219.0, if full then 255.0 else 224.0;
    && (y - y0) as real * 255.0 == luma * ySpan
    && (u - 128) as real * (510.0 * (1.0 - kb)) == (blue - luma) * cSpan
    && (v - 128) as real * (510.0 * (1.0 - kr)) == (red - luma) * cSpan
  }

  lemma LumaSolves(m: Matrix, full: bool, y: int, u: int, v: int)
    ensures var w, off := Exact(m, full), Offset(full);
            Luma(m.Kr(), m.Kb(), ExactRed(w, off, y, v), ExactGreen(w, off, y, u, v), ExactBlue(w, off, y, u)) ==
              w.y * (y - off) as real
  {
  }

  lemma LumaSpan(m: Matrix, full: bool, l: int)
    ensures l as real * 255.0 == (Exact(m, full).y * l as real) * (if full then 255.0 else 219.0)
  {
  }

  lemma BlueSpan(m: Matrix, full: bool, d: int)
    ensures d as real * (510.0 * (1.0 - m.Kb())) ==
            (Exact(m, full).bu * d as real) * (if full then 255.0 else 224.0)
  {
  }

  lemma RedSpan(m: Matrix, full: bool, e: int)
    ensures e as real * (510.0 * (1.0 - m.Kr())) ==
            (Exact(m, full).rv * e as real) * (if full then 255.0 else 224.0)
  {
  }

  lemma ChromaParts(w: Weights, off: int, y: int, u: int, v: int)
    ensures ExactRed(w, off, y, v) - w.y * (y - off) as real == w.rv * (v - 128) as real
    ensures ExactBlue(w, off, y, u) - w.y * (y - off) as real == w.bu * (u - 128) as real
  {
  }

  lemma Solves(m: Matrix, full: bool, y: int, u: int, v: int)
    ensures var w, off := Exact(m, full), Offset(full);
            IsForward(m.Kr(), m.Kb(), full, w.y * (y - off) as real, ExactRed(w, off, y, v), ExactBlue(w, off, y, u),
                      y, u, v)
  {
    ChromaParts(Exact(m, full), Offset(full), y, u, v);
    LumaSpan(m, full, y - Offset(full));
    BlueSpan(m, full, u - 128);
    RedSpan(m, full, v - 128);
  }

  /** The exact conversion solves the forward equations, with the weights of each matrix. */
  lemma ExactInvertsForward(m: Matrix, full: bool, y: int, u: int, v: int)
    ensures var w, off := Exact(m, full), Offset(full);
            var red, green, blue := ExactRed(w, off, y, v), ExactGreen(w, off, y, u, v), ExactBlue(w, off, y, u);
            match m
            case Bt601 =>
              IsForward(0.299, 0.114, full, Luma(0.299, 0.114, red, green, blue), red, blue, y, u, v)
            case Bt709 =>
              IsForward(0.2126, 0.0722, full, Luma(0.2126, 0.0722, red, green, blue), red, blue, y, u, v)
            case Bt2020 =>
              IsForward(0.2627, 0.0593, full, Luma(0.2627, 0.0593, red, green, blue), red, blue, y, u, v)
  {
    LumaSolves(m, full, y, u, v);
    Solves(m, full, y, u, v);
  }

  /** Without chroma every pixel is grey, from black to white: at luma 16 and 235 in limited range; in
      full range luma is kept as it is. */
  lemma GreyIsGrey(m: Matrix, full: bool, y: int)
    requires 0 <= y <= 255
    ensures var p := Px(NewCoefs(m, full), y, 128, 128);
            && p[0] == p[1] == p[2] && p[3] == 255
            && (full ==> p[0] == y) && (!full && y == 16 ==> p[0] == 0) && (!full && y == 235 ==> p[0] == 255)
  {
    var c := NewCoefs(m, full);
    assert c.yOff == if full then 0 else 16;
    LumaScale(m, full);
    assert Red(c, y, 128) == (y - c.yOff) * c.yMul == Blue(c, y, 128) == Green(c, y, 128, 128);
  }

  lemma LumaScale(m: Matrix, full: bool)
    ensures NewCoefs(m, full).yMul == if full then 16_384 else 19_077
  {
  }

  predicate Fits32(x: int) {
    -0x8000_0000 <= x < 0x8000_0000
  }

  /** No intermediate leaves 32 bits. */
  lemma PxFits32(m: Matrix, full: bool, y: int, u: int, v: int)
    requires EightBit(y, u, v)
    ensures var c := NewCoefs(m, full);
            && Fits32((y - c.yOff) * c.yMul) && Fits32(c.rv * (v - 128)) && Fits32(c.gu * (u - 128)) &&
               Fits32(c.gv * (v - 128))
            && Fits32(c.bu * (u - 128)) && Fits32((y - c.yOff) * c.yMul - c.gu * (u - 128))
            && Fits32(Red(c, y, v) + HALF) && Fits32(Green(c, y, u, v) + HALF) && Fits32(Blue(c, y, u) + HALF)
  {
    var c := NewCoefs(m, full);
    CoefsSmall(m, full);
    SmallProduct(c.yMul, y - c.yOff);
    SmallProduct(c.rv, v - 128);
    SmallProduct(c.gu, u - 128);
    SmallProduct(c.gv, v - 128);
    SmallProduct(c.bu, u - 128);
  }

  lemma SmallProduct(a: int, b: int)
    requires 0 <= a <= 40_000 && -255 <= b <= 255
    ensures -10_200_000 <= a * b <= 10_200_000 && b * a == a * b
  {
    MulMonotone(b, 255, a);
    MulMonotone(-255, b, a);
  }

  lemma CoefsSmall(m: Matrix, full: bool)
    ensures var c := NewCoefs(m, full);
            0 <= c.yMul <= 40_000 && 0 <= c.rv <= 40_000 && 0 <= c.gu <= 40_000 && 0 <= c.gv <= 40_000 &&
                0 <= c.bu <= 40_000
  {
    var w := Exact(m, full);
    assert w.y <= 2.4 && w.rv <= 2.4 && w.gu <= 2.4 && w.gv <= 2.4 && w.bu <= 2.4;
  }

  // ---- planes ----

  datatype Chroma = Sub420 | Sub422 | Full | Mono {
    /** Horizontal and vertical subsampling, as divisors. */
    function Step(): (s: (nat, nat))
      ensures 1 <= s.0 <= 2 && 1 <= s.1 <= 2
    {
      match this
      case Sub420 => (2, 2)
      case Sub422 => (2, 1)
      case Full => (1, 1)
      case Mono => (1, 1)
    }
  }

  /** stride: bytes from one row to the next. */
  datatype Plane = Plane(data: Bytes, stride: nat)

  datatype ChromaPlanes = Planar(u: Plane, v: Plane) | Interleaved(uv: Plane) | NoPlanes

  datatype YuvImage = YuvImage(
    width: nat, height: nat, bitDepth: nat, chroma: Chroma, matrix: Matrix, fullRange: bool, y: Plane, uv: ChromaPlanes)

  function DivCeil(a: nat, d: nat): (q: nat)
    requires d > 0
    ensures (q - 1) * d < a <= q * d || (a == 0 && q == 0)
  {
    DivDefinition(a + d - 1, d);
    (a + d - 1) / d
  }

  /** The plane holds h rows of w samples. */
  predicate PlaneOk(p: Plane, w: nat, h: nat, bytesPer: nat) {
    h == 0 || (p.stride >= w * bytesPer && |p.data| >= p.stride * (h - 1) + w * bytesPer)
  }

  /** Samples above 8 bits take two bytes and are shifted down. */
  function BytesPer(img: YuvImage): nat {
    if img.bitDepth > 8 then 2 else 1
  }

  function Down(img: YuvImage): nat {
    if img.bitDepth > 8 then img.bitDepth - 8 else 0
  }

  function ChromaWidth(img: YuvImage): nat {
    DivCeil(img.width, img.chroma.Step().0)
  }

  function ChromaHeight(img: YuvImage): nat {
    DivCeil(img.height, img.chroma.Step().1)
  }

  /** What the conversion accepts: sizes, bit depth, and planes that hold the image. */
  predicate Accepted(img: YuvImage) {
    && img.width > 0 && img.height > 0 && 8 <= img.bitDepth <= 16
    && PlaneOk(img.y, img.width, img.height, BytesPer(img))
    && (img.chroma.Mono? ||
        match img.uv
        case Planar(u, v) =>
          PlaneOk(u, ChromaWidth(img), ChromaHeight(img), BytesPer(img)) &&
              PlaneOk(v, ChromaWidth(img), ChromaHeight(img), BytesPer(img))
        case Interleaved(uv) => PlaneOk(uv, ChromaWidth(img) * 2, ChromaHeight(img), BytesPer(img))
        case NoPlanes => false)
  }

  /** A plane has the rows: none overlaps the next, and the last one ends inside the data. */
  ghost predicate Holds(p: Plane, w: nat, h: nat, bytesPer: nat)
    requires h > 0
  {
    w * bytesPer <= p.stride && (h - 1) * p.stride + w * bytesPer <= |p.data|
  }

  /** What an image needs, in numbers: a size, 8 to 16 bits, rows of one byte a sample or, above 8 bits,
      two, and chroma for every started block of pixels, in a plane each or side by side in one. */
  ghost predicate FitsPlanes(img: YuvImage) {
    && img.width > 0 && img.height > 0 && 8 <= img.bitDepth <= 16
    && (var bytes := if img.bitDepth == 8 then 1 else 2;
        var cw := if img.chroma.Sub420? || img.chroma.Sub422? then (img.width + 1) / 2 else img.width;
        var ch := if img.chroma.Sub420? then (img.height + 1) / 2 else img.height;
        && Holds(img.y, img.width, img.height, bytes)
        && (img.chroma.Mono?
            || (img.uv.Planar? && Holds(img.uv.u, cw, ch, bytes) && Holds(img.uv.v, cw, ch, bytes))
            || (img.uv.Interleaved? && Holds(img.uv.uv, 2 * cw, ch, bytes))))
  }

  lemma PlaneHolds(p: Plane, w: nat, h: nat, bytesPer: nat)
    requires h > 0
    ensures PlaneOk(p, w, h, bytesPer) <==> Holds(p, w, h, bytesPer)
  {
    assert p.stride * (h - 1) == (h - 1) * p.stride;
  }

  lemma ChromaSize(img: YuvImage)
    ensures ChromaWidth(img) == if img.chroma.Sub420? || img.chroma.Sub422? then (img.width + 1) / 2 else img.width
    ensures ChromaHeight(img) == if img.chroma.Sub420? then (img.height + 1) / 2 else img.height
  {
    HalvesUp(img.width);
    HalvesUp(img.height);
  }

  lemma AcceptedExactly(img: YuvImage)
    ensures Accepted(img) <==> FitsPlanes(img)
  {
    if img.width > 0 && img.height > 0 {
      var w, h, bytes := ChromaWidth(img), ChromaHeight(img), BytesPer(img);
      ChromaSize(img);
      PlaneHolds(img.y, img.width, img.height, bytes);
      match img.uv {
        case Planar(u, v) =>
          PlaneHolds(u, w, h, bytes);
          PlaneHolds(v, w, h, bytes);
        case Interleaved(uv) =>
          assert w * 2 == 2 * w;
          PlaneHolds(uv, w * 2, h, bytes);
        case NoPlanes =>
      }
    }
  }

  lemma HalvesUp(n: nat)
    ensures DivCeil(n, 1) == n && DivCeil(n, 2) == (n + 1) / 2
  {
  }

  /** Every sample of an accepted plane lies inside its data. */
  lemma SampleInside(p: Plane, w: nat, h: nat, bytesPer: nat, x: nat, y: nat)
    requires PlaneOk(p, w, h, bytesPer) && x < w && y < h
    ensures y * p.stride + x * bytesPer + bytesPer <= |p.data|
    ensures y * p.stride + w * bytesPer <= |p.data|
    ensures 0 <= y * p.stride && 0 <= x * bytesPer
  {
    MulMonotone(y, h - 1, p.stride);
    MulStep(x, w, bytesPer);
    MulNonNegative(y, p.stride);
    MulNonNegative(x, bytesPer);
  }

  /** A plane holds the rows exactly if its rows do not overlap and every sample lies inside its data. */
  lemma PlaneOkExactly(p: Plane, w: nat, h: nat, bytesPer: nat)
    requires w > 0 && h > 0 && bytesPer > 0
    ensures PlaneOk(p, w, h, bytesPer) <==>
              && w * bytesPer <= p.stride
              && forall x: nat, y: nat :: x < w && y < h ==> InPlane(p, x, y, bytesPer)
  {
    if PlaneOk(p, w, h, bytesPer) {
      forall x: nat, y: nat | x < w && y < h ensures InPlane(p, x, y, bytesPer) {
        SampleInside(p, w, h, bytesPer, x, y);
      }
    }
    if InPlane(p, w - 1, h - 1, bytesPer) {
      assert (w - 1) * bytesPer + bytesPer == w * bytesPer;
    }
  }

  ghost predicate InPlane(p: Plane, x: nat, y: nat, bytesPer: nat) {
    y * p.stride + x * bytesPer + bytesPer <= |p.data|
  }

  function Pow2(n: nat): (p: nat)
    ensures p > 0
  {
    if n == 0 then 1 else 2 * Pow2(n - 1)
  }

  function Sample(p: Plane, w: nat, h: nat, x: nat, y: nat, shift: nat): (v: int)
    requires PlaneOk(p, w, h, if shift == 0 then 1 else 2) && x < w && y < h
    ensures 0 <= v <= 255
  {
    SampleInside(p, w, h, if shift == 0 then 1 else 2, x, y);
    if shift == 0 then p.data[y * p.stride + x]
    else
      var i := y * p.stride + x * 2;
      var lo: nat, hi: nat := p.data[i], p.data[i + 1];
      var v := (lo + hi * 256) / Pow2(shift);
      if v < 255 then v else 255
  }

  lemma HalfInside(x: nat, w: nat, step: nat)
    requires x < w && 1 <= step <= 2
    ensures x / step < DivCeil(w, step)
  {
    if step == 2 {
      assert DivCeil(w, 2) * 2 >= w;
    } else {
      assert DivCeil(w, 1) * 1 >= w;
    }
  }

  /** The luma sample of pixel (x, y). */
  function LumaAt(img: YuvImage, x: nat, y: nat): (v: int)
    requires Accepted(img) && x < img.width && y < img.height
    ensures 0 <= v <= 255
  {
    Sample(img.y, img.width, img.height, x, y, Down(img))
  }

  /** Its U and V; 128 each without chroma. */
  function ChromaAt(img: YuvImage, x: nat, y: nat): (uv: (int, int))
    requires Accepted(img) && x < img.width && y < img.height
    ensures 0 <= uv.0 <= 255 && 0 <= uv.1 <= 255
  {
    HalfInside(x, img.width, img.chroma.Step().0);
    HalfInside(y, img.height, img.chroma.Step().1);
    var cx, cy, cw, ch := x / img.chroma.Step().0, y / img.chroma.Step().1, ChromaWidth(img), ChromaHeight(img);
    if img.chroma.Mono? then (128, 128)
    else
      match img.uv
      case Planar(u, v) => (Sample(u, cw, ch, cx, cy, Down(img)), Sample(v, cw, ch, cx, cy, Down(img)))
      case Interleaved(uv) => (Sample(uv, cw * 2, ch, cx * 2, cy, Down(img)),
          Sample(uv, cw * 2, ch, cx * 2 + 1, cy, Down(img)))
      case NoPlanes => (128, 128)
  }

  /** The pixel at (x, y) of an accepted image, for every layout and bit depth. */
  function PixelAt(img: YuvImage, x: nat, y: nat): (r: Bytes)
    requires Accepted(img) && x < img.width && y < img.height
    ensures |r| == 4
  {
    Px(NewCoefs(img.matrix, img.fullRange), LumaAt(img, x, y), ChromaAt(img, x, y).0, ChromaAt(img, x, y).1)
  }

  /** Every pixel of every accepted image is within 0.52 of the exact conversion of its samples. */
  lemma PixelNear(img: YuvImage, x: nat, y: nat)
    requires Accepted(img) && x < img.width && y < img.height
    ensures PxNear(PixelAt(img, x, y), Exact(img.matrix, img.fullRange), Offset(img.fullRange),
                   LumaAt(img, x, y), ChromaAt(img, x, y).0, ChromaAt(img, x, y).1)
  {
    PxIsNearExact(img.matrix, img.fullRange, LumaAt(img, x, y), ChromaAt(img, x, y).0, ChromaAt(img, x, y).1);
  }

  /** How many numbers of that many bits make one of 8 bits. */
  ghost function Steps(bitDepth: nat): (n: nat)
    ensures n > 0
  {
    if 8 <= bitDepth <= 16 then [1, 2, 4, 8, 16, 32, 64, 128, 256][bitDepth - 8] else 1
  }

  lemma StepsAreShifts(shift: nat)
    requires shift <= 8
    ensures Pow2(shift) == Steps(shift + 8)
  {
    assert Pow2(2) == 4 && Pow2(4) == 2 * Pow2(3) == 16;
    assert Pow2(6) == 2 * Pow2(5) == 64 && Pow2(8) == 2 * Pow2(7) == 256;
  }

  /** Number k of row y as it is stored: a byte, or, above 8 bits, two with the less significant first,
      brought down to 8 bits. */
  ghost predicate Stored(v: int, p: Plane, k: nat, y: nat, bitDepth: nat) {
    if bitDepth == 8 then 0 <= y * p.stride + k < |p.data| && v == p.data[y * p.stride + k]
    else
      var i := y * p.stride + 2 * k;
      && 0 <= i && i + 1 < |p.data| && bitDepth > 8
      && (var n := p.data[i] as int + 0x100 * p.data[i + 1] as int;
          var top := n / Steps(bitDepth);
          v == if top > 255 then 255 else top)
  }

  lemma SampleIsStored(p: Plane, w: nat, h: nat, x: nat, y: nat, bitDepth: nat)
    requires 8 <= bitDepth <= 16 && PlaneOk(p, w, h, if bitDepth > 8 then 2 else 1) && x < w && y < h
    ensures Stored(Sample(p, w, h, x, y, bitDepth - 8), p, x, y, bitDepth)
  {
    StepsAreShifts(bitDepth - 8);
    SampleInside(p, w, h, if bitDepth > 8 then 2 else 1, x, y);
  }

  /** The chroma sample of a pixel is that of the block of pixels it lies in. */
  lemma BlockOf(img: YuvImage, x: nat, y: nat) returns (cx: nat, cy: nat)
    requires Accepted(img) && x < img.width && y < img.height
    ensures cx == (if img.chroma.Sub420? || img.chroma.Sub422? then x / 2 else x) && cx < ChromaWidth(img)
    ensures cy == (if img.chroma.Sub420? then y / 2 else y) && cy < ChromaHeight(img)
    ensures cx == x / img.chroma.Step().0 && cy == y / img.chroma.Step().1
  {
    HalfInside(x, img.width, img.chroma.Step().0);
    HalfInside(y, img.height, img.chroma.Step().1);
    cx, cy := x / img.chroma.Step().0, y / img.chroma.Step().1;
  }

  /** The samples of a pixel: its luma, and the chroma of the block of pixels it lies in, from planes of
      their own or next to each other in one. */
  lemma SamplesOf(img: YuvImage, x: nat, y: nat)
    requires Accepted(img) && x < img.width && y < img.height
    ensures Stored(LumaAt(img, x, y), img.y, x, y, img.bitDepth)
    ensures var (u, v) := ChromaAt(img, x, y);
            var cx := if img.chroma.Sub420? || img.chroma.Sub422? then x / 2 else x;
            var cy := if img.chroma.Sub420? then y / 2 else y;
            if img.chroma.Mono? then u == v == 128
            else if img.uv.Planar? then
              Stored(u, img.uv.u, cx, cy, img.bitDepth) && Stored(v, img.uv.v, cx, cy, img.bitDepth)
            else
              && img.uv.Interleaved?
              && Stored(u, img.uv.uv, 2 * cx, cy, img.bitDepth) && Stored(v, img.uv.uv, 2 * cx + 1, cy, img.bitDepth)
  {
    SampleIsStored(img.y, img.width, img.height, x, y, img.bitDepth);
    if !img.chroma.Mono? {
      var cw, ch := ChromaWidth(img), ChromaHeight(img);
      var cx, cy := BlockOf(img, x, y);
      if img.uv.Planar? {
        SampleIsStored(img.uv.u, cw, ch, cx, cy, img.bitDepth);
        SampleIsStored(img.uv.v, cw, ch, cx, cy, img.bitDepth);
      } else {
        SampleIsStored(img.uv.uv, cw * 2, ch, cx * 2, cy, img.bitDepth);
        SampleIsStored(img.uv.uv, cw * 2, ch, cx * 2 + 1, cy, img.bitDepth);
      }
    }
  }

  /** A number of up to bitDepth bits comes down to its 8 most significant ones. */
  lemma StoredNumber(v: int, p: Plane, k: nat, y: nat, bitDepth: nat, hi: nat, lo: nat)
    requires 8 < bitDepth <= 16 && Stored(v, p, k, y, bitDepth) && hi < 256 && lo < Steps(bitDepth)
    requires p.data[y * p.stride + 2 * k] as int + 0x100 * p.data[y * p.stride + 2 * k + 1] as int ==
             hi * Steps(bitDepth) + lo
    ensures v == hi
  {
    DivUnique(hi * Steps(bitDepth) + lo, Steps(bitDepth), hi, lo);
  }

  /** 8 bits, 4:2:0, separate planes: the common case. */
  predicate FastPath(img: YuvImage) {
    img.bitDepth == 8 && img.chroma == Sub420 && img.uv.Planar?
  }

  /** Byte j of the converted picture. */
  function ByteAt(img: YuvImage, j: nat): byte
    requires Accepted(img) && j < img.width * img.height * 4
  {
    PixelOf(img.width, img.height, j);
    PixelAt(img, (j / 4) % img.width, (j / 4) / img.width)[j % 4]
  }

  lemma PixelOf(w: nat, h: nat, j: nat)
    requires w > 0 && j < w * h * 4
    ensures (j / 4) / w < h && (j / 4) % w < w
  {
    DivDefinition(j / 4, w);
    if h <= (j / 4) / w {
      MulMonotone(h, (j / 4) / w, w);
    }
  }

  /** Where the bytes of pixel (x, y) are. */
  lemma OffsetOf(w: nat, h: nat, x: nat, y: nat, c: nat)
    requires x < w && y < h && c < 4
    ensures var j := y * w * 4 + x * 4 + c;
            && 0 <= y * w * 4 && j < w * h * 4 && (j / 4) % w == x && (j / 4) / w == y && j % 4 == c
    ensures y * w * 4 + x * 4 + 4 <= (y + 1) * w * 4 <= w * h * 4
  {
    var j := y * w * 4 + x * 4 + c;
    MulNonNegative(y, w);
    MulStep(y, h, w);
    assert (y + 1) * w == y * w + w;
    assert j / 4 == y * w + x;
    DivUnique(y * w + x, w, y, x);
  }

  /** The picture is row by row, pixel by pixel, four bytes each. */
  lemma ByteOf(img: YuvImage, x: nat, y: nat, c: nat)
    requires Accepted(img) && x < img.width && y < img.height && c < 4
    ensures var j := (y * img.width + x) * 4 + c;
            0 <= j < img.width * img.height * 4 && ByteAt(img, j) == PixelAt(img, x, y)[c]
  {
    OffsetOf(img.width, img.height, x, y, c);
    assert (y * img.width + x) * 4 + c == y * img.width * 4 + x * 4 + c;
  }

  // ---- filling the output ----

  const PARALLEL_FROM_PIXELS: nat := 1_000_000
  const MAX_THREADS: nat := 4

  /** Pixel (x, row) goes to its four bytes. */
  method PutPixel(img: YuvImage, out: array<byte>, x: nat, row: nat, px: Bytes)
    requires Accepted(img) && out.Length == img.width * img.height * 4 && x < img.width && row < img.height
    requires px == PixelAt(img, x, row)
    modifies out
    ensures 0 <= row * img.width * 4
    ensures forall j :: 0 <= j < out.Length ==>
              out[j] == if row * img.width * 4 + x * 4 <= j < row * img.width * 4 + x * 4 + 4 then ByteAt(img, j)
                  else old(out[j])
  {
    OffsetOf(img.width, img.height, x, row, 0);
    OffsetOf(img.width, img.height, x, row, 1);
    OffsetOf(img.width, img.height, x, row, 2);
    OffsetOf(img.width, img.height, x, row, 3);
    var at := row * img.width * 4 + x * 4;
    out[at], out[at + 1], out[at + 2], out[at + 3] := px[0], px[1], px[2], px[3];
  }

  /** One row by the general path. */
  method ConvertRow(img: YuvImage, c: Coefs, out: array<byte>, row: nat)
    requires Accepted(img) && c == NewCoefs(img.matrix, img.fullRange)
    requires out.Length == img.width * img.height * 4 && row < img.height
    modifies out
    ensures forall j :: 0 <= j < out.Length ==>
              out[j] == if row * img.width * 4 <= j < (row + 1) * img.width * 4 then ByteAt(img, j) else old(out[j])
  {
    var w := img.width;
    var start := row * w * 4;
    assert (row + 1) * w * 4 == start + w * 4;
    var cy := row / img.chroma.Step().1;
    var x := 0;
    while x < w
      invariant x <= w
      invariant forall j :: 0 <= j < out.Length ==> out[j] == if start <= j < start + x * 4 then ByteAt(img, j)
                else old(out[j])
    {
      HalfInside(x, w, img.chroma.Step().0);
      HalfInside(row, img.height, img.chroma.Step().1);
      var luma := Sample(img.y, w, img.height, x, row, Down(img));
      var cx := x / img.chroma.Step().0;
      var cw, ch := ChromaWidth(img), ChromaHeight(img);
      var u, v := 128, 128;
      if !img.chroma.Mono? {
        match img.uv {
          case Planar(up, vp) => u, v := Sample(up, cw, ch, cx, cy, Down(img)), Sample(vp, cw, ch, cx, cy, Down(img));
          case Interleaved(p) => u, v := Sample(p, cw * 2, ch, cx * 2, cy, Down(img)),
              Sample(p, cw * 2, ch, cx * 2 + 1, cy, Down(img));
          case NoPlanes =>
        }
      }
      PutPixel(img, out, x, row, Px(c, luma, u, v));
      x := x + 1;
    }
  }

  /** One row by the fast path: the same bytes. */
  method ConvertRowFast(img: YuvImage, c: Coefs, out: array<byte>, row: nat)
    requires Accepted(img) && FastPath(img) && c == NewCoefs(img.matrix, img.fullRange)
    requires out.Length == img.width * img.height * 4 && row < img.height
    modifies out
    ensures forall j :: 0 <= j < out.Length ==>
              out[j] == if row * img.width * 4 <= j < (row + 1) * img.width * 4 then ByteAt(img, j) else old(out[j])
  {
    var w := img.width;
    var cw := ChromaWidth(img);
    var start := row * w * 4;
    assert (row + 1) * w * 4 == start + w * 4;
    HalfInside(row, img.height, 2);
    HalfInside(w - 1, w, 2);
    var u, v := img.uv.u, img.uv.v;
    SampleInside(img.y, w, img.height, 1, w - 1, row);
    SampleInside(u, cw, ChromaHeight(img), 1, 0, row / 2);
    SampleInside(v, cw, ChromaHeight(img), 1, 0, row / 2);
    var yr := img.y.data[row * img.y.stride..][..w];
    var ur := u.data[(row / 2) * u.stride..][..cw];
    var vr := v.data[(row / 2) * v.stride..][..cw];
    var x := 0;
    while x < w
      invariant x <= w
      invariant forall j :: 0 <= j < out.Length ==> out[j] == if start <= j < start + x * 4 then ByteAt(img, j)
                else old(out[j])
    {
      HalfInside(x, w, 2);
      var px := Px(c, yr[x], ur[x / 2], vr[x / 2]);
      assert px == PixelAt(img, x, row);
      PutPixel(img, out, x, row, px);
      x := x + 1;
    }
  }

  /** Rows first..last. */
  method ConvertBand(img: YuvImage, c: Coefs, out: array<byte>, first: nat, last: nat)
    requires Accepted(img) && c == NewCoefs(img.matrix, img.fullRange)
    requires out.Length == img.width * img.height * 4 && first <= last <= img.height
    modifies out
    ensures forall j :: 0 <= j < out.Length ==>
              out[j] == if first * img.width * 4 <= j < last * img.width * 4 then ByteAt(img, j) else old(out[j])
  {
    var row := first;
    while row < last
      invariant first <= row <= last
      invariant forall j :: 0 <= j < out.Length ==>
                  out[j] == if first * img.width * 4 <= j < row * img.width * 4 then ByteAt(img, j) else old(out[j])
    {
      MulMonotone(first, row, img.width);
      MulStep(row, row + 1, img.width);
      if FastPath(img) {
        ConvertRowFast(img, c, out, row);
      } else {
        ConvertRow(img, c, out, row);
      }
      row := row + 1;
    }
  }

  /** Rows of band i. */
  function BandStart(i: nat, rowsPer: nat, h: nat): (r: nat)
    ensures r <= h
  {
    MulNonNegative(i, rowsPer);
    if i * rowsPer < h then i * rowsPer else h
  }

  /** Every row lies in exactly one of the bands, for any number of threads. */
  lemma BandsPartition(h: nat, rowsPer: nat, row: nat, i: nat)
    requires rowsPer > 0 && row < h
    ensures BandStart(i, rowsPer, h) <= row < BandStart(i + 1, rowsPer, h) <==> i == row / rowsPer
    ensures row / rowsPer < DivCeil(h, rowsPer)
  {
    var q := row / rowsPer;
    DivDefinition(row, rowsPer);
    assert (q + 1) * rowsPer == q * rowsPer + rowsPer;
    if i < q {
      MulMonotone(i + 1, q, rowsPer);
    } else if q < i {
      MulMonotone(q + 1, i, rowsPer);
    }
    if DivCeil(h, rowsPer) <= q {
      MulMonotone(DivCeil(h, rowsPer), q, rowsPer);
    }
  }

  /** The whole conversion; None exactly for sizes, depths or planes that don't fit. Large
      frames are split into bands of rows, one for a thread, which finish in any order. */
  method ToBgra(img: YuvImage, available: nat) returns (r: Option<array<byte>>)
    ensures r.Some? <==> Accepted(img)
    ensures r.Some? <==> FitsPlanes(img)
    ensures r.Some? ==> r.value.Length == img.width * img.height * 4 &&
                        forall j :: 0 <= j < r.value.Length ==> r.value[j] == ByteAt(img, j)
  {
    AcceptedExactly(img);
    if !Accepted(img) {
      return None;
    }
    var w, h := img.width, img.height;
    var c := NewCoefs(img.matrix, img.fullRange);
    MulNonNegative(w, h);
    var out := new byte[w * h * 4];
    var threads := if w * h >= PARALLEL_FROM_PIXELS then (if available < MAX_THREADS then available else MAX_THREADS)
        else 1;
    if threads <= 1 {
      ConvertBand(img, c, out, 0, h);
      assert 0 * w * 4 == 0 && h * w * 4 == w * h * 4;
    } else {
      ConvertBands(img, c, out, threads);
    }
    r := Some(out);
  }

  /** The band that byte j of the output lies in. */
  function BandOf(w: nat, rowsPer: nat, j: nat): nat
    requires w > 0 && rowsPer > 0
  {
    DivDefinition(j / 4, w);
    DivDefinition((j / 4) / w, rowsPer);
    ((j / 4) / w) / rowsPer
  }

  /** Every byte outside the pending bands is converted. */
  ghost predicate DoneBut(img: YuvImage, out: array<byte>, rowsPer: nat, pending: set<nat>)
    requires Accepted(img) && rowsPer > 0 && out.Length == img.width * img.height * 4
    reads out
  {
    forall j :: 0 <= j < out.Length && BandOf(img.width, rowsPer, j) !in pending ==> out[j] == ByteAt(img, j)
  }

  /** One thread: converts one pending band. */
  method RunBand(img: YuvImage, c: Coefs, out: array<byte>, rowsPer: nat, i: nat, ghost pending: set<nat>)
    requires Accepted(img) && c == NewCoefs(img.matrix, img.fullRange) && rowsPer > 0
    requires out.Length == img.width * img.height * 4
    requires DoneBut(img, out, rowsPer, pending)
    modifies out
    ensures DoneBut(img, out, rowsPer, pending - {i})
  {
    var w, h := img.width, img.height;
    var first, last := BandStart(i, rowsPer, h), BandStart(i + 1, rowsPer, h);
    MulMonotone(i, i + 1, rowsPer);
    ConvertBand(img, c, out, first, last);
    forall j | 0 <= j < out.Length && BandOf(w, rowsPer, j) !in pending - {i} ensures out[j] == ByteAt(img, j) {
      ByteInBand(w, h, rowsPer, j, i);
    }
  }

  function FirstBands(n: nat): (s: set<nat>)
    ensures forall i: nat :: i in s <==> i < n
  {
    if n == 0 then {} else FirstBands(n - 1) + {n - 1}
  }

  /** The bands, in whatever order their threads finish. */
  method ConvertBands(img: YuvImage, c: Coefs, out: array<byte>, threads: nat)
    requires Accepted(img) && c == NewCoefs(img.matrix, img.fullRange) && threads > 0
    requires out.Length == img.width * img.height * 4
    modifies out
    ensures forall j :: 0 <= j < out.Length ==> out[j] == ByteAt(img, j)
  {
    var rowsPer := DivCeil(img.height, threads);
    var pending := FirstBands(DivCeil(img.height, rowsPer));
    forall j | 0 <= j < out.Length ensures BandOf(img.width, rowsPer, j) in pending {
      ByteInBand(img.width, img.height, rowsPer, j, 0);
    }
    while pending != {}
      invariant DoneBut(img, out, rowsPer, pending)
      decreases pending
    {
      var i :| i in pending;
      RunBand(img, c, out, rowsPer, i, pending);
      pending := pending - {i};
    }
  }

  /** Each byte lies in exactly one band. */
  lemma ByteInBand(w: nat, h: nat, rowsPer: nat, j: nat, i: nat)
    requires w > 0 && rowsPer > 0 && j < w * h * 4
    ensures BandStart(i, rowsPer, h) * w * 4 <= j < BandStart(i + 1, rowsPer, h) * w * 4 <==> i == BandOf(w, rowsPer, j)
    ensures BandOf(w, rowsPer, j) < DivCeil(h, rowsPer)
  {
    var row, first, last := (j / 4) / w, BandStart(i, rowsPer, h), BandStart(i + 1, rowsPer, h);
    assert row < h && (first * w * 4 <= j < last * w * 4 <==> first <= row < last) by {
      InBand(w, h, j, first, last);
    }
    assert (first <= row < last <==> i == row / rowsPer) && row / rowsPer < DivCeil(h, rowsPer) by {
      BandsPartition(h, rowsPer, row, i);
    }
  }

  lemma InBand(w: nat, h: nat, j: nat, first: nat, last: nat)
    requires w > 0 && j < w * h * 4
    ensures (j / 4) / w < h
    ensures first * w * 4 <= j < last * w * 4 <==> first <= (j / 4) / w < last
  {
    PixelOf(w, h, j);
    var row := (j / 4) / w;
    DivDefinition(j / 4, w);
    assert (row + 1) * w == row * w + w;
    if first <= row { MulMonotone(first, row, w); } else { MulMonotone(row + 1, first, w); }
    if last <= row { MulMonotone(last, row, w); } else { MulMonotone(row + 1, last, w); }
  }
}
