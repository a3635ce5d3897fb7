/** Integer pixel boxes and regions, as the capture frame uses them.

    A region is the set of pixels it holds; `Region` is the mutable object the painter
    subtracts from and adds to in place. */
module Regions {

  datatype Pixel = Pixel(x: int, y: int)

  datatype Box = Box(x: int, y: int, w: int, h: int) {
    predicate Contains(p: Pixel) {
      x <= p.x < x + w && y <= p.y < y + h
    }

    function Pixels(): (s: set<Pixel>)
      ensures forall p :: p in s <==> Contains(p)
    {
      set px: int, py: int | x <= px < x + w && y <= py < y + h :: Pixel(px, py)
    }

    /** Boxes under one pixel are dropped before they reach the painter. */
    predicate Drawable() {
      1 <= w && 1 <= h
    }
  }

  function Min(a: int, b: int): int {
    if a < b then a else b
  }

  function Clamp(v: int, lo: int, hi: int): int {
    if v < lo then lo else if hi < v then hi else v
  }

  /** The radius the painter really uses: at most half of the shorter side. */
  function Radius(b: Box, round: int): int
    requires b.Drawable()
  {
    Clamp(round, 0, Min(b.w, b.h) / 2)
  }

  /** One of the four r x r corner squares of b. */
  predicate InCorner(b: Box, r: int, p: Pixel) {
    && b.Contains(p)
    && (p.x < b.x + r || b.x + b.w - r <= p.x)
    && (p.y < b.y + r || b.y + b.h - r <= p.y)
  }

  /** The pixels a rounded window surely fills: its box without the corner squares. */
  predicate InCore(b: Box, round: int, p: Pixel)
    requires b.Drawable()
  {
    b.Contains(p) && !InCorner(b, Radius(b, round), p)
  }

  /** What the sure core of a rounded window is, in numbers: r is the rounding, cut off at half the
      shorter side and at 0, and a pixel of the box is in the core unless it is less than r from
      two sides that meet. */
  lemma CoreInNumbers(b: Box, round: int, p: Pixel)
    requires b.Drawable()
    ensures var half := (if b.w <= b.h then b.w else b.h) / 2;
            var r := if round <= 0 then 0 else if round <= half then round else half;
            InCore(b, round, p) <==>
              && b.x <= p.x < b.x + b.w && b.y <= p.y < b.y + b.h
              && !((p.x < b.x + r || p.x >= b.x + b.w - r) && (p.y < b.y + r || p.y >= b.y + b.h - r))
  {
  }

  class Region {
    var px: set<Pixel>

    constructor FromBox(b: Box)
      ensures px == b.Pixels()
    {
      px := b.Pixels();
    }

    constructor Empty()
      ensures px == {}
    {
      px := {};
    }

    method Add(other: set<Pixel>)
      modifies this
      ensures px == old(px) + other
    {
      px := px + other;
    }

    method Subtract(other: set<Pixel>)
      modifies this
      ensures px == old(px) - other
    {
      px := px - other;
    }

    method Intersect(other: set<Pixel>)
      modifies this
      ensures px == old(px) * other
    {
      px := px * other;
    }

    /** Takes a rounded opaque box out of the region as two crossing strips; what is
        removed is exactly the box without its four corner squares. */
    method SubtractRounded(b: Box, round: int)
      requires b.Drawable()
      modifies this
      ensures forall p :: p in px <==> p in old(px) && !InCore(b, round, p)
      ensures var half := (if b.w <= b.h then b.w else b.h) / 2;
              var r := if round <= 0 then 0 else if round <= half then round else half;
              forall p :: p in old(px) ==>
                (p !in px <==>
                  && b.x <= p.x < b.x + b.w && b.y <= p.y < b.y + b.h
                  && !((p.x < b.x + r || p.x >= b.x + b.w - r) && (p.y < b.y + r || p.y >= b.y + b.h - r)))
    {
      var r := Clamp(round, 0, Min(b.w, b.h) / 2);
      Subtract(Box(b.x + r, b.y, b.w - 2 * r, b.h).Pixels());
      Subtract(Box(b.x, b.y + r, b.w, b.h - 2 * r).Pixels());
      forall p ensures p in px <==> p in old(px) && !InCore(b, round, p) {
        CoreInNumbers(b, round, p);
      }
    }
  }
}
