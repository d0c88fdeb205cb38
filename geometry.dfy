/**
 * Intersection-over-Union of two axis-aligned boxes given in
 * centre/width/height form (the `iou` helper of the live feed page).
 * Coordinates are mathematical reals; IEEE rounding, NaN and infinities
 * are not modelled.
 */
module Geometry {

  /** A box as the detector reports it: centre x, centre y, width, height. */
  datatype Box = Box(cx: real, cy: real, w: real, h: real)

  function Max(a: real, b: real): (r: real)
    ensures r >= a && r >= b && (r == a || r == b)
  {
    if a >= b then a else b
  }

  function Min(a: real, b: real): (r: real)
    ensures r <= a && r <= b && (r == a || r == b)
  {
    if a <= b then a else b
  }

  // Corner form of a box.
  function Left(b: Box): real { b.cx - b.w / 2.0 }
  function Right(b: Box): real { b.cx + b.w / 2.0 }
  function Top(b: Box): real { b.cy - b.h / 2.0 }
  function Bottom(b: Box): real { b.cy + b.h / 2.0 }

  /** Area computed from the corners, as the source does; it is width times height. */
  function Area(b: Box): (r: real)
    ensures r == b.w * b.h
  {
    (Right(b) - Left(b)) * (Bottom(b) - Top(b))
  }

  /** Width of the overlap, clamped at zero. */
  function OverlapWidth(a: Box, b: Box): (r: real)
    ensures r >= 0.0
    ensures a.w >= 0.0 ==> r <= a.w
    ensures b.w >= 0.0 ==> r <= b.w
  {
    Max(0.0, Min(Right(a), Right(b)) - Max(Left(a), Left(b)))
  }

  /** Height of the overlap, clamped at zero. */
  function OverlapHeight(a: Box, b: Box): (r: real)
    ensures r >= 0.0
    ensures a.h >= 0.0 ==> r <= a.h
    ensures b.h >= 0.0 ==> r <= b.h
  {
    Max(0.0, Min(Bottom(a), Bottom(b)) - Max(Top(a), Top(b)))
  }

  /** Area of the intersection; never negative because both sides are clamped. */
  function InterArea(a: Box, b: Box): (r: real)
    ensures r >= 0.0
  {
    NonNegativeProduct(OverlapWidth(a, b), OverlapHeight(a, b));
    OverlapWidth(a, b) * OverlapHeight(a, b)
  }

  function UnionArea(a: Box, b: Box): real
  {
    Area(a) + Area(b) - InterArea(a, b)
  }

  /**
   * Intersection over union; zero instead of a division when the union
   * area is not positive.
   */
  function Iou(a: Box, b: Box): (r: real)
    ensures r >= 0.0
    ensures UnionArea(a, b) <= 0.0 ==> r == 0.0
  {
    var u := UnionArea(a, b);
    if u > 0.0 then InterArea(a, b) / u else 0.0
  }

  lemma NonNegativeProduct(x: real, y: real)
    requires x >= 0.0 && y >= 0.0
    ensures x * y >= 0.0
  {
  }

  lemma MonotoneProduct(x: real, y: real, X: real, Y: real)
    requires 0.0 <= x <= X && 0.0 <= y <= Y
    ensures x * y <= X * Y
  {
  }

  lemma InterAreaSymmetric(a: Box, b: Box)
    ensures InterArea(a, b) == InterArea(b, a)
  {
  }

  /** The overlap test does not depend on the order of the two boxes. */
  lemma IouSymmetric(a: Box, b: Box)
    ensures Iou(a, b) == Iou(b, a)
  {
    InterAreaSymmetric(a, b);
    assert UnionArea(a, b) == UnionArea(b, a);
  }

  /** The intersection is no larger than the first box when its size is non-negative. */
  lemma InterAreaBounded(a: Box, b: Box)
    requires a.w >= 0.0 && a.h >= 0.0
    ensures InterArea(a, b) <= Area(a)
  {
    var ow, oh := OverlapWidth(a, b), OverlapHeight(a, b);
    assert ow <= a.w && oh <= a.h;
    MonotoneProduct(ow, oh, a.w, a.h);
  }

  lemma QuotientAtMostOne(i: real, u: real)
    requires 0.0 <= i <= u && u > 0.0
    ensures i / u <= 1.0
  {
  }

  lemma QuotientOne(u: real)
    requires u > 0.0
    ensures u / u == 1.0
  {
  }

  /** For boxes of non-negative size, IoU lies in [0, 1]. */
  lemma IouInUnitInterval(a: Box, b: Box)
    requires a.w >= 0.0 && a.h >= 0.0 && b.w >= 0.0 && b.h >= 0.0
    ensures 0.0 <= Iou(a, b) <= 1.0
  {
    var i, u := InterArea(a, b), UnionArea(a, b);
    InterAreaBounded(a, b);
    InterAreaBounded(b, a);
    InterAreaSymmetric(a, b);
    NonNegativeProduct(b.w, b.h);
    assert i <= Area(b);
    assert i <= u;
    if u > 0.0 {
      QuotientAtMostOne(i, u);
    }
  }

  /** Two identical boxes of positive width and height overlap completely. */
  lemma IouSelf(a: Box)
    requires a.w > 0.0 && a.h > 0.0
    ensures Iou(a, a) == 1.0
  {
    assert OverlapWidth(a, a) == a.w;
    assert OverlapHeight(a, a) == a.h;
    var u := Area(a);
    assert InterArea(a, a) == u;
    assert UnionArea(a, a) == u;
    assert u > 0.0 by {
      assert a.w * a.h > 0.0 * a.h;
    }
    QuotientOne(u);
  }

  /** Boxes separated horizontally or vertically do not overlap at all. */
  lemma IouDisjoint(a: Box, b: Box)
    requires Right(a) <= Left(b) || Right(b) <= Left(a) || Bottom(a) <= Top(b) || Bottom(b) <= Top(a)
    ensures InterArea(a, b) == 0.0 && Iou(a, b) == 0.0
  {
  }
}
