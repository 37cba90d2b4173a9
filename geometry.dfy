/** Intersection-over-Union of two axis-aligned boxes in center form
    (Recall.py `calculate_iou`). Coordinates are modelled as exact reals. */
module Geometry {

  /** [x_center, y_center, width, height] in normalised image coordinates. */
  datatype Rect = Rect(xc: real, yc: real, w: real, h: real)

  function Max(a: real, b: real): real { if a >= b then a else b }
  function Min(a: real, b: real): real { if a <= b then a else b }

  // Corner form.
  function X1(r: Rect): real { r.xc - r.w / 2.0 }
  function Y1(r: Rect): real { r.yc - r.h / 2.0 }
  function X2(r: Rect): real { r.xc + r.w / 2.0 }
  function Y2(r: Rect): real { r.yc + r.h / 2.0 }

  /** Width of the overlap, clamped at zero for boxes apart along x. */
  function InterWidth(a: Rect, b: Rect): (iw: real)
    ensures iw >= 0.0
    ensures a.w >= 0.0 ==> iw <= a.w
    ensures b.w >= 0.0 ==> iw <= b.w
  {
    Max(0.0, Min(X2(a), X2(b)) - Max(X1(a), X1(b)))
  }

  function InterHeight(a: Rect, b: Rect): (ih: real)
    ensures ih >= 0.0
    ensures a.h >= 0.0 ==> ih <= a.h
    ensures b.h >= 0.0 ==> ih <= b.h
  {
    Max(0.0, Min(Y2(a), Y2(b)) - Max(Y1(a), Y1(b)))
  }

  function InterArea(a: Rect, b: Rect): real {
    InterWidth(a, b) * InterHeight(a, b)
  }

  /** Area of the box as given, which is negative for a malformed box. */
  function Area(r: Rect): real { r.w * r.h }

  function UnionArea(a: Rect, b: Rect): real {
    Area(a) + Area(b) - InterArea(a, b)
  }

  /** IoU, defined as 0 whenever the union area is not positive (no division then). */
  function Iou(a: Rect, b: Rect): (r: real)
    ensures r >= 0.0
    ensures UnionArea(a, b) <= 0.0 ==> r == 0.0
    ensures r > 0.0 ==> InterArea(a, b) > 0.0
  {
    MulNonNegative(InterWidth(a, b), InterHeight(a, b));
    if UnionArea(a, b) > 0.0 then InterArea(a, b) / UnionArea(a, b) else 0.0
  }

  lemma MulNonNegative(x: real, y: real)
    requires x >= 0.0 && y >= 0.0
    ensures x * y >= 0.0
  {}

  lemma MulMonotone(x: real, y: real, u: real, v: real)
    requires 0.0 <= x <= u && 0.0 <= y <= v
    ensures x * y <= u * v
  {
    assert x * y <= u * y;
    assert u * y <= u * v;
  }

  /** IoU does not depend on the order of its arguments. */
  lemma IouSymmetric(a: Rect, b: Rect)
    ensures Iou(a, b) == Iou(b, a)
  {
    assert InterWidth(a, b) == InterWidth(b, a);
    assert InterHeight(a, b) == InterHeight(b, a);
    assert InterArea(a, b) == InterArea(b, a);
    assert UnionArea(a, b) == UnionArea(b, a);
  }

  /** Boxes separated along x or along y have IoU 0: the clamped overlap is 0. */
  lemma IouDisjoint(a: Rect, b: Rect)
    requires X2(a) <= X1(b) || X2(b) <= X1(a) || Y2(a) <= Y1(b) || Y2(b) <= Y1(a)
    ensures Iou(a, b) == 0.0
  {
    assert InterWidth(a, b) == 0.0 || InterHeight(a, b) == 0.0;
    assert InterArea(a, b) == 0.0;
  }

  /** A box with positive width and height has IoU 1 with itself. */
  lemma IouSelf(a: Rect)
    requires a.w > 0.0 && a.h > 0.0
    ensures Iou(a, a) == 1.0
  {
    assert InterWidth(a, a) == a.w;
    assert InterHeight(a, a) == a.h;
    var area := a.w * a.h;
    assert InterArea(a, a) == area;
    assert UnionArea(a, a) == area;
    MulPositive(a.w, a.h);
    assert area / area == 1.0;
  }

  lemma MulPositive(x: real, y: real)
    requires x > 0.0 && y > 0.0
    ensures x * y > 0.0
  {}

  /** For boxes with non-negative sizes the IoU lies in [0, 1]. */
  lemma IouBounded(a: Rect, b: Rect)
    requires a.w >= 0.0 && a.h >= 0.0 && b.w >= 0.0 && b.h >= 0.0
    ensures 0.0 <= Iou(a, b) <= 1.0
  {
    var inter, u := InterArea(a, b), UnionArea(a, b);
    assert inter <= u by { InterAtMostFirst(a, b); InterAtMostSecond(a, b); }
    if u > 0.0 {
      DivAtMostOne(inter, u);
    }
  }

  /** The overlap with a well-formed first box is no larger than that box. */
  lemma InterAtMostFirst(a: Rect, b: Rect)
    requires a.w >= 0.0 && a.h >= 0.0
    ensures InterArea(a, b) <= Area(a)
  {
    MulMonotone(InterWidth(a, b), InterHeight(a, b), a.w, a.h);
  }

  /** The overlap with a well-formed second box is no larger than that box. */
  lemma InterAtMostSecond(a: Rect, b: Rect)
    requires b.w >= 0.0 && b.h >= 0.0
    ensures InterArea(a, b) <= Area(b)
  {
    MulMonotone(InterWidth(a, b), InterHeight(a, b), b.w, b.h);
  }

  lemma DivAtMostOne(x: real, y: real)
    requires 0.0 <= x <= y && y > 0.0
    ensures x / y <= 1.0
  {
    assert x / y * y == x;
  }
}
