/** Rectangle primitives of the overlap classifier and the box grower
    (core/reconstruct_text_math_box.py): corner conversion, the closed-edge
    overlap test, the overlap ratio and one growth step. Rectangles are
    `x, y, width, height` in page units, y growing downwards. */
module Geometry {
  import opened Wrappers

  datatype Rect = Rect(x: real, y: real, width: real, height: real)

  function Right(r: Rect): real { r.x + r.width }
  function Bottom(r: Rect): real { r.y + r.height }
  function Area(r: Rect): real { r.width * r.height }

  function Min(a: real, b: real): real { if a <= b then a else b }
  function Max(a: real, b: real): real { if a >= b then a else b }
  function Abs(a: real): real { if a >= 0.0 then a else -a }

  /** Non-negative width and height. */
  predicate Proper(r: Rect) { r.width >= 0.0 && r.height >= 0.0 }

  /** The point (px, py) lies in the closed rectangle r. */
  predicate ClosedContains(r: Rect, px: real, py: real) {
    r.x <= px <= Right(r) && r.y <= py <= Bottom(r)
  }

  /** `outer` covers `inner`: every edge of `inner` lies within `outer`. */
  predicate Encloses(outer: Rect, inner: Rect) {
    outer.x <= inner.x && outer.y <= inner.y &&
    Right(inner) <= Right(outer) && Bottom(inner) <= Bottom(outer)
  }

  /** The all-zero rectangle that overlap_ratio reports for "no overlap". */
  const ZeroRect := Rect(0.0, 0.0, 0.0, 0.0)

  /** convert_point_to_box: corners (x1, y1), (x2, y2) to x, y, width, height;
      a reversed corner pair is the ValueError. */
  function ConvertPointToBox(x1: real, y1: real, x2: real, y2: real): (r: Result<Rect, string>)
    ensures r.Failure? <==> (x2 < x1 || y2 < y1)
    ensures r.Success? ==>
      Proper(r.value) &&
      r.value.x == x1 && r.value.y == y1 && Right(r.value) == x2 && Bottom(r.value) == y2
  {
    if x2 < x1 || y2 < y1 then
      Failure("Invalid rectangle: x2 must be >= x1 and y2 must be >= y1")
    else
      Success(Rect(x1, y1, x2 - x1, y2 - y1))
  }

  /** check_overlap: false only when one rectangle lies strictly left of,
      right of, above or below the other, so a shared edge or corner counts
      as overlap. */
  function CheckOverlap(cell: Rect, box: Rect): (r: bool)
    ensures !r <==>
      Right(cell) < box.x || Right(box) < cell.x || Bottom(cell) < box.y || Bottom(box) < cell.y
  {
    if Right(cell) < box.x || Right(box) < cell.x then false
    else if Right(box) < cell.x || Right(cell) < box.x then false
    else if Bottom(cell) < box.y || Bottom(box) < cell.y then false
    else if Bottom(box) < cell.y || Bottom(cell) < box.y then false
    else true
  }

  /** For rectangles of non-negative size, check_overlap holds exactly when
      the closed rectangles share a point. */
  lemma CheckOverlapMeansSharedPoint(cell: Rect, box: Rect)
    requires Proper(cell) && Proper(box)
    ensures CheckOverlap(cell, box) <==>
      exists px, py :: ClosedContains(cell, px, py) && ClosedContains(box, px, py)
  {
    if CheckOverlap(cell, box) {
      var px, py := Max(cell.x, box.x), Max(cell.y, box.y);
      assert ClosedContains(cell, px, py) && ClosedContains(box, px, py);
    }
  }

  lemma CheckOverlapSymmetric(a: Rect, b: Rect)
    ensures CheckOverlap(a, b) == CheckOverlap(b, a)
  {
  }

  /** Sides of the intersection of two rectangles, as overlap_ratio computes them. */
  function InterLeft(cell: Rect, box: Rect): real { Max(cell.x, box.x) }
  function InterRight(cell: Rect, box: Rect): real { Min(Right(cell), Right(box)) }
  function InterTop(cell: Rect, box: Rect): real { Max(cell.y, box.y) }
  function InterBottom(cell: Rect, box: Rect): real { Min(Bottom(cell), Bottom(box)) }

  /** The intersection rectangle spanned by those sides. */
  function InterRect(cell: Rect, box: Rect): Rect {
    Rect(InterLeft(cell, box), InterTop(cell, box),
         InterRight(cell, box) - InterLeft(cell, box), InterBottom(cell, box) - InterTop(cell, box))
  }

  /** The intersection has positive width and positive height. */
  predicate PositiveOverlap(cell: Rect, box: Rect) {
    InterLeft(cell, box) < InterRight(cell, box) && InterTop(cell, box) < InterBottom(cell, box)
  }

  /** overlap_ratio's result `[ratio, x, y, width, height]`. */
  datatype OverlapInfo = OverlapInfo(ratio: real, rect: Rect)

  const NoOverlap := OverlapInfo(0.0, ZeroRect)

  lemma ProductBound(a: real, b: real, c: real, d: real)
    requires 0.0 < a <= c && 0.0 < b <= d
    ensures 0.0 < a * b <= c * d
  {
    assert a * b <= c * b;
    assert c * b <= c * d;
  }

  /** `part` as a percentage of `whole`. */
  function Percent(part: real, whole: real): (r: real)
    requires whole > 0.0
    ensures r * whole == 100.0 * part
    ensures 0.0 < part <= whole ==> 0.0 < r <= 100.0
  {
    var q := part / whole;
    assert q * whole == part;
    assert 0.0 < part <= whole ==> 0.0 < q <= 1.0;
    q * 100.0
  }

  /** overlap_ratio: the percentage of the cell's area covered by the box
      together with the covered rectangle, or all zeros when the intersection
      lacks positive width and height or the cell area is 0. */
  function OverlapRatio(cell: Rect, box: Rect): (r: OverlapInfo)
    ensures !PositiveOverlap(cell, box) ==> r == NoOverlap
    ensures r.ratio > 0.0 ==> CheckOverlap(cell, box) && PositiveOverlap(cell, box)
  {
    var xLeft := InterLeft(cell, box);
    var xRight := InterRight(cell, box);
    var yTop := InterTop(cell, box);
    var yBottom := InterBottom(cell, box);
    var overlap := InterRect(cell, box);
    if xRight <= xLeft || yBottom <= yTop then
      NoOverlap
    else if Area(cell) == 0.0 then
      NoOverlap
    else
      OverlapInfo(Percent(Area(overlap), Area(cell)), overlap)
  }

  lemma PositiveArea(r: Rect)
    requires r.width > 0.0 && r.height > 0.0
    ensures Area(r) > 0.0
  {
  }

  /** For a positive intersection the cell has positive area (so the
      source's zero-area guard never fires once the first guard has passed),
      the reported rectangle is the intersection, lying in both inputs, and
      the ratio is its share of the cell's area in percent, in (0, 100]. */
  lemma OverlapRatioPositive(cell: Rect, box: Rect)
    requires PositiveOverlap(cell, box)
    ensures var r := OverlapRatio(cell, box);
      cell.width > 0.0 && cell.height > 0.0 &&
      r.rect.width > 0.0 && r.rect.height > 0.0 &&
      Encloses(cell, r.rect) && Encloses(box, r.rect) &&
      r.rect.x == Max(cell.x, box.x) && r.rect.y == Max(cell.y, box.y) &&
      Right(r.rect) == Min(Right(cell), Right(box)) && Bottom(r.rect) == Min(Bottom(cell), Bottom(box)) &&
      0.0 < r.ratio <= 100.0 &&
      r.ratio * Area(cell) == 100.0 * Area(r.rect)
  {
    var i := InterRect(cell, box);
    ProductBound(i.width, i.height, cell.width, cell.height);
    PositiveArea(cell);
  }

  /** box_increasement, with the source's two-armed width and height rules. */
  function BoxIncreasement(cell: Rect, box: Rect): (r: Rect)
    ensures r.x == Min(cell.x, box.x) && r.y == Min(cell.y, box.y)
    ensures Right(r) == Max(Right(cell), Right(box))
    ensures Bottom(r) == Max(Bottom(cell), Bottom(box))
    ensures Encloses(r, cell) && Encloses(r, box)
  {
    var xNew := Min(cell.x, box.x);
    var yNew := Min(cell.y, box.y);
    var diffX := box.x - cell.x;
    var diffY := box.y - cell.y;
    var wNew :=
      if diffX > 0.0 then
        (if cell.width - Abs(diffX) > box.width then cell.width else box.width + Abs(diffX))
      else
        (if box.width - Abs(diffX) > cell.width then box.width else cell.width + Abs(diffX));
    var hNew :=
      if diffY > 0.0 then
        (if cell.height - Abs(diffY) > box.height then cell.height else box.height + Abs(diffY))
      else
        (if box.height - Abs(diffY) > cell.height then box.height else cell.height + Abs(diffY));
    Rect(xNew, yNew, wNew, hNew)
  }

  /** A growth step never shrinks the box, and leaves it as it is when the
      cell already lies inside it. */
  lemma BoxIncreasementMonotone(cell: Rect, box: Rect)
    ensures Encloses(BoxIncreasement(cell, box), box)
    ensures Encloses(box, cell) ==> BoxIncreasement(cell, box) == box
  {
    var r := BoxIncreasement(cell, box);
    if Encloses(box, cell) {
      assert r.x == box.x && r.y == box.y;
      assert r.width == Right(r) - r.x == Right(box) - box.x == box.width;
      assert r.height == Bottom(r) - r.y == Bottom(box) - box.y == box.height;
    }
  }
}
