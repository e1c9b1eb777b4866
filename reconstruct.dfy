/** The reconciliation of text cells against math boxes
    (core/reconstruct_text_math_box.py): classification of touching cells
    into consumed and partial, growth of each math box over its consumed
    cells, id numbering, the id bookkeeping of reconstruct_text_cell and the
    left-strip cut of partial cells. */
module Reconstruct {
  import opened Geometry
  import opened PyStr

  /** A text cell: the keys of the extractor's dict that the engine reads.
      `id` is whatever insert_cell_id last wrote into the dict. */
  datatype Cell = Cell(id: int, rect: Rect, text: string)

  /** A math box loaded from pdf_coor.txt; reconstruct_text_cell emits its
      merged boxes in the same shape. */
  datatype MathBox = MathBox(id: int, rect: Rect)

  /** An entry of the partial list: the cell and the overlap rectangle
      overlap_ratio reported for it. */
  datatype PartialCell = PartialCell(cell: Cell, cut: Rect)

  /** Overlap percentage above which a cell is absorbed into the math box. */
  const MergeThreshold: real := 40.0

  predicate IsConsumed(cell: Cell, box: Rect) {
    CheckOverlap(cell.rect, box) && OverlapRatio(cell.rect, box).ratio > MergeThreshold
  }

  predicate IsPartial(cell: Cell, box: Rect) {
    CheckOverlap(cell.rect, box) && !(OverlapRatio(cell.rect, box).ratio > MergeThreshold)
  }

  // ---------------------------------------------------------------------
  // Classification (get_box_overlap)
  // ---------------------------------------------------------------------

  /** The cells get_box_overlap puts in its consumed list, in cell order. */
  function Consumed(cells: seq<Cell>, box: Rect): seq<Cell> {
    if cells == [] then []
    else
      var c := cells[|cells| - 1];
      Consumed(cells[..|cells| - 1], box) + (if IsConsumed(c, box) then [c] else [])
  }

  /** The entries get_box_overlap puts in its partial list, in cell order. */
  function Partials(cells: seq<Cell>, box: Rect): seq<PartialCell> {
    if cells == [] then []
    else
      var c := cells[|cells| - 1];
      Partials(cells[..|cells| - 1], box) +
        (if IsPartial(c, box) then [PartialCell(c, OverlapRatio(c.rect, box).rect)] else [])
  }

  /** Both lists are order-preserving filters: classifying a concatenation
      concatenates the classifications. */
  lemma {:induction false} ClassifyAppend(a: seq<Cell>, b: seq<Cell>, box: Rect)
    ensures Consumed(a + b, box) == Consumed(a, box) + Consumed(b, box)
    ensures Partials(a + b, box) == Partials(a, box) + Partials(b, box)
    decreases |b|
  {
    if b == [] {
      assert a + b == a;
    } else {
      var b' := b[..|b| - 1];
      assert (a + b)[..|a + b| - 1] == a + b';
      assert (a + b)[|a + b| - 1] == b[|b| - 1];
      ClassifyAppend(a, b', box);
    }
  }

  lemma {:induction false} ConsumedMember(cells: seq<Cell>, box: Rect, c: Cell)
    ensures c in Consumed(cells, box) <==> c in cells && IsConsumed(c, box)
  {
    if cells != [] {
      var init := cells[..|cells| - 1];
      ConsumedMember(init, box, c);
      assert cells == init + [cells[|cells| - 1]];
    }
  }

  lemma {:induction false} PartialsMember(cells: seq<Cell>, box: Rect, p: PartialCell)
    ensures p in Partials(cells, box) <==>
      p.cell in cells && IsPartial(p.cell, box) && p.cut == OverlapRatio(p.cell.rect, box).rect
  {
    if cells != [] {
      var init := cells[..|cells| - 1];
      PartialsMember(init, box, p);
      assert cells == init + [cells[|cells| - 1]];
    }
  }

  lemma {:induction false} ClassifyLength(cells: seq<Cell>, box: Rect)
    ensures |Consumed(cells, box)| + |Partials(cells, box)| <= |cells|
  {
    if cells != [] { ClassifyLength(cells[..|cells| - 1], box); }
  }

  /** What lands in each list: consumed cells cover more than 40 % of their
      area with a positive intersection; every other touching cell lands in
      the partial list with its overlap rectangle, which is the zero
      rectangle for a cell that only shares an edge with the box; a cell
      that does not touch the box is in neither. */
  lemma ClassifyMembers(cells: seq<Cell>, box: Rect)
    ensures forall c :: c in Consumed(cells, box) <==> c in cells && IsConsumed(c, box)
    ensures forall p :: p in Partials(cells, box) <==>
      p.cell in cells && IsPartial(p.cell, box) && p.cut == OverlapRatio(p.cell.rect, box).rect
    ensures forall c :: c in Consumed(cells, box) ==> PositiveOverlap(c.rect, box)
    ensures forall c :: c in cells && CheckOverlap(c.rect, box) && !PositiveOverlap(c.rect, box) ==>
      PartialCell(c, ZeroRect) in Partials(cells, box)
    ensures |Consumed(cells, box)| + |Partials(cells, box)| <= |cells|
  {
    forall c ensures c in Consumed(cells, box) <==> c in cells && IsConsumed(c, box) {
      ConsumedMember(cells, box, c);
    }
    forall p ensures p in Partials(cells, box) <==>
      p.cell in cells && IsPartial(p.cell, box) && p.cut == OverlapRatio(p.cell.rect, box).rect
    {
      PartialsMember(cells, box, p);
    }
    ClassifyLength(cells, box);
  }

  /** get_box_overlap: one pass over the cells appending to the two lists;
      returns (partial, consumed) in that order. */
  method GetBoxOverlap(cells: seq<Cell>, box: Rect) returns (partial: seq<PartialCell>, consumed: seq<Cell>)
    ensures partial == Partials(cells, box)
    ensures consumed == Consumed(cells, box)
  {
    partial, consumed := [], [];
    for i := 0 to |cells|
      invariant partial == Partials(cells[..i], box)
      invariant consumed == Consumed(cells[..i], box)
    {
      var cell := cells[i];
      assert cells[..i + 1][..i] == cells[..i];
      if CheckOverlap(cell.rect, box) {
        var info := OverlapRatio(cell.rect, box);
        if info.ratio > MergeThreshold {
          consumed := consumed + [cell];
        } else {
          partial := partial + [PartialCell(cell, info.rect)];
        }
      }
    }
    assert cells[..|cells|] == cells;
  }

  // ---------------------------------------------------------------------
  // Growth (box_increasement_from_list)
  // ---------------------------------------------------------------------

  /** The accumulator of box_increasement_from_list after the listed cells. */
  function GrowAll(box: Rect, cells: seq<Cell>): Rect {
    if cells == [] then box
    else BoxIncreasement(cells[|cells| - 1].rect, GrowAll(box, cells[..|cells| - 1]))
  }

  /** The grown box is the bounding box of the start box and the cells: it
      encloses all of them, and each of its four edges is an edge of the
      start box or of one of the cells. */
  lemma {:induction false} GrowAllIsBoundingBox(box: Rect, cells: seq<Cell>)
    ensures Encloses(GrowAll(box, cells), box)
    ensures forall c :: c in cells ==> Encloses(GrowAll(box, cells), c.rect)
    ensures var g := GrowAll(box, cells);
      (g.x == box.x || exists c :: c in cells && g.x == c.rect.x) &&
      (g.y == box.y || exists c :: c in cells && g.y == c.rect.y) &&
      (Right(g) == Right(box) || exists c :: c in cells && Right(g) == Right(c.rect)) &&
      (Bottom(g) == Bottom(box) || exists c :: c in cells && Bottom(g) == Bottom(c.rect))
  {
    if cells != [] {
      var init := cells[..|cells| - 1];
      GrowAllIsBoundingBox(box, init);
      assert cells == init + [cells[|cells| - 1]];
    }
  }

  /** No step shrinks the accumulator: the grown box encloses every earlier
      accumulator value. */
  lemma {:induction false} GrowAllMonotone(box: Rect, cells: seq<Cell>, k: nat)
    requires k <= |cells|
    ensures Encloses(GrowAll(box, cells), GrowAll(box, cells[..k]))
    decreases |cells|
  {
    if k < |cells| {
      var init := cells[..|cells| - 1];
      assert init[..k] == cells[..k];
      GrowAllMonotone(box, init, k);
      BoxIncreasementMonotone(cells[|cells| - 1].rect, GrowAll(box, init));
    } else {
      assert cells[..k] == cells;
    }
  }

  /** box_increasement_from_list: the math box, grown by each listed cell in turn. */
  method BoxIncreasementFromList(overlapList: seq<Cell>, box: Rect) returns (r: Rect)
    ensures r == GrowAll(box, overlapList)
    ensures overlapList == [] ==> r == box
    ensures Encloses(r, box) && forall c :: c in overlapList ==> Encloses(r, c.rect)
  {
    r := box;
    for i := 0 to |overlapList|
      invariant r == GrowAll(box, overlapList[..i])
    {
      assert overlapList[..i + 1][..i] == overlapList[..i];
      r := BoxIncreasement(overlapList[i].rect, r);
    }
    assert overlapList[..|overlapList|] == overlapList;
    GrowAllIsBoundingBox(box, overlapList);
  }

  /** box_overlap_list: classification followed by growth over the consumed cells. */
  method BoxOverlapList(cells: seq<Cell>, box: Rect) returns (merged: Rect, partial: seq<PartialCell>, consumed: seq<Cell>)
    ensures partial == Partials(cells, box) && consumed == Consumed(cells, box)
    ensures merged == GrowAll(box, consumed)
  {
    partial, consumed := GetBoxOverlap(cells, box);
    merged := BoxIncreasementFromList(consumed, box);
  }

  // ---------------------------------------------------------------------
  // Ids (insert_cell_id) and bookkeeping (reconstruct_text_cell)
  // ---------------------------------------------------------------------

  /** The cells after insert_cell_id: numbered 1..n in list order, nothing else changed. */
  function Numbered(cells: seq<Cell>): (r: seq<Cell>)
    ensures |r| == |cells|
    ensures forall i :: 0 <= i < |r| ==> r[i].id == i + 1 && r[i].rect == cells[i].rect && r[i].text == cells[i].text
  {
    seq(|cells|, i requires 0 <= i < |cells| => cells[i].(id := i + 1))
  }

  predicate DistinctIds(cells: seq<Cell>) {
    forall j, k :: 0 <= j < |cells| && 0 <= k < |cells| && cells[j].id == cells[k].id ==> j == k
  }

  /** insert_cell_id: writes the counter 1, 2, ... into each cell in place. */
  method InsertCellId(cells: array<Cell>)
    modifies cells
    ensures cells[..] == Numbered(old(cells[..]))
    ensures DistinctIds(cells[..])
  {
    var cnt := 1;
    for i := 0 to cells.Length
      invariant cnt == i + 1
      invariant forall k :: 0 <= k < i ==> cells[k] == old(cells[k]).(id := k + 1)
      invariant forall k :: i <= k < cells.Length ==> cells[k] == old(cells[k])
    {
      cells[i] := cells[i].(id := cnt);
      cnt := cnt + 1;
    }
  }

  function Ids(cells: seq<Cell>): (r: seq<int>)
    ensures |r| == |cells| && forall i :: 0 <= i < |cells| ==> r[i] == cells[i].id
  {
    seq(|cells|, i requires 0 <= i < |cells| => cells[i].id)
  }

  function PartialIds(ps: seq<PartialCell>): (r: seq<int>)
    ensures |r| == |ps| && forall i :: 0 <= i < |ps| ==> r[i] == ps[i].cell.id
  {
    seq(|ps|, i requires 0 <= i < |ps| => ps[i].cell.id)
  }

  lemma PartialIdsAppend(a: seq<PartialCell>, b: seq<PartialCell>)
    ensures PartialIds(a + b) == PartialIds(a) + PartialIds(b)
  {
  }

  /** overlap_id_list after the loop over the math boxes. */
  function AllConsumedIds(cells: seq<Cell>, boxes: seq<MathBox>): seq<int> {
    if boxes == [] then []
    else AllConsumedIds(cells, boxes[..|boxes| - 1]) + Ids(Consumed(cells, boxes[|boxes| - 1].rect))
  }

  /** cut_cell_list after the loop over the math boxes. */
  function AllPartials(cells: seq<Cell>, boxes: seq<MathBox>): seq<PartialCell> {
    if boxes == [] then []
    else AllPartials(cells, boxes[..|boxes| - 1]) + Partials(cells, boxes[|boxes| - 1].rect)
  }

  /** The merged boxes: one per math box, same id, grown over its consumed cells. */
  function MergedBoxes(cells: seq<Cell>, boxes: seq<MathBox>): (r: seq<MathBox>)
    ensures |r| == |boxes|
  {
    if boxes == [] then []
    else
      var b := boxes[|boxes| - 1];
      MergedBoxes(cells, boxes[..|boxes| - 1]) + [MathBox(b.id, GrowAll(b.rect, Consumed(cells, b.rect)))]
  }

  /** Merged box i keeps math box i's id and is that box grown over the
      cells it consumes, each box is grown independently of the others. */
  lemma {:induction false} MergedBoxesAt(cells: seq<Cell>, boxes: seq<MathBox>, i: nat)
    requires i < |boxes|
    ensures MergedBoxes(cells, boxes)[i] == MathBox(boxes[i].id, GrowAll(boxes[i].rect, Consumed(cells, boxes[i].rect)))
  {
    var init := boxes[..|boxes| - 1];
    if i < |init| {
      MergedBoxesAt(cells, init, i);
      assert init[i] == boxes[i];
    }
  }

  /** remain_cell_list_id: ids of the cells, in cell order, found in neither list. */
  function RemainIds(cells: seq<Cell>, consumedIds: seq<int>, cutIds: seq<int>): seq<int> {
    if cells == [] then []
    else
      var c := cells[|cells| - 1];
      RemainIds(cells[..|cells| - 1], consumedIds, cutIds) +
        (if c.id !in consumedIds && c.id !in cutIds then [c.id] else [])
  }

  lemma {:induction false} ConsumedIdIn(cells: seq<Cell>, boxes: seq<MathBox>, i: nat, c: Cell)
    requires i < |boxes| && c in cells && IsConsumed(c, boxes[i].rect)
    ensures c.id in AllConsumedIds(cells, boxes)
  {
    var init := boxes[..|boxes| - 1];
    if i < |boxes| - 1 {
      assert init[i] == boxes[i];
      ConsumedIdIn(cells, init, i, c);
    } else {
      var cs := Consumed(cells, boxes[i].rect);
      ConsumedMember(cells, boxes[i].rect, c);
      var k :| 0 <= k < |cs| && cs[k] == c;
      assert Ids(cs)[k] == c.id;
    }
  }

  lemma {:induction false} ConsumedIdSource(cells: seq<Cell>, boxes: seq<MathBox>, x: int) returns (i: nat, c: Cell)
    requires x in AllConsumedIds(cells, boxes)
    ensures i < |boxes| && c in cells && c.id == x && IsConsumed(c, boxes[i].rect)
  {
    var init := boxes[..|boxes| - 1];
    var cs := Consumed(cells, boxes[|boxes| - 1].rect);
    if x in AllConsumedIds(cells, init) {
      i, c := ConsumedIdSource(cells, init, x);
      assert init[i] == boxes[i];
    } else {
      var k :| 0 <= k < |cs| && Ids(cs)[k] == x;
      i, c := |boxes| - 1, cs[k];
      ConsumedMember(cells, boxes[i].rect, c);
    }
  }

  lemma {:induction false} PartialIn(cells: seq<Cell>, boxes: seq<MathBox>, i: nat, p: PartialCell)
    requires i < |boxes| && p in Partials(cells, boxes[i].rect)
    ensures p in AllPartials(cells, boxes)
  {
    var init := boxes[..|boxes| - 1];
    if i < |boxes| - 1 {
      assert init[i] == boxes[i];
      PartialIn(cells, init, i, p);
    }
  }

  lemma {:induction false} PartialSource(cells: seq<Cell>, boxes: seq<MathBox>, p: PartialCell) returns (i: nat)
    requires p in AllPartials(cells, boxes)
    ensures i < |boxes| && p in Partials(cells, boxes[i].rect)
  {
    var init := boxes[..|boxes| - 1];
    if p in AllPartials(cells, init) {
      i := PartialSource(cells, init, p);
      assert init[i] == boxes[i];
    } else {
      i := |boxes| - 1;
    }
  }

  /** overlap_id_list holds the id of every (box, cell) pair where the box
      consumes the cell, and nothing else. */
  lemma AllConsumedIdsMembers(cells: seq<Cell>, boxes: seq<MathBox>)
    ensures forall x :: x in AllConsumedIds(cells, boxes) <==>
      exists i, c :: 0 <= i < |boxes| && c in cells && c.id == x && IsConsumed(c, boxes[i].rect)
  {
    forall x ensures x in AllConsumedIds(cells, boxes) <==>
      exists i, c :: 0 <= i < |boxes| && c in cells && c.id == x && IsConsumed(c, boxes[i].rect)
    {
      if x in AllConsumedIds(cells, boxes) {
        var i, c := ConsumedIdSource(cells, boxes, x);
      }
      if exists i, c :: 0 <= i < |boxes| && c in cells && c.id == x && IsConsumed(c, boxes[i].rect) {
        var i, c :| 0 <= i < |boxes| && c in cells && c.id == x && IsConsumed(c, boxes[i].rect);
        ConsumedIdIn(cells, boxes, i, c);
      }
    }
  }

  /** cut_cell_list holds exactly the partial entries of every math box. */
  lemma AllPartialsMembers(cells: seq<Cell>, boxes: seq<MathBox>)
    ensures forall p :: p in AllPartials(cells, boxes) <==>
      exists i :: 0 <= i < |boxes| && p in Partials(cells, boxes[i].rect)
  {
    forall p ensures p in AllPartials(cells, boxes) <==>
      exists i :: 0 <= i < |boxes| && p in Partials(cells, boxes[i].rect)
    {
      if p in AllPartials(cells, boxes) {
        var i := PartialSource(cells, boxes, p);
      }
      if exists i :: 0 <= i < |boxes| && p in Partials(cells, boxes[i].rect) {
        var i :| 0 <= i < |boxes| && p in Partials(cells, boxes[i].rect);
        PartialIn(cells, boxes, i, p);
      }
    }
  }

  lemma {:induction false} RemainIdsMember(cells: seq<Cell>, consumedIds: seq<int>, cutIds: seq<int>, x: int)
    ensures x in RemainIds(cells, consumedIds, cutIds) <==>
      x in Ids(cells) && x !in consumedIds && x !in cutIds
  {
    if cells != [] {
      var init := cells[..|cells| - 1];
      RemainIdsMember(init, consumedIds, cutIds, x);
      assert Ids(cells) == Ids(init) + [cells[|cells| - 1].id];
    }
  }

  lemma {:induction false} RemainIdsLength(cells: seq<Cell>, consumedIds: seq<int>, cutIds: seq<int>)
    ensures |RemainIds(cells, consumedIds, cutIds)| <= |cells|
  {
    if cells != [] { RemainIdsLength(cells[..|cells| - 1], consumedIds, cutIds); }
  }

  /** remain_cell_list_id holds the cell ids found in neither list, and no others. */
  lemma RemainIdsMembers(cells: seq<Cell>, consumedIds: seq<int>, cutIds: seq<int>)
    ensures forall x :: x in RemainIds(cells, consumedIds, cutIds) <==>
      x in Ids(cells) && x !in consumedIds && x !in cutIds
    ensures |RemainIds(cells, consumedIds, cutIds)| <= |cells|
  {
    forall x ensures x in RemainIds(cells, consumedIds, cutIds) <==>
      x in Ids(cells) && x !in consumedIds && x !in cutIds
    {
      RemainIdsMember(cells, consumedIds, cutIds, x);
    }
    RemainIdsLength(cells, consumedIds, cutIds);
  }

  lemma TouchedIsNotRemaining(cells: seq<Cell>, boxes: seq<MathBox>, c: Cell, i: nat)
    requires c in cells && i < |boxes| && CheckOverlap(c.rect, boxes[i].rect)
    ensures c.id in AllConsumedIds(cells, boxes) || c.id in PartialIds(AllPartials(cells, boxes))
  {
    if IsConsumed(c, boxes[i].rect) {
      ConsumedIdIn(cells, boxes, i, c);
    } else {
      var p := PartialCell(c, OverlapRatio(c.rect, boxes[i].rect).rect);
      PartialsMember(cells, boxes[i].rect, p);
      PartialIn(cells, boxes, i, p);
      var parts := AllPartials(cells, boxes);
      var k :| 0 <= k < |parts| && parts[k] == p;
      assert PartialIds(parts)[k] == c.id;
    }
  }

  lemma UntouchedIsRemaining(cells: seq<Cell>, boxes: seq<MathBox>, j: nat)
    requires DistinctIds(cells) && j < |cells|
    requires forall i :: 0 <= i < |boxes| ==> !CheckOverlap(cells[j].rect, boxes[i].rect)
    ensures cells[j].id !in AllConsumedIds(cells, boxes)
    ensures cells[j].id !in PartialIds(AllPartials(cells, boxes))
  {
    var c := cells[j];
    if c.id in AllConsumedIds(cells, boxes) {
      var i, d := ConsumedIdSource(cells, boxes, c.id);
      assert false;
    }
    var parts := AllPartials(cells, boxes);
    if c.id in PartialIds(parts) {
      var k :| 0 <= k < |parts| && PartialIds(parts)[k] == c.id;
      var i := PartialSource(cells, boxes, parts[k]);
      PartialsMember(cells, boxes[i].rect, parts[k]);
      assert false;
    }
  }

  /** With distinct ids (as insert_cell_id leaves them), a cell's id is a
      remaining id exactly when the cell touches no math box at all. */
  lemma RemainMeansUntouched(cells: seq<Cell>, boxes: seq<MathBox>, j: nat)
    requires DistinctIds(cells) && j < |cells|
    ensures cells[j].id in RemainIds(cells, AllConsumedIds(cells, boxes), PartialIds(AllPartials(cells, boxes)))
      <==> forall i :: 0 <= i < |boxes| ==> !CheckOverlap(cells[j].rect, boxes[i].rect)
  {
    var c := cells[j];
    RemainIdsMember(cells, AllConsumedIds(cells, boxes), PartialIds(AllPartials(cells, boxes)), c.id);
    assert Ids(cells)[j] == c.id;
    if exists i :: 0 <= i < |boxes| && CheckOverlap(c.rect, boxes[i].rect) {
      var i :| 0 <= i < |boxes| && CheckOverlap(c.rect, boxes[i].rect);
      TouchedIsNotRemaining(cells, boxes, c, i);
    } else {
      UntouchedIsRemaining(cells, boxes, j);
    }
  }

  /** One more math box extends each of the three lists by that box's part. */
  lemma BookkeepingStep(cells: seq<Cell>, boxes: seq<MathBox>, i: nat)
    requires i < |boxes|
    ensures var b := boxes[i];
      MergedBoxes(cells, boxes[..i + 1]) ==
        MergedBoxes(cells, boxes[..i]) + [MathBox(b.id, GrowAll(b.rect, Consumed(cells, b.rect)))] &&
      AllConsumedIds(cells, boxes[..i + 1]) == AllConsumedIds(cells, boxes[..i]) + Ids(Consumed(cells, b.rect)) &&
      AllPartials(cells, boxes[..i + 1]) == AllPartials(cells, boxes[..i]) + Partials(cells, b.rect)
  {
    var upTo := boxes[..i + 1];
    assert upTo[..i] == boxes[..i] && upTo[i] == boxes[i];
  }

  /** reconstruct_text_cell: for each math box in turn, classify the cells,
      grow the box, and extend the consumed-id and cut lists; finally collect
      the ids found in neither list. */
  method ReconstructTextCell(cells: seq<Cell>, boxes: seq<MathBox>)
    returns (merged: seq<MathBox>, overlapIds: seq<int>, cutList: seq<PartialCell>, remainIds: seq<int>)
    ensures merged == MergedBoxes(cells, boxes)
    ensures overlapIds == AllConsumedIds(cells, boxes)
    ensures cutList == AllPartials(cells, boxes)
    ensures remainIds == RemainIds(cells, overlapIds, PartialIds(cutList))
  {
    merged, overlapIds, cutList := [], [], [];
    var cutIds: seq<int> := [];
    for i := 0 to |boxes|
      invariant merged == MergedBoxes(cells, boxes[..i])
      invariant overlapIds == AllConsumedIds(cells, boxes[..i])
      invariant cutList == AllPartials(cells, boxes[..i])
      invariant cutIds == PartialIds(cutList)
    {
      var box := boxes[i];
      BookkeepingStep(cells, boxes, i);
      var mergeBox, cutBox, overlapBox := BoxOverlapList(cells, box.rect);
      if |overlapBox| > 0 {
        overlapIds := overlapIds + Ids(overlapBox);
      } else {
        assert Ids(overlapBox) == [];
      }
      if |cutBox| > 0 {
        PartialIdsAppend(cutList, cutBox);
        cutList := cutList + cutBox;
        cutIds := cutIds + PartialIds(cutBox);
      } else {
        assert cutList + cutBox == cutList;
      }
      merged := merged + [MathBox(box.id, mergeBox)];
    }
    assert boxes[..|boxes|] == boxes;
    remainIds := RemainIds(cells, overlapIds, cutIds);
  }

  /** A cell lying inside a box is covered to 100 %, so get_box_overlap
      always consumes it. */
  lemma RatioOfEnclosed(cell: Rect, box: Rect)
    requires Encloses(box, cell) && cell.width > 0.0 && cell.height > 0.0
    ensures OverlapRatio(cell, box) == OverlapInfo(100.0, cell)
    ensures CheckOverlap(cell, box)
  {
    assert InterRect(cell, box) == cell;
    PositiveArea(cell);
    PercentOfWhole(Area(cell));
  }

  lemma PercentOfWhole(a: real)
    requires a > 0.0
    ensures Percent(a, a) == 100.0
  {
  }

  lemma ClassifySingle(c: Cell, box: Rect)
    ensures Consumed([c], box) == (if IsConsumed(c, box) then [c] else [])
    ensures Partials([c], box) ==
      (if IsPartial(c, box) then [PartialCell(c, OverlapRatio(c.rect, box).rect)] else [])
  {
    assert [c][..0] == [];
  }

  lemma ConsumedTwice(c: Cell, whole: MathBox, edge: MathBox)
    requires Consumed([c], whole.rect) == [c] && Consumed([c], edge.rect) == []
    ensures AllConsumedIds([c], [whole, whole, edge]) == [c.id, c.id]
  {
    var one, two, three := [whole], [whole, whole], [whole, whole, edge];
    assert one[..0] == [] && two[..1] == one && three[..2] == two;
    assert Ids([c]) == [c.id];
    assert Ids([]) == [];
    assert AllConsumedIds([c], one) == AllConsumedIds([c], []) + Ids(Consumed([c], whole.rect)) == [c.id];
    assert AllConsumedIds([c], two) == AllConsumedIds([c], one) + Ids(Consumed([c], whole.rect)) == [c.id, c.id];
    assert AllConsumedIds([c], three) == AllConsumedIds([c], two) + Ids(Consumed([c], edge.rect));
  }

  lemma CutOnce(c: Cell, whole: MathBox, edge: MathBox)
    requires Partials([c], whole.rect) == [] && Partials([c], edge.rect) == [PartialCell(c, ZeroRect)]
    ensures AllPartials([c], [whole, whole, edge]) == [PartialCell(c, ZeroRect)]
  {
    var one, two, three := [whole], [whole, whole], [whole, whole, edge];
    assert one[..0] == [] && two[..1] == one && three[..2] == two;
    assert AllPartials([c], one) == [];
    assert AllPartials([c], two) == [];
  }

  /** A cell can be consumed by two boxes and touched along an edge by a
      third: the two id lists share ids and hold repeats. */
  lemma SharedAndRepeatedIds(c: Cell, whole: MathBox, edge: MathBox)
    requires Encloses(whole.rect, c.rect) && c.rect.width > 0.0 && c.rect.height > 0.0
    requires CheckOverlap(c.rect, edge.rect) && !PositiveOverlap(c.rect, edge.rect)
    ensures AllConsumedIds([c], [whole, whole, edge]) == [c.id, c.id]
    ensures AllPartials([c], [whole, whole, edge]) == [PartialCell(c, ZeroRect)]
    ensures PartialIds(AllPartials([c], [whole, whole, edge])) == [c.id]
  {
    RatioOfEnclosed(c.rect, whole.rect);
    ClassifySingle(c, whole.rect);
    ClassifySingle(c, edge.rect);
    ConsumedTwice(c, whole, edge);
    CutOnce(c, whole, edge);
    assert PartialIds([PartialCell(c, ZeroRect)]) == [c.id];
  }

  // ---------------------------------------------------------------------
  // The cut (cut_cells_box / get_new_cell)
  // ---------------------------------------------------------------------

  /** The text query `page.get_textbox(fitz.Rect(x1, y1, x2, y2))` on the
      document's first page, given as a function of the rectangle's corners. */
  type TextQuery = (real, real, real, real) -> string

  function QueriedText(p: PartialCell, query: TextQuery): string {
    query(p.cut.x, p.cut.y, Right(p.cut), Bottom(p.cut))
  }

  /** get_new_cell: a copy of the cell shifted right by the overlap width
      (a strip of that width leaves its left side), with every occurrence of
      the stripped queried text deleted from its text. */
  function GetNewCell(p: PartialCell, query: TextQuery): (r: Cell)
    ensures r.id == p.cell.id && r.rect.y == p.cell.rect.y && r.rect.height == p.cell.rect.height
    ensures Right(r.rect) == Right(p.cell.rect)
    ensures r.rect.x == p.cell.rect.x + p.cut.width
    ensures r.text == RemoveAll(p.cell.text, Strip(QueriedText(p, query)))
    ensures |r.text| <= |p.cell.text|
    ensures Strip(QueriedText(p, query)) == [] ==> r.text == p.cell.text
  {
    var w := p.cut.width;
    var text := QueriedText(p, query);
    RemoveAllLength(p.cell.text, Strip(text));
    Cell(p.cell.id,
         Rect(p.cell.rect.x + w, p.cell.rect.y, p.cell.rect.width - w, p.cell.rect.height),
         RemoveAll(p.cell.text, Strip(text)))
  }

  /** The cut of a partial entry keeps a strip of the cell: for a positive
      overlap the width strictly drops but stays non-negative, so the area of
      a cell with positive height strictly drops; for an edge-touching cell
      the zero rectangle leaves the geometry as it was. */
  lemma CutShrinks(cells: seq<Cell>, box: Rect, p: PartialCell, query: TextQuery)
    requires p in Partials(cells, box)
    ensures var r := GetNewCell(p, query);
      r.rect.width <= p.cell.rect.width &&
      (PositiveOverlap(p.cell.rect, box) ==>
        0.0 <= r.rect.width < p.cell.rect.width && Area(r.rect) < Area(p.cell.rect)) &&
      (!PositiveOverlap(p.cell.rect, box) ==> r.rect == p.cell.rect)
  {
    PartialsMember(cells, box, p);
    var c := p.cell.rect;
    var r := GetNewCell(p, query);
    if PositiveOverlap(c, box) {
      OverlapRatioPositive(c, box);
      AreaShrinks(r.rect, c);
    }
  }

  lemma AreaShrinks(a: Rect, b: Rect)
    requires 0.0 <= a.width < b.width && a.height == b.height > 0.0
    ensures Area(a) < Area(b)
  {
  }

  /** The cut list: entries whose cell id is not in `noCut`, cut, in order. */
  function Cuts(cutCells: seq<PartialCell>, noCut: seq<int>, query: TextQuery): seq<Cell> {
    if cutCells == [] then []
    else
      var p := cutCells[|cutCells| - 1];
      Cuts(cutCells[..|cutCells| - 1], noCut, query) +
        (if p.cell.id !in noCut then [GetNewCell(p, query)] else [])
  }

  lemma {:induction false} CutsMembers(cutCells: seq<PartialCell>, noCut: seq<int>, query: TextQuery)
    ensures forall c :: c in Cuts(cutCells, noCut, query) <==>
      exists p :: p in cutCells && p.cell.id !in noCut && c == GetNewCell(p, query)
    ensures |Cuts(cutCells, noCut, query)| <= |cutCells|
  {
    if cutCells != [] {
      var init := cutCells[..|cutCells| - 1];
      CutsMembers(init, noCut, query);
      assert cutCells == init + [cutCells[|cutCells| - 1]];
    }
  }

  /** With no entry's id in `noCut`, every entry is cut, in order. */
  lemma {:induction false} CutsWithoutSkip(cutCells: seq<PartialCell>, noCut: seq<int>, query: TextQuery)
    requires forall k :: 0 <= k < |cutCells| ==> cutCells[k].cell.id !in noCut
    ensures |Cuts(cutCells, noCut, query)| == |cutCells|
    ensures forall k :: 0 <= k < |cutCells| ==> Cuts(cutCells, noCut, query)[k] == GetNewCell(cutCells[k], query)
  {
    if cutCells != [] {
      var init := cutCells[..|cutCells| - 1];
      var last := cutCells[|cutCells| - 1];
      assert forall k :: 0 <= k < |init| ==> init[k] == cutCells[k];
      CutsWithoutSkip(init, noCut, query);
      var rest := Cuts(init, noCut, query);
      assert last.cell.id !in noCut;
      var r := rest + [GetNewCell(last, query)];
      assert Cuts(cutCells, noCut, query) == r;
      forall k | 0 <= k < |cutCells|
        ensures r[k] == GetNewCell(cutCells[k], query)
      {
        if k < |init| {
          assert r[k] == rest[k];
        }
      }
    }
  }

  /** reconstruct_text_cell_from_file passes the remaining ids as
      no_cutted_cell_id. No cut-list id is among them, so every entry of the
      cut list is cut, a cell that was also consumed included. */
  lemma FromFileCutsEveryPartial(cells: seq<Cell>, boxes: seq<MathBox>, query: TextQuery)
    ensures var cut := AllPartials(cells, boxes);
      var remain := RemainIds(cells, AllConsumedIds(cells, boxes), PartialIds(cut));
      |Cuts(cut, remain, query)| == |cut| &&
      forall k :: 0 <= k < |cut| ==> Cuts(cut, remain, query)[k] == GetNewCell(cut[k], query)
  {
    var cut := AllPartials(cells, boxes);
    var consumedIds := AllConsumedIds(cells, boxes);
    var remain := RemainIds(cells, consumedIds, PartialIds(cut));
    forall k | 0 <= k < |cut|
      ensures cut[k].cell.id !in remain
    {
      assert PartialIds(cut)[k] == cut[k].cell.id;
      RemainIdsMember(cells, consumedIds, PartialIds(cut), cut[k].cell.id);
    }
    CutsWithoutSkip(cut, remain, query);
  }

  /** cut_cells_box: skips the entries whose cell id is in no_cutted_cell_id
      and appends the cut copy of every other entry. */
  method CutCellsBox(cutCells: seq<PartialCell>, noCut: seq<int>, query: TextQuery) returns (out: seq<Cell>)
    ensures out == Cuts(cutCells, noCut, query)
  {
    out := [];
    for i := 0 to |cutCells|
      invariant out == Cuts(cutCells[..i], noCut, query)
    {
      assert cutCells[..i + 1][..i] == cutCells[..i];
      if cutCells[i].cell.id !in noCut {
        var holder := GetNewCell(cutCells[i], query);
        out := out + [holder];
      }
    }
    assert cutCells[..|cutCells|] == cutCells;
  }
}
