/** The in-place list helpers of detect_bbox.py. Each row of the outer list
    is a list of numbers; rows are values here, and the outer list is an
    array whose slots are rewritten. `movedownList` and `moverightList`
    index entries 1 and 0 of every row, which raises IndexError on a row
    too short; the rows before it have then been updated already. */
module ScaleLists {
  import opened Wrappers

  /** Every entry of the row multiplied by `m`. */
  predicate IsScaled(r: seq<real>, row: seq<real>, m: real) {
    |r| == |row| && forall j :: 0 <= j < |row| ==> r[j] == row[j] * m
  }

  /** Entry `e` of the row multiplied by `m`, the others as they were. */
  predicate IsEntryScaled(r: seq<real>, row: seq<real>, e: nat, m: real) {
    e < |row| && |r| == |row| && r[e] == row[e] * m &&
    forall j :: 0 <= j < |row| && j != e ==> r[j] == row[j]
  }

  /** Multiplying by 1 keeps every row as it is. */
  lemma ScaledByOne(r: seq<real>, row: seq<real>)
    requires IsScaled(r, row, 1.0)
    ensures r == row
  {
  }

  /** multiplyList: every entry of every row is multiplied by `multiplier`;
      the number of rows and each row's length stay. */
  method MultiplyList(rows: array<seq<real>>, multiplier: real)
    modifies rows
    ensures forall i :: 0 <= i < rows.Length ==> IsScaled(rows[i], old(rows[i]), multiplier)
  {
    for i := 0 to rows.Length
      invariant forall k :: 0 <= k < i ==> IsScaled(rows[k], old(rows[k]), multiplier)
      invariant forall k :: i <= k < rows.Length ==> rows[k] == old(rows[k])
    {
      var row := rows[i];
      ghost var original := row;
      for j := 0 to |row|
        invariant |row| == |original|
        invariant forall k :: 0 <= k < j ==> row[k] == original[k] * multiplier
        invariant forall k :: j <= k < |row| ==> row[k] == original[k]
      {
        row := row[j := row[j] * multiplier];
      }
      rows[i] := row;
    }
  }

  /** The loop of movedownList (e = 1) and moverightList (e = 0). It
      succeeds exactly when every row has entry e; when it stops at a short
      row, the rows before it are updated and the rest are untouched. */
  method ScaleEntryOfRows(rows: array<seq<real>>, e: nat, m: real) returns (ok: bool)
    modifies rows
    ensures ok <==> forall i :: 0 <= i < rows.Length ==> e < |old(rows[i])|
    ensures ok ==> forall i :: 0 <= i < rows.Length ==> IsEntryScaled(rows[i], old(rows[i]), e, m)
    ensures !ok ==>
      (exists f :: 0 <= f < rows.Length && |old(rows[f])| <= e &&
        (forall i :: 0 <= i < f ==> IsEntryScaled(rows[i], old(rows[i]), e, m)) &&
        (forall i :: f <= i < rows.Length ==> rows[i] == old(rows[i])))
  {
    for i := 0 to rows.Length
      invariant forall k :: 0 <= k < i ==> IsEntryScaled(rows[k], old(rows[k]), e, m)
      invariant forall k :: i <= k < rows.Length ==> rows[k] == old(rows[k])
    {
      var row := rows[i];
      if |row| <= e {
        return false;
      }
      rows[i] := row[e := row[e] * m];
    }
    return true;
  }

  /** movedownList: entry 1 of every row is multiplied (not shifted) by `down`;
      at the first row without entry 1 it stops with the rows before it updated. */
  method MoveDownList(rows: array<seq<real>>, down: real) returns (ok: bool)
    modifies rows
    ensures ok <==> forall i :: 0 <= i < rows.Length ==> 1 < |old(rows[i])|
    ensures ok ==> forall i :: 0 <= i < rows.Length ==> IsEntryScaled(rows[i], old(rows[i]), 1, down)
    ensures !ok ==>
      (exists f :: 0 <= f < rows.Length && |old(rows[f])| <= 1 &&
        (forall i :: 0 <= i < f ==> IsEntryScaled(rows[i], old(rows[i]), 1, down)) &&
        (forall i :: f <= i < rows.Length ==> rows[i] == old(rows[i])))
  {
    ok := ScaleEntryOfRows(rows, 1, down);
  }

  /** moverightList: entry 0 of every row is multiplied by `right`; at the
      first empty row it stops with the rows before it updated. */
  method MoveRightList(rows: array<seq<real>>, right: real) returns (ok: bool)
    modifies rows
    ensures ok <==> forall i :: 0 <= i < rows.Length ==> 0 < |old(rows[i])|
    ensures ok ==> forall i :: 0 <= i < rows.Length ==> IsEntryScaled(rows[i], old(rows[i]), 0, right)
    ensures !ok ==>
      (exists f :: 0 <= f < rows.Length && |old(rows[f])| <= 0 &&
        (forall i :: 0 <= i < f ==> IsEntryScaled(rows[i], old(rows[i]), 0, right)) &&
        (forall i :: f <= i < rows.Length ==> rows[i] == old(rows[i])))
  {
    ok := ScaleEntryOfRows(rows, 0, right);
  }
}
