/** find_max_csv_field_size (core/csv_utils.py, with identical copies in
    fix_format.py, pipeline.py, ocr_my_pdf.py and fill_missing_rows.py): a
    binary search for the largest field size `csv.field_size_limit` takes
    without OverflowError. Whether a size is taken is the parameter
    `accepts`. */
module CsvLimit {

  const MinSize := 1024
  const MaxSize := 2147483647

  /** Every size below an accepted one is accepted too. */
  ghost predicate DownwardClosed(accepts: int -> bool) {
    forall a, b :: a <= b && accepts(b) ==> accepts(a)
  }

  /** The search. Whatever `accepts` is, the result lies in
      [1024, 2147483647]; it is 1024 or has been accepted; and it is the top
      of the range or the next size up has been refused, so when every size
      is taken the result is 2147483647. */
  method FindMaxCsvFieldSize(accepts: int -> bool) returns (size: int)
    ensures MinSize <= size <= MaxSize
    ensures size == MinSize || accepts(size)
    ensures size == MaxSize || !accepts(size + 1)
    ensures (forall m :: MinSize < m <= MaxSize ==> accepts(m)) ==> size == MaxSize
  {
    var hi := MaxSize;
    var lo := MinSize;
    while lo < hi
      invariant MinSize <= lo <= hi <= MaxSize
      invariant lo == MinSize || accepts(lo)
      invariant hi == MaxSize || !accepts(hi + 1)
      decreases hi - lo
    {
      var mid := (lo + hi + 1) / 2;
      assert lo < mid <= hi;
      if accepts(mid) {
        lo := mid;
      } else {
        hi := mid - 1;
      }
    }
    size := lo;
  }

  /** With downward-closed acceptance and 1024 accepted, the result is the
      largest accepted size in the range, as the comment promises. */
  lemma ResultIsLargestAccepted(accepts: int -> bool, size: int)
    requires DownwardClosed(accepts) && accepts(MinSize)
    requires MinSize <= size <= MaxSize
    requires size == MinSize || accepts(size)
    requires size == MaxSize || !accepts(size + 1)
    ensures accepts(size)
    ensures forall m :: size < m <= MaxSize ==> !accepts(m)
  {
    forall m | size < m <= MaxSize
      ensures !accepts(m)
    {
      assert size + 1 <= m && (accepts(m) ==> accepts(size + 1));
    }
  }
}
