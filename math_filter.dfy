/** The margin containment filter of core/remove_math_boxes.py and its copy
    remove_math_boxes.py: a text box is dropped when it lies inside some math
    box on the same page, the math box being grown by a fixed margin on every
    side. A missing coordinate key is the KeyError of `box["x"]`, modelled as
    `None`. */
module MathFilter {
  import opened Wrappers
  import opened Geometry
  import opened Records
  import opened Seqs

  const MarginalErrorVertical: real := 9.0
  const MarginalErrorHorizontal: real := 9.0

  /** The rectangle of a box whose coordinates are present. */
  function RectOf(r: Record): Rect
    requires HasCoords(r)
  {
    Rect(r.x.value, r.y.value, r.width.value, r.height.value)
  }

  /** A math box grown by the margins on both sides of each axis. */
  function Grown(m: Rect): (g: Rect)
    ensures g.x == m.x - MarginalErrorHorizontal && Right(g) == Right(m) + MarginalErrorHorizontal
    ensures g.y == m.y - MarginalErrorVertical && Bottom(g) == Bottom(m) + MarginalErrorVertical
  {
    var x1 := m.x - MarginalErrorHorizontal;
    var y1 := m.y - MarginalErrorVertical;
    Rect(x1, y1, m.width + 2.0 * MarginalErrorHorizontal, m.height + 2.0 * MarginalErrorVertical)
  }

  /** is_inside_math_box: false on different pages (a missing page counts as
      1); otherwise the KeyError when a coordinate is missing, else whether
      the text box lies inside the grown math box, edges included. */
  function IsInsideMathBox(t: Record, m: Record): (r: Option<bool>)
    ensures PageOf(t) != PageOf(m) ==> r == Some(false)
    ensures PageOf(t) == PageOf(m) ==> (r.None? <==> !(HasCoords(t) && HasCoords(m)))
    ensures r == Some(true) <==>
      PageOf(t) == PageOf(m) && HasCoords(t) && HasCoords(m) && Encloses(Grown(RectOf(m)), RectOf(t))
  {
    if PageOf(t) != PageOf(m) then Some(false)
    else if !(HasCoords(t) && HasCoords(m)) then None
    else
      var x1_1 := t.x.value;
      var y1_1 := t.y.value;
      var x2_1 := x1_1 + t.width.value;
      var y2_1 := y1_1 + t.height.value;
      var x1_2 := m.x.value - MarginalErrorHorizontal;
      var y1_2 := m.y.value - MarginalErrorVertical;
      var x2_2 := x1_2 + m.width.value + 2.0 * MarginalErrorHorizontal;
      var y2_2 := y1_2 + m.height.value + 2.0 * MarginalErrorVertical;
      Some(x1_2 <= x1_1 && x2_2 >= x2_1 && y1_2 <= y1_1 && y2_2 >= y2_1)
  }

  /** Containment, not overlap: a text box crossing the left edge of the
      grown math box is not inside it, however much of it is covered. */
  lemma StraddlingIsNotInside(t: Record, m: Record)
    requires PageOf(t) == PageOf(m) && HasCoords(t) && HasCoords(m)
    requires t.x.value < m.x.value - MarginalErrorHorizontal < t.x.value + t.width.value
    ensures IsInsideMathBox(t, m) == Some(false)
  {
  }

  /** The inner loop of filter_text_boxes: scans the math boxes in order and
      stops at the first one containing the text box; a KeyError raised
      before that point ends the whole call. */
  function InsideAny(t: Record, maths: seq<Record>): (r: Option<bool>)
    ensures r == Some(false) <==> forall k :: 0 <= k < |maths| ==> IsInsideMathBox(t, maths[k]) == Some(false)
  {
    if maths == [] then Some(false)
    else
      match IsInsideMathBox(t, maths[0])
      case None => None
      case Some(true) => Some(true)
      case Some(false) =>
        var rest := InsideAny(t, maths[1..]);
        assert forall k :: 1 <= k < |maths| ==> maths[k] == maths[1..][k - 1];
        rest
  }

  /** The result of filter_text_boxes, or None when it raises KeyError. */
  function Filtered(texts: seq<Record>, maths: seq<Record>): Option<seq<Record>> {
    if texts == [] then Some([])
    else
      match Filtered(texts[..|texts| - 1], maths)
      case None => None
      case Some(init) =>
        match InsideAny(texts[|texts| - 1], maths)
        case None => None
        case Some(inside) => Some(if inside then init else init + [texts[|texts| - 1]])
  }

  /** When every test of a text box against a math box finds its keys
      (or is decided by the page), the filter raises no KeyError. */
  lemma {:induction false} FilteredDefined(texts: seq<Record>, maths: seq<Record>)
    requires forall t, m :: t in texts && m in maths ==> IsInsideMathBox(t, m).Some?
    ensures Filtered(texts, maths).Some?
  {
    if texts != [] {
      var init, t := texts[..|texts| - 1], texts[|texts| - 1];
      assert forall u :: u in init ==> u in texts;
      FilteredDefined(init, maths);
      NoKeyErrorScan(t, maths);
    }
  }

  lemma {:induction false} NoKeyErrorScan(t: Record, maths: seq<Record>)
    requires forall m :: m in maths ==> IsInsideMathBox(t, m).Some?
    ensures InsideAny(t, maths).Some?
  {
    if maths != [] {
      assert forall m :: m in maths[1..] ==> m in maths;
      NoKeyErrorScan(t, maths[1..]);
    }
  }

  lemma {:induction false} FilteredSubseq(texts: seq<Record>, maths: seq<Record>)
    requires Filtered(texts, maths).Some?
    ensures Subseq(Filtered(texts, maths).value, texts)
  {
    if texts != [] {
      var init, t := texts[..|texts| - 1], texts[|texts| - 1];
      FilteredSubseq(init, maths);
      var r := Filtered(init, maths).value;
      if InsideAny(t, maths) == Some(true) {
        SubseqExtend(r, init, t);
      } else {
        assert (r + [t])[..|r|] == r;
        assert texts == init + [t];
      }
    }
  }

  lemma {:induction false} FilteredMember(texts: seq<Record>, maths: seq<Record>, t: Record)
    requires Filtered(texts, maths).Some?
    ensures t in Filtered(texts, maths).value <==> t in texts && InsideAny(t, maths) == Some(false)
  {
    if texts != [] {
      var init, u := texts[..|texts| - 1], texts[|texts| - 1];
      FilteredMember(init, maths, t);
      assert texts == init + [u];
    }
  }

  /** When it raises no KeyError, the filter returns an order-preserving
      subsequence holding exactly the text boxes inside no math box. */
  lemma FilteredMembers(texts: seq<Record>, maths: seq<Record>)
    requires Filtered(texts, maths).Some?
    ensures Subseq(Filtered(texts, maths).value, texts)
    ensures forall t :: t in Filtered(texts, maths).value <==>
      t in texts && forall k :: 0 <= k < |maths| ==> IsInsideMathBox(t, maths[k]) == Some(false)
  {
    FilteredSubseq(texts, maths);
    forall t ensures t in Filtered(texts, maths).value <==>
      t in texts && forall k :: 0 <= k < |maths| ==> IsInsideMathBox(t, maths[k]) == Some(false)
    {
      FilteredMember(texts, maths, t);
    }
  }

  /** With no math boxes nothing is filtered out. */
  lemma {:induction false} FilteredNoMath(texts: seq<Record>)
    ensures Filtered(texts, []) == Some(texts)
  {
    if texts != [] {
      FilteredNoMath(texts[..|texts| - 1]);
      assert texts == texts[..|texts| - 1] + [texts[|texts| - 1]];
    }
  }

  /** Filtering the filtered list again with the same math boxes changes
      nothing. */
  lemma {:induction false} FilteredIdempotent(texts: seq<Record>, maths: seq<Record>)
    requires Filtered(texts, maths).Some?
    ensures Filtered(Filtered(texts, maths).value, maths) == Filtered(texts, maths)
  {
    if texts != [] {
      var init, t := texts[..|texts| - 1], texts[|texts| - 1];
      FilteredIdempotent(init, maths);
      var r := Filtered(init, maths).value;
      if InsideAny(t, maths) == Some(false) {
        assert (r + [t])[..|r|] == r;
      }
    }
  }

  /** The flag-and-break inner loop. */
  method ScanMathBoxes(t: Record, maths: seq<Record>) returns (r: Option<bool>)
    ensures r == InsideAny(t, maths)
  {
    var overlapsWithMath := false;
    var i := 0;
    while i < |maths|
      invariant 0 <= i <= |maths|
      invariant InsideAny(t, maths) == InsideAny(t, maths[i..])
      decreases |maths| - i
    {
      var inside := IsInsideMathBox(t, maths[i]);
      if inside.None? {
        return None;
      }
      if inside.value {
        overlapsWithMath := true;
        break;
      }
      assert maths[i..][1..] == maths[i + 1..];
      i := i + 1;
    }
    return Some(overlapsWithMath);
  }

  /** filter_text_boxes. */
  method FilterTextBoxes(texts: seq<Record>, maths: seq<Record>) returns (r: Option<seq<Record>>)
    ensures r == Filtered(texts, maths)
  {
    var filteredBoxes := [];
    for i := 0 to |texts|
      invariant Filtered(texts[..i], maths) == Some(filteredBoxes)
    {
      assert texts[..i + 1][..i] == texts[..i];
      var inside := ScanMathBoxes(texts[i], maths);
      if inside.None? {
        assert Filtered(texts[..i + 1], maths) == None;
        FilteredAbortsAfter(texts, maths, i + 1);
        return None;
      }
      if !inside.value {
        filteredBoxes := filteredBoxes + [texts[i]];
      }
    }
    assert texts[..|texts|] == texts;
    return Some(filteredBoxes);
  }

  /** A KeyError on a prefix is a KeyError of the whole call. */
  lemma {:induction false} FilteredAbortsAfter(texts: seq<Record>, maths: seq<Record>, n: nat)
    requires n <= |texts| && Filtered(texts[..n], maths) == None
    ensures Filtered(texts, maths) == None
    decreases |texts| - n
  {
    if n < |texts| {
      assert texts[..n + 1][..n] == texts[..n];
      FilteredAbortsAfter(texts, maths, n + 1);
    } else {
      assert texts[..n] == texts;
    }
  }
}
