/** Largest-first overlap suppression
    (translate-pdf-app_BACKEND/core/remove_overlapped.py): boxes are sorted
    by descending area with a stable sort, and a box is kept when it
    intersects no box kept before it. The R-tree query that finds the
    intersecting kept boxes is modelled as a scan of the kept list with
    is_overlap. */
module Suppress {
  import opened Wrappers
  import opened Seqs

  /** `Box.coords`: top-left and bottom-right corners. */
  datatype Coords = Coords(x1: real, y1: real, x2: real, y2: real)

  /** core/box.py's Box; only `coords` takes part in the suppression. */
  datatype Box = Box(id: int, coords: Coords, content: Option<string>,
                     translation: Option<string>, pageNum: Option<int>)

  /** is_overlap: identical corners always count, even for a box of zero
      area; otherwise both open intervals must overlap, so boxes that only
      share an edge do not. */
  function IsOverlap(a: Box, b: Box): (r: bool)
    ensures r <==> (a.coords == b.coords ||
      (a.coords.x1 < b.coords.x2 && b.coords.x1 < a.coords.x2 &&
       a.coords.y1 < b.coords.y2 && b.coords.y1 < a.coords.y2))
  {
    var Coords(x1, y1, x2, y2) := a.coords;
    var Coords(x3, y3, x4, y4) := b.coords;
    if x1 == x3 && x2 == x4 && y1 == y3 && y2 == y4 then true
    else x1 < x4 && x3 < x2 && y1 < y4 && y3 < y2
  }

  lemma IsOverlapSymmetric(a: Box, b: Box)
    ensures IsOverlap(a, b) == IsOverlap(b, a)
  {
  }

  /** A box always overlaps itself, and boxes sharing only an edge do not. */
  lemma IsOverlapEdges(a: Box, b: Box)
    ensures IsOverlap(a, a)
    ensures a.coords.x2 == b.coords.x1 && a.coords.x1 < a.coords.x2 ==> !IsOverlap(a, b)
  {
  }

  /** calculate_area: (x2 - x1) * (y2 - y1). */
  function CalculateArea(b: Box): real {
    (b.coords.x2 - b.coords.x1) * (b.coords.y2 - b.coords.y1)
  }

  /** The area of a box with ordered corners is non-negative, and positive
      exactly when both sides are. */
  lemma AreaOfOrderedBox(b: Box)
    requires b.coords.x1 <= b.coords.x2 && b.coords.y1 <= b.coords.y2
    ensures CalculateArea(b) >= 0.0
    ensures CalculateArea(b) > 0.0 <==> b.coords.x1 < b.coords.x2 && b.coords.y1 < b.coords.y2
  {
    var w, h := b.coords.x2 - b.coords.x1, b.coords.y2 - b.coords.y1;
    assert CalculateArea(b) == w * h;
    if w > 0.0 && h > 0.0 {
      assert w * h > 0.0;
    } else if w == 0.0 {
      assert w * h == 0.0;
    } else {
      assert h == 0.0;
      assert w * h == 0.0;
    }
  }

  // ---------------------------------------------------------------------
  // sorted(boxes, key=calculate_area, reverse=True)
  // ---------------------------------------------------------------------

  /** `s` is in descending order of `key`. */
  predicate SortedDesc(s: seq<Box>, key: Box -> real) {
    forall i, j :: 0 <= i < j < |s| ==> key(s[i]) >= key(s[j])
  }

  /** Inserts `x` after every box whose key is at least its own. */
  function InsertDesc(t: seq<Box>, x: Box, key: Box -> real): (r: seq<Box>)
    ensures multiset(r) == multiset(t) + multiset{x}
    ensures |r| == |t| + 1
  {
    if t == [] then [x]
    else if key(t[0]) < key(x) then [x] + t
    else
      assert t == [t[0]] + t[1..];
      [t[0]] + InsertDesc(t[1..], x, key)
  }

  /** Dropping the first box of a descending list keeps it descending. */
  lemma SortedTail(t: seq<Box>, key: Box -> real)
    requires t != [] && SortedDesc(t, key)
    ensures SortedDesc(t[1..], key)
  {
    var rest := t[1..];
    forall i, j | 0 <= i < j < |rest| ensures key(rest[i]) >= key(rest[j]) {
      assert rest[i] == t[i + 1] && rest[j] == t[j + 1];
    }
  }

  /** Dropping the last box of a descending list keeps it descending. */
  lemma SortedInit(t: seq<Box>, key: Box -> real)
    requires t != [] && SortedDesc(t, key)
    ensures SortedDesc(t[..|t| - 1], key)
  {
    var init := t[..|t| - 1];
    forall i, j | 0 <= i < j < |init| ensures key(init[i]) >= key(init[j]) {
      assert init[i] == t[i] && init[j] == t[j];
    }
  }

  lemma {:induction false} InsertDescSorted(t: seq<Box>, x: Box, key: Box -> real)
    requires SortedDesc(t, key)
    ensures SortedDesc(InsertDesc(t, x, key), key)
    ensures InsertDesc(t, x, key)[0] == (if t == [] || key(t[0]) < key(x) then x else t[0])
  {
    if t == [] {
    } else if key(t[0]) < key(x) {
      ConsSorted(x, t, key);
    } else {
      var rest := t[1..];
      SortedTail(t, key);
      InsertDescSorted(rest, x, key);
      var r' := InsertDesc(rest, x, key);
      forall k | 0 <= k < |r'| ensures key(t[0]) >= key(r'[k]) {
        InsertDescMember(rest, x, key, k);
        if r'[k] != x {
          var m :| 0 <= m < |rest| && rest[m] == r'[k];
          assert rest[m] == t[m + 1];
        }
      }
      ConsSorted(t[0], r', key);
    }
  }

  /** A box at least as large as every box of a descending list can go in front. */
  lemma ConsSorted(a: Box, t: seq<Box>, key: Box -> real)
    requires SortedDesc(t, key)
    requires forall k :: 0 <= k < |t| ==> key(a) >= key(t[k])
    ensures SortedDesc([a] + t, key)
  {
    var r := [a] + t;
    forall i, j | 0 <= i < j < |r| ensures key(r[i]) >= key(r[j]) {
      assert r[j] == t[j - 1];
      if i > 0 {
        assert r[i] == t[i - 1];
      }
    }
  }

  /** Every box of the inserted list is `x` or a box of `t`. */
  lemma {:induction false} InsertDescMember(t: seq<Box>, x: Box, key: Box -> real, k: nat)
    requires k < |t| + 1
    ensures var r := InsertDesc(t, x, key); r[k] == x || exists m :: 0 <= m < |t| && t[m] == r[k]
  {
    var r := InsertDesc(t, x, key);
    assert r[k] in multiset(r);
    assert r[k] in multiset(t) + multiset{x};
    if r[k] != x {
      assert r[k] in t;
    }
  }

  /** Python's stable `sorted(s, key=key, reverse=True)`: each later box is
      inserted after the earlier ones with the same key. */
  function SortDesc(s: seq<Box>, key: Box -> real): seq<Box> {
    if s == [] then [] else InsertDesc(SortDesc(s[..|s| - 1], key), s[|s| - 1], key)
  }

  /** The boxes of `s` whose key is `a`, in order. */
  function WithKey(s: seq<Box>, key: Box -> real, a: real): seq<Box> {
    if s == [] then [] else (if key(s[0]) == a then [s[0]] else []) + WithKey(s[1..], key, a)
  }

  lemma {:induction false} WithKeyAppend(p: seq<Box>, q: seq<Box>, key: Box -> real, a: real)
    ensures WithKey(p + q, key, a) == WithKey(p, key, a) + WithKey(q, key, a)
  {
    if p == [] {
      assert p + q == q;
    } else {
      var h := if key(p[0]) == a then [p[0]] else [];
      assert (p + q)[0] == p[0];
      assert (p + q)[1..] == p[1..] + q;
      WithKeyAppend(p[1..], q, key, a);
      assert WithKey(p + q, key, a) == h + WithKey(p[1..] + q, key, a);
      assert WithKey(p, key, a) == h + WithKey(p[1..], key, a);
    }
  }

  lemma {:induction false} WithKeyBelow(t: seq<Box>, key: Box -> real, a: real)
    requires SortedDesc(t, key) && (t == [] || key(t[0]) < a)
    ensures WithKey(t, key, a) == []
  {
    if t != [] {
      SortedTail(t, key);
      if |t| > 1 { assert key(t[1]) <= key(t[0]); }
      WithKeyBelow(t[1..], key, a);
    }
  }

  lemma {:induction false} WithKeyInsert(t: seq<Box>, x: Box, key: Box -> real, a: real)
    requires SortedDesc(t, key)
    ensures WithKey(InsertDesc(t, x, key), key, a) == WithKey(t, key, a) + (if key(x) == a then [x] else [])
  {
    if t == [] {
      assert WithKey([x], key, a) == (if key(x) == a then [x] else []) + WithKey([], key, a);
    } else if key(t[0]) < key(x) {
      assert InsertDesc(t, x, key) == [x] + t;
      assert ([x] + t)[1..] == t;
      if key(x) == a { WithKeyBelow(t, key, a); }
    } else {
      SortedTail(t, key);
      var r' := InsertDesc(t[1..], x, key);
      WithKeyInsert(t[1..], x, key, a);
      assert InsertDesc(t, x, key) == [t[0]] + r';
      assert ([t[0]] + r')[1..] == r';
      assert WithKey([t[0]] + r', key, a) == (if key(t[0]) == a then [t[0]] else []) + WithKey(r', key, a);
    }
  }

  lemma {:induction false} SortDescSorted(s: seq<Box>, key: Box -> real)
    ensures SortedDesc(SortDesc(s, key), key)
    ensures multiset(SortDesc(s, key)) == multiset(s)
  {
    SortDescPermutes(s, key);
    if s != [] {
      var init, x := s[..|s| - 1], s[|s| - 1];
      SortDescSorted(init, key);
      InsertDescSorted(SortDesc(init, key), x, key);
      assert SortDesc(s, key) == InsertDesc(SortDesc(init, key), x, key);
    }
  }

  lemma {:induction false} SortDescPermutes(s: seq<Box>, key: Box -> real)
    ensures multiset(SortDesc(s, key)) == multiset(s)
  {
    if s != [] {
      var init, x := s[..|s| - 1], s[|s| - 1];
      SortDescPermutes(init, key);
      assert SortDesc(s, key) == InsertDesc(SortDesc(init, key), x, key);
      assert s == init + [x];
    }
  }

  lemma {:induction false} SortDescStable(s: seq<Box>, key: Box -> real, a: real)
    ensures WithKey(SortDesc(s, key), key, a) == WithKey(s, key, a)
  {
    if s != [] {
      var init, x := s[..|s| - 1], s[|s| - 1];
      SortDescStable(init, key, a);
      SortDescSorted(init, key);
      WithKeyInsert(SortDesc(init, key), x, key, a);
      WithKeyAppend(init, [x], key, a);
      assert s == init + [x];
    }
  }

  /** The sort is descending, a permutation, and stable: the boxes sharing
      any one key keep their input order. */
  lemma SortDescCorrect(s: seq<Box>, key: Box -> real)
    ensures SortedDesc(SortDesc(s, key), key)
    ensures multiset(SortDesc(s, key)) == multiset(s)
    ensures forall a :: WithKey(SortDesc(s, key), key, a) == WithKey(s, key, a)
  {
    SortDescSorted(s, key);
    forall a ensures WithKey(SortDesc(s, key), key, a) == WithKey(s, key, a) {
      SortDescStable(s, key, a);
    }
  }

  /** The first box after inserting `x`. */
  lemma InsertDescFirst(t: seq<Box>, x: Box, key: Box -> real)
    ensures InsertDesc(t, x, key)[0] == (if t == [] || key(t[0]) < key(x) then x else t[0])
  {
  }

  lemma FirstStep(init: seq<Box>, x: Box, key: Box -> real, i0: nat, first: Box) returns (i: nat)
    requires i0 < |init|
    requires forall j :: 0 <= j < |init| ==> key(init[j]) <= key(init[i0])
    requires forall j :: 0 <= j < i0 ==> key(init[j]) < key(init[i0])
    requires first == (if key(init[i0]) < key(x) then x else init[i0])
    ensures var s := init + [x];
      i < |s| && first == s[i] &&
      (forall j :: 0 <= j < |s| ==> key(s[j]) <= key(s[i])) &&
      (forall j :: 0 <= j < i ==> key(s[j]) < key(s[i]))
  {
    var s := init + [x];
    i := if key(init[i0]) < key(x) then |init| else i0;
    forall j | 0 <= j < |s| ensures key(s[j]) <= key(s[i]) {
      if j < |init| { assert s[j] == init[j]; }
    }
    forall j | 0 <= j < i ensures key(s[j]) < key(s[i]) {
      assert s[j] == init[j];
    }
  }

  /** The first box after sorting has the largest key, and is the earliest
      box with that key. */
  lemma {:induction false} SortDescFirst(s: seq<Box>, key: Box -> real) returns (i: nat)
    requires s != []
    ensures i < |s| && SortDesc(s, key)[0] == s[i]
    ensures forall j :: 0 <= j < |s| ==> key(s[j]) <= key(s[i])
    ensures forall j :: 0 <= j < i ==> key(s[j]) < key(s[i])
  {
    var init, x := s[..|s| - 1], s[|s| - 1];
    assert s == init + [x];
    if init == [] {
      i := 0;
    } else {
      var i0 := SortDescFirst(init, key);
      var t := SortDesc(init, key);
      assert SortDesc(s, key) == InsertDesc(t, x, key);
      InsertDescFirst(t, x, key);
      i := FirstStep(init, x, key, i0, SortDesc(s, key)[0]);
    }
  }

  lemma {:induction false} InsertAtEnd(t: seq<Box>, x: Box, key: Box -> real)
    requires forall k :: 0 <= k < |t| ==> key(t[k]) >= key(x)
    ensures InsertDesc(t, x, key) == t + [x]
  {
    if t != [] {
      InsertAtEnd(t[1..], x, key);
      assert t == [t[0]] + t[1..];
    }
  }

  /** Sorting a list that is already descending changes nothing. */
  lemma {:induction false} SortDescOfSorted(s: seq<Box>, key: Box -> real)
    requires SortedDesc(s, key)
    ensures SortDesc(s, key) == s
  {
    if s != [] {
      var init, x := s[..|s| - 1], s[|s| - 1];
      SortedInit(s, key);
      SortDescOfSorted(init, key);
      assert forall k :: 0 <= k < |init| ==> key(init[k]) >= key(x) by {
        forall k | 0 <= k < |init| ensures key(init[k]) >= key(x) {
          assert init[k] == s[k];
        }
      }
      InsertAtEnd(init, x, key);
      assert SortDesc(s, key) == InsertDesc(SortDesc(init, key), x, key);
      assert s == init + [x];
    }
  }

  // ---------------------------------------------------------------------
  // The keep loop
  // ---------------------------------------------------------------------

  /** Some kept box intersects `b` (the non-empty `hits` of the query). */
  predicate HitsAny(kept: seq<Box>, b: Box) {
    exists k :: 0 <= k < |kept| && IsOverlap(kept[k], b)
  }

  /** The kept list after the loop has visited the boxes of `s` in order. */
  function Keep(s: seq<Box>): seq<Box> {
    if s == [] then []
    else
      var kept := Keep(s[..|s| - 1]);
      if HitsAny(kept, s[|s| - 1]) then kept else kept + [s[|s| - 1]]
  }

  /** remove_overlapped_boxes as a function of its input. */
  function RemoveOverlapped(boxes: seq<Box>): seq<Box> {
    Keep(SortDesc(boxes, CalculateArea))
  }

  lemma {:induction false} KeepSubseq(s: seq<Box>)
    ensures Subseq(Keep(s), s)
  {
    if s != [] {
      var init, x := s[..|s| - 1], s[|s| - 1];
      KeepSubseq(init);
      var kept := Keep(init);
      if HitsAny(kept, x) {
        SubseqExtend(kept, init, x);
      } else {
        assert (kept + [x])[..|kept|] == kept;
      }
    }
  }

  lemma {:induction false} KeepMembers(s: seq<Box>)
    ensures forall b :: b in Keep(s) ==> b in s
  {
    if s != [] {
      var init, x := s[..|s| - 1], s[|s| - 1];
      KeepMembers(init);
      assert s == init + [x];
    }
  }

  lemma {:induction false} KeepPairwise(s: seq<Box>)
    ensures forall i, j :: 0 <= i < j < |Keep(s)| ==> !IsOverlap(Keep(s)[i], Keep(s)[j])
  {
    if s != [] {
      var init, x := s[..|s| - 1], s[|s| - 1];
      KeepPairwise(init);
      var kept := Keep(init);
      if !HitsAny(kept, x) {
        forall i, j | 0 <= i < j < |kept + [x]| ensures !IsOverlap((kept + [x])[i], (kept + [x])[j]) {
          if j == |kept| {
            IsOverlapSymmetric(kept[i], x);
          }
        }
      }
    }
  }

  lemma {:induction false} KeepFirst(s: seq<Box>)
    ensures s != [] ==> Keep(s) != [] && Keep(s)[0] == s[0]
  {
    if s != [] {
      var init, x := s[..|s| - 1], s[|s| - 1];
      KeepFirst(init);
      if init == [] {
        assert Keep(init) == [];
      } else {
        assert init[0] == s[0];
      }
    }
  }

  /** When `s` is descending, every box of `s` is kept or intersects a kept
      box whose area is at least its own. */
  lemma {:induction false} KeepCovers(s: seq<Box>, key: Box -> real)
    requires SortedDesc(s, key)
    ensures forall j :: 0 <= j < |s| ==> (s[j] in Keep(s) ||
      exists k :: k in Keep(s) && IsOverlap(k, s[j]) && key(k) >= key(s[j]))
  {
    if s != [] {
      var init, x := s[..|s| - 1], s[|s| - 1];
      SortedInit(s, key);
      KeepCovers(init, key);
      KeepMembers(init);
      var kept := Keep(init);
      assert forall b :: b in kept ==> b in Keep(s);
      forall j | 0 <= j < |s| ensures s[j] in Keep(s) ||
        exists k :: k in Keep(s) && IsOverlap(k, s[j]) && key(k) >= key(s[j])
      {
        if j < |s| - 1 {
          assert s[j] == init[j];
        } else if HitsAny(kept, x) {
          var m :| 0 <= m < |kept| && IsOverlap(kept[m], x);
          assert kept[m] in init;
          var n :| 0 <= n < |init| && init[n] == kept[m];
          assert s[n] == kept[m];
        }
      }
    }
  }

  /** The kept list of a descending list is descending. */
  lemma {:induction false} KeepSorted(s: seq<Box>, key: Box -> real)
    requires SortedDesc(s, key)
    ensures SortedDesc(Keep(s), key)
  {
    if s != [] {
      var init, x := s[..|s| - 1], s[|s| - 1];
      SortedInit(s, key);
      KeepSorted(init, key);
      KeepMembers(init);
      var kept := Keep(init);
      if !HitsAny(kept, x) {
        forall i, j | 0 <= i < j < |kept + [x]|
          ensures key((kept + [x])[i]) >= key((kept + [x])[j])
        {
          if j == |kept| {
            assert kept[i] in init;
            var n :| 0 <= n < |init| && init[n] == kept[i];
            assert s[n] == kept[i];
          }
        }
      }
    }
  }

  /** A pairwise non-intersecting list keeps every box. */
  lemma {:induction false} KeepDisjoint(s: seq<Box>)
    requires forall i, j :: 0 <= i < j < |s| ==> !IsOverlap(s[i], s[j])
    ensures Keep(s) == s
  {
    if s != [] {
      var init, x := s[..|s| - 1], s[|s| - 1];
      KeepDisjoint(init);
      assert !HitsAny(init, x) by {
        forall k | 0 <= k < |init| ensures !IsOverlap(init[k], x) {
          assert init[k] == s[k];
        }
      }
      assert s == init + [x];
    }
  }

  /** What remove_overlapped_boxes promises: its result is a subsequence
      of the boxes sorted by descending area; for a non-empty input it keeps
      the largest box, the earliest one on ties; no two kept boxes
      intersect; and every input box is kept or intersects a kept box at
      least as large. */
  lemma RemoveOverlappedCorrect(boxes: seq<Box>)
    ensures var kept := RemoveOverlapped(boxes);
      Subseq(kept, SortDesc(boxes, CalculateArea)) &&
      SortedDesc(kept, CalculateArea) &&
      (forall i, j :: 0 <= i < j < |kept| ==> !IsOverlap(kept[i], kept[j])) &&
      (forall j :: 0 <= j < |boxes| ==> (boxes[j] in kept ||
        exists k :: k in kept && IsOverlap(k, boxes[j]) && CalculateArea(k) >= CalculateArea(boxes[j])))
    ensures boxes != [] ==> (exists i :: (0 <= i < |boxes| && RemoveOverlapped(boxes)[0] == boxes[i] &&
      (forall j :: 0 <= j < |boxes| ==> CalculateArea(boxes[j]) <= CalculateArea(boxes[i])) &&
      (forall j :: 0 <= j < i ==> CalculateArea(boxes[j]) < CalculateArea(boxes[i]))))
  {
    var s := SortDesc(boxes, CalculateArea);
    SortDescSorted(boxes, CalculateArea);
    KeepSubseq(s);
    KeepPairwise(s);
    KeepSorted(s, CalculateArea);
    RemoveOverlappedCovers(boxes);
    RemoveOverlappedFirst(boxes);
  }

  lemma {:induction false} RemoveOverlappedCovers(boxes: seq<Box>)
    ensures var kept := RemoveOverlapped(boxes);
      forall j :: 0 <= j < |boxes| ==> (boxes[j] in kept ||
        exists k :: k in kept && IsOverlap(k, boxes[j]) && CalculateArea(k) >= CalculateArea(boxes[j]))
  {
    var s := SortDesc(boxes, CalculateArea);
    SortDescSorted(boxes, CalculateArea);
    KeepCovers(s, CalculateArea);
    forall j | 0 <= j < |boxes| ensures exists m :: 0 <= m < |s| && s[m] == boxes[j] {
      assert boxes[j] in multiset(boxes);
      assert boxes[j] in multiset(s);
      assert boxes[j] in s;
    }
  }

  lemma {:induction false} RemoveOverlappedFirst(boxes: seq<Box>)
    ensures boxes != [] ==> (exists i :: (0 <= i < |boxes| && RemoveOverlapped(boxes)[0] == boxes[i] &&
      (forall j :: 0 <= j < |boxes| ==> CalculateArea(boxes[j]) <= CalculateArea(boxes[i])) &&
      (forall j :: 0 <= j < i ==> CalculateArea(boxes[j]) < CalculateArea(boxes[i]))))
  {
    if boxes != [] {
      var s := SortDesc(boxes, CalculateArea);
      var i := SortDescFirst(boxes, CalculateArea);
      SortDescPermutes(boxes, CalculateArea);
      assert |s| == |multiset(s)| == |multiset(boxes)| == |boxes|;
      KeepFirst(s);
      assert RemoveOverlapped(boxes)[0] == s[0] == boxes[i];
    }
  }

  /** Running the suppression on its own result returns it unchanged. */
  lemma RemoveOverlappedIdempotent(boxes: seq<Box>)
    ensures RemoveOverlapped(RemoveOverlapped(boxes)) == RemoveOverlapped(boxes)
  {
    var kept := RemoveOverlapped(boxes);
    RemoveOverlappedCorrect(boxes);
    SortDescOfSorted(kept, CalculateArea);
    KeepDisjoint(kept);
  }

  /** The query of the kept boxes, as a scan. */
  method AnyHit(kept: seq<Box>, b: Box) returns (hit: bool)
    ensures hit <==> HitsAny(kept, b)
  {
    hit := false;
    for k := 0 to |kept|
      invariant hit <==> exists m :: 0 <= m < k && IsOverlap(kept[m], b)
    {
      if IsOverlap(kept[k], b) {
        hit := true;
      }
    }
  }

  /** remove_overlapped_boxes: sort, then keep each box that intersects no
      box kept so far. */
  method RemoveOverlappedBoxes(boxes: seq<Box>) returns (kept: seq<Box>)
    ensures kept == RemoveOverlapped(boxes)
  {
    var sortedBoxes := SortDesc(boxes, CalculateArea);
    kept := [];
    for i := 0 to |sortedBoxes|
      invariant kept == Keep(sortedBoxes[..i])
    {
      assert sortedBoxes[..i + 1][..i] == sortedBoxes[..i];
      var box := sortedBoxes[i];
      var hit := AnyHit(kept, box);
      if !hit {
        kept := kept + [box];
      }
    }
    assert sortedBoxes[..|sortedBoxes|] == sortedBoxes;
  }
}
