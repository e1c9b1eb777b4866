/** The context query of core/extract_contexts.py (and its identical copy
    core/detect_context.py): the paragraph texts of the PDFPig boxes that lie
    on the same page as a PyMuPDF box and overlap it with positive area.
    Missing keys take the defaults of `dict.get`. */
module Contexts {
  import opened Wrappers
  import opened Geometry
  import opened Records

  /** The rectangle `get_contexts` reads from a box, a missing coordinate
      counting as 0. */
  function RectOrZero(r: Record): Rect {
    Rect(r.x.GetOr(0.0), r.y.GetOr(0.0), r.width.GetOr(0.0), r.height.GetOr(0.0))
  }

  /** `pdfpig_box.get("text", "")`. */
  function TextOf(r: Record): string {
    r.text.GetOr("")
  }

  /** The test of one PDFPig box: its `Page` equals the PyMuPDF box's
      `page`, and the two rectangles overlap with positive width and height. */
  predicate IsContext(pym: Record, pig: Record) {
    CapPageOf(pig) == PageOf(pym) && PositiveOverlap(RectOrZero(pym), RectOrZero(pig))
  }

  /** The list get_contexts returns. */
  function ContextsOf(pym: Record, pigs: seq<Record>): seq<string> {
    if pigs == [] then []
    else
      var p := pigs[|pigs| - 1];
      ContextsOf(pym, pigs[..|pigs| - 1]) + (if IsContext(pym, p) then [TextOf(p)] else [])
  }

  /** The contexts of a concatenation are the concatenated contexts, so the
      result follows the PDFPig order. */
  lemma {:induction false} ContextsOfAppend(pym: Record, a: seq<Record>, b: seq<Record>)
    ensures ContextsOf(pym, a + b) == ContextsOf(pym, a) + ContextsOf(pym, b)
    decreases |b|
  {
    if b == [] {
      assert a + b == a;
    } else {
      var b' := b[..|b| - 1];
      assert (a + b)[..|a + b| - 1] == a + b';
      ContextsOfAppend(pym, a, b');
    }
  }

  /** One box contributes its text (or "" when it has none) exactly when it
      passes the test; with ContextsOfAppend this determines the result. */
  lemma ContextsOfSingle(pym: Record, p: Record)
    ensures ContextsOf(pym, [p]) == (if IsContext(pym, p) then [TextOf(p)] else [])
  {
    assert [p][..0] == [];
  }

  /** The overlap test does not depend on which box is the PyMuPDF one. */
  lemma OverlapSymmetric(a: Record, b: Record)
    ensures PositiveOverlap(RectOrZero(a), RectOrZero(b)) == PositiveOverlap(RectOrZero(b), RectOrZero(a))
  {
  }

  /** Touching edges are not overlap: a PyMuPDF box of zero width or zero
      height (including one with no width or height key) has no context. */
  lemma {:induction false} FlatBoxHasNoContext(pym: Record, pigs: seq<Record>)
    requires pym.width.GetOr(0.0) == 0.0 || pym.height.GetOr(0.0) == 0.0
    ensures ContextsOf(pym, pigs) == []
  {
    if pigs != [] {
      FlatBoxHasNoContext(pym, pigs[..|pigs| - 1]);
    }
  }

  /** A PDFPig box on another page never contributes, whatever its position. */
  lemma {:induction false} OtherPageIgnored(pym: Record, pigs: seq<Record>)
    requires forall k :: 0 <= k < |pigs| ==> CapPageOf(pigs[k]) != PageOf(pym)
    ensures ContextsOf(pym, pigs) == []
  {
    if pigs != [] {
      OtherPageIgnored(pym, pigs[..|pigs| - 1]);
    }
  }

  /** get_contexts. */
  method GetContexts(pym: Record, pigs: seq<Record>) returns (contexts: seq<string>)
    ensures contexts == ContextsOf(pym, pigs)
  {
    contexts := [];
    var pymRect := RectOrZero(pym);
    var pymPage := PageOf(pym);
    for i := 0 to |pigs|
      invariant contexts == ContextsOf(pym, pigs[..i])
    {
      assert pigs[..i + 1][..i] == pigs[..i];
      var pig := pigs[i];
      if CapPageOf(pig) != pymPage {
        continue;
      }
      var pigRect := RectOrZero(pig);
      if Max(pymRect.x, pigRect.x) < Min(Right(pymRect), Right(pigRect)) &&
         Max(pymRect.y, pigRect.y) < Min(Bottom(pymRect), Bottom(pigRect)) {
        contexts := contexts + [TextOf(pig)];
      }
    }
    assert pigs[..|pigs|] == pigs;
  }

  /** get_all_contexts: a dict from each index of the PyMuPDF list, and only
      those, to that box's contexts. */
  method GetAllContexts(pyms: seq<Record>, pigs: seq<Record>) returns (all: map<int, seq<string>>)
    ensures forall i :: i in all <==> 0 <= i < |pyms|
    ensures forall i :: 0 <= i < |pyms| ==> all[i] == ContextsOf(pyms[i], pigs)
  {
    all := map[];
    for i := 0 to |pyms|
      invariant forall k :: k in all <==> 0 <= k < i
      invariant forall k :: 0 <= k < i ==> all[k] == ContextsOf(pyms[k], pigs)
    {
      var contexts := GetContexts(pyms[i], pigs);
      all := all[i := contexts];
    }
  }
}
