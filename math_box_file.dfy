/** The `pdf_coor.txt` line format of core/reconstruct_text_math_box.py:
    the per-line parser of load_math_boxes and the writer of
    export_math_boxes_and_text_cells. A line is given as its whitespace
    separated tokens, each already put through `float()`: `None` is a token
    `float()` rejects. */
module MathBoxFile {
  import opened Wrappers
  import opened Geometry
  import opened Reconstruct

  /** Python's `int()` on a float: truncation toward zero. */
  function Trunc(v: real): (n: int)
    ensures v >= 0.0 ==> n as real <= v < n as real + 1.0
    ensures v < 0.0 ==> n as real - 1.0 < v <= n as real
  {
    if v >= 0.0 then v.Floor else -((-v).Floor)
  }

  lemma TruncOfInt(n: int)
    ensures Trunc(n as real) == n
  {
  }

  /** One line of load_math_boxes: skipped (None) unless it has exactly five
      tokens that all parse; otherwise the id is truncated and the corners
      become width and height. */
  function ParseLine(tokens: seq<Option<real>>): (r: Option<MathBox>)
    ensures r.Some? <==> |tokens| == 5 && forall k :: 0 <= k < 5 ==> tokens[k].Some?
    ensures r.Some? ==>
      r.value.id == Trunc(tokens[0].value) &&
      r.value.rect.x == tokens[1].value && r.value.rect.y == tokens[2].value &&
      Right(r.value.rect) == tokens[3].value && Bottom(r.value.rect) == tokens[4].value
  {
    if |tokens| != 5 then None
    else if exists k :: 0 <= k < 5 && tokens[k].None? then None
    else
      var id, xLeft, yLeft, xRight, yRight :=
        tokens[0].value, tokens[1].value, tokens[2].value, tokens[3].value, tokens[4].value;
      Some(MathBox(Trunc(id), Rect(xLeft, yLeft, xRight - xLeft, yRight - yLeft)))
  }

  /** The boxes load_math_boxes returns for the given lines, in line order. */
  function Loaded(lines: seq<seq<Option<real>>>): seq<MathBox> {
    if lines == [] then []
    else
      var p := ParseLine(lines[|lines| - 1]);
      Loaded(lines[..|lines| - 1]) + (if p.Some? then [p.value] else [])
  }

  /** Every loaded box is the parse of some line, every well-formed line gives
      a box, and no line gives more than one. */
  lemma {:induction false} LoadedMembers(lines: seq<seq<Option<real>>>)
    ensures forall b :: b in Loaded(lines) <==> exists k :: 0 <= k < |lines| && ParseLine(lines[k]) == Some(b)
    ensures |Loaded(lines)| <= |lines|
  {
    if lines != [] {
      var init := lines[..|lines| - 1];
      LoadedMembers(init);
      assert lines == init + [lines[|lines| - 1]];
    }
  }

  /** load_math_boxes after the file is opened: one pass over the lines. */
  method LoadMathBoxes(lines: seq<seq<Option<real>>>) returns (boxes: seq<MathBox>)
    ensures boxes == Loaded(lines)
  {
    boxes := [];
    for i := 0 to |lines|
      invariant boxes == Loaded(lines[..i])
    {
      assert lines[..i + 1][..i] == lines[..i];
      var parsed := ParseLine(lines[i]);
      if parsed.Some? {
        boxes := boxes + [parsed.value];
      }
    }
    assert lines[..|lines|] == lines;
  }

  /** The line export_math_boxes_and_text_cells writes: `id x y width height`. */
  function WrittenLine(b: MathBox): seq<Option<real>> {
    [Some(b.id as real), Some(b.rect.x), Some(b.rect.y), Some(b.rect.width), Some(b.rect.height)]
  }

  /** The line the loader expects: `id x_left y_left x_right y_right`. */
  function CornerLine(b: MathBox): seq<Option<real>> {
    [Some(b.id as real), Some(b.rect.x), Some(b.rect.y), Some(Right(b.rect)), Some(Bottom(b.rect))]
  }

  /** Reading back a written line treats width and height as the far corner,
      so a box that does not start at the origin is changed: box 3 at
      (12.5, 13.4) of size 37.8 x 47.2 comes back 25.3 x 33.8. */
  lemma WrittenLineMisread()
    ensures var b := MathBox(3, Rect(12.5, 13.4, 37.8, 47.2));
      ParseLine(WrittenLine(b)) == Some(MathBox(3, Rect(12.5, 13.4, 25.3, 33.8))) &&
      ParseLine(WrittenLine(b)) != Some(b)
  {
    TruncOfInt(3);
  }

  /** In general the written line reads back as the original box only when
      the box starts at x = 0 and y = 0. */
  lemma WrittenLineRoundTrip(b: MathBox)
    ensures ParseLine(WrittenLine(b)) == Some(b) <==> b.rect.x == 0.0 && b.rect.y == 0.0
  {
    TruncOfInt(b.id);
  }

  /** The corner line reads back as exactly the box it was written from. */
  lemma CornerLineRoundTrip(b: MathBox)
    ensures ParseLine(CornerLine(b)) == Some(b)
  {
    TruncOfInt(b.id);
  }

  /** Writing the merged boxes in corner form and loading the lines back
      yields the same boxes in the same order. */
  lemma {:induction false} CornerFileRoundTrip(boxes: seq<MathBox>)
    ensures Loaded(seq(|boxes|, k requires 0 <= k < |boxes| => CornerLine(boxes[k]))) == boxes
  {
    var lines := seq(|boxes|, k requires 0 <= k < |boxes| => CornerLine(boxes[k]));
    if boxes != [] {
      var init := boxes[..|boxes| - 1];
      CornerFileRoundTrip(init);
      assert lines[..|lines| - 1] == seq(|init|, k requires 0 <= k < |init| => CornerLine(init[k]));
      CornerLineRoundTrip(boxes[|boxes| - 1]);
      assert boxes == init + [boxes[|boxes| - 1]];
    }
  }
}
