/** The text clean-up helpers of translate-pdf-app_BACKEND/core/preprocess_text.py
    (copies in pipeline.py, ocr_my_pdf.py and fill_missing_rows.py):
    collapsing letter-spaced headings and removing control and invisible
    characters. */
module TextPrep {
  import opened PyStr
  import opened Seqs

  /** Every odd position holds a space (`all(text[i] == ' ' for i in range(1, len(text), 2))`). */
  predicate OddSpaces(text: string) {
    forall i :: 0 <= i < |text| && i % 2 == 1 ==> text[i] == ' '
  }

  /** The characters at even positions, in order. */
  function EvenChars(text: string): (r: string)
    ensures |r| == (|text| + 1) / 2
  {
    if |text| <= 1 then text else [text[0]] + EvenChars(text[2..])
  }

  lemma {:induction false} EvenCharsAt(text: string, k: nat)
    requires k < |EvenChars(text)|
    ensures EvenChars(text)[k] == text[2 * k]
  {
    if k > 0 {
      EvenCharsAt(text[2..], k - 1);
    }
  }

  /** normalize_spaced_text. */
  function NormalizeSpacedText(text: string): string {
    if |text| > 3 && OddSpaces(text) then
      EvenChars(text)
    else if |text| > 3 && ' ' in text && CountChar(text, ' ') >= (|text| - CountChar(text, ' ')) - 1 then
      JoinPieces(SplitOnSpace(text))
    else
      text
  }

  /** Text of at most three characters, or without a space, comes back as it is. */
  lemma NormalizeUnchanged(text: string)
    requires |text| <= 3 || ' ' !in text
    ensures NormalizeSpacedText(text) == text
  {
    if |text| > 3 {
      assert text[1] != ' ';
    }
  }

  /** Letter-spaced text loses its spaces: the even-indexed characters remain. */
  lemma NormalizeOddSpaces(text: string)
    requires |text| > 3 && OddSpaces(text)
    ensures var r := NormalizeSpacedText(text);
      |r| == (|text| + 1) / 2 && forall k :: 0 <= k < |r| ==> r[k] == text[2 * k]
  {
    forall k | 0 <= k < |EvenChars(text)|
      ensures EvenChars(text)[k] == text[2 * k]
    {
      EvenCharsAt(text, k);
    }
  }

  /** Otherwise, when spaces are at least the other characters less one, the
      text is split on single spaces and rejoined, each empty piece (from a
      run of spaces) standing for one space. */
  lemma NormalizeSplitJoin(text: string)
    requires |text| > 3 && !OddSpaces(text) && ' ' in text
    requires CountChar(text, ' ') >= (|text| - CountChar(text, ' ')) - 1
    ensures NormalizeSpacedText(text) == JoinPieces(SplitOnSpace(text))
  {
  }

  lemma {:induction false} EvenCharsNonSpaces(text: string)
    requires OddSpaces(text)
    ensures NonSpaces(EvenChars(text)) == NonSpaces(text)
  {
    if |text| > 1 {
      var rest := text[2..];
      assert OddSpaces(rest) by {
        forall i | 0 <= i < |rest| && i % 2 == 1
          ensures rest[i] == ' '
        {
          assert rest[i] == text[i + 2];
          assert (i + 2) % 2 == 1;
        }
      }
      EvenCharsNonSpaces(rest);
      assert text[1] == ' ';
      assert text[1..][1..] == rest;
      NonSpacesAppend([text[0]], EvenChars(rest));
    }
  }

  lemma {:induction false} SplitJoinNonSpaces(text: string)
    ensures NonSpaces(JoinPieces(SplitOnSpace(text))) == NonSpaces(text)
    decreases |text|
  {
    var k := FirstSpace(text);
    if k == |text| {
      SplitJoinNoSpace(text);
    } else {
      SplitJoinNonSpaces(text[k + 1..]);
      SplitJoinStep(text);
    }
  }

  lemma {:induction false} SplitJoinNoSpace(text: string)
    requires FirstSpace(text) == |text|
    ensures NonSpaces(JoinPieces(SplitOnSpace(text))) == NonSpaces(text)
  {
    assert SplitOnSpace(text) == [text];
    assert JoinPieces([text]) == (if text == [] then " " else text) + JoinPieces([]);
    if text == [] {
      assert NonSpaces(" ") == [] by { assert " "[1..] == []; }
    } else {
      assert JoinPieces([text]) == text;
      NoSpaceFixed(text);
    }
  }

  lemma {:induction false} SplitJoinStep(text: string)
    requires FirstSpace(text) < |text|
    requires var rest := text[FirstSpace(text) + 1..];
      NonSpaces(JoinPieces(SplitOnSpace(rest))) == NonSpaces(rest)
    ensures NonSpaces(JoinPieces(SplitOnSpace(text))) == NonSpaces(text)
  {
    var k := FirstSpace(text);
    var piece := text[..k];
    var rest := text[k + 1..];
    var head := if piece == [] then " " else piece;
    var tail := JoinPieces(SplitOnSpace(rest));
    JoinAtSpace(text);
    NonSpacesAppend(head, tail);
    HeadNonSpaces(piece);
    NonSpacesAtSpace(text);
  }

  /** Split and join at the first space: the first piece (a lone space when
      it is empty) followed by the join of the rest. */
  lemma {:induction false} JoinAtSpace(text: string)
    requires FirstSpace(text) < |text|
    ensures var k := FirstSpace(text);
      JoinPieces(SplitOnSpace(text)) ==
        (if text[..k] == [] then " " else text[..k]) + JoinPieces(SplitOnSpace(text[k + 1..]))
  {
    var k := FirstSpace(text);
    var rest := SplitOnSpace(text[k + 1..]);
    var pieces := SplitOnSpace(text);
    assert pieces == [text[..k]] + rest;
    assert pieces[0] == text[..k] && pieces[1..] == rest;
  }

  /** The first piece contributes its own characters, and a lone space none. */
  lemma {:induction false} HeadNonSpaces(piece: string)
    requires forall j :: 0 <= j < |piece| ==> piece[j] != ' '
    ensures NonSpaces(if piece == [] then " " else piece) == piece
  {
    if piece == [] {
      assert " "[1..] == [];
    } else {
      NoSpaceFixed(piece);
    }
  }

  /** The non-space characters of a text are those before its first space
      followed by those after it. */
  lemma {:induction false} NonSpacesAtSpace(text: string)
    requires FirstSpace(text) < |text|
    ensures var k := FirstSpace(text);
      NonSpaces(text) == text[..k] + NonSpaces(text[k + 1..])
  {
    var k := FirstSpace(text);
    var piece := text[..k];
    var rest := text[k + 1..];
    assert text == piece + ([' '] + rest);
    NonSpacesAppend(piece, [' '] + rest);
    NonSpacesAppend([' '], rest);
    assert NonSpaces([' ']) == [] by { assert [' '][1..] == []; }
    NoSpaceFixed(piece);
    assert NonSpaces(text) == piece + NonSpaces(rest);
  }

  lemma {:induction false} NoSpaceFixed(s: string)
    requires forall j :: 0 <= j < |s| ==> s[j] != ' '
    ensures NonSpaces(s) == s
  {
    if s != [] {
      NoSpaceFixed(s[1..]);
    }
  }

  /** Joining the split pieces is at most one character longer than the
      text, and never longer once the text has a character other than a
      space. */
  lemma {:induction false} SplitJoinLength(text: string)
    ensures |JoinPieces(SplitOnSpace(text))| <= |text| + 1
    ensures NonSpaces(text) != [] ==> |JoinPieces(SplitOnSpace(text))| <= |text|
    decreases |text|
  {
    var k := FirstSpace(text);
    var piece := text[..k];
    if k == |text| {
      assert SplitOnSpace(text) == [text];
      assert JoinPieces([text]) == (if text == [] then " " else text) + JoinPieces([]);
    } else {
      var rest := text[k + 1..];
      SplitJoinLength(rest);
      var pieces := SplitOnSpace(text);
      assert pieces[1..] == SplitOnSpace(rest);
      var head := if piece == [] then " " else piece;
      assert JoinPieces(pieces) == head + JoinPieces(SplitOnSpace(rest));
      if k == 0 && NonSpaces(text) != [] {
        assert text == [' '] + rest;
        NonSpacesAppend([' '], rest);
      }
    }
  }

  lemma {:induction false} AllSpaces(text: string)
    requires NonSpaces(text) == []
    ensures forall i :: 0 <= i < |text| ==> text[i] == ' '
  {
    if text != [] {
      NonSpacesAppend([text[0]], text[1..]);
      assert [text[0]] + text[1..] == text;
      AllSpaces(text[1..]);
      assert forall i :: 1 <= i < |text| ==> text[i] == text[1..][i - 1];
    }
  }

  /** In every branch the characters other than spaces survive, in order,
      and the result is never longer than the text. */
  lemma NormalizeKeepsLetters(text: string)
    ensures NonSpaces(NormalizeSpacedText(text)) == NonSpaces(text)
    ensures |NormalizeSpacedText(text)| <= |text|
  {
    if |text| > 3 && OddSpaces(text) {
      EvenCharsNonSpaces(text);
    } else if |text| > 3 && ' ' in text && CountChar(text, ' ') >= (|text| - CountChar(text, ' ')) - 1 {
      SplitJoinNonSpaces(text);
      SplitJoinLength(text);
      if NonSpaces(text) == [] {
        AllSpaces(text);
        assert OddSpaces(text);
      }
    }
  }

  /** A word written letter-spaced, as in headings: "FIN" becomes "F I N". */
  function Spaced(w: string): (r: string)
    ensures |w| > 0 ==> |r| == 2 * |w| - 1 && r[0] == w[0]
  {
    if |w| <= 1 then w else [w[0], ' '] + Spaced(w[1..])
  }

  lemma {:induction false} SpacedNonSpaces(w: string)
    requires ' ' !in w
    ensures NonSpaces(Spaced(w)) == w
  {
    if |w| > 1 {
      SpacedNonSpaces(w[1..]);
      NonSpacesAppend([w[0], ' '], Spaced(w[1..]));
      assert [w[0], ' '][1..][1..] == [];
      assert [w[0]] + w[1..] == w;
    } else if |w| == 1 {
      assert w[1..] == [];
    }
  }

  /** A letter and a space split off as one piece. */
  lemma SplitLetterSpace(c: char, tail: string)
    requires c != ' '
    ensures SplitOnSpace([c, ' '] + tail) == [[c]] + SplitOnSpace(tail)
  {
    var s := [c, ' '] + tail;
    assert s[1..] == [' '] + tail;
    assert FirstSpace(s[1..]) == 0;
    assert s[..1] == [c] && s[2..] == tail;
  }

  /** A leading space splits off an empty piece. */
  lemma SplitLeadingSpace(tail: string)
    ensures SplitOnSpace([' '] + tail) == [[]] + SplitOnSpace(tail)
  {
    var s := [' '] + tail;
    assert s[..0] == [] && s[1..] == tail;
  }

  lemma JoinCons(p: string, ps: seq<string>)
    ensures JoinPieces([p] + ps) == (if p == [] then " " else p) + JoinPieces(ps)
  {
    assert ([p] + ps)[1..] == ps;
  }

  /** Split and join of a letter, a space and `tail`. */
  lemma LetterStep(c: char, tail: string)
    requires c != ' '
    ensures JoinPieces(SplitOnSpace([c, ' '] + tail)) == [c] + JoinPieces(SplitOnSpace(tail))
  {
    SplitLetterSpace(c, tail);
    JoinCons([c], SplitOnSpace(tail));
  }

  lemma ConcatAssoc(a: string, b: string, c: string)
    ensures a + (b + c) == (a + b) + c
  {
  }

  /** Splitting a letter-spaced word followed by a space and `rest` yields
      its letters one piece each, then the pieces of `rest`. */
  lemma {:induction false} SpacedSplit(w: string, rest: string)
    requires w != [] && ' ' !in w
    ensures JoinPieces(SplitOnSpace(Spaced(w) + " " + rest)) == w + JoinPieces(SplitOnSpace(rest))
  {
    if |w| == 1 {
      assert Spaced(w) + " " + rest == [w[0], ' '] + rest;
      LetterStep(w[0], rest);
    } else {
      var w' := w[1..];
      assert ' ' !in w' by { assert forall k :: 0 <= k < |w'| ==> w'[k] == w[k + 1]; }
      var tail := Spaced(w') + " " + rest;
      var after := JoinPieces(SplitOnSpace(rest));
      assert Spaced(w) + " " + rest == [w[0], ' '] + tail;
      calc {
        JoinPieces(SplitOnSpace(Spaced(w) + " " + rest));
        JoinPieces(SplitOnSpace([w[0], ' '] + tail));
        { LetterStep(w[0], tail); }
        [w[0]] + JoinPieces(SplitOnSpace(tail));
        { SpacedSplit(w', rest); }
        [w[0]] + (w' + after);
        { ConcatAssoc([w[0]], w', after); assert [w[0]] + w' == w; }
        w + after;
      }
    }
  }

  /** Splitting and joining a letter-spaced word gives the word back. */
  lemma {:induction false} SpacedJoin(w: string)
    requires w != [] && ' ' !in w
    ensures JoinPieces(SplitOnSpace(Spaced(w))) == w
  {
    if |w| == 1 {
      assert FirstSpace(w[1..]) == 0;
      assert SplitOnSpace(w) == [w];
      JoinCons(w, []);
    } else {
      var tail := Spaced(w[1..]);
      assert Spaced(w) == [w[0], ' '] + tail;
      SplitLetterSpace(w[0], tail);
      JoinCons([w[0]], SplitOnSpace(tail));
      SpacedJoin(w[1..]);
      assert [w[0]] + w[1..] == w;
    }
  }

  lemma {:induction false} CountCharAppend(a: string, b: string, c: char)
    ensures CountChar(a + b, c) == CountChar(a, c) + CountChar(b, c)
  {
    if a != [] {
      assert (a + b)[1..] == a[1..] + b;
      CountCharAppend(a[1..], b, c);
    } else {
      assert a + b == b;
    }
  }

  /** A letter-spaced word has one space fewer than letters. */
  lemma {:induction false} SpacedCount(w: string)
    requires w != [] && ' ' !in w
    ensures CountChar(Spaced(w), ' ') == |w| - 1
  {
    if |w| == 1 {
      assert w[1..] == [];
    } else {
      var w' := w[1..];
      assert ' ' !in w' by { assert forall k :: 0 <= k < |w'| ==> w'[k] == w[k + 1]; }
      SpacedCount(w');
      CountCharAppend([w[0], ' '], Spaced(w'), ' ');
      assert [w[0], ' '][1..][1..] == [];
    }
  }

  /** The spaces and the letters of two letter-spaced words separated by two
      spaces are equally many. */
  lemma SpacedWordsCount(u: string, v: string)
    requires u != [] && v != [] && ' ' !in u && ' ' !in v
    ensures CountChar(Spaced(u) + "  " + Spaced(v), ' ') == |u| + |v|
  {
    SpacedCount(u);
    SpacedCount(v);
    CountCharAppend(Spaced(u), "  ", ' ');
    CountCharAppend(Spaced(u) + "  ", Spaced(v), ' ');
    assert CountChar("  ", ' ') == 2 by { assert "  "[1..][1..] == []; }
  }

  /** Split and join of two letter-spaced words separated by two spaces. */
  lemma SpacedWordsJoin(u: string, v: string)
    requires u != [] && v != [] && ' ' !in u && ' ' !in v
    ensures JoinPieces(SplitOnSpace(Spaced(u) + "  " + Spaced(v))) == u + " " + v
  {
    var rest := [' '] + Spaced(v);
    assert Spaced(u) + "  " + Spaced(v) == Spaced(u) + " " + rest;
    calc {
      JoinPieces(SplitOnSpace(Spaced(u) + " " + rest));
      { SpacedSplit(u, rest); }
      u + JoinPieces(SplitOnSpace(rest));
      { SplitLeadingSpace(Spaced(v)); }
      u + JoinPieces([[]] + SplitOnSpace(Spaced(v)));
      { JoinCons([], SplitOnSpace(Spaced(v))); }
      u + (" " + JoinPieces(SplitOnSpace(Spaced(v))));
      { SpacedJoin(v); }
      u + (" " + v);
      { ConcatAssoc(u, " ", v); }
      u + " " + v;
    }
  }

  /** Two letter-spaced words separated by two spaces, as in the heading
      "F I N A N C I A L  S T A T E M E N T S": the letter at the odd position
      after the double space rules out the first branch, spaces and letters
      are equally many, and the split and join gives the words back joined by
      one space. */
  lemma NormalizeSpacedWords(u: string, v: string)
    requires u != [] && v != [] && ' ' !in u && ' ' !in v
    ensures NormalizeSpacedText(Spaced(u) + "  " + Spaced(v)) == u + " " + v
  {
    var text := Spaced(u) + "  " + Spaced(v);
    assert text[2 * |u| + 1] == v[0] && (2 * |u| + 1) % 2 == 1;
    assert !OddSpaces(text);
    assert text[2 * |u| - 1] == ' ';
    SpacedWordsCount(u, v);
    SpacedWordsJoin(u, v);
  }

  lemma SpacedNetLoss()
    ensures Spaced("NET") == "N E T" && Spaced("LOSS") == "L O S S"
  {
  }

  /** A letter-spaced heading run through normalize_spaced_text end to end. */
  lemma NetLossHeading()
    ensures NormalizeSpacedText("N E T  L O S S") == "NET LOSS"
  {
    NormalizeSpacedWords("NET", "LOSS");
    SpacedNetLoss();
    assert "N E T  L O S S" == "N E T" + "  " + "L O S S";
    assert "NET LOSS" == "NET" + " " + "LOSS";
  }

  /** The characters clean_text deletes with `str.replace`, in table order. */
  const Replaced: seq<char> := [
    '\0', '\U{0001}', '\U{0002}', '\U{0003}', '\U{0004}', '\U{0005}', '\U{0006}', '\U{0007}',
    '\U{0014}', '\U{0015}', '\U{FFFD}', '\U{200B}', '\U{200E}', '\U{200F}', '\U{FEFF}']

  /** The final filter: code point at least 32, or newline, return or tab. */
  predicate Printable(c: char) {
    c as int >= 32 || c == '\n' || c == '\r' || c == '\t'
  }

  /** A character that survives clean_text. */
  predicate Kept(c: char) {
    Printable(c) && c !in Replaced
  }

  /** The text with the characters of `cs` removed. */
  function DropChars(s: string, cs: seq<char>): string {
    if s == [] then []
    else DropChars(s[..|s| - 1], cs) + (if s[|s| - 1] in cs then [] else [s[|s| - 1]])
  }

  /** `''.join(char for char in text if ord(char) >= 32 or char in '\n\r\t')`. */
  function KeepPrintable(s: string): string {
    if s == [] then []
    else KeepPrintable(s[..|s| - 1]) + (if Printable(s[|s| - 1]) then [s[|s| - 1]] else [])
  }

  /** What clean_text makes of a string: exactly its kept characters, in
      order. */
  function CleanedText(s: string): (r: string)
    ensures forall k :: 0 <= k < |r| ==> Kept(r[k])
    ensures |r| <= |s|
  {
    if s == [] then []
    else CleanedText(s[..|s| - 1]) + (if Kept(s[|s| - 1]) then [s[|s| - 1]] else [])
  }

  lemma {:induction false} DropCharsAppend(a: string, b: string, cs: seq<char>)
    ensures DropChars(a + b, cs) == DropChars(a, cs) + DropChars(b, cs)
    decreases |b|
  {
    if b == [] {
      assert a + b == a;
    } else {
      assert (a + b)[..|a + b| - 1] == a + b[..|b| - 1];
      DropCharsAppend(a, b[..|b| - 1], cs);
    }
  }

  /** Replacing a one-character string by '' drops that character. */
  lemma {:induction false} RemoveAllChar(s: string, c: char)
    ensures RemoveAll(s, [c]) == DropChars(s, [c])
    decreases |s|
  {
    if s != [] {
      RemoveAllChar(s[1..], c);
      DropCharsAppend([s[0]], s[1..], [c]);
      assert [s[0]] + s[1..] == s;
      assert [s[0]][..0] == [];
    }
  }

  lemma {:induction false} DropCharsTwice(s: string, cs: seq<char>, c: char)
    ensures DropChars(DropChars(s, cs), [c]) == DropChars(s, cs + [c])
  {
    if s != [] {
      var init := s[..|s| - 1];
      DropCharsTwice(init, cs, c);
      var last := if s[|s| - 1] in cs then [] else [s[|s| - 1]];
      DropCharsAppend(DropChars(init, cs), last, [c]);
      assert last == [] || last[..0] == [];
    }
  }

  lemma {:induction false} CleanedIsTwoFilters(s: string)
    ensures KeepPrintable(DropChars(s, Replaced)) == CleanedText(s)
  {
    if s != [] {
      var init := s[..|s| - 1];
      CleanedIsTwoFilters(init);
      var last := if s[|s| - 1] in Replaced then [] else [s[|s| - 1]];
      KeepPrintableAppend(DropChars(init, Replaced), last);
      assert last == [] || last[..0] == [];
    }
  }

  lemma {:induction false} KeepPrintableAppend(a: string, b: string)
    ensures KeepPrintable(a + b) == KeepPrintable(a) + KeepPrintable(b)
    decreases |b|
  {
    if b == [] {
      assert a + b == a;
    } else {
      assert (a + b)[..|a + b| - 1] == a + b[..|b| - 1];
      KeepPrintableAppend(a, b[..|b| - 1]);
    }
  }

  /** A Python value handed to clean_text: a string or anything else. */
  datatype Value<T> = Str(s: string) | NotStr(other: T)

  /** clean_text: values that are not strings come back unchanged; a string
      goes through the fifteen replacements and the control-character filter,
      which together keep exactly its kept characters. */
  method CleanText<T>(v: Value<T>) returns (r: Value<T>)
    ensures v.NotStr? ==> r == v
    ensures v.Str? ==> r == Str(CleanedText(v.s))
  {
    if !v.Str? {
      return v;
    }
    var text := v.s;
    assert Replaced[..0] == [];
    assert DropChars(v.s, []) == v.s by { DropNothing(v.s); }
    for i := 0 to |Replaced|
      invariant text == DropChars(v.s, Replaced[..i])
    {
      RemoveAllChar(text, Replaced[i]);
      DropCharsTwice(v.s, Replaced[..i], Replaced[i]);
      assert Replaced[..i] + [Replaced[i]] == Replaced[..i + 1];
      text := RemoveAll(text, [Replaced[i]]);
    }
    assert Replaced[..|Replaced|] == Replaced;
    CleanedIsTwoFilters(v.s);
    r := Str(KeepPrintable(text));
  }

  lemma {:induction false} DropNothing(s: string)
    ensures DropChars(s, []) == s
  {
    if s != [] {
      DropNothing(s[..|s| - 1]);
    }
  }

  /** The cleaned text is a subsequence of the input holding every kept
      character of it. */
  lemma {:induction false} CleanedSubseq(s: string)
    ensures Subseq(CleanedText(s), s)
    ensures forall c :: c in CleanedText(s) <==> c in s && Kept(c)
  {
    if s != [] {
      var init := s[..|s| - 1];
      CleanedSubseq(init);
      var x := s[|s| - 1];
      assert s == init + [x];
      if Kept(x) {
        assert CleanedText(s)[..|CleanedText(s)| - 1] == CleanedText(init);
      } else {
        assert CleanedText(s) == CleanedText(init);
        SubseqExtend(CleanedText(init), init, x);
      }
    }
  }

  /** Text made only of kept characters is left alone, so clean_text is
      idempotent. */
  lemma {:induction false} CleanedFixed(s: string)
    requires forall k :: 0 <= k < |s| ==> Kept(s[k])
    ensures CleanedText(s) == s
  {
    if s != [] {
      CleanedFixed(s[..|s| - 1]);
    }
  }

  lemma CleanedIdempotent(s: string)
    ensures CleanedText(CleanedText(s)) == CleanedText(s)
  {
    CleanedFixed(CleanedText(s));
  }
}
