/** The few Python `str` operations the modelled code relies on, stated on
    `seq<char>`: `isspace`, `strip()`, `replace(sub, '')`, `count`, and
    `split(' ')` followed by `''.join`. */
module PyStr {

  /** Python's `str.isspace` set: the characters `str.strip()` and
      `str.split()` without arguments treat as whitespace. */
  predicate IsSpace(c: char) {
    c == ' ' || c == '\t' || c == '\n' || c == '\r' ||
    c == '\U{000B}' || c == '\U{000C}' ||
    ('\U{001C}' <= c <= '\U{001F}') ||
    c == '\U{0085}' || c == '\U{00A0}' || c == '\U{1680}' ||
    ('\U{2000}' <= c <= '\U{200A}') ||
    c == '\U{2028}' || c == '\U{2029}' || c == '\U{202F}' || c == '\U{205F}' || c == '\U{3000}'
  }

  function StripLeft(s: string): (r: string)
    ensures |r| <= |s| && r == s[|s| - |r|..]
    ensures r == [] || !IsSpace(r[0])
    ensures forall k :: 0 <= k < |s| - |r| ==> IsSpace(s[k])
  {
    if s != [] && IsSpace(s[0]) then StripLeft(s[1..]) else s
  }

  function StripRight(s: string): (r: string)
    ensures |r| <= |s| && r == s[..|r|]
    ensures r == [] || !IsSpace(r[|r| - 1])
    ensures forall k :: |r| <= k < |s| ==> IsSpace(s[k])
  {
    if s != [] && IsSpace(s[|s| - 1]) then StripRight(s[..|s| - 1]) else s
  }

  /** `s.strip()`: `s` without its leading and trailing whitespace. */
  function Strip(s: string): (r: string)
    ensures |r| <= |s|
    ensures exists i, j :: StripTrims(s, r, i, j)
    ensures r == [] || (!IsSpace(r[0]) && !IsSpace(r[|r| - 1]))
  {
    var l := StripLeft(s);
    var r := StripRight(l);
    StripBoth(s, l, r);
    r
  }

  /** `r` is `s[i..j]`, and everything before `i` and from `j` on is whitespace. */
  predicate StripTrims(s: string, r: string, i: int, j: int) {
    0 <= i <= j <= |s| && r == s[i..j] &&
    (forall k :: 0 <= k < i ==> IsSpace(s[k])) && (forall k :: j <= k < |s| ==> IsSpace(s[k]))
  }

  lemma {:induction false} StripBoth(s: string, l: string, r: string)
    requires l == StripLeft(s) && r == StripRight(l)
    ensures StripTrims(s, r, |s| - |l|, |s| - |l| + |r|)
  {
    var i := |s| - |l|;
    SliceOfSuffix(s, i, |r|);
    assert r == s[i..i + |r|];
    assert forall k :: 0 <= k < i ==> IsSpace(s[k]);
    forall k | i + |r| <= k < |s|
      ensures IsSpace(s[k])
    {
      assert |r| <= k - i < |l|;
      assert IsSpace(l[k - i]);
      assert s[k] == l[k - i];
    }
  }

  lemma SliceOfSuffix(s: string, i: nat, n: nat)
    requires i <= |s| && n <= |s| - i
    ensures s[i..][..n] == s[i..i + n]
  {
  }

  /** `pat` occurs in `s` at position `i`. */
  predicate OccursAt(s: string, pat: string, i: nat) {
    i + |pat| <= |s| && s[i..i + |pat|] == pat
  }

  /** `pat in s`. */
  predicate Contains(s: string, pat: string) {
    exists i :: 0 <= i <= |s| && OccursAt(s, pat, i)
  }

  /** `s.lower()` for the ASCII letters. */
  function AsciiLower(s: string): (r: string)
    ensures |r| == |s|
    ensures forall k :: 0 <= k < |s| ==> (r[k] == s[k] <==> !('A' <= s[k] <= 'Z'))
  {
    seq(|s|, k requires 0 <= k < |s| => if 'A' <= s[k] <= 'Z' then (s[k] as int + 32) as char else s[k])
  }

  /** `s.replace(pat, '')`: the leftmost non-overlapping occurrences of `pat`
      are deleted in one left-to-right scan; an empty `pat` changes nothing. */
  function RemoveAll(s: string, pat: string): string
    decreases |s|
  {
    if pat == [] || |s| < |pat| then s
    else if s[..|pat|] == pat then RemoveAll(s[|pat|..], pat)
    else [s[0]] + RemoveAll(s[1..], pat)
  }

  /** How many occurrences `s.replace(pat, '')` deletes. */
  function RemovedCount(s: string, pat: string): nat
    decreases |s|
  {
    if pat == [] || |s| < |pat| then 0
    else if s[..|pat|] == pat then 1 + RemovedCount(s[|pat|..], pat)
    else RemovedCount(s[1..], pat)
  }

  /** Removing never lengthens the text: exactly `|pat|` characters go per
      deleted occurrence, and at least one occurrence goes whenever `pat` is
      non-empty and occurs. */
  lemma {:induction false} RemoveAllLength(s: string, pat: string)
    ensures |s| == |RemoveAll(s, pat)| + RemovedCount(s, pat) * |pat|
    ensures |RemoveAll(s, pat)| <= |s|
    ensures pat == [] ==> RemoveAll(s, pat) == s
    ensures pat != [] && (exists i: nat :: OccursAt(s, pat, i)) ==> RemovedCount(s, pat) > 0
    decreases |s|
  {
    RemoveAllCount(s, pat);
    if pat != [] && exists i: nat :: OccursAt(s, pat, i) {
      var i: nat :| OccursAt(s, pat, i);
      OccurrenceRemoved(s, pat, i);
    }
  }

  lemma {:induction false} RemoveAllCount(s: string, pat: string)
    ensures |s| == |RemoveAll(s, pat)| + RemovedCount(s, pat) * |pat|
    decreases |s|
  {
    if pat == [] || |s| < |pat| {
    } else if s[..|pat|] == pat {
      var c := RemovedCount(s[|pat|..], pat);
      RemoveAllCount(s[|pat|..], pat);
      assert RemovedCount(s, pat) == 1 + c;
      assert RemoveAll(s, pat) == RemoveAll(s[|pat|..], pat);
      MulStep(c, |pat|);
    } else {
      RemoveAllCount(s[1..], pat);
      assert RemovedCount(s, pat) == RemovedCount(s[1..], pat);
      assert |RemoveAll(s, pat)| == 1 + |RemoveAll(s[1..], pat)|;
    }
  }

  lemma MulStep(c: nat, n: nat)
    ensures (1 + c) * n == n + c * n
  {
  }

  /** An occurrence anywhere means at least one occurrence is deleted. */
  lemma {:induction false} OccurrenceRemoved(s: string, pat: string, i: nat)
    requires pat != [] && OccursAt(s, pat, i)
    ensures RemovedCount(s, pat) > 0
    decreases i
  {
    if s[..|pat|] != pat {
      assert i != 0;
      assert s[1..][i - 1..i - 1 + |pat|] == s[i..i + |pat|];
      OccurrenceRemoved(s[1..], pat, i - 1);
    }
  }

  /** A single left-to-right pass does not remove occurrences that the
      removal itself creates: "aabb".replace("ab", "") is "ab". */
  lemma RemoveAllSinglePass()
    ensures RemoveAll("aabb", "ab") == "ab"
    ensures OccursAt(RemoveAll("aabb", "ab"), "ab", 0)
  {
    assert "aabb"[..2][1] == 'a';
    assert "aabb"[1..] == "abb";
    assert "abb"[..2] == "ab";
    assert "abb"[2..] == "b";
  }

  /** Number of occurrences of the character `c` (`s.count(c)`). */
  function CountChar(s: string, c: char): (n: nat)
    ensures n <= |s|
  {
    if s == [] then 0 else (if s[0] == c then 1 else 0) + CountChar(s[1..], c)
  }

  /** The characters of `s` other than ' ', in order. */
  function NonSpaces(s: string): (r: string)
    ensures |r| <= |s|
    ensures forall k :: 0 <= k < |r| ==> r[k] != ' '
  {
    if s == [] then [] else (if s[0] == ' ' then [] else [s[0]]) + NonSpaces(s[1..])
  }

  lemma {:induction false} NonSpacesAppend(a: string, b: string)
    ensures NonSpaces(a + b) == NonSpaces(a) + NonSpaces(b)
  {
    if a != [] {
      var h := if a[0] == ' ' then [] else [a[0]];
      assert (a + b)[0] == a[0];
      assert (a + b)[1..] == a[1..] + b;
      NonSpacesAppend(a[1..], b);
      assert NonSpaces(a + b) == h + NonSpaces(a[1..] + b);
      assert NonSpaces(a) == h + NonSpaces(a[1..]);
    } else {
      assert a + b == b;
    }
  }

  lemma {:induction false} CountPlusNonSpaces(s: string)
    ensures CountChar(s, ' ') + |NonSpaces(s)| == |s|
  {
    if s != [] { CountPlusNonSpaces(s[1..]); }
  }

  /** Index of the first ' ' in `s`, or |s| when there is none. */
  function FirstSpace(s: string): (k: nat)
    ensures k <= |s|
    ensures forall j :: 0 <= j < k ==> s[j] != ' '
    ensures k < |s| ==> s[k] == ' '
  {
    if s == [] || s[0] == ' ' then 0 else 1 + FirstSpace(s[1..])
  }

  /** `s.split(' ')`: the pieces between single spaces, empty pieces
      included, so "a  b" gives ["a", "", "b"]. */
  function SplitOnSpace(s: string): (pieces: seq<string>)
    ensures |pieces| >= 1
    ensures forall k, j :: 0 <= k < |pieces| && 0 <= j < |pieces[k]| ==> pieces[k][j] != ' '
    decreases |s|
  {
    var k := FirstSpace(s);
    if k == |s| then [s] else [s[..k]] + SplitOnSpace(s[k + 1..])
  }

  /** `''.join(' ' if p == '' else p for p in pieces)`. */
  function JoinPieces(pieces: seq<string>): string {
    if pieces == [] then [] else (if pieces[0] == [] then " " else pieces[0]) + JoinPieces(pieces[1..])
  }
}
