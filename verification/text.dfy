/**
 * The Python string operations the scripts rely on, stated over `seq<char>`:
 * `str.isspace`, `str.strip`, `str.split()` (runs of whitespace),
 * `str.split(" ")[0]`, `str.splitlines()`, ASCII `lower`/`upper`, and the
 * substring test `sub in s`.
 */
module Text {
  import opened Seqs

  /** Python's `str.isspace()` for a single character. */
  predicate IsSpace(c: char) {
    || c == ' '
    || ('\t' <= c <= '\r')
    || ('\U{1C}' <= c <= '\U{1F}')
    || c == '\U{85}' || c == '\U{A0}' || c == '\U{1680}'
    || ('\U{2000}' <= c <= '\U{200A}')
    || c == '\U{2028}' || c == '\U{2029}' || c == '\U{202F}' || c == '\U{205F}' || c == '\U{3000}'
  }

  /** The line boundaries recognised by Python's `str.splitlines()`. */
  predicate IsLineBreak(c: char) {
    || c == '\n' || c == '\r' || c == '\U{0B}' || c == '\U{0C}'
    || c == '\U{1C}' || c == '\U{1D}' || c == '\U{1E}'
    || c == '\U{85}' || c == '\U{2028}' || c == '\U{2029}'
  }

  /** `sub in s` on Python strings: `sub` occurs contiguously in `s`. */
  predicate Contains(s: string, sub: string)
    decreases |s|
  {
    |sub| <= |s| && (s[..|sub|] == sub || Contains(s[1..], sub))
  }

  // ---------------------------------------------------------------------
  // strip

  /** `s.lstrip()`: drop leading whitespace. */
  function StripLeft(s: string): (r: string)
    ensures |r| <= |s| && r == s[|s| - |r|..]
    ensures forall i :: 0 <= i < |s| - |r| ==> IsSpace(s[i])
    ensures r == [] || !IsSpace(r[0])
  {
    if s != [] && IsSpace(s[0]) then
      var r := StripLeft(s[1..]);
      assert forall i :: 1 <= i < |s| ==> s[i] == s[1..][i - 1];
      r
    else s
  }

  /** `s.rstrip()`: drop trailing whitespace. */
  function StripRight(s: string): (r: string)
    ensures |r| <= |s| && r == s[..|r|]
    ensures forall i :: |r| <= i < |s| ==> IsSpace(s[i])
    ensures r == [] || !IsSpace(r[|r| - 1])
  {
    if s != [] && IsSpace(s[|s| - 1]) then
      var r := StripRight(s[..|s| - 1]);
      assert forall i :: 0 <= i < |s| - 1 ==> s[i] == s[..|s| - 1][i];
      r
    else s
  }

  /** The number of whitespace characters `s` starts with. */
  function LeadingSpace(s: string): (i: nat)
    ensures i <= |s|
    ensures forall k :: 0 <= k < i ==> IsSpace(s[k])
    ensures i < |s| ==> !IsSpace(s[i])
  {
    |s| - |StripLeft(s)|
  }

  /** Stripping both ends leaves a slice of `s` with only whitespace after it. */
  lemma StripBothSlice(s: string)
    ensures var l := StripLeft(s); var r := StripRight(l); var i := |s| - |l|;
      && i + |r| <= |s| && r == s[i..i + |r|]
      && (forall k :: i + |r| <= k < |s| ==> IsSpace(s[k]))
  {
    var l := StripLeft(s);
    var r := StripRight(l);
    var i := |s| - |l|;
    assert l == s[i..];
    assert r == l[..|r|];
    forall k | i + |r| <= k < |s| ensures IsSpace(s[k]) {
      assert s[k] == l[k - i];
    }
  }

  /**
   * `s.strip()`: the slice of `s` between its leading and its trailing
   * whitespace; it neither begins nor ends with whitespace.
   */
  function Strip(s: string): (r: string)
    ensures LeadingSpace(s) + |r| <= |s| && r == s[LeadingSpace(s)..LeadingSpace(s) + |r|]
    ensures forall k :: LeadingSpace(s) + |r| <= k < |s| ==> IsSpace(s[k])
    ensures r == [] || (!IsSpace(r[0]) && !IsSpace(r[|r| - 1]))
  {
    var l := StripLeft(s);
    var r := StripRight(l);
    StripBothSlice(s);
    assert r == [] || r[0] == l[0];
    r
  }

  /** Stripping adds nothing: every character of the result comes from `s`. */
  lemma StripInside(s: string)
    ensures forall c :: c in Strip(s) ==> c in s
  {
    var r := Strip(s);
    var i := LeadingSpace(s);
    forall j | 0 <= j < |r| ensures r[j] in s {
      assert r[j] == s[i + j];
    }
  }

  /** Stripping loses only whitespace. */
  lemma StripKeepsText(s: string)
    ensures forall c :: c in s && !IsSpace(c) ==> c in Strip(s)
  {
    var r := Strip(s);
    var i := LeadingSpace(s);
    forall j | 0 <= j < |s| && !IsSpace(s[j]) ensures s[j] in r {
      assert i <= j < i + |r|;
      assert r[j - i] == s[j];
    }
  }

  lemma StripLeftNoop(s: string)
    requires s == [] || !IsSpace(s[0])
    ensures StripLeft(s) == s
  {
  }

  lemma StripRightNoop(s: string)
    requires s == [] || !IsSpace(s[|s| - 1])
    ensures StripRight(s) == s
  {
  }

  /** Stripping an already stripped string changes nothing. */
  lemma StripIdempotent(s: string)
    ensures Strip(Strip(s)) == Strip(s)
  {
    var t := Strip(s);
    StripLeftNoop(t);
    StripRightNoop(t);
  }

  // ---------------------------------------------------------------------
  // split(" ")[0]

  /**
   * `s.split(" ")[0]`: the text before the first space character (all of
   * `s` when it has none).
   */
  function FirstToken(s: string): (r: string)
    ensures |r| <= |s| && r == s[..|r|]
    ensures ' ' !in r
    ensures |r| < |s| ==> s[|r|] == ' '
  {
    s[..Span(s, c => c == ' ')]
  }

  // ---------------------------------------------------------------------
  // split()

  /** A whitespace-free word: what `str.split()` can produce. */
  predicate IsWord(w: string) {
    w != [] && forall c :: c in w ==> !IsSpace(c)
  }

  /**
   * `s.split()` with no separator: the maximal runs of non-whitespace
   * characters, in order; leading, trailing and repeated whitespace
   * yield no empty words.
   */
  function Words(s: string): (r: seq<string>)
    ensures forall w :: w in r ==> IsWord(w)
    ensures |r| <= |s|
    decreases |s|
  {
    if s == [] then []
    else if IsSpace(s[0]) then Words(s[1..])
    else
      var k := Span(s, IsSpace);
      [s[..k]] + Words(s[k..])
  }

  /** A non-empty string without whitespace is one word. */
  lemma SingleWord(w: string)
    requires IsWord(w)
    ensures Words(w) == [w]
  {
    var k := Span(w, IsSpace);
    assert k == |w|;
    assert w[..k] == w && w[k..] == [];
  }

  /**
   * Whitespace always separates words: splitting `a`, a whitespace character,
   * and `b` splits `a` and `b` on their own. With `SingleWord` and
   * `WordsOfBlank` this fixes the words as the maximal whitespace-free runs.
   */
  lemma {:induction false} WordsSplitAtSpace(a: string, c: char, b: string)
    requires IsSpace(c)
    ensures Words(a + [c] + b) == Words(a) + Words(b)
    decreases |a|
  {
    var s := a + [c] + b;
    if a == [] {
      assert s == [c] + b && s[1..] == b;
    } else if IsSpace(a[0]) {
      assert s[0] == a[0] && s[1..] == a[1..] + [c] + b;
      WordsSplitAtSpace(a[1..], c, b);
    } else {
      var ka := Span(a, IsSpace);
      assert forall i :: 0 <= i < ka ==> s[i] == a[i];
      assert ka < |s| && IsSpace(s[ka]);
      SpanUnique(s, IsSpace, ka);
      assert s[..ka] == a[..ka];
      assert s[ka..] == a[ka..] + [c] + b;
      WordsSplitAtSpace(a[ka..], c, b);
    }
  }

  /** All strings of `ws`, concatenated. */
  function Concat(ws: seq<string>): string {
    if ws == [] then [] else ws[0] + Concat(ws[1..])
  }

  /**
   * Splitting loses only whitespace: the words, glued back together, are the
   * non-whitespace characters of `s` in their original order.
   */
  lemma {:induction false} WordsKeepText(s: string)
    ensures Concat(Words(s)) == Filter(s, c => !IsSpace(c))
    decreases |s|
  {
    if s == [] {
    } else if IsSpace(s[0]) {
      WordsKeepText(s[1..]);
    } else {
      var k := Span(s, IsSpace);
      assert s == s[..k] + s[k..];
      FilterAppend(s[..k], s[k..], c => !IsSpace(c));
      FilterKeepsAll(s[..k], c => !IsSpace(c));
      WordsKeepText(s[k..]);
    }
  }

  /** A string of whitespace only (including the empty string) splits into no words. */
  lemma {:induction false} WordsOfBlank(s: string)
    requires forall c :: c in s ==> IsSpace(c)
    ensures Words(s) == []
    decreases |s|
  {
    if s != [] {
      WordsOfBlank(s[1..]);
    }
  }

  // ---------------------------------------------------------------------
  // splitlines()

  /**
   * `s.splitlines()`: the lines of `s` without their line boundaries; `\r\n`
   * is one boundary, and a final boundary does not open an empty last line.
   */
  function SplitLines(s: string): (r: seq<string>)
    ensures |r| <= |s|
    ensures forall line :: line in r ==> forall c :: c in line ==> !IsLineBreak(c)
    ensures s == [] <==> r == []
    decreases |s|
  {
    if s == [] then []
    else
      var k := Span(s, IsLineBreak);
      if k == |s| then [s]
      else
        var skip := if s[k] == '\r' && k + 1 < |s| && s[k + 1] == '\n' then 2 else 1;
        [s[..k]] + SplitLines(s[k + skip..])
  }

  /** A line with no boundary in it. */
  predicate NoLineBreak(line: string) {
    forall c :: c in line ==> !IsLineBreak(c)
  }

  /** Text without a line boundary is one line. */
  lemma LastLine(a: string)
    requires a != [] && NoLineBreak(a)
    ensures SplitLines(a) == [a]
  {
    SpanUnique(a, IsLineBreak, |a|);
  }

  /** A single boundary character (not a `\r` that opens `\r\n`) ends the first line. */
  lemma LineThenRest(a: string, c: char, b: string)
    requires NoLineBreak(a) && IsLineBreak(c)
    requires c == '\r' ==> b == [] || b[0] != '\n'
    ensures SplitLines(a + [c] + b) == [a] + SplitLines(b)
  {
    var s := a + [c] + b;
    assert forall i :: 0 <= i < |a| ==> s[i] == a[i] && s[i] in a;
    SpanUnique(s, IsLineBreak, |a|);
    assert s[..|a|] == a && s[|a| + 1..] == b;
  }

  /** `\r\n` is one boundary: it ends the first line and opens no empty one. */
  lemma LineThenCrLf(a: string, b: string)
    requires NoLineBreak(a)
    ensures SplitLines(a + "\r\n" + b) == [a] + SplitLines(b)
  {
    var s := a + "\r\n" + b;
    assert forall i :: 0 <= i < |a| ==> s[i] == a[i] && s[i] in a;
    SpanUnique(s, IsLineBreak, |a|);
    assert s[..|a|] == a && s[|a| + 2..] == b;
  }

  // ---------------------------------------------------------------------
  // lower / upper (ASCII letters only)

  function LowerChar(c: char): char {
    if 'A' <= c <= 'Z' then (c as int + 32) as char else c
  }

  function UpperChar(c: char): char {
    if 'a' <= c <= 'z' then (c as int - 32) as char else c
  }

  /** `s.lower()` for ASCII letters. */
  function Lower(s: string): (r: string)
    ensures |r| == |s|
    ensures forall i :: 0 <= i < |s| ==> r[i] == LowerChar(s[i])
  {
    Map(s, LowerChar)
  }

  /** `s.upper()` for ASCII letters. */
  function Upper(s: string): (r: string)
    ensures |r| == |s|
    ensures forall i :: 0 <= i < |s| ==> r[i] == UpperChar(s[i])
  {
    Map(s, UpperChar)
  }

  /** Lower-casing forgets any earlier upper-casing. */
  lemma LowerOfUpper(s: string)
    ensures Lower(Upper(s)) == Lower(s)
  {
    assert forall i :: 0 <= i < |s| ==> LowerChar(UpperChar(s[i])) == LowerChar(s[i]);
  }

  /** Lower-casing keeps whitespace where it was. */
  lemma LowerKeepsSpace(s: string)
    ensures forall i :: 0 <= i < |s| ==> (IsSpace(Lower(s)[i]) <==> IsSpace(s[i]))
  {
  }
}
