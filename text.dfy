/**
 * The few Foundation string operations the catalogue code relies on:
 * trimming `.whitespacesAndNewlines`, `lowercased()`, `capitalized` and the
 * `<` order on `String`. Case mapping covers ASCII letters only.
 */
module Text {

  /** Members of Foundation's `.whitespacesAndNewlines` set (Unicode White_Space). */
  predicate IsWhitespace(c: char) {
    c == ' ' || c == '\t' || c == '\n' || c == '\r' || c == '\U{000B}' || c == '\U{000C}'
    || c == '\U{0085}' || c == '\U{00A0}' || c == '\U{1680}'
    || ('\U{2000}' <= c <= '\U{200A}')
    || c == '\U{2028}' || c == '\U{2029}' || c == '\U{202F}' || c == '\U{205F}' || c == '\U{3000}'
  }

  predicate AllWhitespace(s: string) {
    forall i :: 0 <= i < |s| ==> IsWhitespace(s[i])
  }

  /** The first index at or after `i` whose character is not white space, or `|s|`. */
  function SkipLeading(s: string, i: nat): (j: nat)
    requires i <= |s|
    ensures i <= j <= |s|
    ensures forall k :: i <= k < j ==> IsWhitespace(s[k])
    ensures j < |s| ==> !IsWhitespace(s[j])
    decreases |s| - i
  {
    if i < |s| && IsWhitespace(s[i]) then SkipLeading(s, i + 1) else i
  }

  /** One past the last index before `j`, and not before `lo`, whose character is not white space, or `lo`. */
  function SkipTrailing(s: string, lo: nat, j: nat): (e: nat)
    requires lo <= j <= |s|
    ensures lo <= e <= j
    ensures forall k :: e <= k < j ==> IsWhitespace(s[k])
    ensures lo < e ==> !IsWhitespace(s[e - 1])
  {
    if lo < j && IsWhitespace(s[j - 1]) then SkipTrailing(s, lo, j - 1) else j
  }

  /** `s.trimmingCharacters(in: .whitespacesAndNewlines)` */
  function Trim(s: string): (r: string)
    ensures |r| <= |s|
    ensures r == [] <==> AllWhitespace(s)
    ensures r != [] ==> !IsWhitespace(r[0]) && !IsWhitespace(r[|r| - 1])
  {
    var start := SkipLeading(s, 0);
    var end := SkipTrailing(s, start, |s|);
    s[start..end]
  }

  /** A text without white space at either end is its own trimmed form. */
  lemma TrimmedTextUnchanged(s: string)
    requires s == [] || (!IsWhitespace(s[0]) && !IsWhitespace(s[|s| - 1]))
    ensures Trim(s) == s
  {
  }

  /**
   * Trimming removes white space at the two ends and nothing else: the
   * result is the slice of `s` between a white-space prefix and a
   * white-space suffix.
   */
  lemma TrimRemovesOnlyEnds(s: string) returns (start: nat, end: nat)
    ensures start <= end <= |s| && Trim(s) == s[start..end]
    ensures AllWhitespace(s[..start]) && AllWhitespace(s[end..])
  {
    start := SkipLeading(s, 0);
    end := SkipTrailing(s, start, |s|);
  }

  /** Trimming twice trims nothing more. */
  lemma {:induction false} TrimIdempotent(s: string)
    ensures Trim(Trim(s)) == Trim(s)
  {
    TrimmedTextUnchanged(Trim(s));
  }

  function LowerChar(c: char): char {
    if 'A' <= c <= 'Z' then (c as int + 32) as char else c
  }

  function UpperChar(c: char): char {
    if 'a' <= c <= 'z' then (c as int - 32) as char else c
  }

  /** `s.lowercased()`, restricted to ASCII letters. */
  function Lowercased(s: string): (r: string)
    ensures |r| == |s|
    ensures forall i :: 0 <= i < |s| ==> r[i] == LowerChar(s[i])
  {
    seq(|s|, i requires 0 <= i < |s| => LowerChar(s[i]))
  }

  predicate IsAsciiLetter(c: char) {
    'A' <= c <= 'Z' || 'a' <= c <= 'z'
  }

  function CapitalizedFrom(s: string, atWordStart: bool): (r: string)
    ensures |r| == |s|
  {
    if s == [] then []
    else
      var c := if atWordStart then UpperChar(s[0]) else LowerChar(s[0]);
      [c] + CapitalizedFrom(s[1..], !IsAsciiLetter(s[0]))
  }

  /**
   * `s.capitalized`: the first letter of every word upper case, every other
   * letter lower case. A word starts at the beginning and after any
   * character that is not a letter (white space, a digit, `-`, `_`), so
   * "wi-fi" becomes "Wi-Fi" and "5g-band" becomes "5G-Band".
   */
  function Capitalized(s: string): (r: string)
    ensures |r| == |s|
  {
    CapitalizedFrom(s, true)
  }

  /** A hyphen or a digit ends a word. */
  lemma CapitalizedWordStarts()
    ensures Capitalized("wi-fi") == "Wi-Fi"
    ensures Capitalized("5g") == "5G"
  {
    assert CapitalizedFrom("g", true) == "G";
    assert CapitalizedFrom("fi", true) == "Fi";
    assert CapitalizedFrom("-fi", false) == "-Fi";
  }

  lemma {:induction false} CapitalizedFromIgnoresCase(s: string, atWordStart: bool)
    ensures CapitalizedFrom(Lowercased(s), atWordStart) == CapitalizedFrom(s, atWordStart)
    decreases |s|
  {
    if s != [] {
      assert Lowercased(s)[1..] == Lowercased(s[1..]);
      assert IsAsciiLetter(Lowercased(s)[0]) == IsAsciiLetter(s[0]);
      CapitalizedFromIgnoresCase(s[1..], !IsAsciiLetter(s[0]));
    }
  }

  /** `capitalized` gives the same text for two spellings that differ only in case. */
  lemma CapitalizedIgnoresCase(a: string, b: string)
    requires Lowercased(a) == Lowercased(b)
    ensures Capitalized(a) == Capitalized(b)
  {
    CapitalizedFromIgnoresCase(a, true);
    CapitalizedFromIgnoresCase(b, true);
  }

  /** Swift's `a < b` on strings: lexicographic by character. */
  predicate Precedes(a: string, b: string)
    decreases |a|
  {
    if a == [] then b != []
    else if b == [] then false
    else if a[0] == b[0] then Precedes(a[1..], b[1..])
    else a[0] < b[0]
  }

  lemma {:induction false} PrecedesIrreflexive(a: string)
    ensures !Precedes(a, a)
    decreases |a|
  {
    if a != [] {
      PrecedesIrreflexive(a[1..]);
    }
  }

  lemma {:induction false} PrecedesTransitive(a: string, b: string, c: string)
    requires Precedes(a, b) && Precedes(b, c)
    ensures Precedes(a, c)
    decreases |a|
  {
    if a != [] && a[0] == b[0] && b[0] == c[0] {
      PrecedesTransitive(a[1..], b[1..], c[1..]);
    }
  }

  lemma {:induction false} PrecedesTotal(a: string, b: string)
    ensures a == b || Precedes(a, b) || Precedes(b, a)
    decreases |a|
  {
    if a != [] && b != [] && a[0] == b[0] {
      PrecedesTotal(a[1..], b[1..]);
      if a[1..] == b[1..] {
        assert a == [a[0]] + a[1..] && b == [b[0]] + b[1..];
      }
    }
  }

  /** `Precedes` is a strict total order, so two distinct strings are ordered one way only. */
  lemma PrecedesAsymmetric(a: string, b: string)
    requires Precedes(a, b)
    ensures !Precedes(b, a)
  {
    if Precedes(b, a) {
      PrecedesTransitive(a, b, a);
      PrecedesIrreflexive(a);
    }
  }
}
