/**
 * Swift's numeric text conversions as the catalogue code uses them:
 * `Int(String)`, `String(Int)`, `Double(String)` and `String(Double)`.
 *
 * A finite `Double` is held exactly, as a sign, an integer part and the digits
 * of its fraction (without trailing zeros), so that parsing, rendering and the
 * tests `d < 0` and "has no fractional part" are all exact.
 */
module Numbers {
  import opened Wrappers

  const INT_MIN: int := -0x8000_0000_0000_0000
  const INT_MAX: int := 0x7FFF_FFFF_FFFF_FFFF

  /** Swift's `Int` on a 64-bit platform. */
  type Int64 = x: int | INT_MIN <= x <= INT_MAX

  type Digit = d: int | 0 <= d < 10

  predicate IsDigitChar(c: char) {
    '0' <= c <= '9'
  }

  predicate AllDigits(s: string) {
    forall i :: 0 <= i < |s| ==> IsDigitChar(s[i])
  }

  function DigitsOf(s: string): (ds: seq<Digit>)
    requires AllDigits(s)
    ensures |ds| == |s|
  {
    seq(|s|, i requires 0 <= i < |s| => s[i] as int - '0' as int)
  }

  function CharsOf(ds: seq<Digit>): (s: string)
    ensures |s| == |ds| && AllDigits(s)
  {
    seq(|ds|, i requires 0 <= i < |ds| => ('0' as int + ds[i]) as char)
  }

  lemma DigitsOfCharsOf(ds: seq<Digit>)
    ensures DigitsOf(CharsOf(ds)) == ds
  {
  }

  lemma DigitsOfConcat(a: string, b: string)
    requires AllDigits(a) && AllDigits(b)
    ensures AllDigits(a + b) && DigitsOf(a + b) == DigitsOf(a) + DigitsOf(b)
  {
  }

  /** The number a digit sequence denotes, most significant digit first. */
  function ValueOf(ds: seq<Digit>): nat {
    if ds == [] then 0 else ValueOf(ds[..|ds| - 1]) * 10 + ds[|ds| - 1]
  }

  /** Decimal text of `n` without leading zeros, as `String(n)` writes it. */
  function NatText(n: nat): (s: string)
    ensures s != [] && AllDigits(s) && ValueOf(DigitsOf(s)) == n
  {
    if n < 10 then CharsOf([n])
    else
      var prefix := NatText(n / 10);
      var s := prefix + CharsOf([n % 10]);
      DigitsOfConcat(prefix, CharsOf([n % 10]));
      assert DigitsOf(s)[..|s| - 1] == DigitsOf(prefix);
      s
  }

  /** `String(i)` for an `Int`. */
  function IntText(i: int): string {
    if i < 0 then "-" + NatText(-i) else NatText(i)
  }

  /** The length of the longest run of ASCII digits at the start of `s`. */
  function SpanDigits(s: string): (n: nat)
    ensures n <= |s| && AllDigits(s[..n])
    ensures n < |s| ==> !IsDigitChar(s[n])
  {
    if s != [] && IsDigitChar(s[0]) then
      var n := 1 + SpanDigits(s[1..]);
      assert s[..n] == [s[0]] + s[1..][..n - 1];
      n
    else 0
  }

  lemma {:induction false} SpanDigitsOfConcat(a: string, b: string)
    requires AllDigits(a)
    requires b == [] || !IsDigitChar(b[0])
    ensures SpanDigits(a + b) == |a|
  {
    if a != [] {
      assert (a + b)[1..] == a[1..] + b;
      SpanDigitsOfConcat(a[1..], b);
    }
  }

  function ApplySign(negative: bool, n: nat): int {
    if negative then -(n as int) else n
  }

  /** `Int(s)`: an optional `+` or `-` and one or more ASCII digits, in `Int`'s range. */
  function ParseInt(s: string): Option<Int64> {
    var signed := s != [] && (s[0] == '+' || s[0] == '-');
    var digits := if signed then s[1..] else s;
    if digits != [] && AllDigits(digits) then
      var v := ApplySign(signed && s[0] == '-', ValueOf(DigitsOf(digits)));
      if INT_MIN <= v <= INT_MAX then Some(v) else None
    else None
  }

  /** Reading back the text `String(i)` writes gives `i` again. */
  lemma ParseIntText(i: Int64)
    ensures ParseInt(IntText(i)) == Some(i)
  {
    var s := IntText(i);
    var n: nat := if i < 0 then -(i as int) else i;
    var digits := NatText(n);
    assert IsDigitChar(digits[0]);
    if i < 0 {
      assert s == "-" + digits && s[0] == '-';
      assert s[1..] == digits;
    } else {
      assert s == digits;
    }
    assert ApplySign(i < 0, ValueOf(DigitsOf(digits))) == i;
  }

  /** A finite `Double`: `-`? whole `.` frac, with no trailing zero in `frac`. */
  datatype Decimal = Decimal(negative: bool, whole: nat, frac: seq<Digit>)

  predicate NoTrailingZero(f: seq<Digit>) {
    f == [] || f[|f| - 1] != 0
  }

  type Double = d: Decimal | NoTrailingZero(d.frac) witness Decimal(false, 0, [])

  /** `d.truncatingRemainder(dividingBy: 1) == 0` */
  predicate IsWhole(d: Double) {
    d.frac == []
  }

  /** `d < 0`; negative zero is not below zero. */
  predicate IsNegative(d: Double) {
    d.negative && (d.whole != 0 || d.frac != [])
  }

  /** The integer a whole `Double` equals (what `Int(d)` computes when it does not trap). */
  function Truncate(d: Double): int {
    ApplySign(d.negative, d.whole)
  }

  /** `Double(i)` for an integer `i`. */
  function FromInt(i: int): (d: Double)
    ensures IsWhole(d) && Truncate(d) == i
    ensures IsNegative(d) <==> i < 0
  {
    Decimal(i < 0, if i < 0 then -i else i, [])
  }

  /**
   * `String(d)`: the integer part, a point and the fraction digits, or `.0`
   * when there are none.
   */
  function DoubleText(d: Double): string {
    (if d.negative then "-" else "")
    + NatText(d.whole) + "." + (if d.frac == [] then "0" else CharsOf(d.frac))
  }

  function StripTrailingZeros(f: seq<Digit>): (r: seq<Digit>)
    ensures NoTrailingZero(r) && |r| <= |f| && r == f[..|r|]
    ensures forall i :: |r| <= i < |f| ==> f[i] == 0
  {
    if f != [] && f[|f| - 1] == 0 then StripTrailingZeros(f[..|f| - 1]) else f
  }

  function Zeros(n: nat): (z: seq<Digit>)
    ensures |z| == n && forall i :: 0 <= i < n ==> z[i] == 0
  {
    seq(n, i => 0)
  }

  /**
   * The `Double` whose decimal digits are `ds` with the point placed after
   * the first `point` of them (`point` may lie outside `ds`).
   */
  function PlacePoint(negative: bool, ds: seq<Digit>, point: int): Double {
    if point >= |ds| then Decimal(negative, ValueOf(ds + Zeros(point - |ds|)), [])
    else if point <= 0 then Decimal(negative, 0, StripTrailingZeros(Zeros(-point) + ds))
    else Decimal(negative, ValueOf(ds[..point]), StripTrailingZeros(ds[point..]))
  }

  /** An optional exponent part: empty, or `e`/`E`, an optional sign and one or more digits. */
  function ParseExponent(s: string): Option<int> {
    if s == [] then Some(0)
    else if s[0] != 'e' && s[0] != 'E' then None
    else
      var rest := s[1..];
      var signed := rest != [] && (rest[0] == '+' || rest[0] == '-');
      var digits := if signed then rest[1..] else rest;
      if digits != [] && AllDigits(digits) then
        Some(ApplySign(signed && rest[0] == '-', ValueOf(DigitsOf(digits))))
      else None
  }

  /** A decimal literal cut into its sign, integer digits, fraction digits and what follows. */
  datatype LiteralParts = LiteralParts(negative: bool, intText: string, fracText: string, rest: string)

  function SplitLiteral(s: string): (p: LiteralParts)
    ensures AllDigits(p.intText) && AllDigits(p.fracText)
  {
    var negative := s != [] && s[0] == '-';
    var body := if s != [] && (s[0] == '+' || s[0] == '-') then s[1..] else s;
    var n := SpanDigits(body);
    var afterInt := body[n..];
    if afterInt != [] && afterInt[0] == '.' then
      var afterPoint := afterInt[1..];
      var m := SpanDigits(afterPoint);
      LiteralParts(negative, body[..n], afterPoint[..m], afterPoint[m..])
    else LiteralParts(negative, body[..n], [], afterInt)
  }

  /**
   * `Double(s)` for decimal literals: an optional sign, digits with an
   * optional point and fraction (at least one digit in all), and an optional
   * exponent.
   */
  function ParseDouble(s: string): Option<Double> {
    var p := SplitLiteral(s);
    if p.intText == [] && p.fracText == [] then None
    else
      match ParseExponent(p.rest)
      case None => None
      case Some(e) =>
        Some(PlacePoint(p.negative, DigitsOf(p.intText) + DigitsOf(p.fracText), |p.intText| + e))
  }

  function SignText(negative: bool): string {
    if negative then "-" else ""
  }

  lemma SplitSignedBody(negative: bool, body: string)
    requires body != [] && IsDigitChar(body[0])
    ensures var s := SignText(negative) + body;
      s != [] && (s[0] == '-' <==> negative)
      && (if s[0] == '+' || s[0] == '-' then s[1..] else s) == body
  {
    var s := SignText(negative) + body;
    if negative {
      assert s[0] == '-' && s[1..] == body;
    } else {
      assert s == body;
    }
  }

  /** A signed text whose body starts with a digit but is not all digits is not an `Int`. */
  lemma ParseIntRejectsNonDigits(negative: bool, body: string)
    requires body != [] && IsDigitChar(body[0]) && !AllDigits(body)
    ensures ParseInt(SignText(negative) + body).None?
  {
    SplitSignedBody(negative, body);
  }

  /** A literal `w.f` with digits on both sides of the point splits at the point. */
  lemma SplitPointLiteral(negative: bool, w: string, f: string)
    requires w != [] && AllDigits(w) && AllDigits(f)
    ensures SplitLiteral(SignText(negative) + w + "." + f) == LiteralParts(negative, w, f, [])
  {
    var body := w + "." + f;
    assert body == w + ("." + f);
    SplitSignedBody(negative, body);
    assert SignText(negative) + w + "." + f == SignText(negative) + body;
    SpanDigitsOfConcat(w, "." + f);
    assert body[..|w|] == w;
    assert body[|w|..] == "." + f;
    assert body[|w|..][1..] == f;
    SpanDigitsOfConcat(f, []);
    assert f + [] == f;
    assert f[..|f|] == f && f[|f|..] == [];
  }

  /** A literal made of digits only is all integer part. */
  lemma SplitIntegerLiteral(negative: bool, w: string)
    requires w != [] && AllDigits(w)
    ensures SplitLiteral(SignText(negative) + w) == LiteralParts(negative, w, [], [])
  {
    SplitSignedBody(negative, w);
    SpanDigitsOfConcat(w, []);
    assert w + [] == w;
    assert w[..|w|] == w && w[|w|..] == [];
  }

  /** Reading back the text `String(d)` writes gives `d` again. */
  lemma ParseDoubleText(d: Double)
    ensures ParseDouble(DoubleText(d)) == Some(d)
  {
    var w := NatText(d.whole);
    var f := if d.frac == [] then "0" else CharsOf(d.frac);
    assert DoubleText(d) == SignText(d.negative) + w + "." + f;
    SplitPointLiteral(d.negative, w, f);
    var ds := DigitsOf(w) + DigitsOf(f);
    assert ParseExponent([]) == Some(0);
    assert ParseDouble(DoubleText(d)) == Some(PlacePoint(d.negative, ds, |w|));
    assert ds[..|w|] == DigitsOf(w);
    assert ds[|w|..] == DigitsOf(f);
    var frac := StripTrailingZeros(DigitsOf(f));
    assert PlacePoint(d.negative, ds, |w|) == Decimal(d.negative, d.whole, frac);
    if d.frac == [] {
      assert DigitsOf(f) == [0];
      assert StripTrailingZeros([0]) == [];
    } else {
      DigitsOfCharsOf(d.frac);
    }
  }

  /**
   * Any text `Int(s)` accepts, `Double(s)` accepts too, as a whole number of
   * the same value ("-0" gives negative zero).
   */
  lemma ParseIntThenParseDouble(s: string)
    requires ParseInt(s).Some?
    ensures ParseDouble(s).Some?
    ensures IsWhole(ParseDouble(s).value) && Truncate(ParseDouble(s).value) == ParseInt(s).value
  {
    var signed := s[0] == '+' || s[0] == '-';
    var negative := s[0] == '-';
    var digits := if signed then s[1..] else s;
    SpanDigitsOfConcat(digits, []);
    assert digits + [] == digits;
    assert digits[..|digits|] == digits && digits[|digits|..] == [];
    assert SplitLiteral(s) == LiteralParts(negative, digits, [], []);
    var ds := DigitsOf(digits);
    assert ds + DigitsOf([]) == ds + Zeros(0) == ds;
  }
}
