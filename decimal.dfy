/** Decimal numerals: Python's `float()` applied to a `[\d.]+` match, and the
    `:.2f` rendering used in explanation sentences. Probabilities are exact
    reals here. */
module Decimal {
  import opened Wrappers
  import opened Chars
  import opened Strings

  predicate AllDigits(d: string) {
    forall k | 0 <= k < |d| :: IsDigit(d[k])
  }

  function DigitValue(c: char): nat
    requires IsDigit(c)
  {
    c as int - '0' as int
  }

  /** The value of a string of decimal digits; the empty string is 0. */
  function DigitsValue(d: string): nat
    requires AllDigits(d)
    decreases |d|
  {
    if d == [] then 0 else 10 * DigitsValue(d[..|d| - 1]) + DigitValue(d[|d| - 1])
  }

  function Pow10(n: nat): (p: nat)
    ensures p >= 1
  {
    if n == 0 then 1 else 10 * Pow10(n - 1)
  }

  function Count(s: string, c: char): nat
    decreases |s|
  {
    if s == [] then 0 else (if s[0] == c then 1 else 0) + Count(s[1..], c)
  }

  /** What Python's `float` accepts among strings of digits and dots: at most
      one dot and at least one digit. */
  predicate WellFormed(t: string) {
    && (forall k | 0 <= k < |t| :: IsDecimalChar(t[k]))
    && Count(t, '.') <= 1
    && (exists k | 0 <= k < |t| :: IsDigit(t[k]))
  }

  /** Splitting on `c` gives one piece more than there are `c`s. */
  lemma {:induction false} SplitCount(s: string, c: char)
    ensures |Split(s, c)| == Count(s, c) + 1
    decreases |s|
  {
    if s != [] {
      SplitCount(s[1..], c);
    }
  }

  /** Characters of the pieces of a split are characters of the text. */
  lemma {:induction false} SplitChars(s: string, c: char, i: nat, k: nat)
    requires i < |Split(s, c)| && k < |Split(s, c)[i]|
    ensures Split(s, c)[i][k] in s
    decreases |s|
  {
    if s != [] {
      var rest := Split(s[1..], c);
      if s[0] == c {
        if i > 0 {
          SplitChars(s[1..], c, i - 1, k);
        }
      } else if i == 0 {
        if k > 0 {
          SplitChars(s[1..], c, 0, k - 1);
        }
      } else {
        SplitChars(s[1..], c, i, k);
      }
    }
  }

  /** `t` is made of digits and dots and its pieces between dots are at
      most two, all digits, and not all empty. */
  predicate DecimalPieces(t: string, parts: seq<string>) {
    && (forall k | 0 <= k < |t| :: IsDecimalChar(t[k]))
    && |parts| <= 2
    && (forall i | 0 <= i < |parts| :: AllDigits(parts[i]))
    && (exists i | 0 <= i < |parts| :: parts[i] != [])
  }

  /** Python's `float(t)` for a `[\d.]+` match `t`; `None` where Python raises
      `ValueError` ("1.2.3", "."). */
  function ParseFloat(t: string): (r: Option<real>)
    ensures r.Some? <==> WellFormed(t)
    ensures r.Some? ==> r.value >= 0.0
  {
    var parts := Split(t, '.');
    SplitCount(t, '.');
    WellFormedPieces(t);
    if DecimalPieces(t, parts) then Some(PiecesValue(parts)) else None
  }

  /** The value of a whole piece and, when there is one, a fraction piece. */
  function PiecesValue(parts: seq<string>): (r: real)
    requires 1 <= |parts| <= 2 && forall i | 0 <= i < |parts| :: AllDigits(parts[i])
    ensures r >= 0.0
  {
    var whole := DigitsValue(parts[0]) as real;
    if |parts| == 2 then whole + DigitsValue(parts[1]) as real / Pow10(|parts[1]|) as real else whole
  }

  /** A text is well formed exactly when it is made of digits and dots and
      splits at its dot into at most two digit pieces, one of them not
      empty. */
  lemma WellFormedPieces(t: string)
    ensures WellFormed(t) <==> DecimalPieces(t, Split(t, '.'))
  {
    var parts := Split(t, '.');
    SplitCount(t, '.');
    if DecimalPieces(t, parts) {
      var i :| 0 <= i < |parts| && parts[i] != [];
      SplitChars(t, '.', i, 0);
      assert IsDigit(parts[i][0]);
      var k :| 0 <= k < |t| && t[k] == parts[i][0];
    }
    if WellFormed(t) {
      var parts := Split(t, '.');
      SplitCount(t, '.');
      forall i, k | 0 <= i < |parts| && 0 <= k < |parts[i]|
        ensures IsDigit(parts[i][k])
      {
        SplitChars(t, '.', i, k);
      }
      var k :| 0 <= k < |t| && IsDigit(t[k]);
      assert Join(parts, '.') == t;
      NonEmptyPiece(parts, '.', k);
    }
  }

  /** A digit of the joined text comes from a non-empty piece. */
  lemma {:induction false} NonEmptyPiece(parts: seq<string>, sep: char, k: nat)
    requires |parts| >= 1 && k < |Join(parts, sep)| && Join(parts, sep)[k] != sep
    ensures exists i | 0 <= i < |parts| :: parts[i] != []
    decreases |parts|
  {
    if |parts| > 1 && parts[0] == [] {
      assert Join(parts, sep) == [sep] + Join(parts[1..], sep);
      NonEmptyPiece(parts[1..], sep, k - 1);
      var i :| 0 <= i < |parts[1..]| && parts[1..][i] != [];
      assert parts[i + 1] != [];
    }
  }

  function Digit(n: nat): (c: char)
    requires n < 10
    ensures IsDigit(c) && DigitValue(c) == n
  {
    ('0' as int + n) as char
  }

  /** `str(n)` for a natural number: decimal digits without leading zeros. */
  function NatToString(n: nat): (r: string)
    ensures |r| >= 1 && AllDigits(r)
    ensures DigitsValue(r) == n
    ensures r[0] == '0' ==> n == 0
    decreases n
  {
    if n < 10 then [Digit(n)]
    else
      var r := NatToString(n / 10) + [Digit(n % 10)];
      assert r[..|r| - 1] == NatToString(n / 10);
      r
  }

  /** `x * 100` rounded to an integer, ties to even (Python rounds the binary
      value of the float; with exact reals the ties are the exact halves). */
  function Hundredths(x: real): (n: nat)
    requires x >= 0.0
    ensures (n as real - x * 100.0) <= 0.5 && (x * 100.0 - n as real) <= 0.5
    ensures (n as real - x * 100.0 == 0.5 || x * 100.0 - n as real == 0.5) ==> n % 2 == 0
  {
    var scaled := x * 100.0;
    var f := scaled.Floor;
    var frac := scaled - f as real;
    if frac > 0.5 then f + 1
    else if frac < 0.5 then f
    else if f % 2 == 0 then f
    else f + 1
  }

  /** `f"{x:.2f}"` for a non-negative `x`. */
  function FormatFixed2(x: real): string
    requires x >= 0.0
  {
    var n := Hundredths(x);
    NatToString(n / 100) + "." + [Digit(n % 100 / 10), Digit(n % 10)]
  }

  /** `f"{x:.2f}"` for any `x`: a minus sign and the magnitude for a
      negative value. */
  function FormatSigned(x: real): string {
    if x < 0.0 then "-" + FormatFixed2(-x) else FormatFixed2(x)
  }

  /** Reading a rendered probability back gives the value rounded to
      hundredths. */
  lemma FormatRoundTrip(x: real)
    requires x >= 0.0
    ensures ParseFloat(FormatFixed2(x)).Some? && ParseFloat(FormatFixed2(x)).value == Hundredths(x) as real / 100.0
  {
    var n := Hundredths(x);
    var whole := NatToString(n / 100);
    var frac := [Digit(n % 100 / 10), Digit(n % 10)];
    var t := FormatFixed2(x);
    assert t == whole + "." + frac;
    SplitOnce(whole, frac, '.');
    DotJoinChars(whole, frac);
    ParseTwoPieces(t, whole, frac);
    TwoDigits(n);
    assert |frac| == 2;
    SumValue(n, DigitsValue(whole), DigitsValue(frac), Pow10(|frac|));
  }

  /** The value read back, with its parts named. */
  lemma SumValue(n: nat, a: nat, b: nat, p: nat)
    requires a == n / 100 && b == n % 100 && p == 100
    ensures a as real + b as real / p as real == n as real / 100.0
  {
    HundredthsSum(n);
  }

  /** Digits, a dot and digits are decimal characters throughout. */
  lemma DotJoinChars(a: string, b: string)
    requires AllDigits(a) && AllDigits(b)
    ensures forall k | 0 <= k < |a + "." + b| :: IsDecimalChar((a + "." + b)[k])
  {
    forall k | 0 <= k < |a + "." + b| ensures IsDecimalChar((a + "." + b)[k]) {
      if k < |a| {
        assert (a + "." + b)[k] == a[k];
      } else if k > |a| {
        assert (a + "." + b)[k] == b[k - |a| - 1];
      }
    }
  }

  /** A text of decimal characters that splits at its dot into a non-empty
      digit piece and a digit piece reads as their value. */
  lemma ParseTwoPieces(t: string, a: string, b: string)
    requires Split(t, '.') == [a, b] && a != [] && AllDigits(a) && AllDigits(b)
    requires forall k | 0 <= k < |t| :: IsDecimalChar(t[k])
    ensures ParseFloat(t).Some? && ParseFloat(t).value == DigitsValue(a) as real + DigitsValue(b) as real / Pow10(|b|) as real
  {
    var parts := Split(t, '.');
    assert parts[0] != [];
    assert DecimalPieces(t, parts);
  }

  /** The two digits after the dot are worth the last two decimal places. */
  lemma TwoDigits(n: nat)
    ensures DigitsValue([Digit(n % 100 / 10), Digit(n % 10)]) == n % 100
    ensures Pow10(2) == 100
  {
    var frac := [Digit(n % 100 / 10), Digit(n % 10)];
    var hi := [Digit(n % 100 / 10)];
    assert frac[..1] == hi && hi[..0] == [];
    assert DigitsValue(hi) == n % 100 / 10;
    assert DigitsValue(frac) == 10 * (n % 100 / 10) + n % 10;
    assert n % 10 == (n % 100) % 10;
  }

  /** Whole part and hundredths add up to the number of hundredths. */
  lemma HundredthsSum(n: nat)
    ensures (n / 100) as real + (n % 100) as real / 100.0 == n as real / 100.0
  {
    assert n == 100 * (n / 100) + n % 100;
  }

  /** A text made of two dot-free pieces around one dot splits into them. */
  lemma SplitOnce(a: string, b: string, sep: char)
    requires sep !in a && sep !in b
    ensures Split(a + [sep] + b, sep) == [a, b]
  {
    SplitAfter(a, sep, b);
    NoSep(b, sep);
  }
}
