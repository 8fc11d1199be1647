/**
 * The number <-> text conversions the summary report relies on:
 * `str(n)` of a count, `pd.to_numeric` of a balance cell, and the
 * `round(2)` / `f"{x:.2f}"` rendering of an amount. Amounts are exact
 * rationals (`real`), so binary floating point is not modelled.
 */
module Numbers {
  import opened Wrappers

  predicate IsDigit(c: char) {
    '0' <= c <= '9'
  }

  predicate AllDigits(s: string) {
    forall i :: 0 <= i < |s| ==> IsDigit(s[i])
  }

  function DigitChar(d: nat): (c: char)
    requires d < 10
    ensures IsDigit(c) && DigitValue(c) == d
  {
    "0123456789"[d]
  }

  function DigitValue(c: char): nat
    requires IsDigit(c)
  {
    (c as int - '0' as int) as nat
  }

  /** Decimal text of a natural number, without leading zeros (Python's `str(n)`). */
  function NatToString(n: nat): (s: string)
    ensures |s| >= 1 && AllDigits(s)
    ensures |s| > 1 ==> s[0] != '0'
  {
    if n < 10 then [DigitChar(n)] else NatToString(n / 10) + [DigitChar(n % 10)]
  }

  /** The number a string of decimal digits denotes (most significant first). */
  function DigitsValue(s: string): nat
    requires AllDigits(s)
  {
    if s == [] then 0 else DigitsValue(s[..|s| - 1]) * 10 + DigitValue(s[|s| - 1])
  }

  function Pow10(k: nat): (p: nat)
    ensures p >= 1
  {
    if k == 0 then 1 else 10 * Pow10(k - 1)
  }

  /** Length of the longest all-digit prefix of `s`. */
  function LeadingDigits(s: string): (k: nat)
    ensures k <= |s| && AllDigits(s[..k])
    ensures k < |s| ==> !IsDigit(s[k])
    ensures AllDigits(s) ==> k == |s|
  {
    if s == [] || !IsDigit(s[0]) then 0
    else
      var k := 1 + LeadingDigits(s[1..]);
      assert s[..k] == [s[0]] + s[1..][..k - 1];
      k
  }

  /**
   * Unsigned decimal text: digits, optionally followed by '.' and more digits,
   * with at least one digit in all ("12", "12.", ".5", "12.50").
   */
  function ParseUnsigned(s: string): (r: Option<real>)
    ensures r.Some? ==> s != [] && r.value >= 0.0
    ensures AllDigits(s) && s != [] ==> r == Some(DigitsValue(s) as real)
  {
    var k := LeadingDigits(s);
    var whole := DigitsValue(s[..k]) as real;
    assert k == |s| ==> s[..k] == s;
    if k == |s| then
      if k > 0 then Some(whole) else None
    else if s[k] == '.' && AllDigits(s[k + 1..]) && (k > 0 || k + 1 < |s|) then
      Some(whole + Fraction(s[k + 1..]))
    else
      None
  }

  /** The value of the digits after a decimal point. */
  function Fraction(ds: string): (f: real)
    requires AllDigits(ds)
    ensures 0.0 <= f
  {
    DigitsValue(ds) as real / Pow10(|ds|) as real
  }

  /**
   * Numeric coercion of one cell's text, the part of `pd.to_numeric(errors='coerce')`
   * this model covers: an optional sign followed by unsigned decimal text.
   * Anything else is not a number (`None`, which the caller turns into 0).
   */
  function ParseDecimal(s: string): (r: Option<real>)
    ensures r.Some? ==> s != []
    ensures r.Some? && r.value < 0.0 ==> s[0] == '-'
    ensures AllDigits(s) && s != [] ==> r == Some(DigitsValue(s) as real)
  {
    if |s| > 0 && s[0] == '-' then
      match ParseUnsigned(s[1..])
      case Some(v) => Some(-v)
      case None => None
    else if |s| > 0 && s[0] == '+' then
      ParseUnsigned(s[1..])
    else
      ParseUnsigned(s)
  }

  /** Round to the nearest integer, halves to the even neighbour (numpy's `round`, Python's format). */
  function RoundHalfEven(y: real): (r: int)
    ensures -0.5 <= r as real - y <= 0.5
    ensures r as real - y == 0.5 || r as real - y == -0.5 ==> r % 2 == 0
  {
    var f := y.Floor;
    var d := y - f as real;
    if d < 0.5 then f
    else if d > 0.5 then f + 1
    else if f % 2 == 0 then f
    else f + 1
  }

  /** The amount in hundredths after rounding to two decimals (`round(x, 2)`). */
  function Cents(x: real): (c: int)
    ensures x < 0.0 ==> c <= 0
    ensures x >= 0.0 ==> c >= 0
  {
    RoundHalfEven(x * 100.0)
  }

  /**
   * `f"{x:.2f}"`: an optional '-', the whole part, '.', exactly two decimals.
   * As in Python, a negative amount that rounds to zero keeps its sign ("-0.00").
   */
  function FormatAmount(x: real): (s: string)
    ensures |s| >= 4 && s[|s| - 3] == '.'
    ensures IsDigit(s[|s| - 2]) && IsDigit(s[|s| - 1])
  {
    var c := Cents(x);
    var u := Hundredths(if c < 0 then -c else c);
    var s := (if x < 0.0 then "-" else "") + u;
    assert s[|s| - 3..] == u[|u| - 3..];
    s
  }

  /** Unsigned "W.DD" text of `a` hundredths. */
  function Hundredths(a: nat): (s: string)
    ensures |s| >= 4 && s[|s| - 3] == '.' && IsDigit(s[0])
    ensures IsDigit(s[|s| - 2]) && IsDigit(s[|s| - 1])
  {
    NatToString(a / 100) + "." + [DigitChar(a % 100 / 10), DigitChar(a % 100 % 10)]
  }

  // ---------------------------------------------------------------------------
  // Round trips

  lemma {:induction false} NatToStringRoundTrip(n: nat)
    ensures DigitsValue(NatToString(n)) == n
  {
    var s := NatToString(n);
    if n >= 10 {
      NatToStringRoundTrip(n / 10);
      assert s[..|s| - 1] == NatToString(n / 10);
    }
  }

  /** Distinct counts render as distinct text. */
  lemma NatToStringInjective(m: nat, n: nat)
    requires NatToString(m) == NatToString(n)
    ensures m == n
  {
    NatToStringRoundTrip(m);
    NatToStringRoundTrip(n);
  }

  lemma {:induction false} LeadingDigitsOfConcat(d: string, rest: string)
    requires AllDigits(d)
    requires rest != [] && !IsDigit(rest[0])
    ensures LeadingDigits(d + rest) == |d|
  {
    if d != [] {
      assert (d + rest)[1..] == d[1..] + rest;
      LeadingDigitsOfConcat(d[1..], rest);
    }
  }

  /** The text of a count is read back as that count. */
  lemma ParseNatToString(n: nat)
    ensures ParseDecimal(NatToString(n)) == Some(n as real)
  {
    var s := NatToString(n);
    assert s[0] != '-' && s[0] != '+' by { assert IsDigit(s[0]); }
    assert LeadingDigits(s) == |s| by {
      LeadingDigitsOfConcat(s, ".");
      assert (s + ".")[..|s|] == s;
      LeadingDigitsAll(s);
    }
    assert s[..|s|] == s;
    NatToStringRoundTrip(n);
  }

  lemma {:induction false} LeadingDigitsAll(s: string)
    requires AllDigits(s)
    ensures LeadingDigits(s) == |s|
  {
    if s != [] {
      LeadingDigitsAll(s[1..]);
    }
  }

  /**
   * The unsigned text `ParseUnsigned` is meant to accept: a non-empty run of
   * digits, or digits, one '.' and digits with at least one digit in all.
   */
  predicate UnsignedText(s: string) {
    (s != [] && AllDigits(s))
    || exists k :: 0 <= k < |s| && s[k] == '.' && |s| >= 2 && AllDigits(s[..k]) && AllDigits(s[k + 1..])
  }

  /** Unsigned text, or a '-' or '+' followed by unsigned text. */
  predicate DecimalText(s: string) {
    UnsignedText(s) || (s != [] && (s[0] == '-' || s[0] == '+') && UnsignedText(s[1..]))
  }

  /** `ParseUnsigned` gives a number exactly for unsigned decimal text. */
  lemma ParseUnsignedAccepts(s: string)
    ensures ParseUnsigned(s).Some? <==> UnsignedText(s)
  {
    if ParseUnsigned(s).Some? {
      ParseUnsignedSound(s);
    }
    if UnsignedText(s) {
      ParseUnsignedComplete(s);
    }
  }

  /** Only unsigned decimal text gives a number. */
  lemma ParseUnsignedSound(s: string)
    requires ParseUnsigned(s).Some?
    ensures UnsignedText(s)
  {
    var k := LeadingDigits(s);
    if k == |s| {
      assert s[..k] == s;
    } else {
      assert s[k] == '.' && AllDigits(s[..k]) && AllDigits(s[k + 1..]);
    }
  }

  /** All unsigned decimal text gives a number. */
  lemma ParseUnsignedComplete(s: string)
    requires UnsignedText(s)
    ensures ParseUnsigned(s).Some?
  {
    if !(s != [] && AllDigits(s)) {
      var j :| 0 <= j < |s| && s[j] == '.' && |s| >= 2 && AllDigits(s[..j]) && AllDigits(s[j + 1..]);
      assert s == s[..j] + "." + s[j + 1..];
      ParseUnsignedPoint(s[..j], s[j + 1..]);
    }
  }

  /** Coercion gives a number exactly for optionally signed decimal text; anything else is rejected. */
  lemma ParseDecimalAccepts(s: string)
    ensures ParseDecimal(s).Some? <==> DecimalText(s)
  {
    ParseUnsignedAccepts(s);
    if s != [] {
      ParseUnsignedAccepts(s[1..]);
      if s[0] == '-' || s[0] == '+' {
        forall k | 0 < k <= |s|
          ensures !AllDigits(s[..k])
        {
          assert s[..k][0] == s[0];
        }
      }
    }
  }

  /** Whole digits, '.', fraction digits: read back as whole + fraction / 10^|fraction|. */
  lemma ParseUnsignedPoint(d: string, ds: string)
    requires AllDigits(d) && AllDigits(ds) && (d != [] || ds != [])
    ensures ParseUnsigned(d + "." + ds) == Some(DigitsValue(d) as real + Fraction(ds))
  {
    if d == [] {
      assert d + "." + ds == "." + ds;
      ParseBarePoint(ds);
    } else {
      ParseWholePoint(d, ds);
    }
  }

  /** The case with at least one whole digit. */
  lemma ParseWholePoint(d: string, ds: string)
    requires AllDigits(d) && AllDigits(ds) && d != []
    ensures ParseUnsigned(d + "." + ds) == Some(DigitsValue(d) as real + Fraction(ds))
  {
    var u := d + "." + ds;
    LeadingDigitsOfConcat(d, "." + ds);
    assert u == d + ("." + ds);
    assert u[..|d|] == d;
    assert u[|d| + 1..] == ds;
  }

  /** The case with no whole digits, such as ".5". */
  lemma ParseBarePoint(ds: string)
    requires AllDigits(ds) && ds != []
    ensures ParseUnsigned("." + ds) == Some(Fraction(ds))
  {
    var u := "." + ds;
    assert u[..0] == [] && u[1..] == ds;
  }

  lemma TwoDigitsValue(r: nat)
    requires r < 100
    ensures DigitsValue([DigitChar(r / 10), DigitChar(r % 10)]) == r
  {
    var ds := [DigitChar(r / 10), DigitChar(r % 10)];
    assert ds[..1] == [DigitChar(r / 10)] && ds[..1][..0] == [];
    assert DigitsValue(ds[..1]) == r / 10;
    assert DigitsValue(ds) == DigitsValue(ds[..1]) * 10 + DigitValue(ds[1]);
    assert DigitValue(ds[1]) == r % 10;
  }

  /** Two fraction digits stand for hundredths. */
  lemma FractionOfTwo(ds: string)
    requires AllDigits(ds) && |ds| == 2
    ensures Fraction(ds) == DigitsValue(ds) as real / 100.0
  {
    assert Pow10(2) == 100;
  }

  /** An amount in hundredths is its whole part plus its last two digits over 100. */
  lemma SplitHundredths(a: nat)
    ensures (a / 100) as real + (a % 100) as real / 100.0 == a as real / 100.0
  {
    var q, r := a / 100, a % 100;
    assert a == 100 * q + r;
    assert a as real == 100.0 * q as real + r as real;
  }

  /** Unsigned "W.DD" text is read back as W + DD/100. */
  lemma ParseHundredths(a: nat)
    ensures ParseUnsigned(Hundredths(a)) == Some(a as real / 100.0)
  {
    var q, r := a / 100, a % 100;
    var w := NatToString(q);
    var ds := [DigitChar(r / 10), DigitChar(r % 10)];
    assert Hundredths(a) == w + "." + ds;
    ParseUnsignedPoint(w, ds);
    assert DigitsValue(w) as real + Fraction(ds) == a as real / 100.0 by {
      NatToStringRoundTrip(q);
      TwoDigitsValue(r);
      FractionOfTwo(ds);
      SplitHundredths(a);
    }
  }

  /** Text starting with a digit carries no sign. */
  lemma ParseDecimalUnsigned(u: string)
    requires u != [] && IsDigit(u[0])
    ensures ParseDecimal(u) == ParseUnsigned(u)
  {
  }

  /** A leading '-' negates what follows. */
  lemma ParseDecimalNegative(u: string, v: real)
    requires ParseUnsigned(u) == Some(v)
    ensures ParseDecimal("-" + u) == Some(-v)
  {
    assert ("-" + u)[1..] == u;
  }

  /** A leading '+' changes nothing. */
  lemma ParseDecimalPlus(u: string)
    ensures ParseDecimal("+" + u) == ParseUnsigned(u)
  {
    assert ("+" + u)[1..] == u;
  }

  lemma ParseSignedHundredths(negative: bool, a: nat)
    ensures ParseDecimal((if negative then "-" else "") + Hundredths(a))
         == Some(if negative then -(a as real / 100.0) else a as real / 100.0)
  {
    var u := Hundredths(a);
    if negative {
      assert (if negative then "-" else "") + u == "-" + u;
      ParseNegativeHundredths(a);
    } else {
      assert (if negative then "-" else "") + u == u;
      ParseDecimalHundredths(a);
    }
  }

  /** "-W.DD" reads back as minus its hundredths. */
  lemma ParseNegativeHundredths(a: nat)
    ensures ParseDecimal("-" + Hundredths(a)) == Some(-(a as real / 100.0))
  {
    ParseHundredths(a);
    ParseDecimalNegative(Hundredths(a), a as real / 100.0);
  }

  /** "W.DD" reads back as its hundredths. */
  lemma ParseDecimalHundredths(a: nat)
    ensures ParseDecimal(Hundredths(a)) == Some(a as real / 100.0)
  {
    ParseHundredths(a);
    ParseDecimalUnsigned(Hundredths(a));
  }


  /** The text of an amount: a '-' for a negative amount, then its unsigned hundredths. */
  lemma FormatAmountParts(x: real)
    ensures FormatAmount(x) == (if x < 0.0 then "-" else "") + Hundredths(if Cents(x) < 0 then -Cents(x) else Cents(x))
  {
  }

  /** The rendered amount starts with '-' exactly when the amount is negative, even when it rounds to zero. */
  lemma FormatAmountSign(x: real)
    ensures FormatAmount(x)[0] == '-' <==> x < 0.0
  {
    var u := Hundredths(if Cents(x) < 0 then -Cents(x) else Cents(x));
    FormatAmountParts(x);
    if x < 0.0 {
      assert FormatAmount(x) == "-" + u;
    } else {
      assert FormatAmount(x) == u;
    }
  }

  /** The rendered amount is read back by the coercion as the amount rounded to hundredths. */
  lemma FormatAmountRoundTrip(x: real)
    ensures ParseDecimal(FormatAmount(x)) == Some(Cents(x) as real / 100.0)
  {
    FormatAmountParts(x);
    ParseSignedHundredths(x < 0.0, if Cents(x) < 0 then -Cents(x) else Cents(x));
  }

  /** Rounding to hundredths moves an amount by at most half a hundredth. */
  lemma CentsClose(x: real)
    ensures -0.005 <= Cents(x) as real / 100.0 - x <= 0.005
  {
  }
}
