/** Decimal text and `java.math.BigInteger`: the string constructor, which either
    yields an integer or throws `NumberFormatException`, and `toString`. Digits are
    the ASCII digits '0'..'9'. */
module BigIntegerText {
  import opened Wrappers

  predicate IsDigit(c: char)
  {
    '0' <= c <= '9'
  }

  predicate AllDigits(s: string)
  {
    forall i :: 0 <= i < |s| ==> IsDigit(s[i])
  }

  /** The value of a string of decimal digits, read most significant digit first. */
  function DigitsValue(s: string): nat
    requires AllDigits(s)
    decreases |s|
  {
    if |s| == 0 then 0
    else 10 * DigitsValue(s[..|s| - 1]) + (s[|s| - 1] as int - '0' as int)
  }

  /** `new BigInteger(s)`: one optional '+' or '-' followed by one or more digits,
      and nothing else; `None` stands for the `NumberFormatException`. */
  function Parse(s: string): (r: Option<int>)
    ensures r.Some? ==> |s| > 0 && '.' !in s
    ensures r.Some? && '-' !in s ==> r.value >= 0
    ensures r.Some? && |s| > 0 && IsDigit(s[0]) ==> r.value >= 0
  {
    if |s| > 0 && (s[0] == '+' || s[0] == '-') then
      var ds := s[1..];
      if |ds| > 0 && AllDigits(ds) then
        assert s == [s[0]] + ds;
        var magnitude: int := DigitsValue(ds);
        Some(if s[0] == '-' then -magnitude else magnitude)
      else None
    else if |s| > 0 && AllDigits(s) then Some(DigitsValue(s))
    else None
  }

  function DigitChar(d: nat): (c: char)
    requires d < 10
    ensures IsDigit(c)
  {
    ('0' as int + d) as char
  }

  /** Canonical decimal digits: one or more digits, with no leading zero unless
      the number itself is zero. */
  predicate Canonical(s: string)
  {
    |s| > 0 && AllDigits(s) && (s[0] == '0' ==> |s| == 1)
  }

  /** The digits of a natural number, without leading zeros. */
  function NatDigits(n: nat): (s: string)
    ensures Canonical(s)
    ensures n == 0 <==> s == "0"
    decreases n
  {
    if n < 10 then [DigitChar(n)]
    else
      var high := NatDigits(n / 10);
      var s := high + [DigitChar(n % 10)];
      assert s[0] == high[0];
      s
  }

  lemma {:induction false} NatDigitsValue(n: nat)
    ensures DigitsValue(NatDigits(n)) == n
    decreases n
  {
    if n >= 10 {
      var s := NatDigits(n);
      assert s[..|s| - 1] == NatDigits(n / 10);
      NatDigitsValue(n / 10);
    }
  }

  /** Canonical integer text: canonical digits, or a '-' followed by the
      canonical digits of a positive number. */
  predicate CanonicalInteger(s: string)
  {
    Canonical(s) || (|s| > 1 && s[0] == '-' && Canonical(s[1..]) && s[1] != '0')
  }

  /** `BigInteger.toString()`: a '-' for negative values, then the digits without
      leading zeros; it parses back. */
  function ToDecimal(n: int): (s: string)
    ensures Parse(s) == Some(n)
    ensures CanonicalInteger(s)
    ensures n >= 0 ==> Canonical(s)
    ensures |s| > 0 && '.' !in s
    ensures n >= 0 ==> '-' !in s
  {
    if n < 0 then
      var ds := NatDigits(-n);
      NatDigitsValue(-n);
      assert ("-" + ds)[1..] == ds;
      "-" + ds
    else
      NatDigitsValue(n);
      NatDigits(n)
  }

  /** Leading zeros do not change the value of a digit string. */
  lemma {:induction false} LeadingZeroIgnored(s: string)
    requires AllDigits(s)
    ensures AllDigits("0" + s) && DigitsValue("0" + s) == DigitsValue(s)
    decreases |s|
  {
    if |s| > 0 {
      var z := "0" + s;
      assert z[..|z| - 1] == "0" + s[..|s| - 1];
      LeadingZeroIgnored(s[..|s| - 1]);
    }
  }

  /** A single digit parses to its value. */
  lemma ParseDigit(n: nat)
    requires n < 10
    ensures Parse([DigitChar(n)]) == Some(n)
  {
    var s := ToDecimal(n);
    assert s == [DigitChar(n)];
  }

  /** A digit string with a non-zero first digit has a positive value. */
  lemma {:induction false} LeadingDigitPositive(s: string)
    requires |s| > 0 && AllDigits(s) && s[0] != '0'
    ensures DigitsValue(s) > 0
    decreases |s|
  {
    if |s| > 1 {
      LeadingDigitPositive(s[..|s| - 1]);
    }
  }

  /** Canonical digits are the digits `NatDigits` writes for their value. */
  lemma {:induction false} CanonicalDigits(s: string)
    requires Canonical(s)
    ensures NatDigits(DigitsValue(s)) == s
    decreases |s|
  {
    var high := s[..|s| - 1];
    var d := s[|s| - 1] as int - '0' as int;
    if |s| == 1 {
      assert DigitsValue(s) == 10 * DigitsValue(high) + d;
      assert high == "";
    } else {
      assert high[0] == s[0];
      LeadingDigitPositive(high);
      CanonicalDigits(high);
      var v := DigitsValue(s);
      assert v / 10 == DigitsValue(high) && v % 10 == d;
      assert s == high + [s[|s| - 1]];
    }
  }

  /** `toString` is the only canonical text of a number: canonical integer
      text parses, and `toString` of its value gives it back. */
  lemma ToDecimalUnique(s: string)
    requires CanonicalInteger(s)
    ensures Parse(s).Some? && ToDecimal(Parse(s).value) == s
  {
    if Canonical(s) {
      CanonicalDigits(s);
    } else {
      var ds := s[1..];
      CanonicalDigits(ds);
      LeadingDigitPositive(ds);
      assert s == "-" + ds;
    }
  }

  /** The text `new BigInteger(s)` accepts: one or more digits, optionally after
      a single '+' or '-'. */
  predicate IntegerText(s: string)
  {
    (|s| > 0 && AllDigits(s))
    || (|s| > 1 && (s[0] == '+' || s[0] == '-') && AllDigits(s[1..]))
  }

  /** `Parse` succeeds exactly on integer text. */
  lemma ParseAcceptsExactly(s: string)
    ensures Parse(s).Some? <==> IntegerText(s)
  {
  }

  /** The value of integer text: the digits' value, negated after a '-'. */
  lemma ParseSigned(ds: string)
    requires |ds| > 0 && AllDigits(ds)
    ensures Parse(ds) == Some(DigitsValue(ds))
    ensures Parse("+" + ds) == Some(DigitsValue(ds))
    ensures Parse("-" + ds) == Some(0 - DigitsValue(ds) as int)
  {
    ParseAfterSign('+', ds);
    ParseAfterSign('-', ds);
  }

  /** One sign character before the digits. */
  lemma ParseAfterSign(sign: char, ds: string)
    requires sign == '+' || sign == '-'
    requires |ds| > 0 && AllDigits(ds)
    ensures Parse([sign] + ds) == Some(if sign == '-' then 0 - DigitsValue(ds) as int else DigitsValue(ds))
  {
    var s := [sign] + ds;
    assert s[0] == sign && s[1..] == ds;
  }
}
