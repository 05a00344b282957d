/** Decimal rendering and parsing of numbers: `%d`, `%.3f` of a timestamp
    held in whole milliseconds, Python's `int()` and a decimal subset of
    Python's `float()`. */
module Numbers {
  import opened Results
  import opened Strings

  predicate IsDigit(c: char)
  {
    '0' <= c <= '9'
  }

  predicate AllDigits(s: string)
  {
    forall i :: 0 <= i < |s| ==> IsDigit(s[i])
  }

  function DigitChar(d: nat): (c: char)
    requires d < 10
    ensures IsDigit(c)
  {
    (48 + d) as char
  }

  function DigitValue(c: char): nat
    requires IsDigit(c)
  {
    c as int - 48
  }

  /** Value of a string of decimal digits, most significant first. */
  function DigitsValue(s: string): nat
    requires AllDigits(s)
  {
    if |s| == 0 then 0 else DigitsValue(s[..|s| - 1]) * 10 + DigitValue(s[|s| - 1])
  }

  function Pow10(n: nat): (r: nat)
    ensures r >= 1
  {
    if n == 0 then 1 else 10 * Pow10(n - 1)
  }

  /** Digits as `%d` writes them: at least one, and a leading zero only in
      "0" itself. */
  predicate CanonicalDigits(s: string)
  {
    |s| >= 1 && AllDigits(s) && (s[0] == '0' ==> |s| == 1)
  }

  /** What `%d` writes: canonical digits, after a '-' only when the
      magnitude is not zero. */
  predicate CanonicalInt(s: string)
  {
    |s| >= 1 && if s[0] == '-' then CanonicalDigits(s[1..]) && s[1] != '0' else CanonicalDigits(s)
  }

  /** Decimal digits of `n`, without leading zeros. */
  function NatToString(n: nat): (s: string)
    ensures CanonicalDigits(s)
    ensures n > 0 ==> s[0] != '0'
    decreases n
  {
    if n < 10 then [DigitChar(n)] else NatToString(n / 10) + [DigitChar(n % 10)]
  }

  /** Python's `"%d" % i`. */
  function IntToString(i: int): (s: string)
    ensures CanonicalInt(s)
    ensures s[0] == '-' <==> i < 0
  {
    if i < 0 then
      var m := NatToString(-i);
      assert ("-" + m)[1..] == m;
      "-" + m
    else NatToString(i)
  }

  /** Python's `"%.3f" % (ms / 1000)` for a time held in whole milliseconds. */
  function FormatMillis(ms: nat): string
  {
    NatToString(ms / 1000) + "." + Pad3(ms % 1000)
  }

  function Pad3(n: nat): (s: string)
    requires n < 1000
    ensures |s| == 3 && AllDigits(s)
  {
    [DigitChar(n / 100), DigitChar(n / 10 % 10), DigitChar(n % 10)]
  }

  /** The value of the digits after a decimal point. */
  function Fraction(frac: string): real
    requires AllDigits(frac)
  {
    DigitsValue(frac) as real / Pow10(|frac|) as real
  }

  function Signed(negative: bool, v: real): real
  {
    if negative then -v else v
  }

  /** Python's `int(s)` for the forms `[+-]digits`. */
  function ParseInt(s: string): Option<int>
  {
    if |s| > 0 && (s[0] == '-' || s[0] == '+') then
      var body := s[1..];
      if |body| > 0 && AllDigits(body) then
        var v: int := DigitsValue(body);
        Some(if s[0] == '-' then -v else v)
      else None
    else if |s| > 0 && AllDigits(s) then Some(DigitsValue(s))
    else None
  }

  /** Python's `float(s)` for the forms `[+-]digits`, `[+-]digits.digits`,
      `[+-]digits.` and `[+-].digits`, computed exactly. */
  function ParseDecimal(s: string): Option<real>
  {
    var negative := |s| > 0 && s[0] == '-';
    var body := if |s| > 0 && (s[0] == '-' || s[0] == '+') then s[1..] else s;
    if '.' in body then
      var i := IndexOf(body, '.');
      var whole, frac := body[..i], body[i + 1..];
      if AllDigits(whole) && AllDigits(frac) && |whole| + |frac| > 0 then
        Some(Signed(negative, DigitsValue(whole) as real + Fraction(frac)))
      else None
    else if |body| > 0 && AllDigits(body) then Some(Signed(negative, DigitsValue(body) as real))
    else None
  }

  lemma {:induction false} DigitsValueOfNat(n: nat)
    ensures DigitsValue(NatToString(n)) == n
    decreases n
  {
    if n >= 10 {
      var s := NatToString(n);
      DigitsValueOfNat(n / 10);
      assert s[..|s| - 1] == NatToString(n / 10);
    }
  }

  lemma DigitsValueOfPad3(n: nat)
    requires n < 1000
    ensures DigitsValue(Pad3(n)) == n
  {
    var s := Pad3(n);
    DigitsValueOfThree(s);
    ThreeDigitSplit(n);
  }

  /** The value of three digits, read left to right. */
  lemma DigitsValueOfThree(s: string)
    requires |s| == 3 && AllDigits(s)
    ensures DigitsValue(s) == (DigitValue(s[0]) * 10 + DigitValue(s[1])) * 10 + DigitValue(s[2])
  {
    assert s[..2][..1] == s[..1] == [s[0]];
    assert DigitsValue(s[..1]) == DigitValue(s[0]) by {
      assert s[..1][..0] == [];
    }
  }

  lemma ThreeDigitSplit(n: nat)
    requires n < 1000
    ensures (n / 100 * 10 + n / 10 % 10) * 10 + n % 10 == n
  {
    assert n / 10 == n / 100 * 10 + n / 10 % 10;
  }

  lemma NoDotInDigits(s: string)
    requires AllDigits(s)
    ensures '.' !in s
  {
    assert forall i :: 0 <= i < |s| ==> s[i] != '.';
  }

  /** `int()` reads back what `%d` writes. */
  lemma ParseIntOfString(i: int)
    ensures ParseInt(IntToString(i)) == Some(i)
  {
    if i < 0 {
      ParseIntOfNegative(-i);
    } else {
      ParseIntOfNat(i);
    }
  }

  lemma ParseIntOfNegative(n: nat)
    ensures ParseInt("-" + NatToString(n)) == Some(-(n as int))
  {
    var digits := NatToString(n);
    DigitsValueOfNat(n);
    ParseIntSigned("-", digits);
  }

  lemma ParseIntOfNat(n: nat)
    ensures ParseInt(NatToString(n)) == Some(n)
  {
    var digits := NatToString(n);
    DigitsValueOfNat(n);
    ParseIntDigits(digits);
  }

  lemma ParseIntSigned(sign: string, digits: string)
    requires sign == "-" && |digits| > 0 && AllDigits(digits)
    ensures ParseInt(sign + digits) == Some(-(DigitsValue(digits) as int))
  {
    assert (sign + digits)[1..] == digits;
  }

  lemma ParseIntDigits(digits: string)
    requires |digits| > 0 && AllDigits(digits)
    ensures ParseInt(digits) == Some(DigitsValue(digits) as int)
  {
    assert IsDigit(digits[0]);
  }

  /** A canonical rendering is the only one `int()` reads as `i`: with
      `ParseIntOfString`, `%d` is a bijection between the integers and the
      canonical strings. */
  lemma CanonicalIntUnique(s: string, i: int)
    requires CanonicalInt(s) && ParseInt(s) == Some(i)
    ensures s == IntToString(i)
  {
    if s[0] == '-' {
      var body := s[1..];
      assert body[0] == s[1];
      LeadingDigitPositive(body);
      NatToStringOfDigits(body);
      assert s == "-" + body;
    } else {
      assert IsDigit(s[0]);
      NatToStringOfDigits(s);
    }
  }

  lemma {:induction false} LeadingDigitPositive(s: string)
    requires |s| >= 1 && AllDigits(s) && s[0] != '0'
    ensures DigitsValue(s) >= 1
    decreases |s|
  {
    if |s| > 1 {
      var p := s[..|s| - 1];
      assert p[0] == s[0];
      LeadingDigitPositive(p);
    }
  }

  /** Canonical digits are the rendering of their own value. */
  lemma {:induction false} NatToStringOfDigits(s: string)
    requires CanonicalDigits(s)
    ensures NatToString(DigitsValue(s)) == s
    decreases |s|
  {
    var c := s[|s| - 1];
    if |s| == 1 {
      assert s[..0] == [];
      assert s == [c];
    } else {
      var p := s[..|s| - 1];
      assert p[0] == s[0];
      LeadingDigitPositive(p);
      NatToStringOfDigits(p);
      var v := DigitsValue(s);
      assert v == DigitsValue(p) * 10 + DigitValue(c);
      assert v / 10 == DigitsValue(p) && v % 10 == DigitValue(c);
      assert s == p + [c];
    }
  }

  /** `%d` never renders two integers alike. */
  lemma IntToStringInjective(i: int, j: int)
    requires IntToString(i) == IntToString(j)
    ensures i == j
  {
    ParseIntOfString(i);
    ParseIntOfString(j);
  }

  /** `float()` reads back what `%d` writes, as the same number. */
  lemma ParseDecimalOfInt(i: int)
    ensures ParseDecimal(IntToString(i)) == Some(i as real)
  {
    var s := IntToString(i);
    if i < 0 {
      var body := NatToString(-i);
      assert s[1..] == body;
      NoDotInDigits(body);
      DigitsValueOfNat(-i);
    } else {
      assert IsDigit(s[0]);
      NoDotInDigits(s);
      DigitsValueOfNat(i);
    }
  }

  /** `float()` reads back what `%.3f` writes: the time in seconds. */
  lemma ParseDecimalOfMillis(ms: nat)
    ensures ParseDecimal(FormatMillis(ms)) == Some(ms as real / 1000.0)
  {
    var whole, frac := NatToString(ms / 1000), Pad3(ms % 1000);
    DottedShape(whole, frac, FormatMillis(ms));
    MillisValue(ms, whole, frac);
    ParseDecimalDotted(whole, frac, FormatMillis(ms));
  }

  /** The two parts of `%.3f` carry the whole seconds and the milliseconds. */
  lemma MillisValue(ms: nat, whole: string, frac: string)
    requires whole == NatToString(ms / 1000) && frac == Pad3(ms % 1000)
    ensures DigitsValue(whole) as real + Fraction(frac) == ms as real / 1000.0
  {
    DigitsValueOfNat(ms / 1000);
    DigitsValueOfPad3(ms % 1000);
    FractionOfThree(frac);
    MillisSplit(ms);
  }

  lemma MillisSplit(ms: nat)
    ensures (ms / 1000) as real + (ms % 1000) as real / 1000.0 == ms as real / 1000.0
  {
    assert ms == ms / 1000 * 1000 + ms % 1000;
  }

  lemma DottedShape(whole: string, frac: string, s: string)
    requires |whole| > 0 && AllDigits(whole) && s == whole + "." + frac
    ensures |s| > 0 && s[0] != '-' && s[0] != '+'
    ensures '.' in s && s[..IndexOf(s, '.')] == whole && s[IndexOf(s, '.') + 1..] == frac
  {
    assert IsDigit(s[0]);
    NoDotInDigits(whole);
    IndexOfAfterFreePrefix(whole, '.', frac);
    var i := IndexOf(s, '.');
    assert s[..i] == whole;
    assert s[i + 1..] == frac;
  }

  lemma ParseDecimalDotted(whole: string, frac: string, s: string)
    requires AllDigits(whole) && AllDigits(frac) && |whole| > 0
    requires |s| > 0 && s[0] != '-' && s[0] != '+'
    requires '.' in s && s[..IndexOf(s, '.')] == whole && s[IndexOf(s, '.') + 1..] == frac
    ensures ParseDecimal(s) == Some(DigitsValue(whole) as real + Fraction(frac))
  {
  }

  lemma FractionOfThree(frac: string)
    requires |frac| == 3 && AllDigits(frac)
    ensures Fraction(frac) == DigitsValue(frac) as real / 1000.0
  {
    assert Pow10(|frac|) == 1000;
  }
}
