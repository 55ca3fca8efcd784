/**
 * Decimal text for Java ints: what `String.format("%d", x)` writes and what
 * `Integer.parseInt` reads back.
 */
module Decimal {
  import opened Wrappers

  const INT_MIN: int := -0x8000_0000
  const INT_MAX: int := 0x7fff_ffff

  predicate IsInt32(x: int) {
    INT_MIN <= x <= INT_MAX
  }

  predicate IsDigit(c: char) {
    '0' <= c <= '9'
  }

  predicate AllDigits(s: string) {
    forall i :: 0 <= i < |s| ==> IsDigit(s[i])
  }

  function DigitChar(d: nat): (c: char)
    requires d < 10
    ensures IsDigit(c) && c as int - '0' as int == d
  {
    ('0' as int + d) as char
  }

  function DigitValue(c: char): nat
    requires IsDigit(c)
  {
    c as int - '0' as int
  }

  /** The decimal digits of n, most significant first, without leading zeros. */
  function NatToString(n: nat): (s: string)
    ensures |s| > 0 && AllDigits(s)
    ensures s[0] == '0' <==> n == 0
    ensures n == 0 ==> s == "0"
  {
    if n < 10 then [DigitChar(n)] else NatToString(n / 10) + [DigitChar(n % 10)]
  }

  /** The number a string of decimal digits denotes. */
  function DigitsValue(s: string): nat
    requires AllDigits(s)
  {
    if s == [] then 0 else DigitsValue(s[..|s| - 1]) * 10 + DigitValue(s[|s| - 1])
  }

  lemma {:induction false} DigitsValueOfNatToString(n: nat)
    ensures DigitsValue(NatToString(n)) == n
  {
    if n >= 10 {
      DigitsValueOfNatToString(n / 10);
      var s := NatToString(n);
      assert s[..|s| - 1] == NatToString(n / 10);
    }
  }

  /** `%d`: a minus sign for negative numbers, then the digits of the magnitude. */
  function IntToString(x: int): (s: string)
    ensures |s| > 0
    ensures s[0] == '-' <==> x < 0
    ensures x >= 0 ==> AllDigits(s)
    ensures x < 0 ==> AllDigits(s[1..]) && |s| > 1
  {
    if x < 0 then "-" + NatToString(-x) else NatToString(x)
  }

  /** Formatting is injective, so distinct numbers are written distinctly. */
  lemma IntToStringInjective(x: int, y: int)
    requires IntToString(x) == IntToString(y)
    ensures x == y
  {
    var s := IntToString(x);
    if x < 0 {
      assert s[1..] == NatToString(-x) == NatToString(-y);
      DigitsValueOfNatToString(-x);
      DigitsValueOfNatToString(-y);
    } else {
      DigitsValueOfNatToString(x);
      DigitsValueOfNatToString(y);
    }
  }

  /**
   * `Integer.parseInt`: an optional '-' or '+' followed by at least one ASCII digit,
   * whose value must fit in 32 bits; anything else is a NumberFormatException (None).
   */
  function ParseInt(s: string): (r: Option<int>)
    ensures r.Some? ==> IsInt32(r.value)
    ensures r.Some? ==> |s| > 0
    ensures r.Some? ==> (|s| > 0 && AllDigits(s)) || (|s| > 1 && (s[0] == '-' || s[0] == '+') && AllDigits(s[1..]))
    ensures |s| > 0 && AllDigits(s) ==> r == if DigitsValue(s) <= INT_MAX then Some(DigitsValue(s)) else None
    ensures |s| > 1 && s[0] == '+' && AllDigits(s[1..]) ==>
      r == if DigitsValue(s[1..]) <= INT_MAX then Some(DigitsValue(s[1..])) else None
    ensures |s| > 1 && s[0] == '-' && AllDigits(s[1..]) ==>
      r == if DigitsValue(s[1..]) <= -INT_MIN then Some(-(DigitsValue(s[1..]) as int)) else None
  {
    var signed := |s| > 0 && (s[0] == '-' || s[0] == '+');
    var digits := if signed then s[1..] else s;
    if digits == [] || !AllDigits(digits) then None
    else
      var magnitude: int := DigitsValue(digits);
      var v := if signed && s[0] == '-' then -magnitude else magnitude;
      if IsInt32(v) then Some(v) else None
  }

  /** Text `%d` never writes still parses: a plus sign and leading zeros are accepted, a lone sign is not. */
  lemma ParseIntNonCanonical()
    ensures ParseInt("+5") == Some(5) && ParseInt("007") == Some(7) && ParseInt("-0") == Some(0)
    ensures ParseInt("-") == None && ParseInt("+") == None && ParseInt("") == None
    ensures ParseInt("5a") == None && ParseInt(" 5") == None
  {
    assert ParseInt("+5") == Some(DigitsValue("5"));
    assert ParseInt("007") == Some(DigitsValue("007"));
    assert DigitsValue("007") == DigitsValue("00") * 10 + 7;
    assert !IsDigit('a') && !IsDigit(' ');
  }

  /** Every 32-bit value that `%d` writes is read back by `Integer.parseInt` as itself. */
  lemma ParseIntOfIntToString(x: int)
    requires IsInt32(x)
    ensures ParseInt(IntToString(x)) == Some(x)
  {
    var s := IntToString(x);
    if x < 0 {
      assert s[1..] == NatToString(-x);
      DigitsValueOfNatToString(-x);
    } else {
      assert IsDigit(s[0]);
      DigitsValueOfNatToString(x);
    }
  }
}
