/**
 * Decimal text of integers: Python's `str(n)` for an `int`, and the part of
 * `int(s)` the number route relies on (an optional sign and ASCII digits).
 */
module Decimal {
  import opened Wrappers

  predicate IsDigit(c: char) {
    '0' <= c <= '9'
  }

  predicate IsSign(c: char) {
    c == '+' || c == '-'
  }

  /** Every character is an ASCII decimal digit (vacuously true of ""). */
  predicate AllDigits(s: string) {
    forall i :: 0 <= i < |s| ==> IsDigit(s[i])
  }

  function DigitChar(d: nat): (c: char)
    requires d < 10
    ensures IsDigit(c)
    ensures c as int - '0' as int == d
  {
    ('0' as int + d) as char
  }

  function DigitValue(c: char): (d: nat)
    requires IsDigit(c)
    ensures d < 10
  {
    c as int - '0' as int
  }

  lemma AllDigitsAppend(a: string, b: string)
    requires AllDigits(a) && AllDigits(b)
    ensures AllDigits(a + b)
  {
    forall i | 0 <= i < |a + b|
      ensures IsDigit((a + b)[i])
    {
      if i < |a| {
        assert (a + b)[i] == a[i];
      } else {
        assert (a + b)[i] == b[i - |a|];
      }
    }
  }

  /** The value of a digit string read most significant digit first; "" reads as 0. */
  function DigitsValue(s: string): nat
    requires AllDigits(s)
  {
    if |s| == 0 then 0 else DigitsValue(s[..|s| - 1]) * 10 + DigitValue(s[|s| - 1])
  }

  /** `n` zero characters. */
  function Zeros(n: nat): (z: string)
    ensures |z| == n && AllDigits(z)
    ensures forall i :: 0 <= i < n ==> z[i] == '0'
  {
    seq(n, _ => '0')
  }

  /**
   * Python's `str(n)` for `n >= 0`: the shortest decimal spelling, with no
   * leading zero except for 0 itself, whose digits read back as `n`.
   */
  function NatToDecimal(n: nat): (s: string)
    ensures |s| > 0 && AllDigits(s)
    ensures s[0] == '0' ==> n == 0 && |s| == 1
    ensures DigitsValue(s) == n
    decreases n
  {
    if n < 10 then
      [DigitChar(n)]
    else
      var prefix := NatToDecimal(n / 10);
      var s := prefix + [DigitChar(n % 10)];
      assert s[..|s| - 1] == prefix;
      s
  }

  /** Python's `str(i)` for any `int`: a '-' before the magnitude when negative. */
  function IntToDecimal(i: int): (s: string)
    ensures i >= 0 ==> s == NatToDecimal(i)
    ensures i < 0 ==> |s| > 1 && s[0] == '-' && s[1..] == NatToDecimal(-i)
  {
    if i < 0 then "-" + NatToDecimal(-i) else NatToDecimal(i)
  }

  /**
   * The strings `ParseInt` accepts, stated character by character: non-empty,
   * and every character a digit except that the first may be a sign when
   * something follows it.
   */
  predicate IsIntLiteral(s: string) {
    && |s| > 0
    && (forall i :: 0 <= i < |s| ==> IsDigit(s[i]) || (i == 0 && IsSign(s[i]) && |s| > 1))
  }

  /**
   * `int(s)` restricted to an optional '+' or '-' followed by at least one
   * ASCII digit; leading zeros are accepted, anything else is rejected.
   */
  function ParseInt(s: string): (r: Option<int>)
    ensures r.Some? <==> IsIntLiteral(s)
    ensures r.Some? && r.value < 0 ==> s[0] == '-'
    ensures r.Some? && IsDigit(s[0]) ==> AllDigits(s) && r.value == DigitsValue(s)
    ensures r.Some? && IsSign(s[0]) ==>
              AllDigits(s[1..]) && r.value == (if s[0] == '-' then 0 - DigitsValue(s[1..]) else DigitsValue(s[1..]))
  {
    if |s| > 1 && IsSign(s[0]) && AllDigits(s[1..]) then
      var magnitude: int := DigitsValue(s[1..]);
      Some(if s[0] == '-' then -magnitude else magnitude)
    else if |s| > 0 && AllDigits(s) then
      Some(DigitsValue(s))
    else
      None
  }

  /** `int(str(i)) == i`: the decimal spelling parses back to the same integer. */
  lemma ParseIntOfDecimal(i: int)
    ensures ParseInt(IntToDecimal(i)) == Some(i)
  {
    if i < 0 {
      var d := NatToDecimal(-i);
      assert ("-" + d)[1..] == d;
    }
  }

  lemma {:induction false} DigitsValueAfterZeros(k: nat, t: string)
    requires AllDigits(t)
    ensures AllDigits(Zeros(k) + t)
    ensures DigitsValue(Zeros(k) + t) == DigitsValue(t)
    decreases |t| + k
  {
    AllDigitsAppend(Zeros(k), t);
    var s := Zeros(k) + t;
    if |t| == 0 {
      assert s == Zeros(k);
      if k > 0 {
        assert s[..|s| - 1] == Zeros(k - 1);
        DigitsValueAfterZeros(k - 1, t);
        assert Zeros(k - 1) + t == Zeros(k - 1);
      }
    } else {
      var init := t[..|t| - 1];
      assert s[..|s| - 1] == Zeros(k) + init;
      assert s[|s| - 1] == t[|t| - 1];
      DigitsValueAfterZeros(k, init);
    }
  }

  /** Leading zeros do not change the parsed value: `int("007") == 7`. */
  lemma ParseIntIgnoresLeadingZeros(k: nat, n: nat)
    ensures ParseInt(Zeros(k) + NatToDecimal(n)) == Some(n)
  {
    var s := Zeros(k) + NatToDecimal(n);
    DigitsValueAfterZeros(k, NatToDecimal(n));
    assert s[0] != '+' && s[0] != '-' by {
      if k > 0 { assert s[0] == Zeros(k)[0]; } else { assert s[0] == NatToDecimal(n)[0]; }
    }
  }

  /** A sign followed by digits parses to their value, negated after '-'. */
  lemma ParseIntOfSigned(c: char, t: string)
    requires IsSign(c) && |t| > 0 && AllDigits(t)
    ensures ParseInt([c] + t) == Some(if c == '-' then 0 - DigitsValue(t) else DigitsValue(t))
  {
    var s := [c] + t;
    assert s[0] == c && s[1..] == t;
  }

  /**
   * Every accepted spelling, an optional sign, any number of zeros and a
   * decimal, parses to that decimal's value, negated after '-':
   * "+7" is 7, "-007" is -7 and "-0" is 0.
   */
  lemma ParseIntOfSpelling(sign: string, k: nat, n: nat)
    requires sign == "" || sign == "+" || sign == "-"
    ensures ParseInt(sign + Zeros(k) + NatToDecimal(n)) == Some(if sign == "-" then 0 - n else n)
  {
    var t := Zeros(k) + NatToDecimal(n);
    assert sign + Zeros(k) + NatToDecimal(n) == sign + t;
    if sign == "" {
      ParseIntIgnoresLeadingZeros(k, n);
      assert sign + t == t;
    } else {
      DigitsValueAfterZeros(k, NatToDecimal(n));
      assert DigitsValue(t) == n;
      assert sign == [sign[0]];
      ParseIntOfSigned(sign[0], t);
    }
  }
}
