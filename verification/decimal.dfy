/**
 * Decimal text of integers, as written by `std::format("{}")` / `std::to_string` and read back
 * by `std::stol` / `std::stoul`. Shared by the RESP encoder, the error formatter and the
 * socket-address text.
 */
module Decimal {
  import opened Wrappers

  predicate IsDigit(c: char) { '0' <= c <= '9' }

  predicate AllDigits(s: string) { forall i :: 0 <= i < |s| ==> IsDigit(s[i]) }

  function DigitChar(d: nat): (c: char)
    requires d < 10
    ensures IsDigit(c) && c as int - '0' as int == d
  {
    (d + '0' as int) as char
  }

  /** Shortest decimal text of `n`, without sign or leading zeros. */
  function NatToDecimal(n: nat): (s: string)
    ensures 1 <= |s| && AllDigits(s)
    ensures |s| > 1 ==> s[0] != '0'
  {
    if n < 10 then [DigitChar(n)] else NatToDecimal(n / 10) + [DigitChar(n % 10)]
  }

  /** The number a non-empty digit string denotes. */
  function DigitsValue(s: string): nat
    requires AllDigits(s)
  {
    if s == [] then 0 else 10 * DigitsValue(s[..|s| - 1]) + (s[|s| - 1] as int - '0' as int)
  }

  lemma {:induction false} DigitsValueOfDecimal(n: nat)
    ensures DigitsValue(NatToDecimal(n)) == n
  {
    if n >= 10 {
      var s := NatToDecimal(n);
      assert s[..|s| - 1] == NatToDecimal(n / 10);
      DigitsValueOfDecimal(n / 10);
    }
  }

  /** Text of a signed integer: a '-' before the magnitude when negative. */
  function IntToDecimal(i: int): (s: string)
    ensures i < 0 <==> (|s| > 0 && s[0] == '-')
  {
    if i < 0 then "-" + NatToDecimal(-i) else NatToDecimal(i)
  }

  /** Length of the longest all-digit prefix of `s`. */
  function DigitRun(s: string): (k: nat)
    ensures k <= |s| && AllDigits(s[..k])
    ensures k < |s| ==> !IsDigit(s[k])
  {
    if s == [] || !IsDigit(s[0]) then 0
    else
      var k := 1 + DigitRun(s[1..]);
      assert s[..k] == [s[0]] + s[1..][..k - 1];
      k
  }

  /**
   * `std::stol`: an optional sign followed by at least one digit, read up to the first
   * non-digit; anything else fails (the source throws `invalid_argument`).
   * Leading white space, which `stol` would skip, never occurs where the model calls this.
   */
  function ParseLeadingInt(s: string): (r: Option<int>)
    ensures r.Some? ==> |s| > 0
  {
    var neg := |s| > 0 && s[0] == '-';
    var start := if |s| > 0 && (s[0] == '-' || s[0] == '+') then 1 else 0;
    var k := DigitRun(s[start..]);
    if k == 0 then None
    else
      var v: int := DigitsValue(s[start..][..k]);
      Some(if neg then -v else v)
  }

  /** Reading the decimal text of an integer, followed by any non-digit text, gives it back. */
  lemma ParseIntToDecimal(i: int, rest: string)
    requires rest == [] || !IsDigit(rest[0])
    ensures ParseLeadingInt(IntToDecimal(i) + rest) == Some(i)
  {
    if i < 0 {
      ParseNegative(-i, rest);
    } else {
      ParseNonNegative(i, rest);
    }
  }

  lemma ParseNonNegative(m: nat, rest: string)
    requires rest == [] || !IsDigit(rest[0])
    ensures ParseLeadingInt(NatToDecimal(m) + rest) == Some(m)
  {
    var d := NatToDecimal(m);
    var s := d + rest;
    assert s[0] == d[0] && IsDigit(d[0]);
    assert s[0..] == s;
    DigitsAfterSign(s, d, rest);
    DigitsValueOfDecimal(m);
  }

  lemma ParseNegative(m: nat, rest: string)
    requires rest == [] || !IsDigit(rest[0])
    ensures ParseLeadingInt("-" + NatToDecimal(m) + rest) == Some(-(m as int))
  {
    var d := NatToDecimal(m);
    var s := "-" + d + rest;
    assert s[0] == '-';
    assert s[1..] == d + rest;
    DigitsAfterSign(s[1..], d, rest);
    DigitsValueOfDecimal(m);
    assert DigitsValue(s[1..][..DigitRun(s[1..])]) == m;
  }

  /** The digit run at the front of `d + rest` is `d` itself. */
  lemma DigitsAfterSign(t: string, d: string, rest: string)
    requires AllDigits(d) && 1 <= |d| && t == d + rest
    requires rest == [] || !IsDigit(rest[0])
    ensures DigitRun(t) == |d| && t[..DigitRun(t)] == d
  {
    DigitRunOf(d, rest);
    assert t[..|d|] == d;
  }

  lemma {:induction false} DigitRunOf(d: string, rest: string)
    requires AllDigits(d)
    requires rest == [] || !IsDigit(rest[0])
    ensures DigitRun(d + rest) == |d|
  {
    if d != [] {
      assert (d + rest)[1..] == d[1..] + rest;
      DigitRunOf(d[1..], rest);
    } else {
      assert d + rest == rest;
    }
  }
}
