/**
  Decimal digit strings: their value (what `big.Int.SetString(s, 10)` computes
  for a digit string) and the rendering of integers that `fmt.Sprintf("%d")`
  produces.  Shared by the posting memo and the quantity parser.
 */
module Decimal {

  function Pow10(n: nat): (p: nat)
    ensures p >= 1
  {
    if n == 0 then 1 else 10 * Pow10(n - 1)
  }

  predicate IsDigit(c: char) {
    '0' <= c <= '9'
  }

  predicate IsDigits(s: string) {
    forall i :: 0 <= i < |s| ==> IsDigit(s[i])
  }

  function DigitValue(c: char): nat
    requires IsDigit(c)
  {
    (c - '0') as nat
  }

  function DigitChar(d: nat): (c: char)
    requires d < 10
    ensures IsDigit(c) && DigitValue(c) == d
  {
    ('0' as int + d) as char
  }

  /** The number a digit string denotes, most significant digit first; "" denotes 0. */
  function DigitsValue(s: string): (v: nat)
    requires IsDigits(s)
    ensures v < Pow10(|s|)
  {
    if s == [] then 0
    else DigitsValue(s[..|s| - 1]) * 10 + DigitValue(s[|s| - 1])
  }

  /** `n` copies of the character `c`. */
  function Fill(c: char, n: nat): (r: string)
    ensures |r| == n && forall i :: 0 <= i < n ==> r[i] == c
  {
    seq(n, _ => c)
  }

  /** Appending `k` zero digits multiplies the value by 10^k. */
  lemma {:induction false} TrailingZeros(s: string, k: nat)
    requires IsDigits(s)
    ensures IsDigits(s + Fill('0', k))
    ensures DigitsValue(s + Fill('0', k)) == DigitsValue(s) * Pow10(k)
  {
    if k == 0 {
      assert s + Fill('0', k) == s;
    } else {
      var shorter := s + Fill('0', k - 1);
      TrailingZeros(s, k - 1);
      var t := s + Fill('0', k);
      assert t == shorter + ['0'];
      assert t[..|t| - 1] == shorter;
      var a, p := DigitsValue(s), Pow10(k - 1);
      assert DigitsValue(t) == a * p * 10;
      ShiftProduct(a, p);
      assert Pow10(k) == 10 * p;
    }
  }

  lemma ShiftProduct(a: nat, p: nat)
    ensures a * p * 10 == a * (10 * p)
  {
  }

  /** The shortest decimal rendering of a natural number. */
  function NatToDigits(n: nat): (r: string)
    ensures |r| >= 1 && IsDigits(r)
    ensures DigitsValue(r) == n
    ensures n == 0 ==> r == "0"
    ensures n > 0 ==> r[0] != '0'
  {
    if n < 10 then [DigitChar(n)]
    else
      var r := NatToDigits(n / 10) + [DigitChar(n % 10)];
      assert r[..|r| - 1] == NatToDigits(n / 10);
      r
  }

  /** A digit string without a leading zero is the rendering of its own
      value, so `NatToDigits` is the only such rendering. */
  lemma {:induction false} NatToDigitsCanonical(s: string)
    requires IsDigits(s) && s != [] && (|s| == 1 || s[0] != '0')
    ensures NatToDigits(DigitsValue(s)) == s
  {
    var last := s[|s| - 1];
    assert DigitChar(DigitValue(last)) == last;
    if |s| > 1 {
      var init := s[..|s| - 1];
      NatToDigitsCanonical(init);
      var v := DigitsValue(s);
      assert DigitsValue(init) != 0 by {
        assert init[0] == s[0] && NatToDigits(0) == "0";
      }
      assert v / 10 == DigitsValue(init) && v % 10 == DigitValue(last);
      assert s == init + [last];
    }
  }

  /** `fmt.Sprintf("%d", n)`: a minus sign before the digits of a negative number. */
  function FormatInt(n: int): (r: string)
    ensures n >= 0 ==> IsDigits(r) && DigitsValue(r) == n
    ensures n < 0 ==> |r| >= 2 && r[0] == '-' && IsDigits(r[1..]) && DigitsValue(r[1..]) == -n
    ensures n == 0 ==> r == "0"
    ensures n > 0 ==> r[0] != '0'
    ensures n < 0 ==> r[1] != '0'
  {
    if n < 0 then
      var r := "-" + NatToDigits(-n);
      assert r[1..] == NatToDigits(-n);
      r
    else NatToDigits(n)
  }

  /** Exactly `k` digits: the value of `n` modulo 10^k, zero-padded on the left. */
  function FixedDigits(n: nat, k: nat): (r: string)
    ensures |r| == k && IsDigits(r)
  {
    if k == 0 then []
    else FixedDigits(n / 10, k - 1) + [DigitChar(n % 10)]
  }

  /** Reading a fixed-width rendering of a number below 10^k back gives the number. */
  lemma {:induction false} FixedDigitsValue(n: nat, k: nat)
    requires n < Pow10(k)
    ensures DigitsValue(FixedDigits(n, k)) == n
  {
    if k > 0 {
      var r := FixedDigits(n, k);
      assert r[..k - 1] == FixedDigits(n / 10, k - 1);
      assert Pow10(k) == 10 * Pow10(k - 1);
      FixedDigitsValue(n / 10, k - 1);
    }
  }

  /** A digit string of length `k` is the fixed-width rendering of its own value. */
  lemma {:induction false} FixedDigitsOfValue(s: string)
    requires IsDigits(s)
    ensures FixedDigits(DigitsValue(s), |s|) == s
  {
    if s != [] {
      var init := s[..|s| - 1];
      FixedDigitsOfValue(init);
      var v := DigitsValue(s);
      assert v / 10 == DigitsValue(init);
      assert v % 10 == DigitValue(s[|s| - 1]);
      assert DigitChar(DigitValue(s[|s| - 1])) == s[|s| - 1];
      assert s == init + [s[|s| - 1]];
    }
  }
}
