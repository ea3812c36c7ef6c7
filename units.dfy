/**
  Quantity parsing of units.go: an ether amount written in decimal becomes an
  integer number of wei (10^18 wei to the ether).  The fraction is cut or
  zero-filled to exactly 18 digits by `PadRight` before it is read.

  `strings.Split` and `big.Int.SetString(s, 10)` are library calls; they are
  modelled by `Split` and `IntegerValue` below.
 */
module Units {
  import opened Decimal

  /** `int64(math.Pow(10, 18))`: 10^18 is exact in a float64 and fits an int64. */
  const WeiPerEth: int := 1000000000000000000

  lemma WeiPerEthIsPow10()
    ensures WeiPerEth == Pow10(18)
  {
    assert Pow10(6) == 1000000;
    assert Pow10(12) == 1000000 * Pow10(6) by {
      Pow10Add(6, 6);
    }
    Pow10Add(6, 12);
  }

  lemma {:induction false} Pow10Add(a: nat, b: nat)
    ensures Pow10(a + b) == Pow10(a) * Pow10(b)
  {
    if a > 0 {
      Pow10Add(a - 1, b);
    }
  }

  // ---------------------------------------------------------------------
  // strings.Split on a one-character separator
  // ---------------------------------------------------------------------

  /** The pieces of `s` between occurrences of `sep`, in order; a string
      without `sep` (the empty one included) is one piece. */
  function Split(s: string, sep: char): (parts: seq<string>)
    ensures |parts| >= 1
    ensures forall k :: 0 <= k < |parts| ==> sep !in parts[k]
  {
    if s == [] then [""]
    else
      var rest := Split(s[1..], sep);
      if s[0] == sep then [""] + rest
      else [[s[0]] + rest[0]] + rest[1..]
  }

  /** The pieces glued back with `sep` between neighbours. */
  function Join(parts: seq<string>, sep: char): string
    requires |parts| >= 1
  {
    if |parts| == 1 then parts[0] else parts[0] + [sep] + Join(parts[1..], sep)
  }

  /** Joining the pieces gives back the split string. */
  lemma {:induction false} SplitJoin(s: string, sep: char)
    ensures Join(Split(s, sep), sep) == s
  {
    if s != [] {
      SplitJoin(s[1..], sep);
      var rest := Split(s[1..], sep);
      if s[0] != sep && |rest| > 1 {
        assert ([[s[0]] + rest[0]] + rest[1..])[1..] == rest[1..];
      }
    }
  }

  /** A string without the separator is a single piece. */
  lemma {:induction false} SplitNone(s: string, sep: char)
    requires sep !in s
    ensures Split(s, sep) == [s]
  {
    if s != [] {
      SplitNone(s[1..], sep);
      assert [s[0]] + s[1..] == s;
    }
  }

  /** The first piece ends at the first separator; the rest splits on its own. */
  lemma {:induction false} SplitAfter(a: string, rest: string, sep: char)
    requires sep !in a
    ensures Split(a + [sep] + rest, sep) == [a] + Split(rest, sep)
  {
    if a == [] {
      assert a + [sep] + rest == [sep] + rest;
    } else {
      SplitAfter(a[1..], rest, sep);
      assert (a + [sep] + rest)[1..] == a[1..] + [sep] + rest;
      assert [a[0]] + a[1..] == a;
    }
  }

  // ---------------------------------------------------------------------
  // PadRight
  // ---------------------------------------------------------------------

  /** `k` copies of `pad`, one after the other. */
  function Repeat(pad: string, k: nat): (r: string)
    ensures k > 0 ==> |r| >= |pad|
  {
    if k == 0 then [] else pad + Repeat(pad, k - 1)
  }

  lemma {:induction false} RepeatSnoc(pad: string, k: nat)
    ensures Repeat(pad, k) + pad == Repeat(pad, k + 1)
  {
    if k > 0 {
      RepeatSnoc(pad, k - 1);
      assert Repeat(pad, k) + pad == pad + (Repeat(pad, k - 1) + pad);
    }
  }

  /** The first `n` characters of `pad` written over and over. */
  function Cycle(pad: string, n: nat): (r: string)
    requires |pad| > 0
    ensures |r| == n
    decreases n
  {
    if n <= |pad| then pad[..n] else pad + Cycle(pad, n - |pad|)
  }

  /** Every long enough run of copies of `pad` begins with the cycle. */
  lemma {:induction false} RepeatPrefix(pad: string, k: nat, n: nat)
    requires |pad| > 0 && n <= |Repeat(pad, k)|
    ensures Repeat(pad, k)[..n] == Cycle(pad, n)
  {
    if k > 0 {
      var tail := Repeat(pad, k - 1);
      if n > |pad| {
        RepeatPrefix(pad, k - 1, n - |pad|);
        assert (pad + tail)[..n] == pad + tail[..n - |pad|];
      } else {
        assert (pad + tail)[..n] == pad[..n];
      }
    }
  }

  /** A one-character pad cycles into a run of that character. */
  lemma {:induction false} CycleOneChar(c: char, n: nat)
    ensures Cycle([c], n) == Fill(c, n)
  {
    if n > 1 {
      CycleOneChar(c, n - 1);
      assert Fill(c, n) == [c] + Fill(c, n - 1);
    } else if n == 1 {
      assert Fill(c, 1) == [c];
    }
  }

  /** What `PadRight(str, pad, length)` returns: `str` cut to `length`
      characters when it has at least that many, and otherwise `str` followed
      by `pad` written over and over up to `length` characters.  It needs a
      length of at least 0 (a negative one makes the final slice panic) and a
      non-empty pad unless `str` is already longer than `length` (the loop
      would never end). */
  function Padded(str: string, pad: string, length: int): (r: string)
    requires length >= 0 && (|pad| > 0 || |str| > length)
    ensures |r| == length
    ensures |str| >= length ==> r == str[..length]
    ensures |str| <= length ==> r[..|str|] == str
  {
    if |str| >= length then str[..length] else str + Cycle(pad, length - |str|)
  }

  /** With a one-character pad, a short string gains exactly the missing
      number of pad characters. */
  lemma PaddedOneChar(str: string, c: char, length: int)
    requires 0 <= |str| <= length
    ensures Padded(str, [c], length) == str + Fill(c, length - |str|)
  {
    if |str| == length {
      assert Fill(c, 0) == [];
    } else {
      CycleOneChar(c, length - |str|);
    }
  }

  /** Appends `pad` to `str` until it is longer than `length`, then keeps the
      first `length` characters. */
  method PadRight(str: string, pad: string, length: int) returns (r: string)
    requires length >= 0 && (|pad| > 0 || |str| > length)
    ensures r == Padded(str, pad, length)
  {
    var s := str;
    ghost var k: nat := 0;
    while true
      invariant s == str + Repeat(pad, k)
      invariant k == 0 || |s| <= length
      invariant k > 0 ==> |pad| > 0
      decreases length + 1 - |s|
    {
      RepeatSnoc(pad, k);
      s := s + pad;
      k := k + 1;
      if |s| > length {
        if |str| < length {
          RepeatPrefix(pad, k, length - |str|);
          assert s[..length] == str + Repeat(pad, k)[..length - |str|];
        }
        return s[..length];
      }
    }
  }

  // ---------------------------------------------------------------------
  // parseEtherFloatToWei
  // ---------------------------------------------------------------------

  /** What `big.Int.SetString(s, 10)` accepts: an optional sign, then at
      least one decimal digit. */
  predicate IsInteger(s: string) {
    || (|s| >= 1 && IsDigits(s))
    || (|s| >= 2 && (s[0] == '+' || s[0] == '-') && IsDigits(s[1..]))
  }

  /** The value `SetString` gives an integer literal. */
  function IntegerValue(s: string): (v: int)
    requires IsInteger(s)
    ensures IsDigits(s) ==> v == DigitsValue(s)
    ensures s[0] == '-' ==> v == -(DigitsValue(s[1..]) as int)
    ensures s[0] == '+' ==> v == DigitsValue(s[1..])
  {
    if s[0] == '-' then -(DigitsValue(s[1..]) as int)
    else if s[0] == '+' then DigitsValue(s[1..])
    else DigitsValue(s)
  }

  /** The digit string read as the ether part: "0" when it is empty. */
  function EtherPart(parts: seq<string>): string
    requires |parts| >= 1
  {
    if parts[0] == "" then "0" else parts[0]
  }

  /** The digit string read as the wei part: the second piece padded or cut
      to 18 digits when the amount has exactly one dot, and "0" otherwise. */
  function WeiPart(parts: seq<string>): string
    requires |parts| >= 1
  {
    if |parts| == 2 then Padded(parts[1], "0", 18) else "0"
  }

  /** The amounts whose two digit strings `SetString` accepts; for any
      other the source leaves the parsed value undefined. */
  predicate Parsable(amount: string) {
    var parts := Split(amount, '.');
    IsInteger(EtherPart(parts)) && IsInteger(WeiPart(parts))
  }

  /** The number of wei `parseEtherFloatToWei` computes. */
  function WeiValue(amount: string): int
    requires Parsable(amount)
  {
    var parts := Split(amount, '.');
    WeiPerEth * IntegerValue(EtherPart(parts)) + IntegerValue(WeiPart(parts))
  }

  /** Splits on ".", pads or cuts the fraction to 18 digits, reads both digit
      strings and returns ether * 10^18 + wei. */
  method ParseEtherFloatToWei(amount: string) returns (total: int)
    requires Parsable(amount)
    ensures total == WeiValue(amount)
  {
    var parts := Split(amount, '.');
    var weiStr := "0";
    if |parts| == 2 {
      weiStr := PadRight(parts[1], "0", 18);
    }
    var wei := IntegerValue(weiStr);

    if parts[0] == "" {
      parts := parts[0 := "0"];
    }
    var ether := IntegerValue(parts[0]);

    total := WeiPerEth;
    total := total * ether;
    total := total + wei;
  }

  /** The wei an unsigned fraction `f` stands for: its first 18 digits, or all
      of them scaled up to 18 digits. */
  function FractionWei(f: string): (w: nat)
    requires IsDigits(f)
    ensures w < WeiPerEth
  {
    if |f| <= 18 then
      PowerScale(f);
      DigitsValue(f) * Pow10(18 - |f|)
    else
      assert IsDigits(f[..18]);
      WeiPerEthIsPow10();
      DigitsValue(f[..18])
  }

  lemma PowerScale(f: string)
    requires IsDigits(f) && |f| <= 18
    ensures DigitsValue(f) * Pow10(18 - |f|) < WeiPerEth
  {
    var n := |f|;
    ScaleToWei(n);
    MulBelow(DigitsValue(f), Pow10(n), Pow10(18 - n));
  }

  lemma ScaleToWei(n: nat)
    requires n <= 18
    ensures Pow10(n) * Pow10(18 - n) == WeiPerEth
  {
    Pow10Add(n, 18 - n);
    WeiPerEthIsPow10();
  }

  lemma MulBelow(a: nat, b: nat, c: nat)
    requires a < b && c > 0
    ensures a * c < b * c
  {
  }

  /** A fraction of up to 18 digits is zero-filled, a longer one is cut. */
  lemma FractionPadded(f: string)
    requires IsDigits(f)
    ensures IsDigits(Padded(f, "0", 18))
    ensures DigitsValue(Padded(f, "0", 18)) == FractionWei(f)
  {
    if |f| <= 18 {
      PaddedOneChar(f, '0', 18);
      TrailingZeros(f, 18 - |f|);
    } else {
      assert IsDigits(f[..18]);
    }
  }

  /** "I.F" with unsigned digit strings `I` (possibly empty) and `F` is I
      ether plus the first 18 fraction digits, zero-filled. */
  lemma WeiOfDecimal(i: string, f: string)
    requires IsDigits(i) && IsDigits(f)
    ensures Parsable(i + "." + f)
    ensures WeiValue(i + "." + f) == DigitsValue(i) * WeiPerEth + FractionWei(f)
  {
    assert '.' !in i by {
      assert !IsDigit('.');
    }
    WeiOfSplit(i, f);
  }

  /** An amount with one dot and an unsigned fraction: the ether part as
      `SetString` reads it, plus the fraction's wei. */
  lemma WeiOfSplit(e: string, f: string)
    requires '.' !in e && IsDigits(f)
    requires IsInteger(EtherPart([e]))
    ensures Parsable(e + "." + f)
    ensures WeiValue(e + "." + f) == WeiPerEth * IntegerValue(EtherPart([e])) + FractionWei(f)
  {
    assert '.' !in f by {
      assert !IsDigit('.');
    }
    SplitAfter(e, f, '.');
    SplitNone(f, '.');
    FractionPadded(f);
  }

  /** An amount without a dot is a whole number of ether. */
  lemma WholeEther(i: string)
    requires IsDigits(i)
    ensures Parsable(i)
    ensures WeiValue(i) == DigitsValue(i) * WeiPerEth
  {
    assert '.' !in i by {
      assert !IsDigit('.');
    }
    SplitNone(i, '.');
  }

  /** With a second dot the whole fraction is dropped, not just what follows
      the second dot. */
  lemma ExtraDotDropsFraction(i: string, f: string, rest: string)
    requires IsDigits(i) && IsDigits(f)
    ensures Parsable(i + "." + f + "." + rest)
    ensures WeiValue(i + "." + f + "." + rest) == DigitsValue(i) * WeiPerEth
  {
    assert '.' !in i && '.' !in f by {
      assert !IsDigit('.');
    }
    var tail := f + ['.'] + rest;
    var amount := i + ['.'] + tail;
    assert i + "." + f + "." + rest == amount;
    SplitAfter(f, rest, '.');
    SplitAfter(i, tail, '.');
    var parts := Split(amount, '.');
    assert parts == [i, f] + Split(rest, '.');
    assert WeiPart(parts) == "0" && IntegerValue("0") == 0;
    assert IntegerValue(EtherPart(parts)) == DigitsValue(i);
  }

  /** A sign is read with the ether digits only: the fraction is still added,
      so "-I.F" is -I ether plus F. */
  lemma SignedEtherPart(i: string, f: string)
    requires |i| >= 1 && IsDigits(i) && IsDigits(f)
    ensures Parsable("-" + i + "." + f)
    ensures WeiValue("-" + i + "." + f) == -(DigitsValue(i) * WeiPerEth) + FractionWei(f)
  {
    var e := "-" + i;
    assert '.' !in e by {
      assert !IsDigit('.');
    }
    assert e[1..] == i;
    WeiOfSplit(e, f);
  }

  /** Dividing by 10^18 recovers the ether digits and the remainder the
      18-digit fraction. */
  lemma WeiDivMod(i: string, f: string)
    requires IsDigits(i) && IsDigits(f)
    ensures Parsable(i + "." + f)
    ensures WeiValue(i + "." + f) / WeiPerEth == DigitsValue(i)
    ensures WeiValue(i + "." + f) % WeiPerEth == FractionWei(f)
  {
    WeiOfDecimal(i, f);
    DivModUnique(DigitsValue(i), FractionWei(f), WeiPerEth);
  }

  lemma DivModUnique(q: int, r: int, p: int)
    requires p > 0 && 0 <= r < p
    ensures (q * p + r) / p == q && (q * p + r) % p == r
  {
    var n := q * p + r;
    var q', r' := n / p, n % p;
    assert (q - q') * p == r' - r;
    if q > q' {
      MulAtLeast(q - q', p);
    } else if q < q' {
      MulAtLeast(q' - q, p);
    }
  }

  lemma MulAtLeast(a: int, p: int)
    requires a >= 1 && p > 0
    ensures a * p >= p
  {
  }

  /** The canonical rendering of a wei amount: whole ether, a dot, then the
      18-digit fraction. */
  function FormatWei(n: nat): (s: string)
    ensures |s| >= 20 && s[|s| - 19] == '.'
  {
    NatToDigits(n / WeiPerEth) + "." + FixedDigits(n % WeiPerEth, 18)
  }

  /** Parsing the rendering of a wei amount gives the amount back. */
  lemma ParseFormatWei(n: nat)
    ensures Parsable(FormatWei(n))
    ensures WeiValue(FormatWei(n)) == n
  {
    var p := WeiPerEth;
    var f := FixedDigits(n % p, 18);
    WeiOfDecimal(NatToDigits(n / p), f);
    WeiPerEthIsPow10();
    FixedDigitsValue(n % p, 18);
  }

  /** An amount written with canonical ether digits and exactly 18 fraction
      digits is the rendering of what it parses to. */
  lemma FormatParsedWei(m: nat, f: string)
    requires IsDigits(f) && |f| == 18
    ensures Parsable(NatToDigits(m) + "." + f)
    ensures WeiValue(NatToDigits(m) + "." + f) >= 0
    ensures FormatWei(WeiValue(NatToDigits(m) + "." + f)) == NatToDigits(m) + "." + f
  {
    WeiDivMod(NatToDigits(m), f);
    FixedDigitsOfValue(f);
  }

  /** Unit test: "0.000000000000000001" (seventeen zeros, then a one) is one wei. */
  lemma ParsesOneWei()
    ensures Parsable("0." + Fill('0', 17) + "1")
    ensures WeiValue("0." + Fill('0', 17) + "1") == 1
  {
    var f := Fill('0', 17) + "1";
    LeadingZeros(17, "1");
    assert "0." + Fill('0', 17) + "1" == "0" + "." + f;
    WeiOfDecimal("0", f);
  }

  /** Unit test: "0.999999999999999999" (eighteen nines) is one wei short of
      an ether. */
  lemma ParsesLargestFraction()
    ensures Parsable("0." + Fill('9', 18)) && WeiValue("0." + Fill('9', 18)) == 999999999999999999
  {
    var f := Fill('9', 18);
    AllNines(18);
    WeiPerEthIsPow10();
    assert "0." + f == "0" + "." + f;
    WeiOfDecimal("0", f);
  }

  /** An empty ether part reads as "0". */
  lemma EmptyEtherPart(f: string)
    requires IsDigits(f)
    ensures Parsable("." + f) && Parsable("0." + f)
    ensures WeiValue("." + f) == WeiValue("0." + f)
  {
    assert "." + f == "" + "." + f;
    assert "0." + f == "0" + "." + f;
    WeiOfDecimal("", f);
    WeiOfDecimal("0", f);
  }

  /** Unit test: ".999999999999999999", without the "0", is the same amount. */
  lemma ParsesBareFraction()
    ensures Parsable("." + Fill('9', 18)) && WeiValue("." + Fill('9', 18)) == 999999999999999999
  {
    ParsesLargestFraction();
    EmptyEtherPart(Fill('9', 18));
  }

  /** Unit test: eighteen nines on both sides of the dot. */
  lemma ParsesLargeAmount()
    ensures Parsable(Fill('9', 18) + "." + Fill('9', 18))
    ensures WeiValue(Fill('9', 18) + "." + Fill('9', 18)) == 999999999999999999999999999999999999
  {
    var f := Fill('9', 18);
    AllNines(18);
    WeiPerEthIsPow10();
    WeiOfDecimal(f, f);
  }

  /** Leading zeros do not change the value of a digit string. */
  lemma {:induction false} LeadingZeros(k: nat, s: string)
    requires IsDigits(s)
    ensures IsDigits(Fill('0', k) + s)
    ensures DigitsValue(Fill('0', k) + s) == DigitsValue(s)
  {
    var t := Fill('0', k) + s;
    if s == [] {
      assert t == Fill('0', k);
      AllZeros(k);
    } else {
      var init := s[..|s| - 1];
      LeadingZeros(k, init);
      assert t[..|t| - 1] == Fill('0', k) + init;
    }
  }

  lemma {:induction false} AllZeros(k: nat)
    ensures DigitsValue(Fill('0', k)) == 0
  {
    if k > 0 {
      AllZeros(k - 1);
      assert Fill('0', k)[..k - 1] == Fill('0', k - 1);
    }
  }

  /** `k` nines are 10^k - 1. */
  lemma {:induction false} AllNines(k: nat)
    ensures DigitsValue(Fill('9', k)) == Pow10(k) - 1
  {
    if k > 0 {
      AllNines(k - 1);
      assert Fill('9', k)[..k - 1] == Fill('9', k - 1);
    }
  }
}
