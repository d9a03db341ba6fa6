/** Numbers as big-endian digit sequences in a base, and how many digits of one base hold the
    numbers of another. */
module Positional {
  import opened Powers

  predicate DigitsIn(b: nat, s: seq<nat>) { forall i | 0 <= i < |s| :: s[i] < b }

  function Num(b: nat, s: seq<nat>): nat {
    if s == [] then 0 else Num(b, s[..|s| - 1]) * b + s[|s| - 1]
  }

  /** The digits of a number, without leading zeros. */
  function DigitsOf(b: nat, n: nat): (s: seq<nat>)
    requires b > 1
    ensures DigitsIn(b, s) && (s != [] ==> s[0] != 0) && (s == [] <==> n == 0)
  {
    if n == 0 then []
    else
      DivShrinks(n, b);
      DigitsOf(b, n / b) + [n % b]
  }

  lemma DivShrinks(n: nat, b: nat)
    requires b > 1 && n > 0
    ensures n / b < n
  {
    var q, r := n / b, n % b;
    assert n == q * b + r;
    AtMostHalf(q, b, n);
  }

  lemma AtMostHalf(q: nat, b: nat, n: nat)
    requires q * b <= n && b >= 2 && n > 0
    ensures q < n
  {
    MulMonotone(2, b, q);
  }

  /** The number of zeros at the beginning of a sequence. */
  function LeadingZeros(s: seq<nat>): (k: nat)
    ensures k <= |s| && (k < |s| ==> s[k] != 0) && forall i | 0 <= i < k :: s[i] == 0
  {
    if s == [] || s[0] != 0 then 0 else 1 + LeadingZeros(s[1..])
  }

  function Stripped(s: seq<nat>): seq<nat> { s[LeadingZeros(s)..] }

  lemma NumSnoc(b: nat, s: seq<nat>, x: nat)
    ensures Num(b, s + [x]) == Num(b, s) * b + x
  {
    assert (s + [x])[..|s|] == s;
  }

  lemma DigitsStep(b: nat, n: nat) returns (q: nat, r: nat)
    requires b > 1 && n > 0
    ensures n == q * b + r && q < n && DigitsOf(b, n) == DigitsOf(b, q) + [r]
  {
    DivShrinks(n, b);
    q, r := n / b, n % b;
  }

  lemma {:induction false} NumOfDigits(b: nat, n: nat)
    requires b > 1
    ensures Num(b, DigitsOf(b, n)) == n
  {
    if n == 0 {
      assert Num(b, []) == 0;
    } else {
      hide Num, DigitsOf;
      var q, r := DigitsStep(b, n);
      NumOfDigits(b, q);
      NumSnoc(b, DigitsOf(b, q), r);
    }
  }

  lemma {:induction false} NumBound(b: nat, s: seq<nat>)
    requires b > 0 && DigitsIn(b, s)
    ensures Num(b, s) < Pow(b, |s|)
  {
    hide Pow;
    if s == [] {
      PowBase(b);
    } else {
      var n := |s| - 1;
      NumBound(b, s[..n]);
      PowAdd(b, n, 1);
      PowBase(b);
      LeadingDigit(b, Num(b, s[..n]), s[n], Pow(b, n));
    }
  }

  lemma PowBase(b: nat)
    ensures Pow(b, 0) == 1 && Pow(b, 1) == b
  {
  }

  lemma {:induction false} NumOfZeros(b: nat, s: seq<nat>)
    requires forall i | 0 <= i < |s| :: s[i] == 0
    ensures Num(b, s) == 0
  {
    if s != [] { NumOfZeros(b, s[..|s| - 1]); }
  }

  lemma {:induction false} NumAppend(b: nat, s: seq<nat>, t: seq<nat>)
    ensures Num(b, s + t) == Num(b, s) * Pow(b, |t|) + Num(b, t)
  {
    hide Pow;
    PowBase(b);
    if t == [] {
      assert s + t == s;
    } else {
      var n := |t| - 1;
      assert (s + t)[..|s + t| - 1] == s + t[..n];
      NumAppend(b, s, t[..n]);
      PowAdd(b, n, 1);
      Spread(Num(b, s), Pow(b, n), Num(b, t[..n]), b);
    }
  }

  lemma Spread(x: nat, p: nat, y: nat, b: nat)
    ensures (x * p + y) * b == x * (p * b) + y * b
  {
    assert x * p * b == x * (p * b);
  }

  /** Leading zeros do not count. */
  lemma NumOfStripped(b: nat, s: seq<nat>)
    ensures Num(b, Stripped(s)) == Num(b, s)
  {
    hide Pow;
    var k := LeadingZeros(s);
    assert s == s[..k] + s[k..];
    NumOfZeros(b, s[..k]);
    NumAppend(b, s[..k], s[k..]);
  }

  lemma {:induction false} LastDigit(b: nat, s: seq<nat>)
    requires b > 1 && s != [] && DigitsIn(b, s)
    ensures Num(b, s) / b == Num(b, s[..|s| - 1]) && Num(b, s) % b == s[|s| - 1]
  {
    DivModUnique(Num(b, s), b, Num(b, s[..|s| - 1]), s[|s| - 1]);
  }

  /** Digits without a leading zero are the digits of their number. */
  lemma {:induction false} DigitsOfNum(b: nat, s: seq<nat>)
    requires b > 1 && DigitsIn(b, s) && (s != [] ==> s[0] != 0)
    ensures DigitsOf(b, Num(b, s)) == s
    decreases |s|
  {
    if s != [] {
      var n := |s| - 1;
      LastDigit(b, s);
      DigitsOfNum(b, s[..n]);
      if n == 0 { assert Num(b, s[..0]) == 0; } else { FirstCounts(b, s); }
    }
  }

  lemma {:induction false} FirstCounts(b: nat, s: seq<nat>)
    requires b > 1 && s != [] && s[0] != 0
    ensures Num(b, s) > 0
    decreases |s|
  {
    if |s| > 1 {
      FirstCounts(b, s[..|s| - 1]);
      MulPositive(Num(b, s[..|s| - 1]), b);
    }
  }

  lemma StrippedIsDigits(b: nat, s: seq<nat>)
    requires b > 1 && DigitsIn(b, s)
    ensures Stripped(s) == DigitsOf(b, Num(b, s))
  {
    NumOfStripped(b, s);
    DigitsOfNum(b, Stripped(s));
  }

  // ----- how many digits are enough

  lemma {:induction false} PowScale(p: nat, q: nat, x: nat, y: nat, k: nat)
    requires Pow(p, x) <= Pow(q, y) && p > 0 && q > 0
    ensures Pow(p, x * k) <= Pow(q, y * k)
  {
    hide Pow;
    if k == 0 {
      assert x * k == 0 && y * k == 0;
      PowBase(p);
      PowBase(q);
    } else {
      PowScale(p, q, x, y, k - 1);
      OneMore(x, k);
      OneMore(y, k);
      PowAdd(p, x * (k - 1), x);
      PowAdd(q, y * (k - 1), y);
      MulBoth(Pow(p, x * (k - 1)), Pow(q, y * (k - 1)), Pow(p, x), Pow(q, y));
    }
  }

  lemma OneMore(x: nat, k: nat)
    requires k > 0
    ensures x * k == x * (k - 1) + x
  {
  }

  lemma MulBoth(a: nat, b: nat, c: nat, d: nat)
    requires a <= b && c <= d
    ensures a * c <= b * d
  {
    MulMonotone(a, b, c);
    MulMonotone(c, d, b);
  }

  lemma PowSum(p: nat, q: nat, x: nat, y: nat, u: nat, w: nat)
    requires Pow(p, x) <= Pow(q, y) && Pow(p, u) <= Pow(q, w)
    ensures Pow(p, x + u) <= Pow(q, y + w)
  {
    PowAdd(p, x, u);
    PowAdd(q, y, w);
    MulBoth(Pow(p, x), Pow(q, y), Pow(p, u), Pow(q, w));
  }

  lemma {:induction false} Powers58()
    ensures Pow(58, 1) == 58 && Pow(58, 2) == 3364 && Pow(58, 3) == 195112 && Pow(58, 4) == 11316496
    ensures Pow(58, 5) == 656356768 && Pow(58, 6) == 38068692544 && Pow(58, 7) == 2207984167552
    ensures Pow(58, 8) == 128063081718016 && Pow(58, 9) == 7427658739644928 && Pow(58, 10) == 430804206899405824
    ensures Pow(58, 11) == 24986644000165537792
  {
    assert Pow(58, 0) == 1;
    assert Pow(58, 1) == 58 * Pow(58, 0);
    assert Pow(58, 2) == 58 * Pow(58, 1);
    assert Pow(58, 3) == 58 * Pow(58, 2);
    assert Pow(58, 4) == 58 * Pow(58, 3);
    assert Pow(58, 5) == 58 * Pow(58, 4);
    assert Pow(58, 6) == 58 * Pow(58, 5);
    assert Pow(58, 7) == 58 * Pow(58, 6);
    assert Pow(58, 8) == 58 * Pow(58, 7);
    assert Pow(58, 9) == 58 * Pow(58, 8);
    assert Pow(58, 10) == 58 * Pow(58, 9);
    assert Pow(58, 11) == 58 * Pow(58, 10);
  }

  lemma {:induction false} Powers256()
    ensures Pow(256, 0) == 1 && Pow(256, 1) == 256 && Pow(256, 2) == 0x1_0000 && Pow(256, 3) == 0x100_0000
    ensures Pow(256, 4) == 0x1_0000_0000 && Pow(256, 5) == 0x100_0000_0000 && Pow(256, 6) == 0x1_0000_0000_0000
    ensures Pow(256, 7) == 0x100_0000_0000_0000 && Pow(256, 8) == 0x1_0000_0000_0000_0000
  {
    assert Pow(256, 1) == 256 * Pow(256, 0);
    assert Pow(256, 2) == 256 * Pow(256, 1);
    assert Pow(256, 3) == 256 * Pow(256, 2);
    assert Pow(256, 4) == 256 * Pow(256, 3);
    assert Pow(256, 5) == 256 * Pow(256, 4);
    assert Pow(256, 6) == 256 * Pow(256, 5);
    assert Pow(256, 7) == 256 * Pow(256, 6);
    assert Pow(256, 8) == 256 * Pow(256, 7);
  }

  // ----- bytes as digits of base 58

  /** Eight bytes fit into eleven digits. */
  lemma EightInEleven()
    ensures Pow(256, 8) <= Pow(58, 11)
  {
    Powers58();
    Powers256();
  }

  /** The number of digits that hold less than eight bytes. */
  function FewDigits(r: nat): nat {
    if r == 0 then 0 else if r == 1 then 2 else if r == 2 then 3 else if r == 3 then 5
    else if r == 4 then 6 else if r == 5 then 7 else if r == 6 then 9 else 10
  }

  lemma FewBytes(r: nat)
    requires r < 8
    ensures Pow(256, r) <= Pow(58, FewDigits(r))
  {
    hide Pow;
    Powers58();
    Powers256();
    PowBase(58);
  }

  /** The size of the digit buffer for n bytes. */
  function DigitSize(n: nat): nat { n * 138 / 100 + 1 }

  lemma DigitSizeCovers(q: nat, r: nat)
    requires r < 8
    ensures 11 * q + FewDigits(r) <= DigitSize(8 * q + r)
  {
    assert (8 * q + r) * 138 == 1100 * q + (4 * q + 138 * r);
  }

  lemma DigitsEnough(n: nat)
    ensures Pow(256, n) <= Pow(58, DigitSize(n))
  {
    hide Pow, FewDigits, DigitSize;
    var q, r := n / 8, n % 8;
    EightInEleven();
    PowScale(256, 58, 8, 11, q);
    FewBytes(r);
    PowSum(256, 58, 8 * q, 11 * q, r, FewDigits(r));
    DigitSizeCovers(q, r);
    PowGrows(58, 11 * q + FewDigits(r), DigitSize(n));
  }

  // ----- digits of base 58 as bytes

  lemma {:induction false} Powers71()
    ensures Pow(58, 15) <= Pow(256, 11) && Pow(58, 71) <= Pow(256, 52)
  {
    hide Pow;
    Powers58();
    Powers256();
    PowAdd(58, 10, 5);
    PowAdd(58, 10, 10);
    PowAdd(58, 20, 20);
    PowAdd(58, 40, 20);
    PowAdd(58, 60, 10);
    PowAdd(58, 70, 1);
    PowAdd(256, 8, 3);
    PowAdd(256, 8, 8);
    PowAdd(256, 16, 16);
    PowAdd(256, 32, 16);
    PowAdd(256, 48, 4);
  }

  lemma Powers14()
    ensures Pow(58, 12) <= Pow(256, 9) && Pow(58, 13) <= Pow(256, 10) && Pow(58, 14) <= Pow(256, 11)
    ensures Pow(58, 11) <= Pow(256, 9)
  {
    hide Pow;
    Powers58();
    Powers256();
    PowAdd(58, 10, 2);
    PowAdd(58, 10, 3);
    PowAdd(58, 10, 4);
    PowAdd(256, 8, 1);
    PowAdd(256, 8, 2);
    PowAdd(256, 8, 3);
  }

  /** The number of bytes that hold less than fifteen digits. */
  function FewBytesFor(r: nat): nat {
    if r <= 3 then r else if r == 4 then 3 else if r == 5 then 4 else if r == 6 then 5 else if r == 7 then 6
    else if r == 8 then 6 else if r == 9 then 7 else if r == 10 then 8 else if r <= 12 then 9 else if r == 13 then 10 else 11
  }

  lemma FewDigitsFit(r: nat)
    requires r < 15
    ensures Pow(58, r) <= Pow(256, FewBytesFor(r))
  {
    hide Pow;
    Powers58();
    Powers256();
    Powers14();
    PowBase(58);
  }

  /** The size of the byte buffer for n characters. */
  function ByteSize(n: nat): nat { n * 733 / 1000 + 1 }

  lemma ByteSizeCovers(q: nat, p: nat, r: nat)
    requires r < 15 && p < 5
    ensures 52 * q + 11 * p + FewBytesFor(r) <= ByteSize(71 * q + 15 * p + r)
  {
    var x := 43 * q + 733 * r - 5 * p;
    assert (71 * q + 15 * p + r) * 733 == (52 * q + 11 * p) * 1000 + x;
    assert x >= 1000 * (FewBytesFor(r) - 1);
  }

  lemma BytesEnough(n: nat)
    ensures Pow(58, n) <= Pow(256, ByteSize(n))
  {
    hide Pow, FewBytesFor, ByteSize;
    var q, m := n / 71, n % 71;
    var p, r := m / 15, m % 15;
    Powers71();
    PowScale(58, 256, 71, 52, q);
    PowScale(58, 256, 15, 11, p);
    FewDigitsFit(r);
    PowSum(58, 256, 71 * q, 52 * q, 15 * p, 11 * p);
    PowSum(58, 256, 71 * q + 15 * p, 52 * q + 11 * p, r, FewBytesFor(r));
    ByteSizeCovers(q, p, r);
    PowGrows(256, 52 * q + 11 * p + FewBytesFor(r), ByteSize(n));
  }
}
