/** What the texts of numbers, amounts and coins look like. */
module CoinsFormat {
  import opened Octets
  import opened Powers
  import opened VarInts
  import opened ScriptCodec
  import opened CoinsMap
  import opened CoinsCodec

  // ----- numbers

  /** All digits but the last are marked. */
  predicate Digits(a: seq<Byte>) {
    |a| > 0 && a[|a| - 1] < 0x80 && forall i | 0 <= i < |a| - 1 :: a[i] >= 0x80
  }

  /** The last digit, and 128^i times the i-th digit before it plus one. */
  function Weighted(a: seq<Byte>): nat
    requires |a| > 0
  {
    if |a| == 1 then a[0] % 128 else Pow(128, |a| - 1) * (a[0] % 128 + 1) + Weighted(a[1..])
  }

  /** Digits are read as their weighted sum, plus what came before. */
  lemma {:induction false} ReadDigits(n: nat, a: seq<Byte>, rest: seq<Byte>)
    requires Digits(a)
    ensures ReadMore(n, a + rest) == Got(Pow(128, |a|) * n + Weighted(a), rest)
    decreases |a|
  {
    var t, m := a + rest, 128 * n + a[0] as int % 128;
    if |a| == 1 {
      assert t[1..] == rest && a == [a[0]];
      assert Pow(128, 1) == 128 * Pow(128, 0) == 128;
    } else {
      assert t[1..] == a[1..] + rest;
      ReadDigits(m + 1, a[1..], rest);
      Collect(Pow(128, |a| - 1), n, a[0] as int % 128);
    }
  }

  lemma Collect(p: nat, n: nat, d: nat)
    ensures p * (128 * n + d + 1) == 128 * p * n + p * (d + 1)
  {
  }

  lemma {:induction false} MarkedDigits(n: nat)
    ensures |Marked(n)| > 0 && forall i | 0 <= i < |Marked(n)| :: Marked(n)[i] >= 0x80
    decreases n
  {
    if n > 0x7F { MarkedDigits(n / 128 - 1); }
  }

  lemma VarIntDigits(n: nat)
    ensures Digits(VarInt(n))
  {
    if n > 0x7F { MarkedDigits(n / 128 - 1); }
  }

  /** Marked digits are those of some number. */
  lemma {:induction false} SomeMarked(a: seq<Byte>) returns (n: nat)
    requires |a| > 0 && forall i | 0 <= i < |a| :: a[i] >= 0x80
    ensures a == Marked(n)
    decreases |a|
  {
    var k := |a| - 1;
    if k == 0 {
      n := a[0] % 128;
    } else {
      var m := SomeMarked(a[..k]);
      n := 128 * (m + 1) + a[k] as int % 128;
      assert a == a[..k] + [a[k]];
    }
  }

  lemma SomeNumber(a: seq<Byte>) returns (x: nat)
    requires Digits(a)
    ensures a == VarInt(x)
  {
    var k := |a| - 1;
    x := a[k];
    if k > 0 {
      var m := SomeMarked(a[..k]);
      x := 128 * (m + 1) + a[k];
    }
    assert a == a[..k] + [a[k]];
  }

  lemma WeightedIs(n: nat)
    ensures Digits(VarInt(n)) && Weighted(VarInt(n)) == n
  {
    hide Weighted, VarInt, Digits;
    VarIntDigits(n);
    ReadDigits(0, VarInt(n), []);
    VarIntTrip(n, []);
  }

  /** Every text of digits is the text of exactly the number that is their weighted sum. */
  lemma VarIntExact(a: seq<Byte>, n: nat)
    ensures a == VarInt(n) <==> Digits(a) && Weighted(a) == n
  {
    hide Weighted, VarInt;
    WeightedIs(n);
    if Digits(a) && Weighted(a) == n {
      var x := SomeNumber(a);
      WeightedIs(x);
    }
  }

  /** The largest number of k digits, plus one. */
  function Limit(k: nat): nat { if k == 0 then 0 else 128 * (Limit(k - 1) + 1) }

  lemma {:induction false} MarkedLength(n: nat, k: nat)
    ensures |Marked(n)| <= k <==> n < Limit(k)
    decreases n
  {
    if k == 0 {
      MarkedDigits(n);
    } else if n > 0x7F {
      MarkedLength(n / 128 - 1, k - 1);
      MarkedDigits(n / 128 - 1);
    }
  }

  /** A number takes at most k digits exactly below the limit: one below 128, two below 16512, three below
      2113664. */
  lemma VarIntLength(n: nat, k: nat)
    ensures |VarInt(n)| <= k <==> n < Limit(k)
    ensures Limit(1) == 128 && Limit(2) == 16512 && Limit(3) == 2113664
  {
    MarkedLength(n, k);
    SameLength(n);
    assert Limit(0) == 0;
  }

  lemma SameLength(n: nat)
    ensures |VarInt(n)| == |Marked(n)|
  {
  }

  /** The digits 0x80, 0xFF and 0x7F are those of 32895; 16511 has two. */
  lemma ThreeDigits()
    ensures VarInt(32895) == [0x80, 0xFF, 0x7F] && VarInt(16511) == [0xFF, 0x7F]
  {
    VarIntExact([0x80, 0xFF, 0x7F], 32895);
    VarIntExact([0xFF, 0x7F], 16511);
    assert Pow(128, 2) == 128 * Pow(128, 1) && Pow(128, 1) == 128 * Pow(128, 0);
  }

  // ----- amounts

  /** An amount with e trailing zeros, up to nine, in compressed form: its last digit other than zero is never
      zero, so there are nine of them; with nine zeros nothing is taken out. */
  lemma AmountForm(a: nat, d: nat, e: nat)
    ensures 1 <= d <= 9 && e < 9 ==> CompressAmount((10 * a + d) * Power10(e)) == 1 + 10 * (9 * a + (d - 1)) + e
    ensures CompressAmount((a + 1) * 1_000_000_000) == 1 + 10 * a + 9
    ensures CompressAmount(0) == 0
  {
    assert CompressAmount(0) == 0;
    hide CompressAmount, Power10;
    if 1 <= d <= 9 && e < 9 {
      OtherForm(a, d, e);
    }
    FormOf(a, 9);
    TenToNine();
  }

  lemma OtherForm(a: nat, d: nat, e: nat)
    requires 1 <= d <= 9 && e < 9
    ensures CompressAmount((10 * a + d) * Power10(e)) == 1 + 10 * (9 * a + (d - 1)) + e
  {
    hide CompressAmount, Power10;
    var y := 9 * a + (d - 1);
    assert y / 9 == a && y % 9 == d - 1;
    assert y / 9 * 10 + y % 9 + 1 == 10 * a + d;
    FormOf(y, e);
  }

  lemma TenToNine()
    ensures Power10(9) == 1_000_000_000
  {
    assert Power10(3) == 1000;
    assert Power10(6) == 1_000_000;
  }

  lemma FormOf(y: nat, e: nat)
    requires e <= 9
    ensures CompressAmount((if e < 9 then y / 9 * 10 + y % 9 + 1 else y + 1) * Power10(e)) == 1 + 10 * y + e
  {
    hide CompressAmount, Power10;
    var x := 1 + 10 * y + e;
    assert (x - 1) % 10 == e && (x - 1) / 10 == y;
    CompressedTrip(x);
  }

  // ----- the two examples of coins.h

  /** Bit k of the b-th mask byte tells of output 2 + 8 * b + k. */
  lemma MaskBit(vout: seq<TxOut>, b: nat, k: nat)
    requires k < 8
    ensures MaskByte(vout, b) / Pow(2, k) % 2 == 1 <==> Unspent(vout, 2 + 8 * b + k)
  {
    PackedBit(Flags(vout, 2 + 8 * b, 8), k);
  }

  lemma {:induction false} PackedBit(f: seq<bool>, k: nat)
    requires k < |f|
    ensures PackFlags(f) / Pow(2, k) % 2 == 1 <==> f[k]
  {
    var rest := PackFlags(f[1..]);
    if k == 0 {
      assert Pow(2, 0) == 1;
    } else {
      PackedBit(f[1..], k - 1);
      DivDiv(PackFlags(f), 2, Pow(2, k - 1));
      assert PackFlags(f) / 2 == rest;
    }
  }

  function ToKeyID(addr: seq<Byte>): seq<Byte> { [OP_DUP, OP_HASH160, 20] + addr + [OP_EQUALVERIFY, OP_CHECKSIG] }

  /** An output that pays to the hash of a key. */
  lemma KeyOut(curve: Curve, value: nat, amount: nat, digits: seq<Byte>, addr: seq<Byte>)
    requires |addr| == 20 && value < TWO64 && amount < TWO64 && CompressAmount(value) == amount && digits == VarInt(amount)
    ensures OutText(curve, TxOut(value, ToKeyID(addr))) == digits + ([0] + addr)
  {
    hide CompressAmount, VarInt;
    SmallMod(value, TWO64);
    SmallMod(amount, TWO64);
    var s := ToKeyID(addr);
    assert IsToKeyID(s) && s[3..23] == addr;
  }

  /** Two outputs, the first one spent, the second one of 600 coins; version 1 and height 203998. */
  lemma FirstExample(curve: Curve, addr: seq<Byte>)
    requires |addr| == 20
    ensures var c := Coins(false, [Spent(), TxOut(60_000_000_000, ToKeyID(addr))], 203998, 1);
      !IsPruned(c) && CoinsText(curve, c) == [0x01, 0x04, 0x83, 0x58, 0x00] + addr + [0x8b, 0xb8, 0x5e]
  {
    hide OutText, CompressAmount;
    var vout := [Spent(), TxOut(60_000_000_000, ToKeyID(addr))];
    var c := Coins(false, vout, 203998, 1);
    assert !IsNull(vout[1]);
    AmountForm(59, 0, 9);
    VarIntExact([0x83, 0x58], 600);
    KeyOut(curve, 60_000_000_000, 600, [0x83, 0x58], addr);
    VarIntExact([0x8b, 0xb8, 0x5e], 203998);
    Squares();
    assert OutsFrom(curve, vout, 2) == [];
    assert OutsFrom(curve, vout, 1) == OutText(curve, vout[1]);
    assert OutsFrom(curve, vout, 0) == OutText(curve, vout[1]);
  }

  /** Of seventeen outputs the fifth and the last are unspent. */
  predicate FifthAndLast(vout: seq<TxOut>) {
    |vout| == 17 && forall i | 0 <= i < 17 :: IsNull(vout[i]) <==> i != 4 && i != 16
  }

  lemma PackTail(f: seq<bool>, i: nat)
    requires i < |f|
    ensures PackFlags(f[i..]) == B(f[i]) + 2 * PackFlags(f[i + 1..])
  {
    assert f[i..][1..] == f[i + 1..];
  }

  lemma PackedEight(f: seq<bool>)
    requires |f| == 8
    ensures PackFlags(f) == B(f[0]) + 2 * B(f[1]) + 4 * B(f[2]) + 8 * B(f[3]) + 16 * B(f[4]) + 32 * B(f[5]) + 64 * B(f[6]) + 128 * B(f[7])
  {
    hide PackFlags;
    assert f[0..] == f;
    PackTail(f, 0);
    PackTail(f, 1);
    PackTail(f, 2);
    PackTail(f, 3);
    PackTail(f, 4);
    PackTail(f, 5);
    PackTail(f, 6);
    PackTail(f, 7);
    assert PackFlags(f[8..]) == 0 by { PackNone(f[8..]); }
  }

  lemma PackNone(f: seq<bool>)
    requires f == []
    ensures PackFlags(f) == 0
  {
  }

  lemma SecondMask(vout: seq<TxOut>)
    requires FifthAndLast(vout)
    ensures MaskByte(vout, 0) == 0x04 && MaskByte(vout, 1) == 0x40 && Blocks(vout) == 2
  {
    hide PackFlags;
    PackedEight(Flags(vout, 2, 8));
    PackedEight(Flags(vout, 10, 8));
  }

  lemma SecondOutsText(curve: Curve, vout: seq<TxOut>, addr: seq<Byte>, addr': seq<Byte>)
    requires |addr| == 20 && |addr'| == 20 && FifthAndLast(vout)
    requires vout[4] == TxOut(234_925_952, ToKeyID(addr)) && vout[16] == TxOut(110_397, ToKeyID(addr'))
    ensures OutsFrom(curve, vout, 0)
            == ([0x86, 0xef, 0x97, 0xd5, 0x79] + ([0x00] + addr)) + ([0xbb, 0xd1, 0x23] + ([0x00] + addr'))
  {
    hide OutText, ToKeyID, OutsFrom;
    LargeOut(curve, addr);
    SmallOut(curve, addr');
    SpentSkipped(curve, vout, 5, 16);
    SpentSkipped(curve, vout, 0, 4);
    OneOut(curve, vout, 4);
    OneOut(curve, vout, 16);
    NoOuts(curve, vout, 17);
    assert OutText(curve, vout[16]) + [] == OutText(curve, vout[16]);
  }

  lemma OneOut(curve: Curve, vout: seq<TxOut>, i: nat)
    requires i < |vout| && !IsNull(vout[i])
    ensures OutsFrom(curve, vout, i) == OutText(curve, vout[i]) + OutsFrom(curve, vout, i + 1)
  {
    hide OutText;
  }

  lemma LargeOut(curve: Curve, addr: seq<Byte>)
    requires |addr| == 20
    ensures OutText(curve, TxOut(234_925_952, ToKeyID(addr))) == [0x86, 0xef, 0x97, 0xd5, 0x79] + ([0x00] + addr)
  {
    hide OutText, CompressAmount, ToKeyID;
    AmountForm(23_492_595, 2, 0);
    Squares();
    VarIntExact([0x86, 0xef, 0x97, 0xd5, 0x79], 2_114_333_561);
    KeyOut(curve, 234_925_952, 2_114_333_561, [0x86, 0xef, 0x97, 0xd5, 0x79], addr);
  }

  lemma SmallOut(curve: Curve, addr: seq<Byte>)
    requires |addr| == 20
    ensures OutText(curve, TxOut(110_397, ToKeyID(addr))) == [0xbb, 0xd1, 0x23] + ([0x00] + addr)
  {
    hide OutText, CompressAmount, ToKeyID;
    AmountForm(11_039, 7, 0);
    Squares();
    VarIntExact([0xbb, 0xd1, 0x23], 993_571);
    KeyOut(curve, 110_397, 993_571, [0xbb, 0xd1, 0x23], addr);
  }

  lemma {:induction false} SpentSkipped(curve: Curve, vout: seq<TxOut>, i: nat, j: nat)
    requires i <= j <= |vout| && forall k | i <= k < j :: IsNull(vout[k])
    ensures OutsFrom(curve, vout, i) == OutsFrom(curve, vout, j)
    decreases j - i
  {
    hide OutText;
    if i < j { SpentSkipped(curve, vout, i + 1, j); }
  }

  /** Seventeen outputs of a coinbase, of which the fifth and the last are unspent; height 120891. */
  lemma SecondExample(curve: Curve, vout: seq<TxOut>, addr: seq<Byte>, addr': seq<Byte>)
    requires |addr| == 20 && |addr'| == 20 && FifthAndLast(vout)
    requires vout[4] == TxOut(234_925_952, ToKeyID(addr)) && vout[16] == TxOut(110_397, ToKeyID(addr'))
    ensures var c := Coins(true, vout, 120891, 1);
      && !IsPruned(c)
      && CoinsText(curve, c) == [0x01] + [0x09] + [0x04, 0x40]
           + (([0x86, 0xef, 0x97, 0xd5, 0x79] + ([0x00] + addr)) + ([0xbb, 0xd1, 0x23] + ([0x00] + addr')))
           + [0x86, 0xaf, 0x3b]
  {
    hide OutText, CompressAmount, MaskByte, OutsFrom, ToKeyID, VarInt, MaskFrom, MaskSize, HeaderCode;
    var c := Coins(true, vout, 120891, 1);
    assert !IsNull(vout[4]);
    SecondMask(vout);
    SecondHeader(c);
    SecondOutsText(curve, vout, addr, addr');
    Squares();
    VarIntExact([0x86, 0xaf, 0x3b], 120891);
    VarIntExact([0x01], 1);
    VarIntExact([0x09], 9);
  }

  lemma SecondHeader(c: Coins)
    requires |c.vout| == 17 && c.fCoinBase && !IsPruned(c) && IsNull(c.vout[0]) && IsNull(c.vout[1])
    requires MaskByte(c.vout, 0) == 0x04 && MaskByte(c.vout, 1) == 0x40 && Blocks(c.vout) == 2
    ensures HeaderCode(c) == 9 && MaskFrom(c.vout, 0, MaskSize(c.vout)) == [0x04, 0x40]
  {
    hide MaskByte;
    assert Nonzero(c.vout, 1) == 1 && Nonzero(c.vout, 2) == 2;
    assert MaskSize(c.vout) == 2;
    assert MaskFrom(c.vout, 2, 2) == [] && MaskFrom(c.vout, 1, 2) == [0x40];
  }

  lemma Squares()
    ensures Pow(128, 1) == 128 && Pow(128, 2) == 16384 && Pow(128, 3) == 2097152 && Pow(128, 4) == 268435456
  {
    assert Pow(128, 0) == 1;
  }
}
