/** Coins in streams of bytes: version, a code for the first outputs and the spentness mask,
    the mask, the outputs that are left, and the height. */
module CoinsCodec {
  import opened Octets
  import opened Powers
  import opened VarInts
  import opened AmountWrap
  import opened ScriptCodec
  import opened CoinsMap

  // ----- flags

  function B(f: bool): nat { if f then 1 else 0 }

  /** Flags as the bits of a number, the first one lowest. */
  function PackFlags(f: seq<bool>): nat {
    if f == [] then 0 else B(f[0]) + 2 * PackFlags(f[1..])
  }

  function UnpackFlags(x: nat, n: nat): (f: seq<bool>)
    ensures |f| == n
  {
    if n == 0 then [] else [x % 2 == 1] + UnpackFlags(x / 2, n - 1)
  }

  lemma {:induction false} UnpackPack(f: seq<bool>)
    ensures UnpackFlags(PackFlags(f), |f|) == f
  {
    if f != [] { UnpackPack(f[1..]); }
  }

  lemma {:induction false} PackBound(f: seq<bool>)
    ensures PackFlags(f) < Pow(2, |f|)
    ensures PackFlags(f) == 0 <==> forall i | 0 <= i < |f| :: !f[i]
  {
    if f != [] {
      PackBound(f[1..]);
      assert forall i | 0 < i < |f| :: f[i] == f[1..][i - 1];
    }
  }

  // ----- the mask

  predicate Unspent(vout: seq<TxOut>, i: nat) { i < |vout| && !IsNull(vout[i]) }

  function Flags(vout: seq<TxOut>, from: nat, n: nat): (f: seq<bool>)
    ensures |f| == n && forall i | 0 <= i < n :: f[i] == Unspent(vout, from + i)
  {
    seq(n, i requires 0 <= i < n => Unspent(vout, from + i))
  }

  function MaskByte(vout: seq<TxOut>, b: nat): Byte {
    PackEight(Flags(vout, 2 + 8 * b, 8));
    PackFlags(Flags(vout, 2 + 8 * b, 8))
  }

  lemma PackEight(f: seq<bool>)
    requires |f| == 8
    ensures PackFlags(f) < 256
  {
    PackBound(f);
    assert Pow(2, 8) == 256;
  }

  /** The number of mask bytes that the outputs take. */
  function Blocks(vout: seq<TxOut>): nat { if |vout| <= 2 then 0 else (|vout| + 5) / 8 }

  /** The number of mask bytes up to the last one that is not zero. */
  function LastUsed(vout: seq<TxOut>, b: nat): nat {
    if b == 0 || MaskByte(vout, b - 1) != 0 then b else LastUsed(vout, b - 1)
  }

  function MaskSize(vout: seq<TxOut>): nat { LastUsed(vout, Blocks(vout)) }

  function Nonzero(vout: seq<TxOut>, b: nat): nat {
    if b == 0 then 0 else Nonzero(vout, b - 1) + B(MaskByte(vout, b - 1) != 0)
  }

  function MaskFrom(vout: seq<TxOut>, b: nat, n: nat): seq<Byte>
    decreases n - b
  {
    if b >= n then [] else [MaskByte(vout, b)] + MaskFrom(vout, b + 1, n)
  }

  function NonzeroFrom(vout: seq<TxOut>, b: nat, n: nat): nat
    decreases n - b
  {
    if b >= n then 0 else B(MaskByte(vout, b) != 0) + NonzeroFrom(vout, b + 1, n)
  }

  lemma {:induction false} NonzeroSplits(vout: seq<TxOut>, b: nat, n: nat)
    requires b <= n
    ensures Nonzero(vout, n) == Nonzero(vout, b) + NonzeroFrom(vout, b, n)
    decreases n - b
  {
    hide MaskByte;
    if b < n { NonzeroSplits(vout, b + 1, n); }
  }

  lemma {:induction false} LastUsedFacts(vout: seq<TxOut>, b: nat)
    ensures var n := LastUsed(vout, b);
      n <= b && Nonzero(vout, n) == Nonzero(vout, b) && (n > 0 ==> MaskByte(vout, n - 1) != 0)
    ensures forall k | LastUsed(vout, b) <= k < b :: MaskByte(vout, k) == 0
  {
    hide MaskByte;
    if b > 0 && MaskByte(vout, b - 1) == 0 { LastUsedFacts(vout, b - 1); }
  }

  lemma {:induction false} SomeLeft(vout: seq<TxOut>, b: nat, n: nat)
    requires b < n && MaskByte(vout, n - 1) != 0
    ensures NonzeroFrom(vout, b, n) > 0
    decreases n - b
  {
    hide MaskByte;
    if b + 1 < n { SomeLeft(vout, b + 1, n); }
  }

  /** Read mask bytes until as many that are not zero have come as announced. */
  function ReadMask(code: nat, t: seq<Byte>): Read<seq<bool>>
    decreases |t|
  {
    if code == 0 then Got([], t)
    else if t == [] then Failed
    else
      var r := ReadMask(if t[0] != 0 then code - 1 else code, t[1..]);
      if r.Failed? then Failed else Got(UnpackFlags(t[0], 8) + r.value, r.rest)
  }

  lemma MaskByteFlags(vout: seq<TxOut>, b: nat)
    ensures UnpackFlags(MaskByte(vout, b), 8) == Flags(vout, 2 + 8 * b, 8)
  {
    UnpackPack(Flags(vout, 2 + 8 * b, 8));
  }

  lemma FlagsSplit(vout: seq<TxOut>, from: nat, n: nat, m: nat)
    ensures Flags(vout, from, n + m) == Flags(vout, from, n) + Flags(vout, from + n, m)
  {
  }

  /** The mask is read back, and exactly its bytes are taken. */
  lemma {:induction false} MaskTrip(vout: seq<TxOut>, b: nat, n: nat, t: seq<Byte>)
    requires b <= n && (n > 0 ==> MaskByte(vout, n - 1) != 0)
    ensures ReadMask(NonzeroFrom(vout, b, n), MaskFrom(vout, b, n) + t) == Got(Flags(vout, 2 + 8 * b, 8 * (n - b)), t)
    decreases n - b
  {
    hide MaskByte, UnpackFlags, Unspent, ReadMask, MaskFrom, NonzeroFrom;
    if b == n {
      MaskEnd(vout, n, t);
    } else {
      SomeLeft(vout, b, n);
      MaskTrip(vout, b + 1, n, t);
      MaskByteFlags(vout, b);
      FlagsSplit(vout, 2 + 8 * b, 8, 8 * (n - b - 1));
      MaskNext(vout, b, n, t);
      ReadMaskNext(NonzeroFrom(vout, b, n), MaskByte(vout, b), MaskFrom(vout, b + 1, n) + t);
    }
  }

  lemma MaskEnd(vout: seq<TxOut>, n: nat, t: seq<Byte>)
    ensures NonzeroFrom(vout, n, n) == 0 && MaskFrom(vout, n, n) + t == t && ReadMask(0, t) == Got([], t)
    ensures Flags(vout, 2 + 8 * n, 0) == []
  {
  }

  lemma MaskNext(vout: seq<TxOut>, b: nat, n: nat, t: seq<Byte>)
    requires b < n
    ensures MaskFrom(vout, b, n) + t == [MaskByte(vout, b)] + (MaskFrom(vout, b + 1, n) + t)
    ensures NonzeroFrom(vout, b, n) == B(MaskByte(vout, b) != 0) + NonzeroFrom(vout, b + 1, n)
  {
    hide MaskByte;
  }

  lemma ReadMaskNext(code: nat, x: Byte, t: seq<Byte>)
    requires code > 0
    ensures ReadMask(code, [x] + t) ==
      var r := ReadMask(if x != 0 then code - 1 else code, t);
      if r.Failed? then Failed else Got(UnpackFlags(x, 8) + r.value, r.rest)
  {
    hide UnpackFlags;
    assert ([x] + t)[1..] == t;
  }

  // ----- outputs

  /** A 64-bit word read as a signed number. */
  function Signed(x: nat): int { if x >= TWO63 then x - TWO64 else x }

  function Spent(): TxOut { TxOut(-1, []) }

  function OutText(curve: Curve, out: TxOut): seq<Byte> {
    VarInt(CompressAmount(out.nValue % TWO64) % TWO64) + ScriptText(curve, out.script)
  }

  function ReadOut(curve: Curve, t: seq<Byte>): Read<TxOut> {
    var amount := ReadCut(t, TWO64);
    if amount.Failed? then Failed
    else
      var script := ReadScript(curve, amount.rest);
      if script.Failed? then Failed
      else Got(TxOut(Signed(DecompressAmount(amount.value) % TWO64), script.value), script.rest)
  }

  /** An output of the types that the code has: a signed 64-bit value and a 32-bit size. */
  predicate IsOutput(out: TxOut) {
    0 - TWO63 <= out.nValue < TWO63 && |out.script| + SPECIAL_SCRIPTS < TWO32
  }

  /** What is read back from an output. */
  function KeptOut(out: TxOut): TxOut { TxOut(Signed(KeptAmount(out.nValue % TWO64)), KeptScript(out.script)) }

  /** The outputs that are kept: the value, as an unsigned number, ends in a zero or is not too large,
      and the script is not too long. */
  predicate Storable(out: TxOut) {
    && (out.nValue % TWO64 % 10 == 0 || out.nValue % TWO64 <= MAX_COMPRESSIBLE)
    && |out.script| <= MAX_SCRIPT_SIZE
  }

  lemma OutTrip(curve: Curve, out: TxOut, t: seq<Byte>)
    requires Sound(curve) && IsOutput(out)
    ensures ReadOut(curve, OutText(curve, out) + t) == Got(KeptOut(out), t)
  {
    hide VarInt, ReadCut, ScriptText, ReadScript, CompressAmount, DecompressAmount, KeptScript;
    var x := CompressAmount(out.nValue % TWO64) % TWO64;
    var s := ScriptText(curve, out.script);
    assert OutText(curve, out) + t == VarInt(x) + (s + t);
    CutTrip(x, TWO64, s + t);
    ScriptTrip(curve, out.script, t);
  }

  /** An output is read back as itself exactly if it is storable. */
  lemma StorableKept(out: TxOut)
    requires IsOutput(out)
    ensures KeptOut(out) == out <==> Storable(out)
  {
    hide KeptAmount, CompressAmount;
    var u := out.nValue % TWO64;
    KeptExactly(u);
    CompressedFits(u);
    SignedWord(out.nValue);
    SignedApart(KeptAmount(u), u);
  }

  lemma SignedWord(v: int)
    requires 0 - TWO63 <= v < TWO63
    ensures Signed(v % TWO64) == v
  {
    if v < 0 { ModOfSum(v, TWO64, 1); SmallMod(v + TWO64, TWO64); } else { SmallMod(v, TWO64); }
  }

  lemma SignedApart(x: nat, y: nat)
    requires x < TWO64 && y < TWO64
    ensures Signed(x) == Signed(y) <==> x == y
  {
  }

  function OutsFrom(curve: Curve, vout: seq<TxOut>, i: nat): seq<Byte>
    decreases |vout| - i
  {
    if i >= |vout| then []
    else (if IsNull(vout[i]) then [] else OutText(curve, vout[i])) + OutsFrom(curve, vout, i + 1)
  }

  function ReadOuts(curve: Curve, flags: seq<bool>, t: seq<Byte>): Read<seq<TxOut>>
    decreases |flags|
  {
    if flags == [] then Got([], t)
    else if !flags[0] then
      var r := ReadOuts(curve, flags[1..], t);
      if r.Failed? then Failed else Got([Spent()] + r.value, r.rest)
    else
      var out := ReadOut(curve, t);
      if out.Failed? then Failed
      else
        var r := ReadOuts(curve, flags[1..], out.rest);
        if r.Failed? then Failed else Got([out.value] + r.value, r.rest)
  }

  /** What is read back from the unspent outputs in their places, and nothing in the others. */
  function Restored(vout: seq<TxOut>, from: nat, n: nat): (r: seq<TxOut>)
    ensures |r| == n && forall i | 0 <= i < n :: r[i] == if Unspent(vout, from + i) then KeptOut(vout[from + i]) else Spent()
  {
    seq(n, i requires 0 <= i < n => if Unspent(vout, from + i) then KeptOut(vout[from + i]) else Spent())
  }

  lemma {:induction false} OutsTrip(curve: Curve, vout: seq<TxOut>, i: nat, n: nat, t: seq<Byte>)
    requires Sound(curve) && i <= n && (forall j | n <= j < |vout| :: IsNull(vout[j]))
    requires forall out | out in vout :: IsOutput(out)
    ensures ReadOuts(curve, Flags(vout, i, n - i), OutsFrom(curve, vout, i) + t) == Got(Restored(vout, i, n - i), t)
    decreases n - i
  {
    hide OutText, ReadOut, IsOutput, ReadOuts, OutsFrom, Flags, Restored, Unspent, KeptOut;
    if i == n {
      NoOuts(curve, vout, i);
      NoneRead(curve, vout, i, t);
    } else {
      var rest := OutsFrom(curve, vout, i + 1) + t;
      OutsTrip(curve, vout, i + 1, n, t);
      FirstOut(curve, vout, i, n - i, t);
      if Unspent(vout, i) {
        InSequence(vout, i);
        OutTrip(curve, vout[i], rest);
      }
      ReadNext(curve, vout, i, n - i, OutsFrom(curve, vout, i) + t, rest);
    }
  }

  lemma InSequence(vout: seq<TxOut>, i: nat)
    requires Unspent(vout, i)
    ensures i < |vout| && vout[i] in vout && !IsNull(vout[i])
  {
  }

  lemma NoneRead(curve: Curve, vout: seq<TxOut>, i: nat, t: seq<Byte>)
    ensures ReadOuts(curve, Flags(vout, i, 0), [] + t) == Got(Restored(vout, i, 0), t)
  {
    assert [] + t == t;
  }

  /** The next output's text in front of the others. */
  lemma FirstOut(curve: Curve, vout: seq<TxOut>, i: nat, n: nat, t: seq<Byte>)
    requires n > 0
    ensures OutsFrom(curve, vout, i) + t
            == (if Unspent(vout, i) then OutText(curve, vout[i]) else []) + (OutsFrom(curve, vout, i + 1) + t)
  {
    hide OutText;
  }

  lemma ReadNext(curve: Curve, vout: seq<TxOut>, i: nat, n: nat, t: seq<Byte>, rest: seq<Byte>)
    requires n > 0 && ReadOuts(curve, Flags(vout, i + 1, n - 1), rest).Got?
    requires if Unspent(vout, i) then ReadOut(curve, t) == Got(KeptOut(vout[i]), rest) else t == [] + rest
    requires ReadOuts(curve, Flags(vout, i + 1, n - 1), rest).value == Restored(vout, i + 1, n - 1)
    ensures ReadOuts(curve, Flags(vout, i, n), t)
            == Got(Restored(vout, i, n), ReadOuts(curve, Flags(vout, i + 1, n - 1), rest).rest)
  {
    hide ReadOut, Unspent, KeptOut;
    var f := Flags(vout, i, n);
    assert f[1..] == Flags(vout, i + 1, n - 1);
    assert Restored(vout, i, n) == [Restored(vout, i, n)[0]] + Restored(vout, i + 1, n - 1);
    assert [] + rest == rest;
  }

  lemma {:induction false} NoOuts(curve: Curve, vout: seq<TxOut>, i: nat)
    requires forall j | i <= j < |vout| :: IsNull(vout[j])
    ensures OutsFrom(curve, vout, i) == []
    decreases |vout| - i
  {
    if i < |vout| { NoOuts(curve, vout, i + 1); }
  }

  // ----- coins

  /** The header code: the number of mask bytes that are not zero, less one if neither of the
      first two outputs is unspent, and three flags. */
  function HeaderCode(c: Coins): nat
    requires !IsPruned(c)
  {
    SomethingToCode(c.vout);
    var first, second := Unspent(c.vout, 0), Unspent(c.vout, 1);
    8 * (Nonzero(c.vout, Blocks(c.vout)) - B(!first && !second)) + B(c.fCoinBase) + 2 * B(first) + 4 * B(second)
  }

  /** What makes the assertion in Serialize hold. */
  lemma SomethingToCode(vout: seq<TxOut>)
    requires exists i | 0 <= i < |vout| :: !IsNull(vout[i])
    ensures Unspent(vout, 0) || Unspent(vout, 1) || Nonzero(vout, Blocks(vout)) > 0
  {
    var i :| 0 <= i < |vout| && !IsNull(vout[i]);
    if i >= 2 {
      var b := (i - 2) / 8;
      InByte(vout, i, b);
      NonzeroSplits(vout, b + 1, Blocks(vout));
    }
  }

  lemma InByte(vout: seq<TxOut>, i: nat, b: nat)
    requires Unspent(vout, i) && i >= 2 && b == (i - 2) / 8
    ensures MaskByte(vout, b) != 0 && b < Blocks(vout)
  {
    var f := Flags(vout, 2 + 8 * b, 8);
    assert f[i - 2 - 8 * b];
    PackBound(f);
  }

  function CoinsText(curve: Curve, c: Coins): seq<Byte>
    requires !IsPruned(c)
  {
    VarIntOf(c.nVersion) + VarInt(HeaderCode(c) % TWO32) + MaskFrom(c.vout, 0, MaskSize(c.vout))
    + OutsFrom(curve, c.vout, 0) + VarIntOf(c.nHeight)
  }

  function ReadCoins(curve: Curve, t: seq<Byte>): Read<Coins> {
    var version := ReadInt32(t);
    if version.Failed? then Failed
    else
      var code := ReadCut(version.rest, TWO32);
      if code.Failed? then Failed else ReadBody(curve, version.value, code.value, code.rest)
  }

  /** What follows the header code. */
  function ReadBody(curve: Curve, version: int, code: nat, t: seq<Byte>): Read<Coins> {
    var first, second := code / 2 % 2 == 1, code / 4 % 2 == 1;
    var mask := ReadMask(code / 8 + B(!first && !second), t);
    if mask.Failed? then Failed
    else
      var outs := ReadOuts(curve, [first, second] + mask.value, mask.rest);
      if outs.Failed? then Failed
      else
        var height := ReadInt32(outs.rest);
        if height.Failed? then Failed
        else Got(Cleanup(Coins(code % 2 == 1, outs.value, height.value, version)), height.rest)
  }

  lemma CodeFields(n: nat, first: bool, second: bool, coinBase: bool)
    requires first || second || n > 0
    ensures var code := 8 * (n - B(!first && !second)) + B(coinBase) + 2 * B(first) + 4 * B(second);
      && (code / 2 % 2 == 1) == first && (code / 4 % 2 == 1) == second && (code % 2 == 1) == coinBase
      && code / 8 + B(!first && !second) == n
  {
    var m := n - B(!first && !second);
    var low := B(coinBase) + 2 * B(first) + 4 * B(second);
    DivModUnique(8 * m + low, 8, m, low);
    DivModUnique(8 * m + low, 4, 2 * m + B(second), B(coinBase) + 2 * B(first));
    DivModUnique(8 * m + low, 2, 4 * m + 2 * B(second) + B(first), B(coinBase));
  }

  /** All outputs beyond the mask are spent. */
  lemma BeyondMask(vout: seq<TxOut>)
    ensures forall j | 2 + 8 * MaskSize(vout) <= j < |vout| :: IsNull(vout[j])
  {
    LastUsedFacts(vout, Blocks(vout));
    forall j | 2 + 8 * MaskSize(vout) <= j < |vout| ensures IsNull(vout[j]) {
      if !IsNull(vout[j]) { InByte(vout, j, (j - 2) / 8); }
    }
  }

  lemma {:induction false} TrimmedPad(s: seq<TxOut>, n: nat)
    ensures Trimmed(s + seq(n, _ => Spent())) == Trimmed(s)
    decreases n
  {
    var t := s + seq(n, _ => Spent());
    if n == 0 {
      assert t == s;
    } else {
      assert t[..|t| - 1] == s + seq(n - 1, _ => Spent());
      TrimmedPad(s, n - 1);
    }
  }

  /** More places hold nothing more. */
  lemma RestoredMore(vout: seq<TxOut>, n: nat, m: nat)
    requires n <= m && forall j | n <= j < |vout| :: IsNull(vout[j])
    ensures Restored(vout, 0, m) == Restored(vout, 0, n) + seq(m - n, _ => Spent())
  {
    hide KeptOut;
  }

  lemma TrimmedSame(vout: seq<TxOut>, n: nat)
    requires forall j | n <= j < |vout| :: IsNull(vout[j])
    ensures Trimmed(Restored(vout, 0, n)) == Trimmed(Restored(vout, 0, |vout|))
  {
    hide Restored, Trimmed;
    var m := |vout|;
    if n >= m {
      RestoredMore(vout, m, n);
      TrimmedPad(Restored(vout, 0, m), n - m);
    } else {
      RestoredMore(vout, n, m);
      TrimmedPad(Restored(vout, 0, n), m - n);
    }
  }

  /** Coins of the types that the code has: 32-bit integers, 64-bit values and 32-bit sizes. */
  predicate IsCoins(c: Coins)
    requires !IsPruned(c)
  {
    && 0 - TWO31 <= c.nVersion < TWO31 && 0 - TWO31 <= c.nHeight < TWO31 && HeaderCode(c) < TWO32
    && forall out | out in c.vout :: IsOutput(out)
  }

  /** What is read back from coins: nothing is left of spent outputs, those at the end are dropped, and
      integers, values and scripts are what is kept of them. */
  function Normal(c: Coins): Coins {
    Cleanup(Coins(c.fCoinBase, Restored(c.vout, 0, |c.vout|), KeptInt(c.nHeight), KeptInt(c.nVersion)))
  }

  /** Coins that are not pruned are read back from their text in normal form, and exactly their
      text is taken. */
  lemma CoinsTrip(curve: Curve, c: Coins, t: seq<Byte>)
    requires Sound(curve) && !IsPruned(c) && IsCoins(c)
    ensures ReadCoins(curve, CoinsText(curve, c) + t) == Got(Normal(c), t)
  {
    hide VarInt, VarIntOf, ReadInt32, ReadCut, ReadBody, MaskFrom, OutsFrom, HeaderCode, Normal, MaskSize, IsOutput, KeptInt;
    var code := HeaderCode(c);
    var mask, outs, height := MaskFrom(c.vout, 0, MaskSize(c.vout)), OutsFrom(curve, c.vout, 0), VarIntOf(c.nHeight);
    SmallMod(code, TWO32);
    Regroup(VarIntOf(c.nVersion), VarInt(code), mask, outs, height, t);
    Int32Trip(c.nVersion, VarInt(code) + (mask + (outs + (height + t))));
    CutTrip(code, TWO32, mask + (outs + (height + t)));
    BodyTrip(curve, c, t);
  }

  /** Coins are read back as themselves exactly if version and height are not negative, nothing is spent
      at the end, no spent output has kept its script, and every unspent output is storable. */
  lemma CoinsExact(curve: Curve, c: Coins, t: seq<Byte>)
    requires Sound(curve) && !IsPruned(c) && IsCoins(c)
    ensures ReadCoins(curve, CoinsText(curve, c) + t) == Got(c, t) <==> c.nVersion >= 0 && c.nHeight >= 0 && Tidy(c.vout)
  {
    hide ReadCoins, CoinsText, Tidy, Normal, HeaderCode, IsOutput;
    CoinsTrip(curve, c, t);
    NormalIsSame(c);
  }

  /** The mask of all outputs behind the first two. */
  lemma WholeMask(vout: seq<TxOut>, t: seq<Byte>)
    ensures ReadMask(Nonzero(vout, Blocks(vout)), MaskFrom(vout, 0, MaskSize(vout)) + t) == Got(Flags(vout, 2, 8 * MaskSize(vout)), t)
    ensures [Unspent(vout, 0), Unspent(vout, 1)] + Flags(vout, 2, 8 * MaskSize(vout)) == Flags(vout, 0, 2 + 8 * MaskSize(vout))
  {
    hide ReadMask, MaskFrom, LastUsed, NonzeroFrom, Blocks, MaskByte, Unspent;
    var n := MaskSize(vout);
    LastUsedFacts(vout, Blocks(vout));
    NonzeroSplits(vout, 0, n);
    MaskTrip(vout, 0, n, t);
    FlagsSplit(vout, 0, 2, 8 * n);
    assert Flags(vout, 0, 2) == [Unspent(vout, 0), Unspent(vout, 1)];
  }

  /** Reading the body, from what its parts are read as. */
  lemma BodyParts(curve: Curve, version: int, code: nat, t: seq<Byte>, first: bool, second: bool, n: nat, mask: seq<bool>,
                  afterMask: seq<Byte>, outs: seq<TxOut>, afterOuts: seq<Byte>, height: int, rest: seq<Byte>)
    requires first == (code / 2 % 2 == 1) && second == (code / 4 % 2 == 1) && n == code / 8 + B(!first && !second)
    requires ReadMask(n, t) == Got(mask, afterMask)
    requires ReadOuts(curve, [first, second] + mask, afterMask) == Got(outs, afterOuts)
    requires ReadInt32(afterOuts) == Got(height, rest)
    ensures ReadBody(curve, version, code, t) == Got(Cleanup(Coins(code % 2 == 1, outs, height, version)), rest)
  {
    hide ReadMask, ReadOuts, ReadInt32, Cleanup;
  }

  lemma BodyTrip(curve: Curve, c: Coins, t: seq<Byte>)
    requires Sound(curve) && !IsPruned(c) && IsCoins(c)
    ensures var rest := MaskFrom(c.vout, 0, MaskSize(c.vout)) + (OutsFrom(curve, c.vout, 0) + (VarIntOf(c.nHeight) + t));
      ReadBody(curve, KeptInt(c.nVersion), HeaderCode(c), rest) == Got(Normal(c), t)
  {
    hide VarInt, VarIntOf, ReadInt32, ReadMask, ReadOuts, MaskFrom, OutsFrom, IsOutput, KeptInt, Trimmed, Nonzero, Blocks, Unspent,
      Flags, Restored, MaskSize;
    hide HeaderCode, Cleanup, ReadBody, Normal;
    var vout, n, first, second := c.vout, MaskSize(c.vout), Unspent(c.vout, 0), Unspent(c.vout, 1);
    var tail := VarIntOf(c.nHeight) + t;
    var outs := OutsFrom(curve, vout, 0) + tail;
    HeaderFields(c);
    WholeMask(vout, outs);
    BeyondMask(vout);
    OutsTrip(curve, vout, 0, 2 + 8 * n, tail);
    Int32Trip(c.nHeight, t);
    SameNormal(c, 2 + 8 * n);
    BodyParts(curve, KeptInt(c.nVersion), HeaderCode(c), MaskFrom(vout, 0, n) + outs, first, second, Nonzero(vout, Blocks(vout)),
              Flags(vout, 2, 8 * n), outs, Restored(vout, 0, 2 + 8 * n), tail, KeptInt(c.nHeight), t);
  }

  lemma HeaderFields(c: Coins)
    requires !IsPruned(c)
    ensures var code := HeaderCode(c); var first, second := Unspent(c.vout, 0), Unspent(c.vout, 1);
      && (code / 2 % 2 == 1) == first && (code / 4 % 2 == 1) == second && (code % 2 == 1) == c.fCoinBase
      && code / 8 + B(!first && !second) == Nonzero(c.vout, Blocks(c.vout))
  {
    hide Nonzero, Blocks, Unspent;
    SomethingToCode(c.vout);
    CodeFields(Nonzero(c.vout, Blocks(c.vout)), Unspent(c.vout, 0), Unspent(c.vout, 1), c.fCoinBase);
  }

  lemma SameNormal(c: Coins, n: nat)
    requires forall j | n <= j < |c.vout| :: IsNull(c.vout[j])
    ensures Cleanup(Coins(c.fCoinBase, Restored(c.vout, 0, n), KeptInt(c.nHeight), KeptInt(c.nVersion))) == Normal(c)
  {
    hide Restored, Trimmed;
    TrimmedSame(c.vout, n);
  }

  lemma Regroup(a: seq<Byte>, b: seq<Byte>, c: seq<Byte>, d: seq<Byte>, e: seq<Byte>, f: seq<Byte>)
    ensures a + b + c + d + e + f == a + (b + (c + (d + (e + f))))
  {
  }

  /** Nothing is spent at the end, no spent output has kept its script, and the others are storable. */
  predicate Tidy(vout: seq<TxOut>) {
    && (vout != [] ==> !IsNull(vout[|vout| - 1]))
    && (forall i | 0 <= i < |vout| :: if IsNull(vout[i]) then vout[i] == Spent() else Storable(vout[i]))
  }

  /** The outputs that are read back are the outputs themselves. */
  lemma RestoredIsSame(vout: seq<TxOut>)
    requires forall out | out in vout :: IsOutput(out)
    ensures Restored(vout, 0, |vout|) == vout <==>
      forall i | 0 <= i < |vout| :: if IsNull(vout[i]) then vout[i] == Spent() else Storable(vout[i])
  {
    hide KeptOut, Storable, IsOutput;
    var r := Restored(vout, 0, |vout|);
    forall i | 0 <= i < |vout| ensures r[i] == vout[i] <==> if IsNull(vout[i]) then vout[i] == Spent() else Storable(vout[i]) {
      assert vout[i] in vout && r[i] == if Unspent(vout, 0 + i) then KeptOut(vout[0 + i]) else Spent();
      StorableKept(vout[i]);
    }
    if r == vout { forall i | 0 <= i < |vout| ensures r[i] == vout[i] {} }
  }

  lemma TrimmedIsSame(r: seq<TxOut>, vout: seq<TxOut>)
    requires |r| == |vout|
    ensures Trimmed(r) == vout <==> r == vout && (vout != [] ==> !IsNull(vout[|vout| - 1]))
  {
    if Trimmed(r) == vout { assert r[..|vout|] == r; }
  }

  /** The normal form is the record itself exactly if no integer is negative and the outputs are tidy. */
  lemma NormalIsSame(c: Coins)
    requires forall out | out in c.vout :: IsOutput(out)
    ensures Normal(c) == c <==> c.nVersion >= 0 && c.nHeight >= 0 && Tidy(c.vout)
  {
    var r := Restored(c.vout, 0, |c.vout|);
    RestoredIsSame(c.vout);
    TrimmedIsSame(r, c.vout);
    hide Restored, Trimmed, Storable, IsOutput;
    assert Normal(c) == Coins(c.fCoinBase, Trimmed(r), KeptInt(c.nHeight), KeptInt(c.nVersion));
  }
}
