/** Writing coins to a stream and reading them back, by the loops of the code. */
module CoinsStream {
  import opened Octets
  import opened Powers
  import opened VarInts
  import opened ScriptCodec
  import opened CoinsMap
  import opened CoinsCodec

  /** Remove spent outputs at the end. */
  method CleanupOutputs(vout: seq<TxOut>) returns (r: seq<TxOut>)
    ensures r == Trimmed(vout)
  {
    r := vout;
    while |r| > 0 && IsNull(r[|r| - 1])
      invariant Trimmed(r) == Trimmed(vout)
      decreases |r|
    {
      r := r[..|r| - 1];
    }
  }

  /** Whether all outputs of one mask byte are spent. */
  method BlockIsZero(vout: seq<TxOut>, b: nat) returns (fZero: bool)
    ensures fZero == (MaskByte(vout, b) == 0)
  {
    hide MaskByte;
    fZero := true;
    var i := 0;
    ghost var f := Flags(vout, 2 + 8 * b, 8);
    while i < 8 && 2 + b * 8 + i < |vout|
      invariant i <= 8 && (fZero <==> forall j | 0 <= j < i :: !f[j])
    {
      if !IsNull(vout[2 + b * 8 + i]) {
        assert f[i];
        fZero := false;
      }
      i := i + 1;
    }
    BlockFlags(vout, b, i);
  }

  lemma BlockFlags(vout: seq<TxOut>, b: nat, i: nat)
    requires i == 8 || (i < 8 && 2 + 8 * b + i >= |vout|)
    ensures var f := Flags(vout, 2 + 8 * b, 8); MaskByte(vout, b) == 0 <==> forall j | 0 <= j < i :: !f[j]
  {
    PackBound(Flags(vout, 2 + 8 * b, 8));
  }

  /** The number of mask bytes, and how many of them are not zero. */
  method CalcMaskSize(vout: seq<TxOut>) returns (nBytes: nat, nNonzeroBytes: nat)
    ensures nBytes == MaskSize(vout) && nNonzeroBytes == Nonzero(vout, Blocks(vout))
  {
    hide MaskByte;
    var nLastUsedByte := 0;
    nNonzeroBytes := 0;
    var b := 0;
    while 2 + b * 8 < |vout|
      invariant b <= Blocks(vout) && nLastUsedByte == LastUsed(vout, b) && nNonzeroBytes == Nonzero(vout, b)
    {
      var fZero := BlockIsZero(vout, b);
      if !fZero {
        nLastUsedByte := b + 1;
        nNonzeroBytes := nNonzeroBytes + 1;
      }
      b := b + 1;
    }
    nBytes := nLastUsedByte;
  }

  /** One byte of the mask, its bits set one after the other. */
  method WriteMaskByte(vout: seq<TxOut>, b: nat) returns (chAvail: Byte)
    ensures chAvail == MaskByte(vout, b)
  {
    hide MaskByte, Pow;
    chAvail := 0;
    var i := 0;
    ghost var f := Flags(vout, 2 + 8 * b, 8);
    PackNothing(f);
    while i < 8 && 2 + b * 8 + i < |vout|
      invariant i <= 8 && chAvail == PackFlags(f[..i]) && f == Flags(vout, 2 + 8 * b, 8)
    {
      PackNext(f, i);
      if !IsNull(vout[2 + b * 8 + i]) {
        chAvail := chAvail + Pow(2, i);
      }
      i := i + 1;
    }
    PackRest(f, i);
    SameByte(vout, b);
  }

  lemma SameByte(vout: seq<TxOut>, b: nat)
    ensures PackFlags(Flags(vout, 2 + 8 * b, 8)) == MaskByte(vout, b)
  {
  }

  lemma PackNothing(f: seq<bool>)
    ensures PackFlags(f[..0]) == 0
  {
  }

  lemma {:induction false} PackAppend(f: seq<bool>, b: bool)
    ensures PackFlags(f + [b]) == PackFlags(f) + B(b) * Pow(2, |f|)
  {
    if f == [] {
      assert [b][1..] == [];
    } else {
      assert (f + [b])[1..] == f[1..] + [b];
      PackAppend(f[1..], b);
    }
  }

  /** One more bit; the byte does not overflow. */
  lemma PackNext(f: seq<bool>, i: nat)
    requires i < |f| == 8
    ensures PackFlags(f[..i + 1]) == PackFlags(f[..i]) + B(f[i]) * Pow(2, i) < 256
  {
    assert f[..i + 1] == f[..i] + [f[i]];
    PackAppend(f[..i], f[i]);
    PackBound(f[..i + 1]);
    PowGrows(2, i + 1, 8);
    assert Pow(2, 8) == 256;
  }

  lemma {:induction false} PackRest(f: seq<bool>, i: nat)
    requires i <= |f| && forall j | i <= j < |f| :: !f[j]
    ensures PackFlags(f) == PackFlags(f[..i])
    decreases |f| - i
  {
    if i < |f| {
      PackRest(f, i + 1);
      assert f[..i + 1] == f[..i] + [f[i]];
      PackAppend(f[..i], f[i]);
    } else {
      assert f[..i] == f;
    }
  }

  /** Write coins that are not pruned. */
  method Serialize(curve: Curve, c: Coins) returns (s: seq<Byte>)
    requires !IsPruned(c)
    ensures s == CoinsText(curve, c)
  {
    hide VarInt, VarIntOf, MaskByte, OutText, Blocks, Nonzero;
    var vout := c.vout;
    var nMaskSize, nMaskCode := CalcMaskSize(vout);
    var fFirst, fSecond := |vout| > 0 && !IsNull(vout[0]), |vout| > 1 && !IsNull(vout[1]);
    SomethingToCode(vout);
    assert fFirst || fSecond || nMaskCode > 0;
    var nCode := 8 * (nMaskCode - (if fFirst || fSecond then 0 else 1)) + (if c.fCoinBase then 1 else 0)
      + (if fFirst then 2 else 0) + (if fSecond then 4 else 0);
    assert nCode == HeaderCode(c);
    s := VarIntOf(c.nVersion) + VarInt(nCode % TWO32);
    var mask := WriteMask(vout, nMaskSize);
    var outs := WriteOuts(curve, vout);
    s := s + mask + outs + VarIntOf(c.nHeight);
  }

  method WriteMask(vout: seq<TxOut>, nMaskSize: nat) returns (s: seq<Byte>)
    ensures s == MaskFrom(vout, 0, nMaskSize)
  {
    hide MaskByte;
    s := [];
    for b := 0 to nMaskSize
      invariant s + MaskFrom(vout, b, nMaskSize) == MaskFrom(vout, 0, nMaskSize)
    {
      var chAvail := WriteMaskByte(vout, b);
      assert s + ([chAvail] + MaskFrom(vout, b + 1, nMaskSize)) == s + [chAvail] + MaskFrom(vout, b + 1, nMaskSize);
      s := s + [chAvail];
    }
  }

  method WriteOuts(curve: Curve, vout: seq<TxOut>) returns (s: seq<Byte>)
    ensures s == OutsFrom(curve, vout, 0)
  {
    hide OutText;
    s := [];
    for i := 0 to |vout|
      invariant s + OutsFrom(curve, vout, i) == OutsFrom(curve, vout, 0)
    {
      var text := if IsNull(vout[i]) then [] else OutText(curve, vout[i]);
      assert s + (text + OutsFrom(curve, vout, i + 1)) == s + text + OutsFrom(curve, vout, i + 1);
      s := s + text;
    }
  }

  function Prepend<T>(x: seq<T>, r: Read<seq<T>>): Read<seq<T>> {
    if r.Failed? then Failed else Got(x + r.value, r.rest)
  }

  lemma PrependMore<T>(x: seq<T>, y: seq<T>, r: Read<seq<T>>)
    ensures Prepend(x, Prepend(y, r)) == Prepend(x + y, r)
  {
    if r.Got? { assert x + (y + r.value) == x + y + r.value; }
  }

  /** The flags of the mask bytes, up to the last one announced. */
  method ReadMaskBytes(nMaskCode: nat, s: seq<Byte>) returns (r: Read<seq<bool>>)
    ensures r == ReadMask(nMaskCode, s)
  {
    hide UnpackFlags;
    var code, t, vAvail: seq<bool> := nMaskCode, s, [];
    assert ReadMask(code, t).Got? ==> [] + ReadMask(code, t).value == ReadMask(code, t).value;
    while code > 0
      invariant Prepend(vAvail, ReadMask(code, t)) == ReadMask(nMaskCode, s)
      decreases |t|
    {
      if t == [] {
        return Failed;
      }
      var chAvail := t[0];
      var bits := ReadBits(chAvail);
      ghost var code' := if chAvail != 0 then code - 1 else code;
      PrependMore(vAvail, bits, ReadMask(code', t[1..]));
      vAvail := vAvail + bits;
      if chAvail != 0 {
        code := code - 1;
      }
      t := t[1..];
    }
    assert vAvail + [] == vAvail;
    return Got(vAvail, t);
  }

  method ReadBits(chAvail: Byte) returns (bits: seq<bool>)
    ensures bits == UnpackFlags(chAvail, 8)
  {
    hide UnpackFlags;
    bits := [];
    var x: nat := chAvail;
    for p := 0 to 8
      invariant bits + UnpackFlags(x, 8 - p) == UnpackFlags(chAvail, 8)
    {
      UnpackNext(x, 8 - p);
      assert bits + ([x % 2 == 1] + UnpackFlags(x / 2, 7 - p)) == bits + [x % 2 == 1] + UnpackFlags(x / 2, 7 - p);
      bits := bits + [x % 2 == 1];
      x := x / 2;
    }
    UnpackNone(x);
  }

  lemma UnpackNext(x: nat, n: nat)
    requires n > 0
    ensures UnpackFlags(x, n) == [x % 2 == 1] + UnpackFlags(x / 2, n - 1)
  {
  }

  lemma UnpackNone(x: nat)
    ensures UnpackFlags(x, 0) == []
  {
  }

  method ReadOutputs(curve: Curve, vAvail: seq<bool>, s: seq<Byte>) returns (r: Read<seq<TxOut>>)
    ensures r == ReadOuts(curve, vAvail, s)
  {
    hide ReadOut;
    var t, vout: seq<TxOut> := s, [];
    assert vAvail[0..] == vAvail;
    assert ReadOuts(curve, vAvail, t).Got? ==> [] + ReadOuts(curve, vAvail, t).value == ReadOuts(curve, vAvail, t).value;
    for i := 0 to |vAvail|
      invariant Prepend(vout, ReadOuts(curve, vAvail[i..], t)) == ReadOuts(curve, vAvail, s)
    {
      assert vAvail[i..][1..] == vAvail[i + 1..];
      var out := Spent();
      if vAvail[i] {
        var read := ReadOut(curve, t);
        if read.Failed? {
          return Failed;
        }
        out, t := read.value, read.rest;
      }
      PrependMore(vout, [out], ReadOuts(curve, vAvail[i + 1..], t));
      vout := vout + [out];
    }
    assert vout + [] == vout;
    return Got(vout, t);
  }

  /** Read coins; the stream may end early. */
  method Unserialize(curve: Curve, s: seq<Byte>) returns (r: Read<Coins>)
    ensures r == ReadCoins(curve, s)
  {
    hide ReadMask, ReadOuts;
    var version := ReadVarIntLoop(s, TWO32);
    if version.Failed? {
      return Failed;
    }
    var code := ReadVarIntLoop(version.rest, TWO32);
    if code.Failed? {
      return Failed;
    }
    var nCode := code.value;
    var fCoinBase, fFirst, fSecond := nCode % 2 == 1, nCode / 2 % 2 == 1, nCode / 4 % 2 == 1;
    var nMaskCode := nCode / 8 + (if fFirst || fSecond then 0 else 1);
    var mask := ReadMaskBytes(nMaskCode, code.rest);
    if mask.Failed? {
      return Failed;
    }
    var vAvail := [fFirst, fSecond] + mask.value;
    var outs := ReadOutputs(curve, vAvail, mask.rest);
    if outs.Failed? {
      return Failed;
    }
    var height := ReadVarIntLoop(outs.rest, TWO32);
    if height.Failed? {
      return Failed;
    }
    var vout := CleanupOutputs(outs.value);
    return Got(Coins(fCoinBase, vout, Int32(height.value), Int32(version.value)), height.rest);
  }
}
