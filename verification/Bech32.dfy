/** The Bech32 functions as the code computes them, by loops over accumulators and vectors. */
module Bech32 {
  import opened Octets
  import opened Bech32Poly
  import opened Bech32Codec

  function AddIf(c: bv32, h: bool, k: bv32): bv32 { if h then Xor(c, k) else c }

  lemma AddIfWhen(c: bv32, h: bool, k: bv32)
    ensures AddIf(c, h, k) == Xor(c, When(h, k))
  {
    hide Xor;
    XorZero(c);
  }

  /** Adding the five multiples of k(x) one after the other is one step. */
  lemma StepByParts(c: bv32, x: bv8)
    ensures var c0 := Leading(c);
      var c1 := AddIf(Xor(Shift(c), Wide(x)), HasBit(c0, 1), 0x3b6a57b2);
      var c2 := AddIf(c1, HasBit(c0, 2), 0x26508e6d);
      var c3 := AddIf(c2, HasBit(c0, 4), 0x1ea119fa);
      var c4 := AddIf(c3, HasBit(c0, 8), 0x3d4233dd);
      AddIf(c4, HasBit(c0, 16), 0x2a1462b3) == Step(c, x)
  {
    hide Xor, AddIf, When, HasBit, Leading, Wide, Shift;
    var c0, s := Leading(c), Xor(Shift(c), Wide(x));
    var p, q, r, t, u := When(HasBit(c0, 1), 0x3b6a57b2), When(HasBit(c0, 2), 0x26508e6d), When(HasBit(c0, 4), 0x1ea119fa),
      When(HasBit(c0, 8), 0x3d4233dd), When(HasBit(c0, 16), 0x2a1462b3);
    AddIfWhen(s, HasBit(c0, 1), 0x3b6a57b2);
    AddIfWhen(Xor(s, p), HasBit(c0, 2), 0x26508e6d);
    AddIfWhen(Xor(Xor(s, p), q), HasBit(c0, 4), 0x1ea119fa);
    AddIfWhen(Xor(Xor(Xor(s, p), q), r), HasBit(c0, 8), 0x3d4233dd);
    AddIfWhen(Xor(Xor(Xor(Xor(s, p), q), r), t), HasBit(c0, 16), 0x2a1462b3);
    XorAssoc(s, p, q);
    XorAssoc(s, Xor(p, q), r);
    XorAssoc(s, Xor(Xor(p, q), r), t);
    XorAssoc(s, Xor(Xor(Xor(p, q), r), t), u);
  }

  method PolyMod(v: seq<Byte>) returns (c: bv32)
    ensures c == Poly(v)
  {
    hide Xor, HasBit, Leading, Wide, Shift, Step, WordOf;
    c := 1;
    ghost var w := Words(v);
    assert w[..0] == [];
    for i := 0 to |v|
      invariant c == Feed(1, w[..i])
    {
      var x := WordOf(v[i]);
      StepByParts(c, x);
      assert w[..i + 1][..i] == w[..i] && w[i] == x;
      var c0 := Leading(c);
      c := Xor(Shift(c), Wide(x));
      c := AddIf(c, HasBit(c0, 1), 0x3b6a57b2);
      c := AddIf(c, HasBit(c0, 2), 0x26508e6d);
      c := AddIf(c, HasBit(c0, 4), 0x1ea119fa);
      c := AddIf(c, HasBit(c0, 8), 0x3d4233dd);
      c := AddIf(c, HasBit(c0, 16), 0x2a1462b3);
    }
    assert w[..|v|] == w;
  }

  method ExpandHRP(hrp: seq<Byte>) returns (ret: array<Byte>)
    ensures fresh(ret) && ret[..] == Bech32Codec.ExpandHRP(hrp)
  {
    ret := new Byte[2 * |hrp| + 1];
    for i := 0 to |hrp|
      invariant forall j | 0 <= j < i :: ret[j] == hrp[j] / 32 && ret[j + |hrp| + 1] == hrp[j] % 32
    {
      var c := hrp[i];
      ret[i] := c / 32;
      ret[i + |hrp| + 1] := c % 32;
    }
    ret[|hrp|] := 0;
    assert forall j | 0 <= j < |hrp| :: ret[..][j + |hrp| + 1] == hrp[j] % 32;
    ghost var spec := Bech32Codec.ExpandHRP(hrp);
    forall j | 0 <= j < 2 * |hrp| + 1 ensures ret[j] == spec[j] {
      if j > |hrp| { assert ret[j] == hrp[j - |hrp| - 1] % 32; }
    }
  }

  method VerifyChecksum(hrp: seq<Byte>, values: seq<Byte>) returns (ok: bool)
    ensures ok == Bech32Codec.VerifyChecksum(hrp, values)
  {
    var enc := ExpandHRP(hrp);
    var c := PolyMod(enc[..] + values);
    ok := c == 1;
  }

  method CreateChecksum(hrp: seq<Byte>, values: seq<Byte>) returns (ret: array<Byte>)
    ensures fresh(ret) && ret[..] == Bech32Codec.CreateChecksum(hrp, values)
  {
    hide Xor, Group, WordOf, ByteOf;
    var enc := ExpandHRP(hrp);
    var mod := PolyMod(enc[..] + values + NO_CHECKSUM);
    mod := Xor(mod, 1);
    ret := new Byte[6];
    for i := 0 to 6
      invariant forall j | 0 <= j < i :: ret[j] == ByteOf(Group(mod, j))
    {
      ret[i] := ByteOf(Group(mod, i));
    }
    assert ret[..] == Bytes(Unpack(mod));
  }

  method Encode(hrp: seq<Byte>, values: seq<Byte>) returns (ret: seq<Byte>)
    ensures ret == Bech32Codec.Encode(hrp, values)
  {
    hide CharOf, Bech32Codec.CreateChecksum;
    var checksum := CreateChecksum(hrp, values);
    var combined := values + checksum[..];
    ret := hrp + [ONE];
    for i := 0 to |combined|
      invariant Fives(combined[..i]) && ret == hrp + [ONE] + Chars(combined[..i])
    {
      var c := combined[i];
      if c >= 32 {
        return [];
      }
      ret := ret + [CharOf(c)];
      assert combined[..i + 1] == combined[..i] + [c];
      assert Chars(combined[..i + 1]) == Chars(combined[..i]) + [CharOf(c)];
    }
    assert combined[..|combined|] == combined;
  }

  /** The first pass over a string: no character out of range, and not both cases. */
  method CheckCharacters(str: seq<Byte>) returns (ok: bool)
    ensures ok <==> Printable(str) && !(HasLower(str) && HasUpper(str))
  {
    var lower, upper := false, false;
    for i := 0 to |str|
      invariant forall j | 0 <= j < i :: IsPrintable(str[j])
      invariant lower <==> exists j | 0 <= j < i :: IsLower(str[j])
      invariant upper <==> exists j | 0 <= j < i :: IsUpper(str[j])
    {
      var c := str[i];
      if c < 33 || c > 126 {
        assert !IsPrintable(str[i]);
        return false;
      }
      if c >= 97 && c <= 122 {
        assert IsLower(str[i]);
        lower := true;
      }
      if c >= 65 && c <= 90 {
        assert IsUpper(str[i]);
        upper := true;
      }
    }
    ok := !(lower && upper);
  }

  /** The position of the last separator, or -1. */
  method FindSeparator(str: seq<Byte>) returns (pos: int)
    ensures pos == LastOne(str)
  {
    pos := |str| - 1;
    assert str[..|str|] == str;
    while pos >= 0 && str[pos] != ONE
      invariant -1 <= pos < |str| && LastOne(str[..pos + 1]) == LastOne(str)
    {
      assert str[..pos + 1][..pos] == str[..pos];
      pos := pos - 1;
    }
  }

  method Decode(str: seq<Byte>) returns (r: Decoded)
    ensures r == Bech32Codec.Decode(str)
  {
    hide RevOf, LowerCase, Bech32Codec.VerifyChecksum, Printable, HasLower, HasUpper, LastOne;
    var ok := CheckCharacters(str);
    if !ok {
      return Invalid;
    }
    var pos := FindSeparator(str);
    if |str| > LIMIT || pos == -1 || pos == 0 || pos + 7 > |str| {
      return Invalid;
    }
    ghost var rest := str[pos + 1..];
    var values: seq<Byte> := [];
    for i := 0 to |str| - 1 - pos
      invariant |values| == i && forall j | 0 <= j < i :: values[j] == RevOf(rest[j])
    {
      var rev := RevOf(str[i + pos + 1]);
      assert rest[i] == str[i + pos + 1];
      if rev == -1 {
        return Invalid;
      }
      RevRange(str[i + pos + 1]);
      values := values + [rev];
    }
    assert Readable(rest) && values == Revs(rest);
    var hrp: seq<Byte> := [];
    for i := 0 to pos
      invariant |hrp| == i && forall j | 0 <= j < i :: hrp[j] == LowerCase(str[j])
    {
      hrp := hrp + [LowerCase(str[i])];
    }
    assert hrp == Lower(str[..pos]);
    var verified := VerifyChecksum(hrp, values);
    if !verified {
      return Invalid;
    }
    return Valid(hrp, values[..|values| - 6]);
  }

  lemma RevRange(c: Byte)
    requires RevOf(c) != -1
    ensures 0 <= RevOf(c) < 256
  {
    CharOfRev(c);
  }
}
