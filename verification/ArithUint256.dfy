/** The 256-bit unsigned integers: eight limbs, changed in place by carry, shift and long
    division loops, each shown to compute the operation on numbers modulo 2^256. */
module ArithUint256 {
  import opened Powers
  import opened ArithLimbs
  import opened ArithSteps
  import opened CompactTarget

  class BaseUint {
    const pn: array<Limb>

    ghost predicate Valid() { pn.Length == WIDTH }

    ghost function Val(): int
      reads pn
    {
      Value(pn[..])
    }

    constructor ()
      ensures Valid() && fresh(pn) && Val() == 0
    {
      pn := new Limb[WIDTH];
      new;
      for i := 0 to WIDTH
        invariant forall j | 0 <= j < i :: pn[j] == 0
      {
        pn[i] := 0;
      }
      ValueOfZeros(pn[..]);
    }

    constructor Copy(b: BaseUint)
      requires b.Valid()
      ensures Valid() && fresh(pn) && pn[..] == b.pn[..]
    {
      pn := new Limb[WIDTH];
      new;
      for i := 0 to WIDTH
        invariant forall j | 0 <= j < i :: pn[j] == b.pn[j]
      {
        pn[i] := b.pn[i];
      }
    }

    /** Assignment from a 64-bit number. */
    method Set(b: nat)
      requires Valid() && b < BASE * BASE
      modifies pn
      ensures Val() == b
    {
      pn[0] := Low(b);
      pn[1] := High(b);
      for i := 2 to WIDTH
        invariant pn[0] == Low(b) && pn[1] == High(b)
        invariant forall j | 2 <= j < i :: pn[j] == 0
      {
        pn[i] := 0;
      }
      TwoLimbs(pn[..]);
    }

    method IsZero() returns (r: bool)
      requires Valid()
      ensures r == (Val() == 0)
    {
      ValueOfZeros(pn[..]);
      for i := 0 to WIDTH
        invariant forall j | 0 <= j < i :: pn[j] == 0
      {
        if pn[i] != 0 {
          return false;
        }
      }
      return true;
    }

    method AddAssign(b: BaseUint)
      requires Valid() && b.Valid()
      modifies pn
      ensures Val() == (old(Val()) + old(b.Val())) % MODULUS
    {
      hide Pow, Value, Low, High;
      ghost var s, t := pn[..], b.pn[..];
      StartOfValue(s);
      StartOfValue(t);
      var carry := 0;
      for i := 0 to WIDTH
        invariant 0 <= carry <= 1
        invariant pn[i..] == s[i..] && b.pn[i..] == t[i..]
        invariant Value(pn[..][..i]) + carry * Pow(BASE, i) == Value(s[..i]) + Value(t[..i])
      {
        ghost var before, c := pn[..], carry;
        ValueSnoc(s, i);
        ValueSnoc(t, i);
        assert pn[i] == s[i..][0] && b.pn[i] == t[i..][0];
        var n := carry + pn[i] as int + b.pn[i] as int;
        pn[i] := Low(n);
        carry := High(n);
        assert (s[i] as int + t[i] as int) * Pow(BASE, i) == s[i] * Pow(BASE, i) + t[i] * Pow(BASE, i);
        CarryStep(before, pn[..], i, n, Value(s[..i]) + Value(t[..i]),
                  Value(s[..i + 1]) + Value(t[..i + 1]), c, s[i] as int + t[i] as int);
        CarryBound(n);
        assert pn[i + 1..] == before[i + 1..] == s[i..][1..];
        assert b.pn[i + 1..] == t[i..][1..];
      }
      assert pn[..][..WIDTH] == pn[..] && s[..WIDTH] == s && t[..WIDTH] == t;
      Reduced(pn[..], carry, Value(s) + Value(t));
    }

    method Increment()
      requires Valid()
      modifies pn
      ensures Val() == (old(Val()) + 1) % MODULUS
    {
      hide Pow, Value, Low;
      ghost var s := pn[..];
      var i := 0;
      pn[0] := Low(pn[0] as int + 1);
      IncrementLimb(s, 0);
      PowOne(BASE);
      while pn[i] == 0 && i < WIDTH - 1
        invariant 0 <= i < WIDTH && pn[i + 1..] == s[i + 1..]
        invariant Value(pn[..]) + (if pn[i] == 0 then Pow(BASE, i + 1) else 0) == Value(s) + 1
      {
        ghost var before := pn[..];
        i := i + 1;
        assert pn[i] == s[i..][0];
        pn[i] := Low(pn[i] as int + 1);
        IncrementLimb(before, i);
        assert pn[..] == before[i := Low(before[i] as int + 1)];
        assert pn[i + 1..] == before[i..][1..];
      }
      Reduced(pn[..], if pn[i] == 0 then 1 else 0, Value(s) + 1);
    }

    method Decrement()
      requires Valid()
      modifies pn
      ensures Val() == (old(Val()) - 1) % MODULUS
    {
      hide Pow, Value, Low;
      ghost var s := pn[..];
      var i := 0;
      pn[0] := Low(pn[0] as int + BASE - 1);
      DecrementLimb(s, 0);
      PowOne(BASE);
      while pn[i] == BASE - 1 && i < WIDTH - 1
        invariant 0 <= i < WIDTH && pn[i + 1..] == s[i + 1..]
        invariant Value(pn[..]) - (if pn[i] == BASE - 1 then Pow(BASE, i + 1) else 0) == Value(s) - 1
      {
        ghost var before := pn[..];
        i := i + 1;
        assert pn[i] == s[i..][0];
        pn[i] := Low(pn[i] as int + BASE - 1);
        DecrementLimb(before, i);
        assert pn[..] == before[i := Low(before[i] as int + BASE - 1)];
        assert pn[i + 1..] == before[i..][1..];
      }
      Reduced(pn[..], if pn[i] == BASE - 1 then -1 else 0, Value(s) - 1);
    }

    /** Unary minus. */
    method Negated() returns (ret: BaseUint)
      requires Valid()
      ensures ret.Valid() && fresh(ret) && fresh(ret.pn) && ret.Val() == -Val() % MODULUS
    {
      hide Pow, Value;
      ret := new BaseUint();
      for i := 0 to WIDTH
        invariant fresh(ret.pn) && ret.Valid()
        invariant forall j | 0 <= j < i :: ret.pn[j] == BASE - 1 - pn[j]
      {
        ret.pn[i] := BASE - 1 - pn[i];
      }
      ValueOfComplement(pn[..], ret.pn[..]);
      ret.Increment();
      ModOfSum(-Val(), MODULUS, 1);
    }

    method SubAssign(b: BaseUint)
      requires Valid() && b.Valid()
      modifies pn
      ensures Val() == (old(Val()) - old(b.Val())) % MODULUS
    {
      hide Pow, Value;
      var minus := b.Negated();
      AddOfMod(Val(), -b.Val(), MODULUS);
      AddAssign(minus);
    }

    /** Multiplication by a 32-bit number. */
    method MulAssignWord(b32: Limb)
      requires Valid()
      modifies pn
      ensures Val() == old(Val()) * b32 % MODULUS
    {
      hide Pow, Value, Low, High;
      ghost var s := pn[..];
      StartOfValue(s);
      var carry := 0;
      for i := 0 to WIDTH
        invariant 0 <= carry < BASE
        invariant pn[i..] == s[i..]
        invariant Value(pn[..][..i]) + carry * Pow(BASE, i) == Value(s[..i]) * b32
      {
        ghost var before, c := pn[..], carry;
        assert pn[i] == s[i..][0];
        ProductBound(b32, pn[i]);
        var n := carry + b32 * pn[i] as int;
        assert 0 <= n < BASE * BASE;
        pn[i] := Low(n);
        carry := High(n);
        WordStep(s, before, pn[..], i, n, b32, c);
        WideCarry(n);
        assert pn[i + 1..] == before[i + 1..] == s[i..][1..];
      }
      assert pn[..][..WIDTH] == pn[..] && s[..WIDTH] == s;
      Reduced(pn[..], carry, Value(s) * b32);
    }

    method ShiftLeft(shift: nat)
      requires Valid()
      modifies pn
      ensures Val() == old(Val()) * Pow(2, shift) % MODULUS
    {
      hide Pow, Value, Shl, Shr, OrLimb, ShiftRoom;
      var a := new BaseUint.Copy(this);
      ghost var s := pn[..];
      Clear();
      var k, rest := shift / 32, shift % 32;
      ghost var lost: nat := 0;
      ShiftStart(pn[..], s, k, rest);
      for i := 0 to WIDTH
        invariant a.pn[..] == s && ShiftRoom(pn[..], i + k, rest)
        invariant Value(pn[..]) + lost * MODULUS == Value(s[..i]) * (Pow(2, rest) * Pow(BASE, k))
      {
        ghost var t := pn[..];
        lost := ShiftLeftStep(s, i, rest, k, t, lost);
        assert a.pn[i] == s[i];
        if i + k + 1 < WIDTH && rest != 0 {
          pn[i + k + 1] := OrLimb(pn[i + k + 1], Shr(a.pn[i], 32 - rest));
        }
        if i + k < WIDTH {
          pn[i + k] := OrLimb(pn[i + k], Shl(a.pn[i], rest));
        }
        assert pn[..] == ShiftedInto(t, s[i], i + k, rest);
      }
      assert s[..WIDTH] == s;
      ShiftAmount(k, rest, shift);
      Reduced(pn[..], lost, Value(s) * Pow(2, shift));
    }

    method ShiftRight(shift: nat)
      requires Valid()
      modifies pn
      ensures Val() == old(Val()) / Pow(2, shift)
    {
      hide Pow, Value, Shl, Shr, OrLimb, RightRoom;
      var a := new BaseUint.Copy(this);
      ghost var s := pn[..];
      Clear();
      var k, rest := shift / 32, shift % 32;
      ShiftAmount(k, rest, shift);
      ShiftStart(pn[..], s, k, rest);
      for i := 0 to WIDTH
        invariant a.pn[..] == s && RightRoom(pn[..], i - k, rest)
        invariant Value(pn[..]) == Value(s[..i]) / (Pow(2, rest) * Pow(BASE, k))
      {
        ghost var t := pn[..];
        ShiftRightStep(s, i, rest, k, t);
        assert a.pn[i] == s[i];
        if i - k - 1 >= 0 && rest != 0 {
          pn[i - k - 1] := OrLimb(pn[i - k - 1], Shl(a.pn[i], 32 - rest));
        }
        if i - k >= 0 {
          pn[i - k] := OrLimb(pn[i - k], Shr(a.pn[i], rest));
        }
        assert pn[..] == ShiftedDown(t, s[i], i - k, rest);
      }
      assert s[..WIDTH] == s;
    }

    method Clear()
      requires Valid()
      modifies pn
      ensures forall j | 0 <= j < WIDTH :: pn[j] == 0
    {
      for i := 0 to WIDTH
        invariant forall j | 0 <= j < i :: pn[j] == 0
      {
        pn[i] := 0;
      }
    }

    /** Multiplication by another number. When that number is this one, in the same memory, it
        is cleared before it is read and the result is zero. */
    method MulAssign(b: BaseUint)
      requires Valid() && b.Valid()
      modifies pn
      ensures b.pn != pn ==> Val() == old(Val()) * old(b.Val()) % MODULUS
      ensures b.pn == pn ==> Val() == 0
    {
      hide Pow, Value, Low, High;
      var a := new BaseUint.Copy(this);
      ghost var s := pn[..];
      Clear();
      ghost var t, lost: nat := b.pn[..], 0;
      MulStart(pn[..], s, t);
      for j := 0 to WIDTH
        invariant a.pn[..] == s && b.pn[..] == t
        invariant Value(pn[..]) + lost * MODULUS == Value(s[..j]) * Value(t)
      {
        ghost var before := pn[..];
        var carry := 0;
        ghost var x := s[j];
        assert a.pn[j] == x;
        MulRowStart(before, t, j, x);
        for i := 0 to WIDTH - j
          invariant 0 <= carry < BASE && (b.pn == pn ==> carry == 0)
          invariant a.pn[..] == s && b.pn[..] == t && pn[..][i + j..] == before[i + j..]
          invariant Value(pn[..][..i + j]) + carry * Pow(BASE, i + j) == Value(before[..i + j]) + x * Value(t[..i]) * Pow(BASE, j)
        {
          ghost var was, c := pn[..], carry;
          assert pn[i + j] == before[i + j..][0] && b.pn[i] == t[i];
          WideSum(carry, pn[i + j], a.pn[j], b.pn[i]);
          var n := carry + pn[i + j] as int + a.pn[j] as int * b.pn[i] as int;
          pn[i + j] := Low(n);
          carry := High(n);
          WideCarry(n);
          MulStep(before, was, pn[..], i, j, x, t, n, c);
          assert pn[..][i + j + 1..] == was[i + j..][1..];
          if b.pn == pn { ZeroSum(n, t, i, j, x); }
        }
        assert pn[..][..WIDTH] == pn[..] && before[..WIDTH] == before;
        lost := MulRow(s, t, before, pn[..], j, carry, lost);
      }
      assert s[..WIDTH] == s;
      Reduced(pn[..], lost, Value(s) * Value(t));
    }

    /** The position of the highest bit set plus one, or zero. */
    method Bits() returns (r: nat)
      requires Valid()
      ensures r <= 32 * WIDTH && (r == 0 <==> Val() == 0)
      ensures r > 0 ==> Pow(2, r - 1) <= Val() < Pow(2, r)
    {
      hide Pow, Value, Shr;
      var pos := WIDTH - 1;
      while pos >= 0
        invariant -1 <= pos < WIDTH && forall j | pos < j < WIDTH :: pn[j] == 0
      {
        if pn[pos] != 0 {
          var bits := 31;
          BaseIsPower();
          while bits > 0
            invariant 0 <= bits < 32 && pn[pos] < Pow(2, bits + 1)
          {
            if TestBit(pn[pos], bits) {
              WhenSet(pn[pos], bits);
              HighestBit(pn[..], pos, bits);
              return 32 * pos + bits + 1;
            }
            WhenClear(pn[pos], bits);
            bits := bits - 1;
          }
          PowOne(2);
          HighestBit(pn[..], pos, 0);
          return 32 * pos + 1;
        }
        pos := pos - 1;
      }
      ValueOfZeros(pn[..]);
      return 0;
    }

    /** One turn of the long division: one more bit of the quotient. */
    method DivBit(num: BaseUint, div: BaseUint, shift: nat, ghost a: nat, ghost b: nat)
      requires Valid() && num.Valid() && div.Valid() && num.pn != div.pn && num.pn != pn && div.pn != pn
      requires Dividing(a, b, Val(), num.Val(), div.Val(), shift)
      modifies pn, num.pn, div.pn
      ensures Dividing(a, b, Val(), num.Val(), div.Val(), shift - 1)
    {
      hide Pow, Value, OrLimb, Dividing;
      DividingStep(a, b, Val(), num.Val(), div.Val(), shift);
      DividingBit(a, b, Val(), num.Val(), div.Val(), shift);
      var order := num.CompareTo(div);
      if order >= 0 {
        ghost var r := num.Val();
        ValueBound(num.pn[..]);
        DivModUnique(r - div.Val(), MODULUS, 0, r - div.Val());
        num.SubAssign(div);
        SetBit(pn[..], shift);
        pn[shift / 32] := OrLimb(pn[shift / 32], Pow(2, shift % 32));
      }
      PowOne(2);
      div.ShiftRight(1);
    }

    /** Division. Dividing by zero is an error, which leaves zero behind. */
    method DivAssign(b: BaseUint) returns (ok: bool, ghost num: nat)
      requires Valid() && b.Valid()
      modifies pn
      ensures ok <==> old(b.Val()) != 0
      ensures ok ==> old(Val()) == Val() * old(b.Val()) + num && num < old(b.Val())
      ensures !ok ==> Val() == 0
    {
      hide Pow, Value, OrLimb, Dividing;
      var div := new BaseUint.Copy(b);
      var rem := new BaseUint.Copy(this);
      ghost var x, y := Val(), b.Val();
      Clear();
      ValueOfZeros(pn[..]);
      var numBits := rem.Bits();
      var divBits := div.Bits();
      num := x;
      if divBits == 0 {
        ok := false;
        return;
      }
      ok := true;
      if divBits > numBits {
        SmallDividend(x, y, numBits, divBits);
        return;
      }
      var shift := numBits - divBits;
      Aligned(x, y, numBits, divBits);
      DivModUnique(y * Pow(2, shift), MODULUS, 0, y * Pow(2, shift));
      div.ShiftLeft(shift);
      DividingStart(x, y, shift);
      while shift >= 0
        invariant fresh(div.pn) && fresh(rem.pn) && div.pn != rem.pn && div.pn != pn && rem.pn != pn
        invariant div.Valid() && rem.Valid()
        invariant -1 <= shift
        invariant Dividing(x, y, Val(), rem.Val(), div.Val(), shift)
      {
        DivBit(rem, div, shift, x, y);
        shift := shift - 1;
      }
      num := rem.Val();
      DividingEnd(x, y, Val(), num, div.Val());
    }

    method CompareTo(b: BaseUint) returns (r: int)
      requires Valid() && b.Valid()
      ensures r == if Val() < b.Val() then -1 else if Val() > b.Val() then 1 else 0
    {
      hide Pow, Value;
      var i := WIDTH - 1;
      while i >= 0
        invariant -1 <= i < WIDTH && pn[..][i + 1..] == b.pn[..][i + 1..]
      {
        if pn[i] < b.pn[i] {
          ValueOrder(pn[..], b.pn[..], i);
          return -1;
        }
        if pn[i] > b.pn[i] {
          ValueOrder(b.pn[..], pn[..], i);
          return 1;
        }
        SuffixGrows(pn[..], b.pn[..], i);
        i := i - 1;
      }
      assert pn[..][0..] == pn[..] && b.pn[..][0..] == b.pn[..];
      return 0;
    }

    /** Comparison with a 64-bit number. */
    method EqualTo(b: nat) returns (r: bool)
      requires Valid() && b < BASE * BASE
      ensures r == (Val() == b)
    {
      TwoLimbsOnly(pn[..]);
      var i := WIDTH - 1;
      while i >= 2
        invariant 1 <= i < WIDTH && forall j | i < j < WIDTH :: pn[j] == 0
      {
        if pn[i] != 0 {
          return false;
        }
        i := i - 1;
      }
      if pn[1] != High(b) {
        return false;
      }
      if pn[0] != Low(b) {
        return false;
      }
      return true;
    }

    method GetLow64() returns (r: nat)
      requires Valid()
      ensures r == Val() % (BASE * BASE)
    {
      LowLimbs(pn[..]);
      OrShifted(pn[0], pn[1]);
      r := Or(pn[0], pn[1] * BASE);
    }

    /** Read a compact word. */
    method SetCompact(nCompact: nat) returns (fNegative: bool, fOverflow: bool)
      requires Valid() && nCompact < BASE
      modifies pn
      ensures Val() == Magnitude(nCompact) % MODULUS
      ensures fNegative == Negative(nCompact) && fOverflow == Overflow(nCompact)
      ensures !fOverflow ==> Val() == Magnitude(nCompact)
    {
      hide Pow, Value;
      var nSize := nCompact / 0x100_0000;
      var nWord := nCompact % 0x80_0000;
      WordBound(nCompact);
      OverflowExact(nCompact);
      LimbPower(WIDTH);
      if nSize <= 3 {
        BytePower(3 - nSize);
        nWord := nWord / Pow(2, 8 * (3 - nSize));
        Set(nWord);
        ValueBound(pn[..]);
        DivModUnique(nWord, MODULUS, 0, nWord);
      } else {
        Set(nWord);
        BytePower(nSize - 3);
        ShiftLeft(8 * (nSize - 3));
      }
      fNegative := nWord != 0 && nCompact / 0x80_0000 % 2 == 1;
      fOverflow := nWord != 0 && (nSize > 34 || (nWord > 0xff && nSize > 33) || (nWord > 0xffff && nSize > 32));
      if !fOverflow {
        DivModUnique(Magnitude(nCompact), MODULUS, 0, Magnitude(nCompact));
      }
    }

    /** The first part of GetCompact: the top three bytes and the number of bytes. */
    method TopBytes() returns (nCompact: nat, nSize: nat)
      requires Valid()
      ensures nSize == (BitLength(Val()) + 7) / 8 && nCompact == RawMantissa(Val()) && nSize <= 32
    {
      hide Pow, Value, BitLength, RawMantissa;
      ghost var x := Val();
      var bits := Bits();
      nSize := (bits + 7) / 8;
      BitsAreLength(x, bits);
      RawMantissaFits(x);
      TopBytesFit(x, nSize);
      if nSize <= 3 {
        var low := GetLow64();
        nCompact := low * Pow(2, 8 * (3 - nSize)) % BASE;
      } else {
        var bn := new BaseUint.Copy(this);
        bn.ShiftRight(8 * (nSize - 3));
        var low := bn.GetLow64();
        nCompact := low % BASE;
      }
    }

    /** Write a compact word. */
    method GetCompact(fNegative: bool) returns (nCompact: nat)
      requires Valid()
      ensures nCompact == CompactOf(Val(), fNegative) < BASE
    {
      hide Pow, Value, BitLength, Or, RawMantissa, Exponent, Mantissa;
      ghost var x := Val();
      var nSize: nat;
      nCompact, nSize := TopBytes();
      RawMantissaFits(x);
      if nCompact / 0x80_0000 % 2 == 1 {
        nCompact := nCompact / 256;
        nSize := nSize + 1;
      }
      assert nCompact < 0x80_0000;
      assert nSize < 256;
      OrFields(nCompact, nSize, x, fNegative);
      nCompact := Or(nCompact, nSize * 0x100_0000);
      nCompact := Or(nCompact, if fNegative && nCompact % 0x80_0000 != 0 then 0x80_0000 else 0);
    }
  }

  lemma BitsAreLength(x: nat, bits: nat)
    requires bits == 0 <==> x == 0
    requires bits > 0 ==> Pow(2, bits - 1) <= x < Pow(2, bits)
    ensures bits == BitLength(x)
  {
    if bits > 0 { BitLengthUnique(x, bits); }
  }

  /** The bytes that are kept survive the cuts to 64 and 32 bits. */
  lemma TopBytesFit(x: nat, n: nat)
    requires n == (BitLength(x) + 7) / 8 && RawMantissa(x) < MANTISSAS
    ensures n <= 3 ==> x % (BASE * BASE) * Pow(2, 8 * (3 - n)) % BASE == RawMantissa(x)
    ensures n > 3 ==> x / Pow(2, 8 * (n - 3)) % (BASE * BASE) % BASE == RawMantissa(x)
  {
    hide Pow, BitLength;
    if n <= 3 {
      BytePower(3 - n);
      MulMonotone(1, Pow(256, 3 - n), x);
      SmallMod(x, BASE * BASE);
      SmallMod(RawMantissa(x), BASE);
    } else {
      BytePower(n - 3);
      SmallMod(RawMantissa(x), BASE * BASE);
      SmallMod(RawMantissa(x), BASE);
    }
  }

  lemma OrFields(w: nat, n: nat, x: nat, neg: bool)
    requires w == Mantissa(x) < SIGN && n == Exponent(x)
    ensures var c := Or(w, n * MANTISSAS);
      Or(c, if neg && c % SIGN != 0 then SIGN else 0) == CompactOf(x, neg)
  {
    hide Pow, Or, BitLength, Exponent, Mantissa;
    Powers23();
    ProductMod(MANTISSAS, n);
    assert MANTISSAS * n == n * MANTISSAS;
    OrDisjoint(n * MANTISSAS, w, 24);
    var c := n * MANTISSAS + w;
    Fields(n, w, false);
    assert Or(w, n * MANTISSAS) == c;
    MantissaZero(x);
    OrSign(n, w);
    OrNothing(c);
  }

  lemma OrNothing(x: nat)
    ensures Or(x, 0) == x
  {
  }

  lemma MantissaZero(x: nat)
    ensures Mantissa(x) == 0 <==> x == 0
  {
    hide Pow, BitLength;
    if x > 0 { MantissaBounds(x); } else { assert Exponent(0) == 0 && 0 * Pow(256, 3) == 0; }
  }

  /** The sign bit is free. */
  lemma OrSign(n: nat, w: nat)
    requires w < SIGN
    ensures Or(n * MANTISSAS + w, SIGN) == n * MANTISSAS + w + SIGN
  {
    Powers23();
    hide Pow;
    OrShared(2 * n, w, 23);
  }

  lemma OrHalves(x: nat, y: nat)
    ensures Or(x, y) == 2 * Or(x / 2, y / 2) + (if x % 2 == 1 || y % 2 == 1 then 1 else 0)
  {
  }

  /** Setting the lowest bit above some bits. */
  lemma {:induction false} OrShared(h: nat, w: nat, k: nat)
    requires w < Pow(2, k) && h % 2 == 0
    ensures Or(h * Pow(2, k) + w, Pow(2, k)) == (h + 1) * Pow(2, k) + w
  {
    hide Or;
    OrHalves(h * Pow(2, k) + w, Pow(2, k));
    if k > 0 {
      OrShared(h, w / 2, k - 1);
      Doubled(h, Pow(2, k - 1), w);
      Doubled(h + 1, Pow(2, k - 1), w);
    } else {
      OrNothing(h / 2);
      assert h * 1 + w == h;
    }
  }

  lemma Doubled(h: nat, p: nat, w: nat)
    ensures h * (2 * p) + w == 2 * (h * p + w / 2) + w % 2
    ensures (h * (2 * p) + w) / 2 == h * p + w / 2 && (h * (2 * p) + w) % 2 == w % 2
  {
    assert h * (2 * p) == 2 * (h * p);
  }
}
