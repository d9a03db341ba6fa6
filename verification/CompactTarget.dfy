/** The compact form of a 256-bit number: a byte of exponent, a sign and 23 bits of mantissa.
    What a compact word stands for, which compact word stands for a number, and what is lost
    between the two. */
module CompactTarget {
  import opened Powers

  const LIMIT_BITS: nat := 256
  const SIGN: nat := 0x80_0000
  const MANTISSAS: nat := 0x100_0000

  // ----- reading a compact word

  function Size(c: nat): nat { c / MANTISSAS }
  predicate SignBit(c: nat) { c / SIGN % 2 == 1 }

  /** The mantissa that counts: a small exponent cuts it. */
  function Word(c: nat): nat {
    if Size(c) <= 3 then c % SIGN / Pow(256, 3 - Size(c)) else c % SIGN
  }

  /** mantissa * 256^(exponent - 3). */
  function Magnitude(c: nat): nat {
    if Size(c) <= 3 then Word(c) else Word(c) * Pow(256, Size(c) - 3)
  }

  predicate Negative(c: nat) { Word(c) != 0 && SignBit(c) }

  predicate Overflow(c: nat) {
    Word(c) != 0 && (Size(c) > 34 || (Word(c) > 0xff && Size(c) > 33) || (Word(c) > 0xffff && Size(c) > 32))
  }

  // ----- writing one

  function BitLength(x: nat): nat {
    if x == 0 then 0 else 1 + BitLength(x / 2)
  }

  /** The least number of bytes that hold a number and leave its top bit clear. */
  function Exponent(x: nat): nat {
    if x == 0 then 0 else BitLength(x) / 8 + 1
  }

  function Mantissa(x: nat): nat {
    if Exponent(x) <= 3 then x * Pow(256, 3 - Exponent(x)) else x / Pow(256, Exponent(x) - 3)
  }

  function CompactOf(x: nat, fNegative: bool): nat {
    Exponent(x) * MANTISSAS + Mantissa(x) + (if fNegative && x != 0 then SIGN else 0)
  }

  /** The value of the last byte the mantissa keeps. */
  function Unit(x: nat): (u: nat)
    ensures u > 0
  {
    if Exponent(x) <= 3 then 1 else Pow(256, Exponent(x) - 3)
  }

  /** What is left of a number after it was written and read. */
  function Kept(x: nat): nat { Magnitude(CompactOf(x, false)) }

  /** A word stands for mantissa * 256^(exponent - 3), rounded down: the exponent is in the bits from 24
      on, the mantissa in the lowest 23. */
  lemma MagnitudeExact(c: nat)
    ensures var e, m, n := c / 0x100_0000, c % 0x80_0000, Magnitude(c);
      n * Pow(256, 3) <= m * Pow(256, e) < (n + 1) * Pow(256, 3)
  {
    hide Pow;
    var e, m, n := Size(c), c % SIGN, Magnitude(c);
    if e <= 3 {
      PowAdd(256, 3 - e, e);
      Rounded(m, Pow(256, 3 - e), Pow(256, e));
    } else {
      PowAdd(256, e - 3, 3);
      MulAssoc(m, Pow(256, e - 3), Pow(256, 3));
      assert (n + 1) * Pow(256, 3) == n * Pow(256, 3) + Pow(256, 3);
    }
  }

  lemma Rounded(m: nat, p: nat, q: nat)
    requires p > 0 && q > 0
    ensures m / p * (p * q) <= m * q < (m / p + 1) * (p * q)
  {
    var n := m / p;
    Cut(m, p);
    MulAssoc(n, p, q);
    MulMonotone(n * p, m, q);
    MulAssoc(n + 1, p, q);
    assert (n + 1) * p == n * p + p;
    assert m + 1 <= n * p + p;
    MulMonotone(m + 1, (n + 1) * p, q);
    assert (m + 1) * q == m * q + q;
  }

  /** The examples of arith_uint256.h, and a negative word. */
  lemma Examples()
    ensures Magnitude(0x0512_3456) == 0x12_3456_0000 && Magnitude(0x0600_c0de) == 0xc0_de00_0000
    ensures CompactOf(0x12_3456_0000, false) == 0x0512_3456 && CompactOf(0xc0_de00_0000, false) == 0x0600_c0de
    ensures CompactOf(0x1234_5600, true) == 0x0492_3456 && Negative(0x0492_3456)
  {
    hide Pow, BitLength;
    SmallPowers();
    Between();
    BitLengthUnique(0x12_3456_0000, 37);
    BitLengthUnique(0xc0_de00_0000, 40);
    BitLengthUnique(0x1234_5600, 29);
  }

  lemma SmallPowers()
    ensures Pow(256, 1) == 256 && Pow(256, 2) == 0x1_0000 && Pow(256, 3) == 0x100_0000
  {
  }

  lemma Between()
    ensures Pow(2, 28) == 0x1000_0000 && Pow(2, 29) == 0x2000_0000 && Pow(2, 36) == 0x10_0000_0000
    ensures Pow(2, 37) == 0x20_0000_0000 && Pow(2, 39) == 0x80_0000_0000 && Pow(2, 40) == 0x100_0000_0000
  {
    assert Pow(2, 8) == 256;
    PowAdd(2, 8, 8);
    PowAdd(2, 16, 12);
    PowAdd(2, 28, 8);
    assert Pow(2, 12) == 16 * Pow(2, 8);
  }

  // ----- lengths

  lemma {:induction false} BitLengthBounds(x: nat)
    requires x > 0
    ensures BitLength(x) > 0 && Pow(2, BitLength(x) - 1) <= x < Pow(2, BitLength(x))
  {
    if x > 1 { BitLengthBounds(x / 2); }
  }

  lemma BitLengthUnique(x: nat, n: nat)
    requires n > 0 && Pow(2, n - 1) <= x < Pow(2, n)
    ensures BitLength(x) == n
  {
    hide Pow, BitLength;
    BitLengthBounds(x);
    PowBelow(2, n - 1, BitLength(x));
    PowBelow(2, BitLength(x) - 1, n);
  }

  lemma BytePower(k: nat)
    ensures Pow(256, k) == Pow(2, 8 * k)
  {
    assert Pow(2, 8) == 256;
    PowPow(2, 8, k);
  }

  /** A positive number lies between two neighbouring powers of its exponent. */
  lemma ExponentBounds(x: nat)
    requires x > 0
    ensures Exponent(x) >= 1 && x < Pow(2, 8 * Exponent(x) - 1)
    ensures Exponent(x) >= 2 ==> Pow(2, 8 * Exponent(x) - 9) <= x
  {
    hide Pow, BitLength;
    BitLengthBounds(x);
    var e, n := Exponent(x), BitLength(x);
    PowGrows(2, n, 8 * e - 1);
    if e >= 2 { PowGrows(2, 8 * e - 9, n - 1); }
  }

  lemma ExponentLeast(x: nat, e: nat)
    requires x > 0 && e >= 1 && x < Pow(2, 8 * e - 1)
    ensures Exponent(x) <= e
  {
    hide Pow, BitLength;
    ExponentBounds(x);
    if Exponent(x) > e { PowGrows(2, 8 * e - 1, 8 * Exponent(x) - 9); }
  }

  lemma ExponentMonotone(x: nat, y: nat)
    requires x <= y
    ensures Exponent(x) <= Exponent(y)
  {
    if x > 0 {
      ExponentBounds(y);
      ExponentLeast(x, Exponent(y));
    }
  }

  lemma Powers23()
    ensures Pow(2, 23) == SIGN && Pow(2, 15) == 0x8000 && Pow(2, 24) == MANTISSAS
  {
    assert Pow(2, 8) == 256;
    assert Pow(2, 7) == 128;
    PowAdd(2, 8, 7);
    PowAdd(2, 8, 15);
    PowAdd(2, 1, 23);
  }

  /** The mantissa of a positive number has its top bit clear and one of the next eight set. */
  lemma MantissaBounds(x: nat)
    requires x > 0
    ensures 0x8000 <= Mantissa(x) < SIGN
  {
    hide Pow, BitLength, Exponent;
    ExponentBounds(x);
    Powers23();
    var e := Exponent(x);
    if e <= 3 {
      var m := Pow(256, 3 - e);
      BytePower(3 - e);
      PowAdd(2, 8 * e - 1, 8 * (3 - e));
      LeadingDigit(m, x, 0, Pow(2, 8 * e - 1));
      if e >= 2 {
        PowAdd(2, 8 * e - 9, 8 * (3 - e));
        MulMonotone(Pow(2, 8 * e - 9), x, m);
      } else {
        assert Pow(256, 2) == 0x1_0000 by { PowAdd(256, 1, 1); PowOne256(); }
        MulMonotone(1, x, m);
      }
    } else {
      var m := Pow(256, e - 3);
      BytePower(e - 3);
      PowAdd(2, 23, 8 * (e - 3));
      PowAdd(2, 15, 8 * (e - 3));
      QuotientBetween(x, m, 0x8000, SIGN);
    }
  }

  lemma PowOne256()
    ensures Pow(256, 1) == 256 && Pow(256, 0) == 1
  {
  }

  lemma QuotientBetween(x: nat, m: nat, low: nat, high: nat)
    requires m > 0 && low * m <= x < high * m
    ensures low <= x / m < high
  {
    DivSmaller(x, m);
    if x / m < low { MulMonotone(x / m + 1, low, m); }
    if x / m >= high { MulMonotone(high, x / m, m); }
  }

  // ----- the fields of a written word

  lemma Fields(e: nat, w: nat, neg: bool)
    requires w < SIGN
    ensures var c := e * MANTISSAS + w + (if neg then SIGN else 0);
      Size(c) == e && c % SIGN == w && SignBit(c) == neg
  {
    var c := e * MANTISSAS + w + (if neg then SIGN else 0);
    var s := if neg then 1 else 0;
    DivModUnique(c, MANTISSAS, e, w + s * SIGN);
    DivModUnique(c, SIGN, 2 * e + s, w);
  }

  lemma ZeroWord(f: bool)
    ensures CompactOf(0, f) == 0 && Magnitude(0) == 0 && Word(0) == 0
  {
    hide Pow;
    assert 0 * Pow(256, 3) == 0;
    DivModUnique(0, Pow(256, 3), 0, 0);
  }

  /** What a written word reads back as: the number cut to a multiple of its unit. */
  lemma WrittenWord(x: nat, fNegative: bool)
    ensures var c := CompactOf(x, fNegative);
      && Size(c) == Exponent(x) && (Word(c) == 0 <==> x == 0)
      && Magnitude(c) == x - x % Unit(x)
      && Negative(c) == (fNegative && x != 0)
  {
    if x == 0 {
      ZeroWord(fNegative);
    } else {
      hide Pow, BitLength, Exponent, Size, SignBit, Mantissa;
      MantissaBounds(x);
      Fields(Exponent(x), Mantissa(x), fNegative);
      ReadMantissa(x, CompactOf(x, fNegative));
    }
  }

  lemma ReadMantissa(x: nat, c: nat)
    requires x > 0 && Size(c) == Exponent(x) && c % SIGN == Mantissa(x) && Mantissa(x) > 0
    ensures Word(c) > 0 && Magnitude(c) == x - x % Unit(x)
  {
    hide Pow, BitLength, Exponent, Size, SignBit;
    var e := Exponent(x);
    if e <= 3 {
      DivModUnique(Mantissa(x), Pow(256, 3 - e), x, 0);
      SmallMod(0, 1);
      assert x % 1 == 0;
    } else {
      Cut(x, Unit(x));
    }
  }

  // ----- the theorems

  /** The overflow flag is raised exactly when the value does not fit into 256 bits. */
  lemma OverflowExact(c: nat)
    ensures Overflow(c) <==> Magnitude(c) >= Pow(2, LIMIT_BITS)
  {
    hide Pow;
    var w, n := Word(c), Size(c);
    WordBound(c);
    if n <= 3 {
      PowGrows(2, 23, LIMIT_BITS);
      Powers23();
    } else {
      BytePower(n - 3);
      if n <= 31 {
        OverflowNever(w, n);
      } else if n <= 34 {
        OverflowAt(w, n);
      } else if w > 0 {
        PowGrows(2, LIMIT_BITS, 8 * (n - 3));
        MulMonotone(1, w, Pow(256, n - 3));
      }
    }
  }

  lemma WordBound(c: nat)
    ensures Word(c) < SIGN
  {
    hide Pow;
    if Size(c) <= 3 {
      MulMonotone(1, Pow(256, 3 - Size(c)), c % SIGN / Pow(256, 3 - Size(c)));
    }
  }

  lemma OverflowNever(w: nat, n: nat)
    requires 3 < n <= 31 && w < SIGN
    ensures w * Pow(256, n - 3) < Pow(2, LIMIT_BITS)
  {
    hide Pow;
    BytePower(n - 3);
    Powers23();
    PowAdd(2, 23, 8 * (n - 3));
    LeadingDigit(Pow(256, n - 3), w, 0, SIGN);
    PowGrows(2, 8 * n - 1, LIMIT_BITS);
  }

  /** Between 32 and 34 bytes, the mantissa decides. */
  lemma OverflowAt(w: nat, n: nat)
    requires 32 <= n <= 34
    ensures w * Pow(256, n - 3) >= Pow(2, LIMIT_BITS) <==> w >= Pow(256, 35 - n)
    ensures Pow(256, 35 - n) == if n == 32 then 0x100_0000 else if n == 33 then 0x1_0000 else 0x100
  {
    hide Pow;
    BytePower(n - 3);
    BytePower(35 - n);
    BytePower(32);
    PowAdd(2, 8 * (35 - n), 8 * (n - 3));
    PowOne256();
    PowAdd(256, 1, 1);
    PowAdd(256, 1, 2);
    var p := Pow(256, n - 3);
    if w >= Pow(256, 35 - n) { MulMonotone(Pow(256, 35 - n), w, p); } else { LeadingDigit(p, w, 0, Pow(256, 35 - n)); }
  }

  /** Writing a 256-bit number raises no flag but the sign asked for, and loses less than one
      part in 2^15. */
  lemma KeptPrecise(x: nat, fNegative: bool)
    requires x < Pow(2, LIMIT_BITS)
    ensures var c := CompactOf(x, fNegative);
      && !Overflow(c) && Negative(c) == (fNegative && x > 0) && Magnitude(c) == Kept(x)
    ensures Kept(x) <= x && (x > 0 ==> (x - Kept(x)) * 0x8000 < x)
  {
    hide Pow, BitLength, Exponent, Overflow, Magnitude, CompactOf, Word;
    WrittenWord(x, fNegative);
    WrittenWord(x, false);
    OverflowExact(CompactOf(x, fNegative));
    if x > 0 {
      ExponentBounds(x);
      var e := Exponent(x);
      if e > 3 {
        BytePower(e - 3);
        Powers23();
        PowAdd(2, 8 * (e - 3), 15);
        LeadingDigit(0x8000, x % Unit(x), 0, Unit(x));
      }
    }
  }

  /** A kept number is still as long as the number it was kept from. */
  lemma KeptLength(x: nat)
    requires x > 0
    ensures 0 < Kept(x) <= x && Exponent(Kept(x)) == Exponent(x)
    ensures Exponent(x) >= 2 ==> Pow(2, 8 * Exponent(x) - 9) <= Kept(x)
  {
    hide Pow, BitLength, Exponent, Magnitude, CompactOf, Word;
    WrittenWord(x, false);
    ExponentBounds(x);
    var e, u := Exponent(x), Unit(x);
    if e > 3 {
      BytePower(e - 3);
      PowAdd(2, 15, 8 * (e - 3));
      var q := Pow(2, 15);
      AtLeastMultiple(x, u, q);
      ExponentLeast(Kept(x), e);
      ExponentBounds(Kept(x));
      if Exponent(Kept(x)) < e { PowGrows(2, 8 * Exponent(Kept(x)) - 1, 8 * e - 9); }
    } else {
      assert x % 1 == 0;
    }
  }

  /** Cutting to a multiple does not go below a multiple. */
  lemma AtLeastMultiple(x: nat, u: nat, q: nat)
    requires u > 0 && q * u <= x
    ensures q * u <= x - x % u
  {
    if x / u < q { LeadingDigit(u, x / u, x % u, q); }
    MulMonotone(q, x / u, u);
  }

  lemma KeptMonotone(x: nat, y: nat)
    requires x <= y
    ensures Kept(x) <= Kept(y)
  {
    hide Pow, BitLength, Exponent, Magnitude, CompactOf, Word;
    WrittenWord(x, false);
    WrittenWord(y, false);
    if x > 0 {
      ExponentMonotone(x, y);
      ExponentBounds(x);
      KeptLength(y);
      if Exponent(x) == Exponent(y) {
        assert x - x % Unit(x) == x / Unit(x) * Unit(x);
        AtLeastMultiple(y, Unit(x), x / Unit(x)) by { DivSmaller(x, Unit(x)); }
      } else {
        PowGrows(2, 8 * Exponent(x) - 1, 8 * Exponent(y) - 9);
      }
    }
  }

  lemma KeptIdempotent(x: nat)
    ensures Kept(Kept(x)) == Kept(x) && CompactOf(Kept(x), false) == CompactOf(x, false)
  {
    hide Pow, BitLength, Exponent, Magnitude, CompactOf, Word;
    WrittenWord(x, false);
    WrittenWord(Kept(x), false);
    if x > 0 {
      KeptLength(x);
      var u := Unit(x);
      Cut(x, u);
      SameWord(x);
    } else {
      ZeroWord(false);
    }
  }

  lemma SameWord(x: nat)
    requires x > 0 && Exponent(Kept(x)) == Exponent(x) && Kept(x) > 0 && Kept(x) == x - x % Unit(x)
    requires Kept(x) / Unit(x) == x / Unit(x)
    ensures CompactOf(Kept(x), false) == CompactOf(x, false)
  {
    hide Pow, BitLength, Exponent, Magnitude, Word, Kept;
    if Exponent(x) <= 3 { assert x % 1 == 0; }
  }

  /** A value read from a compact word whose flags stay down is kept as it is. */
  lemma ReadValueKept(c: nat)
    requires !Overflow(c)
    ensures Kept(Magnitude(c)) == Magnitude(c)
  {
    hide Pow, BitLength, Exponent, CompactOf;
    var v, n := Magnitude(c), Size(c);
    WrittenWord(v, false);
    if v > 0 {
      WordBound(c);
      Powers23();
      if n <= 3 {
        ExponentLeast(v, 3);
        assert v % 1 == 0;
      } else {
        BytePower(n - 3);
        PowAdd(2, 23, 8 * (n - 3));
        LeadingDigit(Pow(256, n - 3), Word(c), 0, SIGN);
        ExponentLeast(v, n);
        MultipleOfUnit(v, Word(c), n);
      }
    }
  }

  lemma MultipleOfUnit(v: nat, w: nat, n: nat)
    requires n > 3 && v == w * Pow(256, n - 3) && Exponent(v) <= n
    ensures v % Unit(v) == 0
  {
    hide Pow, Exponent;
    var e := Exponent(v);
    if e > 3 {
      PowAdd(256, n - e, e - 3);
      var u, r := Pow(256, e - 3), Pow(256, n - e);
      assert w * (r * u) == w * r * u;
      DivModUnique(v, u, w * r, 0);
    } else {
      assert v % 1 == 0;
    }
  }

  /** The words a number is written as: a word is written again after it was read if and only
      if it is zero, or its mantissa has one of its upper eight bits set, no sign, and no bit
      that a small exponent would cut. */
  lemma WordReturns(c: nat)
    ensures CompactOf(Magnitude(c), false) == c <==>
      c == 0 || (!SignBit(c) && c % SIGN >= 0x8000 && Size(c) >= 1 && (Size(c) < 3 ==> c % SIGN % Pow(256, 3 - Size(c)) == 0))
  {
    hide Pow, BitLength;
    var v, n := Magnitude(c), Size(c);
    if c == 0 || v == 0 {
      ZeroWord(false);
      if c != 0 && v == 0 && n < 3 && c % SIGN % Pow(256, 3 - n) == 0 {
        assert c % SIGN == Word(c) * Pow(256, 3 - n);
        assert c % SIGN == 0;
      } else if c != 0 && v == 0 && n >= 3 {
        EmptyWord(c);
      }
    } else if CompactOf(v, false) == c {
      MantissaBounds(v);
      Fields(Exponent(v), Mantissa(v), false);
      if n <= 3 { DivModUnique(Mantissa(v), Pow(256, 3 - n), v, 0); }
    } else if !SignBit(c) && c % SIGN >= 0x8000 && n >= 1 && (n < 3 ==> c % SIGN % Pow(256, 3 - n) == 0) {
      WordIsWritten(c);
      assert false;
    }
  }

  lemma EmptyWord(c: nat)
    requires Size(c) >= 3 && Magnitude(c) == 0
    ensures c % SIGN == 0
  {
    hide Pow;
    PowOne256();
    if c % SIGN > 0 && Size(c) > 3 { MulPositive(c % SIGN, Pow(256, Size(c) - 3)); }
  }

  lemma FieldsOf(c: nat)
    requires !SignBit(c)
    ensures c == Size(c) * MANTISSAS + c % SIGN
  {
    var h := c / SIGN;
    assert h == 2 * (h / 2);
    DivModUnique(c, MANTISSAS, h / 2, c % SIGN);
  }

  lemma WordIsWritten(c: nat)
    requires !SignBit(c) && c % SIGN >= 0x8000 && Size(c) >= 1
    requires Size(c) < 3 ==> c % SIGN % Pow(256, 3 - Size(c)) == 0
    ensures CompactOf(Magnitude(c), false) == c
  {
    hide Pow, BitLength, Exponent, Size, SignBit, Magnitude;
    FieldsOf(c);
    if Size(c) <= 3 { ShortWord(c, c % SIGN, Size(c)); } else { LongWord(c, c % SIGN, Size(c)); }
  }

  lemma ShortWord(c: nat, w: nat, n: nat)
    requires 0x8000 <= w == c % SIGN && 1 <= n == Size(c) <= 3
    requires n < 3 ==> w % Pow(256, 3 - n) == 0
    ensures var v := Magnitude(c); v != 0 && Exponent(v) == n && Mantissa(v) == w
  {
    hide Pow, BitLength, Exponent, Size, SignBit;
    Powers23();
    PowOne256();
    var v, m := Magnitude(c), Pow(256, 3 - n);
    Cut(w, m);
    assert w % m == 0;
    BytePower(3 - n);
    PowAdd(2, 8 * n - 1, 8 * (3 - n));
    if v >= Pow(2, 8 * n - 1) { MulMonotone(Pow(2, 8 * n - 1), v, m); }
    assert v > 0;
    ExponentLeast(v, n);
    ExponentReached(v, n, m, w);
  }

  lemma LongWord(c: nat, w: nat, n: nat)
    requires 0x8000 <= w == c % SIGN && n == Size(c) > 3
    ensures var v := Magnitude(c); v != 0 && Exponent(v) == n && Mantissa(v) == w
  {
    hide Pow, BitLength, Exponent, Size, SignBit;
    Powers23();
    var v, m := Magnitude(c), Pow(256, n - 3);
    BytePower(n - 3);
    PowAdd(2, 23, 8 * (n - 3));
    PowAdd(2, 15, 8 * (n - 3));
    LeadingDigit(m, w, 0, SIGN);
    MulMonotone(0x8000, w, m);
    ExponentLeast(v, n);
    ExponentBounds(v);
    if Exponent(v) < n { PowGrows(2, 8 * Exponent(v) - 1, 8 * n - 9); }
    ProductMod(m, w);
    assert v == m * w;
  }

  lemma ExponentReached(v: nat, n: nat, m: nat, w: nat)
    requires 1 <= n <= 3 && v > 0 && w == v * m && w >= 0x8000 && m == Pow(256, 3 - n) && Exponent(v) <= n
    ensures Exponent(v) == n
  {
    hide Pow, BitLength, Exponent;
    ExponentBounds(v);
    var e := Exponent(v);
    if e < n {
      BytePower(3 - n);
      PowAdd(2, 8 * e - 1, 8 * (3 - n));
      LeadingDigit(m, v, 0, Pow(2, 8 * e - 1));
      PowGrows(2, 8 * e - 1 + 8 * (3 - n), 15);
      Powers23();
    }
  }

  // ----- the way the code computes a word

  /** The mantissa before its top bit is looked at. */
  function RawMantissa(x: nat): nat {
    var n := (BitLength(x) + 7) / 8;
    if n <= 3 then x * Pow(256, 3 - n) else x / Pow(256, n - 3)
  }

  /** The raw mantissa has at most 24 bits, and its top bit decides the exponent. */
  lemma RawMantissaFits(x: nat)
    ensures var n, m := (BitLength(x) + 7) / 8, RawMantissa(x);
      && m < MANTISSAS
      && (m / SIGN % 2 == 1 <==> m >= SIGN)
      && Exponent(x) == (if m >= SIGN then n + 1 else n)
      && Mantissa(x) == if m >= SIGN then m / 256 else m
  {
    if x == 0 {
      ZeroWord(false);
      assert 0 * Pow(256, 3) == 0;
    } else {
      hide Pow, BitLength, RawMantissa, Mantissa, Exponent;
      var n, m := (BitLength(x) + 7) / 8, RawMantissa(x);
      BitLengthBounds(x);
      RawTop(x, n, m);
      TopBit(m);
      RawExponent(x, n);
      if m >= SIGN { RawNext(x, n, m); } else { RawSame(x, n, m); }
    }
  }

  lemma RawExponent(x: nat, n: nat)
    requires x > 0 && n == (BitLength(x) + 7) / 8
    ensures Exponent(x) == if BitLength(x) == 8 * n then n + 1 else n
    ensures BitLength(x) == 8 * n ==> n >= 1
  {
    hide Pow;
  }

  lemma RawNext(x: nat, n: nat, m: nat)
    requires x > 0 && n == (BitLength(x) + 7) / 8 && m == RawMantissa(x) && Exponent(x) == n + 1 && n >= 1
    ensures Mantissa(x) == m / 256
  {
    hide Pow, BitLength, Exponent;
    RawShifted(x, n, m);
  }

  lemma RawSame(x: nat, n: nat, m: nat)
    requires x > 0 && n == (BitLength(x) + 7) / 8 && m == RawMantissa(x) && Exponent(x) == n
    ensures Mantissa(x) == m
  {
    hide Pow, BitLength, Exponent;
  }

  lemma TopBit(m: nat)
    requires m < MANTISSAS
    ensures m / SIGN % 2 == 1 <==> m >= SIGN
  {
  }

  lemma RawTop(x: nat, n: nat, m: nat)
    requires x > 0 && n == (BitLength(x) + 7) / 8 && m == RawMantissa(x) && BitLength(x) > 0
    requires Pow(2, BitLength(x) - 1) <= x < Pow(2, BitLength(x))
    ensures m < MANTISSAS && (m >= SIGN <==> BitLength(x) == 8 * n)
  {
    hide Pow, BitLength;
    Powers23();
    var b := BitLength(x);
    var p := Pow(256, if n <= 3 then 3 - n else n - 3);
    BytePower(if n <= 3 then 3 - n else n - 3);
    PowGrows(2, b, 8 * n);
    if b == 8 * n { PowGrows(2, 8 * n - 1, b - 1); } else { PowGrows(2, b, 8 * n - 1); }
    if n <= 3 {
      PowAdd(2, 8 * n, 8 * (3 - n));
      PowAdd(2, 8 * n - 1, 8 * (3 - n));
      LeadingDigit(p, x, 0, Pow(2, 8 * n));
      if b == 8 * n { MulMonotone(Pow(2, 8 * n - 1), x, p); } else { LeadingDigit(p, x, 0, Pow(2, 8 * n - 1)); }
    } else {
      PowAdd(2, 24, 8 * (n - 3));
      PowAdd(2, 23, 8 * (n - 3));
      if b == 8 * n { QuotientBetween(x, p, SIGN, MANTISSAS); } else { QuotientBetween(x, p, 0, SIGN); }
    }
  }

  lemma RawShifted(x: nat, n: nat, m: nat)
    requires x > 0 && n >= 1 && m == if n <= 3 then x * Pow(256, 3 - n) else x / Pow(256, n - 3)
    ensures m / 256 == if n + 1 <= 3 then x * Pow(256, 2 - n) else x / Pow(256, n - 2)
  {
    hide Pow;
    PowOne256();
    if n < 3 {
      PowAdd(256, 2 - n, 1);
      var p := Pow(256, 2 - n);
      assert x * (p * 256) == x * p * 256;
    } else {
      PowAdd(256, n - 3, 1);
      DivDiv(x, Pow(256, n - 3), 256);
    }
  }
}
