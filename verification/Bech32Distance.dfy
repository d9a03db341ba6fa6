/** Up to three errors are found among 1023 symbols: the generator has three consecutive powers of an element
    of order 1023 as roots. That element is a root of t^10 + t^8 + t^5 + t + 1; its field is the words of ten
    bits, in which multiplying by it is all that is needed. */
module Bech32Distance {
  import opened Octets
  import opened Powers
  import opened Bech32Poly
  import opened Bech32Codec
  import opened Bech32Field

  type Word = bv10

  // ----- words

  function Plus(a: Word, b: Word): Word { a ^ b }

  function If10(h: bool, y: Word): Word { if h then y else 0 }

  /** Multiply by the element of order 1023. */
  function D(y: Word): Word { Plus(Twice(y), If10(Top(y), 0x123)) }

  function Twice(y: Word): Word { y << 1 }
  predicate Top(y: Word) { y & 512 != 0 }

  lemma PlusZero(a: Word)
    ensures Plus(a, 0) == a && Plus(0, a) == a && Plus(a, a) == 0
  {
  }

  lemma PlusSwap(a: Word, b: Word)
    ensures Plus(a, b) == Plus(b, a)
  {
  }

  lemma PlusAssoc(a: Word, b: Word, c: Word)
    ensures Plus(Plus(a, b), c) == Plus(a, Plus(b, c))
  {
  }

  lemma PlusFour(a: Word, b: Word, c: Word, d: Word)
    ensures Plus(Plus(a, b), Plus(c, d)) == Plus(Plus(a, c), Plus(b, d))
  {
    hide Plus;
    PlusAssoc(a, b, Plus(c, d));
    PlusAssoc(b, c, d);
    PlusSwap(b, c);
    PlusAssoc(c, b, d);
    PlusAssoc(a, c, Plus(b, d));
  }

  lemma PlusSame(a: Word, b: Word)
    requires Plus(a, b) == 0
    ensures a == b
  {
  }

  lemma TwicePlus(a: Word, b: Word)
    ensures Twice(Plus(a, b)) == Plus(Twice(a), Twice(b))
  {
  }

  lemma TopPlus(a: Word, b: Word)
    ensures Top(Plus(a, b)) == (Top(a) != Top(b))
  {
  }

  lemma IfPlus(g: bool, h: bool, y: Word)
    ensures If10(g != h, y) == Plus(If10(g, y), If10(h, y))
  {
    hide Plus;
    PlusZero(y);
    PlusZero(0);
  }

  lemma DPlus(a: Word, b: Word)
    ensures D(Plus(a, b)) == Plus(D(a), D(b))
  {
    hide Plus, Twice, Top, If10;
    TwicePlus(a, b);
    TopPlus(a, b);
    IfPlus(Top(a), Top(b), 0x123);
    PlusFour(Twice(a), Twice(b), If10(Top(a), 0x123), If10(Top(b), 0x123));
  }

  lemma DZero(y: Word)
    ensures D(y) == 0 <==> y == 0
  {
  }

  // ----- powers of the element

  /** Multiply by the n-th power. */
  function It(n: nat, y: Word): Word { if n == 0 then y else D(It(n - 1, y)) }

  lemma {:induction false} ItPlus(n: nat, a: Word, b: Word)
    ensures It(n, Plus(a, b)) == Plus(It(n, a), It(n, b))
  {
    hide D, Plus;
    if n > 0 {
      ItPlus(n - 1, a, b);
      DPlus(It(n - 1, a), It(n - 1, b));
    }
  }

  lemma {:induction false} ItZero(n: nat, y: Word)
    ensures It(n, y) == 0 <==> y == 0
  {
    hide D;
    if n > 0 {
      ItZero(n - 1, y);
      DZero(It(n - 1, y));
    }
  }

  lemma {:induction false} ItAdd(m: nat, n: nat, y: Word)
    ensures It(m + n, y) == It(m, It(n, y))
  {
    hide D;
    if m > 0 { ItAdd(m - 1, n, y); }
  }

  lemma ItSwap(m: nat, n: nat, y: Word)
    ensures It(m, It(n, y)) == It(n, It(m, y))
  {
    ItAdd(m, n, y);
    ItAdd(n, m, y);
  }

  predicate Bit(y: Word, m: Word) { y & m != 0 }

  function Sum5(a: Word, b: Word, c: Word, d: Word, e: Word): Word { Plus(Plus(Plus(Plus(a, b), c), d), e) }

  /** Five multiples of a word, by five flags. */
  function Choice(p: Word, f0: bool, f1: bool, f2: bool, f3: bool, f4: bool): Word {
    Sum5(If10(f0, p), If10(f1, D(p)), If10(f2, D(D(p))), If10(f3, D(D(D(p)))), If10(f4, D(D(D(D(p))))))
  }

  function LowMul(p: Word, y: Word): Word { Choice(p, Bit(y, 1), Bit(y, 2), Bit(y, 4), Bit(y, 8), Bit(y, 16)) }
  function HighMul(p: Word, y: Word): Word { Choice(p, Bit(y, 32), Bit(y, 64), Bit(y, 128), Bit(y, 256), Bit(y, 512)) }
  function D5(p: Word): Word { D(D(D(D(D(p))))) }

  /** The product of two words. */
  function Mul(p: Word, y: Word): Word { Plus(LowMul(p, y), HighMul(D5(p), y)) }

  lemma BitsOfWord(y: Word)
    ensures y == Plus(Sum5(If10(Bit(y, 1), 1), If10(Bit(y, 2), 2), If10(Bit(y, 4), 4), If10(Bit(y, 8), 8), If10(Bit(y, 16), 16)),
                      Sum5(If10(Bit(y, 32), 32), If10(Bit(y, 64), 64), If10(Bit(y, 128), 128), If10(Bit(y, 256), 256), If10(Bit(y, 512), 512)))
  {
  }

  lemma Doubles()
    ensures D(1) == 2 && D(2) == 4 && D(4) == 8 && D(8) == 16 && D(16) == 32
    ensures D(32) == 64 && D(64) == 128 && D(128) == 256 && D(256) == 512
  {
  }

  lemma MulOne(y: Word)
    ensures Mul(1, y) == y
  {
    hide D, If10, Sum5, Bit, Plus;
    Doubles();
    BitsOfWord(y);
  }

  lemma DSum5(a: Word, b: Word, c: Word, d: Word, e: Word)
    ensures D(Sum5(a, b, c, d, e)) == Sum5(D(a), D(b), D(c), D(d), D(e))
  {
    hide D, Plus;
    DPlus(a, b);
    DPlus(Plus(a, b), c);
    DPlus(Plus(Plus(a, b), c), d);
    DPlus(Plus(Plus(Plus(a, b), c), d), e);
  }

  lemma DIf(h: bool, y: Word)
    ensures D(If10(h, y)) == If10(h, D(y))
  {
  }

  lemma DChoice(p: Word, f0: bool, f1: bool, f2: bool, f3: bool, f4: bool)
    ensures D(Choice(p, f0, f1, f2, f3, f4)) == Choice(D(p), f0, f1, f2, f3, f4)
  {
    hide D, If10, Sum5;
    DSum5(If10(f0, p), If10(f1, D(p)), If10(f2, D(D(p))), If10(f3, D(D(D(p)))), If10(f4, D(D(D(D(p))))));
    DIf(f0, p);
    DIf(f1, D(p));
    DIf(f2, D(D(p)));
    DIf(f3, D(D(D(p))));
    DIf(f4, D(D(D(D(p)))));
  }

  /** One power more in the first factor. */
  lemma DMul(p: Word, y: Word)
    ensures D(Mul(p, y)) == Mul(D(p), y)
  {
    hide D, Plus, Choice, Bit;
    DPlus(LowMul(p, y), HighMul(D5(p), y));
    DChoice(p, Bit(y, 1), Bit(y, 2), Bit(y, 4), Bit(y, 8), Bit(y, 16));
    DChoice(D5(p), Bit(y, 32), Bit(y, 64), Bit(y, 128), Bit(y, 256), Bit(y, 512));
  }

  /** Multiplying by the n-th power is multiplying by what it is. */
  lemma {:induction false} ItMul(n: nat, y: Word)
    ensures It(n, y) == Mul(It(n, 1), y)
  {
    hide D, Mul;
    if n == 0 {
      MulOne(y);
    } else {
      ItMul(n - 1, y);
      DMul(It(n - 1, 1), y);
    }
  }

  // ----- its order

  lemma Steps()
    ensures D(0x1) == 0x2
    ensures D(0x2) == 0x4
    ensures D(0x4) == 0x8
    ensures D(0x8) == 0x10
    ensures D(0x10) == 0x20
    ensures D(0x20) == 0x40
    ensures D(0x40) == 0x80
    ensures D(0x80) == 0x100
    ensures D(0x100) == 0x200
    ensures D(0x200) == 0x123
    ensures D(0x123) == 0x246
    ensures D(0x246) == 0x1af
    ensures D(0x1af) == 0x35e
    ensures D(0x35e) == 0x39f
    ensures D(0x39f) == 0x21d
    ensures D(0x21d) == 0x119
    ensures D(0x119) == 0x232
    ensures D(0x232) == 0x147
    ensures D(0x147) == 0x28e
    ensures D(0x28e) == 0x3f
    ensures D(0x3f) == 0x7e
    ensures D(0x7e) == 0xfc
    ensures D(0xfc) == 0x1f8
    ensures D(0x1f8) == 0x3f0
    ensures D(0x3f0) == 0x2c3
    ensures D(0x2c3) == 0xa5
    ensures D(0xa5) == 0x14a
    ensures D(0x14a) == 0x294
    ensures D(0x294) == 0xb
    ensures D(0xb) == 0x16
    ensures D(0x16) == 0x2c
    ensures D(0x2c) == 0x58
    ensures D(0x58) == 0xb0
  {
  }

  lemma FirstPowers()
    ensures It(24, 1) == 0x3f0 && It(25, 1) == 0x2c3 && It(26, 1) == 0xa5 && It(31, 1) == 0x2c && It(33, 1) == 0xb0
  {
    hide D;
    Steps();
    assert It(0, 1) == 1;
    assert It(1, 1) == 0x2;
    assert It(2, 1) == 0x4;
    assert It(3, 1) == 0x8;
    assert It(4, 1) == 0x10;
    assert It(5, 1) == 0x20;
    assert It(6, 1) == 0x40;
    assert It(7, 1) == 0x80;
    assert It(8, 1) == 0x100;
    assert It(9, 1) == 0x200;
    assert It(10, 1) == 0x123;
    assert It(11, 1) == 0x246;
    assert It(12, 1) == 0x1af;
    assert It(13, 1) == 0x35e;
    assert It(14, 1) == 0x39f;
    assert It(15, 1) == 0x21d;
    assert It(16, 1) == 0x119;
    assert It(17, 1) == 0x232;
    assert It(18, 1) == 0x147;
    assert It(19, 1) == 0x28e;
    assert It(20, 1) == 0x3f;
    assert It(21, 1) == 0x7e;
    assert It(22, 1) == 0xfc;
    assert It(23, 1) == 0x1f8;
    assert It(24, 1) == 0x3f0;
    assert It(25, 1) == 0x2c3;
    assert It(26, 1) == 0xa5;
    assert It(27, 1) == 0x14a;
    assert It(28, 1) == 0x294;
    assert It(29, 1) == 0xb;
    assert It(30, 1) == 0x16;
    assert It(31, 1) == 0x2c;
    assert It(32, 1) == 0x58;
    assert It(33, 1) == 0xb0;
  }

  lemma PowerSum(m: nat, n: nat, p: Word, q: Word)
    requires It(m, 1) == p && It(n, 1) == q
    ensures It(m + n, 1) == Mul(p, q)
  {
    hide Mul;
    ItAdd(m, n, 1);
    ItMul(m, q);
  }

  lemma Products()
    ensures Mul(0x2c, 0x2c) == 0x173
    ensures Mul(0x2c, 0x173) == 0x36a
    ensures Mul(0x36a, 0x36a) == 0x96
    ensures Mul(0x36a, 0x96) == 0x19e
    ensures Mul(0x173, 0x19e) == 0x36
    ensures Mul(0x36, 0x36) == 0x37
    ensures Mul(0x36, 0x37) == 0x1
  {
  }

  /** The element has order 1023 at most. */
  lemma LaterPowers()
    ensures It(93, 1) == 0x36a && It(341, 1) == 0x36 && It(1023, 1) == 1
  {
    hide Mul, It;
    FirstPowers();
    Products();
    PowerSum(31, 31, 0x2c, 0x2c);
    PowerSum(31, 62, 0x2c, 0x173);
    PowerSum(93, 93, 0x36a, 0x36a);
    PowerSum(93, 186, 0x36a, 0x96);
    PowerSum(62, 279, 0x173, 0x19e);
    PowerSum(341, 341, 0x36, 0x36);
    PowerSum(341, 682, 0x36, 0x37);
  }

  lemma Unfixed33(y: Word)
    requires Mul(0xb0, y) == y
    ensures y == 0
  {
  }

  lemma Unfixed93(y: Word)
    requires Mul(0x36a, y) == y
    ensures y == 0
  {
  }

  lemma Unfixed341(y: Word)
    requires Mul(0x36, y) == y
    ensures y == 0
  {
  }

  lemma {:induction false} FixedTimes(k: nat, m: nat, y: Word)
    requires It(k, y) == y
    ensures It(k * m, y) == y
  {
    if m == 0 {
      assert k * m == 0;
    } else {
      FixedTimes(k, m - 1, y);
      assert k * m == k + k * (m - 1);
      ItAdd(k, k * (m - 1), y);
    }
  }

  /** What two powers leave as it is, the power of a common divisor does. */
  lemma {:induction false} FixedCommon(a: nat, b: nat, y: Word) returns (g: nat, m: nat, n: nat)
    requires a > 0 && It(a, y) == y && It(b, y) == y
    ensures 0 < g <= a && a == g * m && b == g * n && It(g, y) == y
    decreases a + b
  {
    hide It;
    if b == 0 {
      g, m, n := a, 1, 0;
    } else if a > b {
      FixedLess(a, b, y);
      g, m, n := FixedCommon(a - b, b, y);
      assert g * (m + n) == g * m + g * n;
      m := m + n;
    } else {
      FixedLess(b, a, y);
      g, m, n := FixedCommon(a, b - a, y);
      assert g * (m + n) == g * m + g * n;
      n := m + n;
    }
  }

  lemma FixedLess(a: nat, b: nat, y: Word)
    requires b <= a && It(a, y) == y && It(b, y) == y
    ensures It(a - b, y) == y
  {
    ItAdd(a - b, b, y);
  }

  /** The divisors of 1023 = 3 * 11 * 31, but for itself. */
  lemma Divisors(g: nat, n: nat)
    requires g * n == 1023 && 0 < g < 1023
    ensures g in {1, 3, 11, 31, 33, 93, 341}
  {
    if g <= 31 {
      SmallDivisors(g, n);
    } else {
      if n >= 32 {
        MulMonotone(32, n, g);
        assert false;
      }
      assert n * g == 1023;
      SmallDivisors(n, g);
    }
  }

  lemma SmallDivisors(g: nat, n: nat)
    requires g * n == 1023 && 0 < g <= 31
    ensures (g == 1 && n == 1023) || (g == 3 && n == 341) || (g == 11 && n == 93) || (g == 31 && n == 33)
  {
  }

  /** The order is 1023: no lower power leaves a word as it is, but for zero. */
  lemma Unfixed(k: nat, y: Word)
    requires 0 < k < 1023 && It(k, y) == y
    ensures y == 0
  {
    hide It, Mul;
    LaterPowers();
    FirstPowers();
    ItMul(1023, y);
    MulOne(y);
    var g, m, n := FixedCommon(k, 1023, y);
    Divisors(g, n);
    ItMul(33, y);
    ItMul(93, y);
    ItMul(341, y);
    if g == 341 {
      Unfixed341(y);
    } else if g == 31 || g == 93 {
      FixedTimes(g, if g == 31 then 3 else 1, y);
      Unfixed93(y);
    } else {
      FixedTimes(g, if g == 1 then 33 else if g == 3 then 11 else if g == 11 then 3 else 1, y);
      Unfixed33(y);
    }
  }

  /** Different powers multiply differently. */
  lemma Apart(i: nat, j: nat, y: Word)
    requires i < 1023 && j < 1023 && i != j && It(i, y) == It(j, y)
    ensures y == 0
  {
    if i < j { ApartFrom(i, j, y); } else { ApartFrom(j, i, y); }
  }

  lemma ApartFrom(i: nat, j: nat, y: Word)
    requires i < j < 1023 && It(i, y) == It(j, y)
    ensures y == 0
  {
    hide It;
    var z := Plus(y, It(j - i, y));
    ItAdd(i, j - i, y);
    ItPlus(i, y, It(j - i, y));
    PlusZero(It(i, y));
    ItZero(i, z);
    PlusSame(y, It(j - i, y));
    Unfixed(j - i, y);
  }

  // ----- three equations

  lemma SumTwo(i: nat, j: nat, y: Word)
    requires i < 1023 && j < 1023 && i != j && Plus(It(i, y), It(j, y)) == 0
    ensures y == 0
  {
    hide It;
    PlusSame(It(i, y), It(j, y));
    Apart(i, j, y);
  }

  /** Three words whose sums with the powers i, j, k, and with their squares, vanish, vanish. */
  lemma Vandermonde(i: nat, j: nat, k: nat, x: Word, y: Word, z: Word)
    requires i < 1023 && j < 1023 && k < 1023 && i != j && i != k && j != k
    requires Plus(Plus(x, y), z) == 0
    requires Plus(Plus(It(i, x), It(j, y)), It(k, z)) == 0
    requires Plus(Plus(It(i, It(i, x)), It(j, It(j, y))), It(k, It(k, z))) == 0
    ensures x == 0 && y == 0 && z == 0
  {
    hide It, Plus;
    OneLess(k, x, y, z, It(i, x), It(j, y));
    Squares(i, j, k, x, y, z);
    TwoEquations(i, j, Plus(It(i, x), It(k, x)), Plus(It(j, y), It(k, y)));
    LastThree(i, j, k, x, y, z);
  }

  lemma LastThree(i: nat, j: nat, k: nat, x: Word, y: Word, z: Word)
    requires i < 1023 && j < 1023 && k < 1023 && i != k && j != k && Plus(Plus(x, y), z) == 0
    requires Plus(It(i, x), It(k, x)) == 0 && Plus(It(j, y), It(k, y)) == 0
    ensures x == 0 && y == 0 && z == 0
  {
    hide It, Plus;
    SumTwo(i, k, x);
    SumTwo(j, k, y);
    PlusZero(0);
    PlusZero(z);
  }

  lemma Squares(i: nat, j: nat, k: nat, x: Word, y: Word, z: Word)
    requires Plus(Plus(It(i, x), It(j, y)), It(k, z)) == 0
    requires Plus(Plus(It(i, It(i, x)), It(j, It(j, y))), It(k, It(k, z))) == 0
    ensures Plus(It(i, Plus(It(i, x), It(k, x))), It(j, Plus(It(j, y), It(k, y)))) == 0
  {
    hide It, Plus;
    OneLess(k, It(i, x), It(j, y), It(k, z), It(i, It(i, x)), It(j, It(j, y)));
    ItSwap(i, k, x);
    ItSwap(j, k, y);
    ItPlus(i, It(i, x), It(k, x));
    ItPlus(j, It(j, y), It(k, y));
  }

  lemma TwoEquations(i: nat, j: nat, u: Word, v: Word)
    requires i < 1023 && j < 1023 && i != j && Plus(u, v) == 0 && Plus(It(i, u), It(j, v)) == 0
    ensures u == 0 && v == 0
  {
    hide It, Plus;
    PlusSame(u, v);
    SumTwo(i, j, u);
  }

  /** Take the third word out of two equations. */
  lemma OneLess(k: nat, x: Word, y: Word, z: Word, x': Word, y': Word)
    requires Plus(Plus(x, y), z) == 0 && Plus(Plus(x', y'), It(k, z)) == 0
    ensures Plus(Plus(x', It(k, x)), Plus(y', It(k, y))) == 0
  {
    hide It;
    ItPlus(k, Plus(x, y), z);
    ItPlus(k, x, y);
    ItZero(k, 0);
    PlusSame(Plus(x, y), z);
    hide Plus;
    PlusFour(x', It(k, x), y', It(k, y));
    PlusZero(0);
  }

  // ----- symbols as words

  /** The field of the symbols is part of that of the words. */
  function Embed(x: bv8): Word {
    Sum5(If10(Has(x, 1), 0x1), If10(Has(x, 2), 0xe), If10(Has(x, 4), 0x54), If10(Has(x, 8), 0x358), If10(Has(x, 16), 0xbf))
  }

  predicate Has(x: bv8, bit: bv8) { x & bit != 0 }

  lemma HasXor(x: bv8, y: bv8)
    ensures var z := Xor8(x, y);
      && Has(z, 1) == (Has(x, 1) != Has(y, 1)) && Has(z, 2) == (Has(x, 2) != Has(y, 2)) && Has(z, 4) == (Has(x, 4) != Has(y, 4))
      && Has(z, 8) == (Has(x, 8) != Has(y, 8)) && Has(z, 16) == (Has(x, 16) != Has(y, 16))
  {
  }

  lemma Sum5Plus(a: Word, b: Word, c: Word, d: Word, e: Word, a': Word, b': Word, c': Word, d': Word, e': Word)
    ensures Sum5(Plus(a, a'), Plus(b, b'), Plus(c, c'), Plus(d, d'), Plus(e, e')) == Plus(Sum5(a, b, c, d, e), Sum5(a', b', c', d', e'))
  {
    hide Plus;
    PlusFour(a, a', b, b');
    PlusFour(Plus(a, b), Plus(a', b'), c, c');
    PlusFour(Plus(Plus(a, b), c), Plus(Plus(a', b'), c'), d, d');
    PlusFour(Plus(Plus(Plus(a, b), c), d), Plus(Plus(Plus(a', b'), c'), d'), e, e');
  }

  lemma Sum5If(g0: bool, g1: bool, g2: bool, g3: bool, g4: bool, h0: bool, h1: bool, h2: bool, h3: bool, h4: bool,
               a: Word, b: Word, c: Word, d: Word, e: Word)
    ensures Sum5(If10(g0 != h0, a), If10(g1 != h1, b), If10(g2 != h2, c), If10(g3 != h3, d), If10(g4 != h4, e))
            == Plus(Sum5(If10(g0, a), If10(g1, b), If10(g2, c), If10(g3, d), If10(g4, e)),
                    Sum5(If10(h0, a), If10(h1, b), If10(h2, c), If10(h3, d), If10(h4, e)))
  {
    hide Plus, If10, Sum5;
    IfPlus(g0, h0, a);
    IfPlus(g1, h1, b);
    IfPlus(g2, h2, c);
    IfPlus(g3, h3, d);
    IfPlus(g4, h4, e);
    Sum5Plus(If10(g0, a), If10(g1, b), If10(g2, c), If10(g3, d), If10(g4, e),
             If10(h0, a), If10(h1, b), If10(h2, c), If10(h3, d), If10(h4, e));
  }

  lemma EmbedXor(x: bv8, y: bv8)
    ensures Embed(Xor8(x, y)) == Plus(Embed(x), Embed(y))
  {
    hide Plus, If10, Sum5, Xor8, Has;
    HasXor(x, y);
    Sum5If(Has(x, 1), Has(x, 2), Has(x, 4), Has(x, 8), Has(x, 16), Has(y, 1), Has(y, 2), Has(y, 4), Has(y, 8), Has(y, 16),
           0x1, 0xe, 0x54, 0x358, 0xbf);
  }

  lemma EmbedZero(x: bv8)
    requires x <= 31
    ensures Embed(x) == 0 <==> x == 0
  {
  }

  // ----- the roots of the generator

  /** A polynomial of degree six at the b-th power. */
  function Horner(b: nat, a0: Word, a1: Word, a2: Word, a3: Word, a4: Word, a5: Word, a6: Word): Word {
    Plus(It(b, Plus(It(b, Plus(It(b, Plus(It(b, Plus(It(b, Plus(It(b, a0), a1)), a2)), a3)), a4)), a5)), a6)
  }

  function HornerMul(p: Word, a0: Word, a1: Word, a2: Word, a3: Word, a4: Word, a5: Word, a6: Word): Word {
    Plus(Mul(p, Plus(Mul(p, Plus(Mul(p, Plus(Mul(p, Plus(Mul(p, Plus(Mul(p, a0), a1)), a2)), a3)), a4)), a5)), a6)
  }

  lemma HornerIs(b: nat, p: Word, a0: Word, a1: Word, a2: Word, a3: Word, a4: Word, a5: Word, a6: Word)
    requires It(b, 1) == p
    ensures Horner(b, a0, a1, a2, a3, a4, a5, a6) == HornerMul(p, a0, a1, a2, a3, a4, a5, a6)
  {
    hide It, Mul, Plus;
    ItMul(b, a0);
    var t1 := Plus(It(b, a0), a1);
    ItMul(b, t1);
    var t2 := Plus(It(b, t1), a2);
    ItMul(b, t2);
    var t3 := Plus(It(b, t2), a3);
    ItMul(b, t3);
    var t4 := Plus(It(b, t3), a4);
    ItMul(b, t4);
    var t5 := Plus(It(b, t4), a5);
    ItMul(b, t5);
  }

  lemma OnePlus(b: nat, t: Word, t': Word, a: Word, a': Word)
    ensures Plus(It(b, Plus(t, t')), Plus(a, a')) == Plus(Plus(It(b, t), a), Plus(It(b, t'), a'))
  {
    hide It, Plus;
    ItPlus(b, t, t');
    PlusFour(It(b, t), It(b, t'), a, a');
  }

  lemma HornerPlus(b: nat, a0: Word, a1: Word, a2: Word, a3: Word, a4: Word, a5: Word, a6: Word,
                   c0: Word, c1: Word, c2: Word, c3: Word, c4: Word, c5: Word, c6: Word)
    ensures Horner(b, Plus(a0, c0), Plus(a1, c1), Plus(a2, c2), Plus(a3, c3), Plus(a4, c4), Plus(a5, c5), Plus(a6, c6))
            == Plus(Horner(b, a0, a1, a2, a3, a4, a5, a6), Horner(b, c0, c1, c2, c3, c4, c5, c6))
  {
    hide It, Plus;
    OnePlus(b, a0, c0, a1, c1);
    var t1, u1 := Plus(It(b, a0), a1), Plus(It(b, c0), c1);
    OnePlus(b, t1, u1, a2, c2);
    var t2, u2 := Plus(It(b, t1), a2), Plus(It(b, u1), c2);
    OnePlus(b, t2, u2, a3, c3);
    var t3, u3 := Plus(It(b, t2), a3), Plus(It(b, u2), c3);
    OnePlus(b, t3, u3, a4, c4);
    var t4, u4 := Plus(It(b, t3), a4), Plus(It(b, u3), c4);
    OnePlus(b, t4, u4, a5, c5);
    var t5, u5 := Plus(It(b, t4), a5), Plus(It(b, u4), c5);
    OnePlus(b, t5, u5, a6, c6);
  }

  /** A coefficient of the generator times a symbol. */
  function Coef(j: nat, x: bv8): Word { Embed(Times(Gen(j), x)) }

  lemma BitLow(a: Word, b: Word)
    ensures Bit(Plus(a, b), 1) == (Bit(a, 1) != Bit(b, 1)) && Bit(Plus(a, b), 2) == (Bit(a, 2) != Bit(b, 2))
    ensures Bit(Plus(a, b), 4) == (Bit(a, 4) != Bit(b, 4)) && Bit(Plus(a, b), 8) == (Bit(a, 8) != Bit(b, 8))
    ensures Bit(Plus(a, b), 16) == (Bit(a, 16) != Bit(b, 16))
  {
  }

  lemma BitHigh(a: Word, b: Word)
    ensures Bit(Plus(a, b), 32) == (Bit(a, 32) != Bit(b, 32)) && Bit(Plus(a, b), 64) == (Bit(a, 64) != Bit(b, 64))
    ensures Bit(Plus(a, b), 128) == (Bit(a, 128) != Bit(b, 128)) && Bit(Plus(a, b), 256) == (Bit(a, 256) != Bit(b, 256))
    ensures Bit(Plus(a, b), 512) == (Bit(a, 512) != Bit(b, 512))
  {
  }

  lemma ChoiceXor(p: Word, g0: bool, g1: bool, g2: bool, g3: bool, g4: bool, h0: bool, h1: bool, h2: bool, h3: bool, h4: bool)
    ensures Choice(p, g0 != h0, g1 != h1, g2 != h2, g3 != h3, g4 != h4) == Plus(Choice(p, g0, g1, g2, g3, g4), Choice(p, h0, h1, h2, h3, h4))
  {
    hide D, Plus, If10, Sum5;
    Sum5If(g0, g1, g2, g3, g4, h0, h1, h2, h3, h4, p, D(p), D(D(p)), D(D(D(p))), D(D(D(D(p)))));
  }

  lemma MulPlus(p: Word, a: Word, b: Word)
    ensures Mul(p, Plus(a, b)) == Plus(Mul(p, a), Mul(p, b))
  {
    hide Plus, Choice, Bit, D5;
    BitLow(a, b);
    BitHigh(a, b);
    ChoiceXor(p, Bit(a, 1), Bit(a, 2), Bit(a, 4), Bit(a, 8), Bit(a, 16), Bit(b, 1), Bit(b, 2), Bit(b, 4), Bit(b, 8), Bit(b, 16));
    ChoiceXor(D5(p), Bit(a, 32), Bit(a, 64), Bit(a, 128), Bit(a, 256), Bit(a, 512), Bit(b, 32), Bit(b, 64), Bit(b, 128), Bit(b, 256), Bit(b, 512));
    PlusFour(LowMul(p, a), LowMul(p, b), HighMul(D5(p), a), HighMul(D5(p), b));
  }

  lemma MulZero(p: Word)
    ensures Mul(p, 0) == 0
  {
    hide Plus, D;
    PlusZero(0);
  }

  lemma MulSum5(p: Word, a: Word, b: Word, c: Word, d: Word, e: Word)
    ensures Mul(p, Sum5(a, b, c, d, e)) == Sum5(Mul(p, a), Mul(p, b), Mul(p, c), Mul(p, d), Mul(p, e))
  {
    hide Mul, Plus;
    MulPlus(p, a, b);
    MulPlus(p, Plus(a, b), c);
    MulPlus(p, Plus(Plus(a, b), c), d);
    MulPlus(p, Plus(Plus(Plus(a, b), c), d), e);
  }

  lemma MulIf(p: Word, h: bool, y: Word)
    ensures Mul(p, If10(h, y)) == If10(h, Mul(p, y))
  {
    hide Mul;
    MulZero(p);
  }

  lemma EmbedIf(h: bool, x: bv8)
    ensures Embed(If8(h, x)) == If10(h, Embed(x))
  {
    if !h { EmbedZero(0); }
  }

  function Sum8(a: bv8, b: bv8, c: bv8, d: bv8, e: bv8): bv8 { Xor8(Xor8(Xor8(Xor8(a, b), c), d), e) }

  lemma EmbedSum(a: bv8, b: bv8, c: bv8, d: bv8, e: bv8)
    ensures Embed(Sum8(a, b, c, d, e)) == Sum5(Embed(a), Embed(b), Embed(c), Embed(d), Embed(e))
  {
    hide Embed, Xor8, Plus;
    EmbedXor(a, b);
    EmbedXor(Xor8(a, b), c);
    EmbedXor(Xor8(Xor8(a, b), c), d);
    EmbedXor(Xor8(Xor8(Xor8(a, b), c), d), e);
  }

  lemma TimesIs(g: bv8, x: bv8)
    ensures var g2 := Double(g); var g4 := Double(g2); var g8 := Double(g4);
      Times(g, x) == Sum8(If8(Has(x, 1), g), If8(Has(x, 2), g2), If8(Has(x, 4), g4), If8(Has(x, 8), g8), If8(Has(x, 16), Double(g8)))
  {
    hide Double, Xor8, If8;
  }

  /** Embedding keeps products, if it keeps those with the powers of two. */
  lemma EmbedTimes(g: bv8, p: Word, x: bv8)
    requires var g2 := Double(g); var g4 := Double(g2); var g8 := Double(g4);
      && Embed(g) == Mul(p, 0x1) && Embed(g2) == Mul(p, 0xe) && Embed(g4) == Mul(p, 0x54)
      && Embed(g8) == Mul(p, 0x358) && Embed(Double(g8)) == Mul(p, 0xbf)
    ensures Embed(Times(g, x)) == Mul(p, Embed(x))
  {
    hide Double, Mul, Has, Sum5, Sum8, If8, If10, Times;
    var g2 := Double(g);
    var g4 := Double(g2);
    var g8 := Double(g4);
    var g16 := Double(g8);
    TimesIs(g, x);
    EmbedParts(x);
    hide Embed;
    EmbedSum(If8(Has(x, 1), g), If8(Has(x, 2), g2), If8(Has(x, 4), g4), If8(Has(x, 8), g8), If8(Has(x, 16), g16));
    EmbedIf(Has(x, 1), g);
    EmbedIf(Has(x, 2), g2);
    EmbedIf(Has(x, 4), g4);
    EmbedIf(Has(x, 8), g8);
    EmbedIf(Has(x, 16), g16);
    MulSum5(p, If10(Has(x, 1), 0x1), If10(Has(x, 2), 0xe), If10(Has(x, 4), 0x54), If10(Has(x, 8), 0x358), If10(Has(x, 16), 0xbf));
    MulIf(p, Has(x, 1), 0x1);
    MulIf(p, Has(x, 2), 0xe);
    MulIf(p, Has(x, 4), 0x54);
    MulIf(p, Has(x, 8), 0x358);
    MulIf(p, Has(x, 16), 0xbf);
  }

  lemma EmbedParts(x: bv8)
    ensures Embed(x) == Sum5(If10(Has(x, 1), 0x1), If10(Has(x, 2), 0xe), If10(Has(x, 4), 0x54), If10(Has(x, 8), 0x358), If10(Has(x, 16), 0xbf))
  {
  }

  lemma Products29()
    ensures Double(29) == 19 && Double(19) == 15 && Double(15) == 30 && Double(30) == 21
    ensures Embed(29) == Mul(0x3b2, 0x1) && Embed(19) == Mul(0x3b2, 0xe) && Embed(15) == Mul(0x3b2, 0x54)
    ensures Embed(30) == Mul(0x3b2, 0x358) && Embed(21) == Mul(0x3b2, 0xbf)
  {
  }

  lemma Products22()
    ensures Double(22) == 5 && Double(5) == 10 && Double(10) == 20 && Double(20) == 1
    ensures Embed(22) == Mul(0xe5, 0x1) && Embed(5) == Mul(0xe5, 0xe) && Embed(10) == Mul(0xe5, 0x54)
    ensures Embed(20) == Mul(0xe5, 0x358) && Embed(1) == Mul(0xe5, 0xbf)
  {
  }

  lemma Products20()
    ensures Double(20) == 1 && Double(1) == 2 && Double(2) == 4 && Double(4) == 8
    ensures Embed(20) == Mul(0xeb, 0x1) && Embed(1) == Mul(0xeb, 0xe) && Embed(2) == Mul(0xeb, 0x54)
    ensures Embed(4) == Mul(0xeb, 0x358) && Embed(8) == Mul(0xeb, 0xbf)
  {
  }

  lemma Products21()
    ensures Double(21) == 3 && Double(3) == 6 && Double(6) == 12 && Double(12) == 24
    ensures Embed(21) == Mul(0xea, 0x1) && Embed(3) == Mul(0xea, 0xe) && Embed(6) == Mul(0xea, 0x54)
    ensures Embed(12) == Mul(0xea, 0x358) && Embed(24) == Mul(0xea, 0xbf)
  {
  }

  lemma Products18()
    ensures Double(18) == 13 && Double(13) == 26 && Double(26) == 29 && Double(29) == 19
    ensures Embed(18) == Mul(0xb1, 0x1) && Embed(13) == Mul(0xb1, 0xe) && Embed(26) == Mul(0xb1, 0x54)
    ensures Embed(29) == Mul(0xb1, 0x358) && Embed(19) == Mul(0xb1, 0xbf)
  {
  }

  lemma CoefMul(x: bv8)
    ensures Coef(1, x) == Mul(0x3b2, Embed(x)) && Coef(2, x) == Mul(0xe5, Embed(x)) && Coef(3, x) == Mul(0xeb, Embed(x))
    ensures Coef(4, x) == Mul(0xea, Embed(x)) && Coef(5, x) == Mul(0x3b2, Embed(x)) && Coef(6, x) == Mul(0xb1, Embed(x))
  {
    hide Double, Mul, Embed, Times;
    Products29();
    EmbedTimes(29, 0x3b2, x);
    Products22();
    EmbedTimes(22, 0xe5, x);
    Products20();
    EmbedTimes(20, 0xeb, x);
    Products21();
    EmbedTimes(21, 0xea, x);
    Products18();
    EmbedTimes(18, 0xb1, x);
  }

  // ----- the roots

  lemma ChoiceLeft(p: Word, p': Word, f0: bool, f1: bool, f2: bool, f3: bool, f4: bool)
    ensures Choice(Plus(p, p'), f0, f1, f2, f3, f4) == Plus(Choice(p, f0, f1, f2, f3, f4), Choice(p', f0, f1, f2, f3, f4))
  {
    hide D, Plus, If10, Sum5;
    DPlus(p, p');
    DPlus(D(p), D(p'));
    DPlus(D(D(p)), D(D(p')));
    DPlus(D(D(D(p))), D(D(D(p'))));
    IfBoth(f0, p, p');
    IfBoth(f1, D(p), D(p'));
    IfBoth(f2, D(D(p)), D(D(p')));
    IfBoth(f3, D(D(D(p))), D(D(D(p'))));
    IfBoth(f4, D(D(D(D(p)))), D(D(D(D(p')))));
    Sum5Plus(If10(f0, p), If10(f1, D(p)), If10(f2, D(D(p))), If10(f3, D(D(D(p)))), If10(f4, D(D(D(D(p))))),
             If10(f0, p'), If10(f1, D(p')), If10(f2, D(D(p'))), If10(f3, D(D(D(p')))), If10(f4, D(D(D(D(p'))))));
  }

  lemma IfBoth(h: bool, a: Word, b: Word)
    ensures If10(h, Plus(a, b)) == Plus(If10(h, a), If10(h, b))
  {
    hide Plus;
    PlusZero(0);
  }

  lemma MulLeft(p: Word, p': Word, y: Word)
    ensures Mul(Plus(p, p'), y) == Plus(Mul(p, y), Mul(p', y))
  {
    hide Plus, Choice, Bit, D;
    DPlus(p, p');
    DPlus(D(p), D(p'));
    DPlus(D(D(p)), D(D(p')));
    DPlus(D(D(D(p))), D(D(D(p'))));
    DPlus(D(D(D(D(p)))), D(D(D(D(p')))));
    ChoiceLeft(p, p', Bit(y, 1), Bit(y, 2), Bit(y, 4), Bit(y, 8), Bit(y, 16));
    ChoiceLeft(D5(p), D5(p'), Bit(y, 32), Bit(y, 64), Bit(y, 128), Bit(y, 256), Bit(y, 512));
    PlusFour(LowMul(p, y), LowMul(p', y), HighMul(D5(p), y), HighMul(D5(p'), y));
  }

  lemma {:induction false} ItMulLeft(n: nat, p: Word, y: Word)
    ensures It(n, Mul(p, y)) == Mul(It(n, p), y)
  {
    hide D, Mul;
    if n > 0 {
      ItMulLeft(n - 1, p, y);
      DMul(It(n - 1, p), y);
    }
  }

  lemma ScaledOne(b: nat, t: Word, a: Word, w: Word)
    ensures Plus(It(b, Mul(t, w)), Mul(a, w)) == Mul(Plus(It(b, t), a), w)
  {
    hide It, Mul, Plus;
    ItMulLeft(b, t, w);
    MulLeft(It(b, t), a, w);
  }

  lemma HornerScaled(b: nat, a0: Word, a1: Word, a2: Word, a3: Word, a4: Word, a5: Word, a6: Word, w: Word)
    ensures Horner(b, Mul(a0, w), Mul(a1, w), Mul(a2, w), Mul(a3, w), Mul(a4, w), Mul(a5, w), Mul(a6, w))
            == Mul(Horner(b, a0, a1, a2, a3, a4, a5, a6), w)
  {
    hide It, Mul, Plus;
    ScaledOne(b, a0, a1, w);
    var t1 := Plus(It(b, a0), a1);
    ScaledOne(b, t1, a2, w);
    var t2 := Plus(It(b, t1), a2);
    ScaledOne(b, t2, a3, w);
    var t3 := Plus(It(b, t2), a3);
    ScaledOne(b, t3, a4, w);
    var t4 := Plus(It(b, t3), a4);
    ScaledOne(b, t4, a5, w);
    var t5 := Plus(It(b, t4), a5);
    ScaledOne(b, t5, a6, w);
  }

  predicate Root(b: nat) { b == 24 || b == 25 || b == 26 }

  lemma Root24()
    ensures Mul(0x3f0, 0x1) == 0x3f0 && Plus(0x3f0, 0x3b2) == 0x42
    ensures Mul(0x3f0, 0x42) == 0x2d5 && Plus(0x2d5, 0xe5) == 0x230
    ensures Mul(0x3f0, 0x230) == 0x22f && Plus(0x22f, 0xeb) == 0x2c4
    ensures Mul(0x3f0, 0x2c4) == 0x2f && Plus(0x2f, 0xea) == 0xc5
    ensures Mul(0x3f0, 0xc5) == 0x36f && Plus(0x36f, 0x3b2) == 0xdd
    ensures Mul(0x3f0, 0xdd) == 0xb1 && Plus(0xb1, 0xb1) == 0x0
  {
  }

  lemma Root25()
    ensures Mul(0x2c3, 0x1) == 0x2c3 && Plus(0x2c3, 0x3b2) == 0x171
    ensures Mul(0x2c3, 0x171) == 0x242 && Plus(0x242, 0xe5) == 0x2a7
    ensures Mul(0x2c3, 0x2a7) == 0x202 && Plus(0x202, 0xeb) == 0x2e9
    ensures Mul(0x2c3, 0x2e9) == 0x155 && Plus(0x155, 0xea) == 0x1bf
    ensures Mul(0x2c3, 0x1bf) == 0x14d && Plus(0x14d, 0x3b2) == 0x2ff
    ensures Mul(0x2c3, 0x2ff) == 0xb1 && Plus(0xb1, 0xb1) == 0x0
  {
  }

  lemma Root26()
    ensures Mul(0xa5, 0x1) == 0xa5 && Plus(0xa5, 0x3b2) == 0x317
    ensures Mul(0xa5, 0x317) == 0xcd && Plus(0xcd, 0xe5) == 0x28
    ensures Mul(0xa5, 0x28) == 0x27 && Plus(0x27, 0xeb) == 0xcc
    ensures Mul(0xa5, 0xcc) == 0x277 && Plus(0x277, 0xea) == 0x29d
    ensures Mul(0xa5, 0x29d) == 0x5c && Plus(0x5c, 0x3b2) == 0x3ee
    ensures Mul(0xa5, 0x3ee) == 0xb1 && Plus(0xb1, 0xb1) == 0x0
  {
  }

  /** The generator vanishes at three consecutive powers. */
  lemma GeneratorRoot(b: nat)
    requires Root(b)
    ensures Horner(b, 0x1, 0x3b2, 0xe5, 0xeb, 0xea, 0x3b2, 0xb1) == 0
  {
    hide Mul, Plus, Horner, It;
    FirstPowers();
    HornerIs(b, It(b, 1), 0x1, 0x3b2, 0xe5, 0xeb, 0xea, 0x3b2, 0xb1);
    if b == 24 { Root24(); } else if b == 25 { Root25(); } else { Root26(); }
  }

  /** So does a multiple of it. */
  lemma MultipleRoot(b: nat, x: bv8)
    requires Root(b)
    ensures Horner(b, Embed(x), Coef(1, x), Coef(2, x), Coef(3, x), Coef(4, x), Coef(5, x), Coef(6, x)) == 0
  {
    hide Mul, Horner, It, Coef, Embed, Plus;
    GeneratorRoot(b);
    CoefMul(x);
    MulOne(Embed(x));
    HornerScaled(b, 0x1, 0x3b2, 0xe5, 0xeb, 0xea, 0x3b2, 0xb1, Embed(x));
    ZeroMul(Embed(x));
  }

  lemma ZeroMul(y: Word)
    ensures Mul(0, y) == 0
  {
    hide Plus;
    PlusZero(0);
    ZeroDs();
  }

  lemma ZeroDs()
    ensures D(0) == 0
  {
  }

  // ----- sequences of symbols

  /** A polynomial of symbols at the b-th power, its highest coefficient first. */
  function Eval(b: nat, v: seq<bv8>): Word {
    if v == [] then 0 else Plus(It(b, Eval(b, v[..|v| - 1])), Embed(v[|v| - 1]))
  }

  lemma EvalSnoc(b: nat, v: seq<bv8>, y: bv8)
    ensures Eval(b, v + [y]) == Plus(It(b, Eval(b, v)), Embed(y))
  {
    hide It, Embed, Plus;
    assert (v + [y])[..|v|] == v;
  }

  lemma EvalSix(b: nat, r: seq<bv8>)
    requires |r| == 6
    ensures Eval(b, r) == Horner(b, 0, Embed(r[0]), Embed(r[1]), Embed(r[2]), Embed(r[3]), Embed(r[4]), Embed(r[5]))
  {
    hide It, Embed, Plus;
    assert r[..5][..4] == r[..4] && r[..4][..3] == r[..3] && r[..3][..2] == r[..2] && r[..2][..1] == r[..1] && r[..1][..0] == [];
    assert Eval(b, r[..1]) == Plus(It(b, 0), Embed(r[0]));
    assert Eval(b, r[..2]) == Plus(It(b, Eval(b, r[..1])), Embed(r[1]));
    assert Eval(b, r[..3]) == Plus(It(b, Eval(b, r[..2])), Embed(r[2]));
    assert Eval(b, r[..4]) == Plus(It(b, Eval(b, r[..3])), Embed(r[3]));
    assert Eval(b, r[..5]) == Plus(It(b, Eval(b, r[..4])), Embed(r[4]));
  }

  lemma HornerNext(b: nat, a0: Word, a1: Word, a2: Word, a3: Word, a4: Word, a5: Word, y: Word)
    ensures Plus(It(b, Horner(b, 0, a0, a1, a2, a3, a4, a5)), y) == Horner(b, a0, a1, a2, a3, a4, a5, y)
  {
    hide It, Plus;
    ItZero(b, 0);
    PlusZero(a0);
  }

  /** One step of the checksum is one step of evaluating, at a root of the generator. */
  lemma StepEval(b: nat, c: bv32, y: bv8)
    requires Root(b) && c <= STATES && y <= 31
    ensures Eval(b, Unpack(Step(c, y))) == Plus(It(b, Eval(b, Unpack(c))), Embed(y))
  {
    hide It, Embed, Plus, Step, Group, Times, Gen, Xor8, Horner;
    var r, r' := Unpack(c), Unpack(Step(c, y));
    GroupStep(c, y, 0);
    GroupStep(c, y, 1);
    GroupStep(c, y, 2);
    GroupStep(c, y, 3);
    GroupStep(c, y, 4);
    GroupStep(c, y, 5);
    EmbedXor(r[1], Times(Gen(1), r[0]));
    EmbedXor(r[2], Times(Gen(2), r[0]));
    EmbedXor(r[3], Times(Gen(3), r[0]));
    EmbedXor(r[4], Times(Gen(4), r[0]));
    EmbedXor(r[5], Times(Gen(5), r[0]));
    EmbedXor(y, Times(Gen(6), r[0]));
    EvalSix(b, r);
    EvalSix(b, r');
    HornerNext(b, Embed(r[0]), Embed(r[1]), Embed(r[2]), Embed(r[3]), Embed(r[4]), Embed(r[5]), Embed(y));
    StepHorner(b, r[0], Embed(r[1]), Embed(r[2]), Embed(r[3]), Embed(r[4]), Embed(r[5]), Embed(y));
  }

  lemma StepHorner(b: nat, x: bv8, a1: Word, a2: Word, a3: Word, a4: Word, a5: Word, a6: Word)
    requires Root(b)
    ensures Horner(b, 0, Plus(a1, Coef(1, x)), Plus(a2, Coef(2, x)), Plus(a3, Coef(3, x)), Plus(a4, Coef(4, x)), Plus(a5, Coef(5, x)), Plus(a6, Coef(6, x)))
            == Horner(b, Embed(x), a1, a2, a3, a4, a5, a6)
  {
    hide Embed, Plus, Coef, Horner;
    var e := Embed(x);
    MultipleRoot(b, x);
    HornerPlus(b, e, a1, a2, a3, a4, a5, a6, e, Coef(1, x), Coef(2, x), Coef(3, x), Coef(4, x), Coef(5, x), Coef(6, x));
    PlusZero(e);
    PlusZero(Horner(b, e, a1, a2, a3, a4, a5, a6));
  }

  /** Values whose checksum from zero is some state are, at a root of the generator, what the state is. */
  lemma {:induction false} FeedEval(b: nat, v: seq<bv8>)
    requires Root(b) && Symbols(v)
    ensures Eval(b, v) == Eval(b, Unpack(Feed(0, v)))
  {
    hide It, Embed, Plus, Step, Group, Unpack;
    if v == [] {
      EvalNothing(b);
    } else {
      var w, y := v[..|v| - 1], v[|v| - 1];
      assert Symbol(v[|v| - 1]);
      FeedEval(b, w);
      FeedInside(0, w);
      StepEval(b, Feed(0, w), y);
    }
  }

  lemma EvalNothing(b: nat)
    ensures Eval(b, Unpack(0)) == 0
  {
    EvalZeros(b, 6);
    assert Unpack(0) == Zeros(6);
  }

  lemma {:induction false} EvalZeros(b: nat, n: nat)
    ensures Eval(b, Zeros(n)) == 0
  {
    hide It;
    if n > 0 {
      EvalZeros(b, n - 1);
      assert Zeros(n)[..n - 1] == Zeros(n - 1);
      ItZero(b, 0);
      EmbedZero(0);
      PlusZero(0);
    }
  }

  /** Multiply by the m-th power of the b-th power. */
  function At(b: nat, m: nat, y: Word): Word { It(b * m, y) }

  lemma AtNext(b: nat, m: nat, y: Word)
    ensures At(b, m + 1, y) == It(b, At(b, m, y)) && At(b, 0, y) == y
  {
    hide It;
    assert b * (m + 1) == b + b * m && b * 0 == 0;
    ItAdd(b, b * m, y);
    ItNothing(y);
  }

  /** What changing one coefficient changes. */
  lemma {:induction false} EvalSet(b: nat, v: seq<bv8>, i: nat, y: bv8)
    requires i < |v| && v[i] == 0
    ensures Eval(b, v[i := y]) == Plus(Eval(b, v), At(b, |v| - 1 - i, Embed(y)))
  {
    hide It, Embed, Plus, Eval, At;
    var n := |v| - 1;
    var w := v[..n];
    if i == n {
      assert v[i := y] == w + [y] && v == w + [0];
      EvalSnoc(b, w, y);
      EvalSnoc(b, w, 0);
      AtNext(b, 0, Embed(y));
      EmbedNothing();
      PlusZero(It(b, Eval(b, w)));
    } else {
      assert v[i := y] == w[i := y] + [v[n]] && v == w + [v[n]];
      EvalSet(b, w, i, y);
      EvalSnoc(b, w[i := y], v[n]);
      EvalSnoc(b, w, v[n]);
      var m := n - 1 - i;
      ItPlus(b, Eval(b, w), At(b, m, Embed(y)));
      AtNext(b, m, Embed(y));
      PlusLast(It(b, Eval(b, w)), At(b, m + 1, Embed(y)), Embed(v[n]));
    }
  }

  lemma ItNothing(y: Word)
    ensures It(0, y) == y
  {
  }

  lemma EmbedNothing()
    ensures Embed(0) == 0
  {
  }

  lemma PlusLast(a: Word, b: Word, c: Word)
    ensures Plus(Plus(a, b), c) == Plus(Plus(a, c), b)
  {
    hide Plus;
    PlusAssoc(a, b, c);
    PlusSwap(b, c);
    PlusAssoc(a, c, b);
  }

  // ----- three errors

  predicate ZeroBut(d: seq<bv8>, i: nat, j: nat, k: nat) {
    forall l | 0 <= l < |d| && l != i && l != j && l != k :: d[l] == 0
  }

  /** Symbols at three places, at the b-th power. */
  lemma EvalThree(b: nat, d: seq<bv8>, i: nat, j: nat, k: nat)
    requires i < |d| && j < |d| && k < |d| && i != j && i != k && j != k && ZeroBut(d, i, j, k)
    ensures var n := |d| - 1;
      Eval(b, d) == Plus(Plus(At(b, n - i, Embed(d[i])), At(b, n - j, Embed(d[j]))), At(b, n - k, Embed(d[k])))
  {
    hide At, Embed, Plus, Eval;
    var z := Zeros(|d|);
    var z1 := z[i := d[i]];
    var z2 := z1[j := d[j]];
    assert d == z2[k := d[k]];
    EvalZeros(b, |d|);
    EvalSet(b, z, i, d[i]);
    EvalSet(b, z1, j, d[j]);
    EvalSet(b, z2, k, d[k]);
    PlusZero(At(b, |d| - 1 - i, Embed(d[i])));
  }

  lemma PowerNext(a: nat, x: Word)
    ensures At(25, a, x) == It(a, At(24, a, x)) && At(26, a, x) == It(a, It(a, At(24, a, x)))
  {
    hide It;
    ItAdd(a, 24 * a, x);
    ItAdd(a, 25 * a, x);
  }

  lemma ZeroSymbol(m: nat, x: bv8)
    requires x <= 31 && At(24, m, Embed(x)) == 0
    ensures x == 0
  {
    hide It, Embed;
    ItZero(24 * m, Embed(x));
    EmbedZero(x);
  }

  /** Symbols at three places out of 1023 with the checksum zero are zero. */
  lemma ThreeZero(d: seq<bv8>, i: nat, j: nat, k: nat)
    requires |d| <= 1023 && i < |d| && j < |d| && k < |d| && i != j && i != k && j != k
    requires Symbols(d) && ZeroBut(d, i, j, k) && Feed(0, d) == 0
    ensures d[i] == 0 && d[j] == 0 && d[k] == 0
  {
    hide It, At, Embed, Plus, Eval, Feed, ZeroBut;
    var n := |d| - 1;
    FeedEval(24, d);
    FeedEval(25, d);
    FeedEval(26, d);
    EvalNothing(24);
    EvalNothing(25);
    EvalNothing(26);
    EvalThree(24, d, i, j, k);
    EvalThree(25, d, i, j, k);
    EvalThree(26, d, i, j, k);
    PowerNext(n - i, Embed(d[i]));
    PowerNext(n - j, Embed(d[j]));
    PowerNext(n - k, Embed(d[k]));
    Vandermonde(n - i, n - j, n - k, At(24, n - i, Embed(d[i])), At(24, n - j, Embed(d[j])), At(24, n - k, Embed(d[k])));
    assert Symbol(d[i]) && Symbol(d[j]) && Symbol(d[k]);
    ZeroSymbol(n - i, d[i]);
    ZeroSymbol(n - j, d[j]);
    ZeroSymbol(n - k, d[k]);
  }

  /** An index of three besides two others. */
  function Other(i: nat, j: nat): (k: nat)
    ensures k < 3 && k != i && k != j
  {
    if i != 0 && j != 0 then 0 else if i != 1 && j != 1 then 1 else 2
  }

  predicate SameBut<T(==)>(a: seq<T>, b: seq<T>, i: nat, j: nat, k: nat) {
    |a| == |b| && forall l | 0 <= l < |a| && l != i && l != j && l != k :: a[l] == b[l]
  }

  /** Of sequences of up to 1023 symbols that differ in at most three places, behind the same beginning, no two
      have the same checksum. */
  lemma ThreeDetected(e: seq<bv8>, u: seq<bv8>, w: seq<bv8>, i: nat, j: nat, k: nat)
    requires |u| <= 1023 && i < |u| && j < |u| && k < |u| && SameBut(u, w, i, j, k)
    requires Symbols(u) && Symbols(w) && PolyMod(e + u) == PolyMod(e + w)
    ensures u == w
  {
    hide Feed, SameBut, XorSeq;
    var s := Feed(1, e);
    FeedAppend(1, e, u);
    FeedAppend(1, e, w);
    assert |w| == |u| by { assert SameBut(u, w, i, j, k); SameLength(u, w, i, j, k); }
    if |u| <= 6 {
      FeedOfDifference(s, u, w);
    } else {
      FeedXor(s, s, u, w);
      XorSelf(s);
      XorSelf(Feed(s, u));
      var j' := if j != i then j else Other(i, k);
      var k' := if k != i && k != j' then k else Other(i, j');
      DifferenceZero(u, w, i, j, k, j', k');
    }
  }

  lemma SameLength(u: seq<bv8>, w: seq<bv8>, i: nat, j: nat, k: nat)
    requires SameBut(u, w, i, j, k)
    ensures |w| == |u|
  {
  }

  lemma DifferenceZero(u: seq<bv8>, w: seq<bv8>, i: nat, j: nat, k: nat, j': nat, k': nat)
    requires |w| == |u| <= 1023 && SameBut(u, w, i, j, k) && Symbols(u) && Symbols(w)
    requires i < |u| && j' < |u| && k' < |u| && i != j' && i != k' && j' != k' && {i, j, k} <= {i, j', k'}
    requires Feed(0, XorSeq(u, w)) == 0
    ensures u == w
  {
    hide Feed, XorSeq, Xor8;
    var d := XorSeq(u, w);
    assert j in {i, j', k'} && k in {i, j', k'};
    forall l | 0 <= l < |d| ensures d[l] == Xor8(u[l], w[l]) { XorSeqAt(u, w, l); }
    forall l | 0 <= l < |d| ensures Symbol(d[l]) {
      assert Symbol(u[l]) && Symbol(w[l]);
      Xor8Small(u[l], w[l]);
    }
    forall l | 0 <= l < |d| && l != i && l != j' && l != k' ensures d[l] == 0 { Xor8Left(u[l]); }
    ThreeZero(d, i, j', k');
    forall l | 0 <= l < |u| ensures u[l] == w[l] { Xor8Zero(u[l], w[l]); }
  }

  /** Of two value sequences of up to 1023 symbols that differ in one to three places at most one verifies. */
  lemma ThreeErrors(hrp: seq<Byte>, a: seq<Byte>, b: seq<Byte>, i: nat, j: nat, k: nat)
    requires Fives(a) && Fives(b) && |a| <= 1023 && i < |a| && j < |a| && k < |a| && SameBut(a, b, i, j, k) && a != b
    ensures !(VerifyChecksum(hrp, a) && VerifyChecksum(hrp, b))
  {
    hide PolyMod, ExpandHRP, WordOf, ByteOf;
    var e := ExpandHRP(hrp);
    WordsAppend(e, a);
    WordsAppend(e, b);
    SmallWords(a);
    SmallWords(b);
    if VerifyChecksum(hrp, a) && VerifyChecksum(hrp, b) {
      ThreeDetected(Words(e), Words(a), Words(b), i, j, k);
      BytesOfWords(a);
      BytesOfWords(b);
    }
  }

  /** The data part of a valid string, as symbols. */
  lemma DataPart(s: seq<Byte>) returns (a: seq<Byte>)
    requires Decode(s).Valid?
    ensures var pos := LastOne(s);
      && 0 < pos < |s| <= 1023 && s[pos] == ONE && Readable(s[pos + 1..]) && a == Revs(s[pos + 1..]) && Fives(a)
      && VerifyChecksum(Lower(s[..pos]), a) && Lower(s) == Lower(s[..pos]) + [ONE] + Chars(a)
  {
    hide VerifyChecksum, RevOf, CharOf, Printable, HasLower, HasUpper, LastOne, LowerCase;
    var pos := LastOne(s);
    a := Revs(s[pos + 1..]);
    CharsOfRevs(s[pos + 1..]);
    LowerParts(s, pos);
  }

  lemma RevsBut(x: seq<Byte>, y: seq<Byte>, i: nat, j: nat, k: nat)
    requires Readable(x) && Readable(y) && SameBut(x, y, i, j, k)
    ensures SameBut(Revs(x), Revs(y), i, j, k)
  {
    hide RevOf;
  }

  lemma TailBut(s: seq<Byte>, s': seq<Byte>, pos: nat, i: nat, j: nat, k: nat)
    requires SameBut(s, s', i, j, k) && pos < i < |s| && pos < j < |s| && pos < k < |s|
    ensures s[..pos] == s'[..pos] && SameBut(s[pos + 1..], s'[pos + 1..], i - (pos + 1), j - (pos + 1), k - (pos + 1))
  {
  }

  /** Whoever replaces one to three characters behind the separator of a valid string, by others than the same
      in the other case or another separator, makes it invalid. */
  lemma ThreeSubstitutions(s: seq<Byte>, s': seq<Byte>, i: nat, j: nat, k: nat)
    requires Decode(s).Valid? && SameBut(s, s', i, j, k) && Lower(s') != Lower(s) && LastOne(s') == LastOne(s)
    requires LastOne(s) < i < |s| && LastOne(s) < j < |s| && LastOne(s) < k < |s|
    ensures Decode(s') == Invalid
  {
    hide Decode, VerifyChecksum, LastOne, Lower, Readable, Revs, Chars, Fives, SameBut;
    if Decode(s').Valid? {
      var a := DataPart(s);
      var b := DataPart(s');
      var pos := LastOne(s);
      TailBut(s, s', pos, i, j, k);
      RevsBut(s[pos + 1..], s'[pos + 1..], i - (pos + 1), j - (pos + 1), k - (pos + 1));
      if a != b { ThreeErrors(Lower(s[..pos]), a, b, i - (pos + 1), j - (pos + 1), k - (pos + 1)); }
    }
  }
}
