/** The Bech32 checksum is the remainder of the values, read as a polynomial over GF(32), by the generator
    x^6 + {29}x^5 + {22}x^4 + {20}x^3 + {21}x^2 + {29}x + {18}. Polynomials have the highest power first. */
module Bech32Field {
  import opened Octets
  import opened Bech32Poly
  import opened Bech32Codec

  // ----- the field

  /** Multiply by a in GF(2)[a] modulo a^5 + a^3 + 1. */
  function Double(x: bv8): bv8 { if x & 16 != 0 then Xor8(x << 1, 41) else x << 1 }
  function If8(h: bool, x: bv8): bv8 { if h then x else 0 }

  function Times(x: bv8, y: bv8): bv8 {
    var x2 := Double(x);
    var x4 := Double(x2);
    var x8 := Double(x4);
    Xor8(Xor8(Xor8(Xor8(If8(y & 1 != 0, x), If8(y & 2 != 0, x2)), If8(y & 4 != 0, x4)), If8(y & 8 != 0, x8)),
         If8(y & 16 != 0, Double(x8)))
  }

  /** The generator's coefficient of x^(6-j). */
  function Gen(j: nat): bv8 {
    if j == 0 then 1 else if j == 1 then 29 else if j == 2 then 22 else if j == 3 then 20
    else if j == 4 then 21 else if j == 5 then 29 else if j == 6 then 18 else 0
  }

  lemma TimesOne(x: bv8)
    requires x <= 31
    ensures Times(1, x) == x
  {
  }

  // ----- one step

  lemma LowXor(c: bv32, d: bv32)
    ensures Low(Xor(c, d)) == Xor8(Low(c), Low(d))
  {
  }

  lemma Low25(c: bv32, d: bv32)
    ensures Low(Xor(c, d) >> 25) == Xor8(Low(c >> 25), Low(d >> 25))
  {
  }

  lemma Low20(c: bv32, d: bv32)
    ensures Low(Xor(c, d) >> 20) == Xor8(Low(c >> 20), Low(d >> 20))
  {
  }

  lemma Low15(c: bv32, d: bv32)
    ensures Low(Xor(c, d) >> 15) == Xor8(Low(c >> 15), Low(d >> 15))
  {
  }

  lemma Low10(c: bv32, d: bv32)
    ensures Low(Xor(c, d) >> 10) == Xor8(Low(c >> 10), Low(d >> 10))
  {
  }

  lemma Low5(c: bv32, d: bv32)
    ensures Low(Xor(c, d) >> 5) == Xor8(Low(c >> 5), Low(d >> 5))
  {
  }

  lemma GroupXor(c: bv32, d: bv32, k: nat)
    requires k < 6
    ensures Group(Xor(c, d), k) == Xor8(Group(c, k), Group(d, k))
  {
    hide Xor, Xor8, Low;
    if k == 0 {
      Low25(c, d);
    } else if k == 1 {
      Low20(c, d);
    } else if k == 2 {
      Low15(c, d);
    } else if k == 3 {
      Low10(c, d);
    } else if k == 4 {
      Low5(c, d);
    } else {
      LowXor(c, d);
    }
  }

  lemma Shift25(c: bv32)
    requires c <= STATES
    ensures Low(Shift(c) >> 25) == Low(c >> 20)
  {
  }

  lemma Shift20(c: bv32)
    requires c <= STATES
    ensures Low(Shift(c) >> 20) == Low(c >> 15)
  {
  }

  lemma Shift15(c: bv32)
    requires c <= STATES
    ensures Low(Shift(c) >> 15) == Low(c >> 10)
  {
  }

  lemma Shift10(c: bv32)
    requires c <= STATES
    ensures Low(Shift(c) >> 10) == Low(c >> 5)
  {
  }

  lemma Shift5(c: bv32)
    requires c <= STATES
    ensures Low(Shift(c) >> 5) == Low(c)
  {
  }

  lemma Shift0(c: bv32)
    requires c <= STATES
    ensures Low(Shift(c)) == 0
  {
  }

  lemma GroupShift(c: bv32, k: nat)
    requires k < 6 && c <= STATES
    ensures Group(Shift(c), k) == if k < 5 then Group(c, k + 1) else 0
  {
    hide Low, Shift;
    if k == 0 { Shift25(c); }
    else if k == 1 { Shift20(c); }
    else if k == 2 { Shift15(c); }
    else if k == 3 { Shift10(c); }
    else if k == 4 { Shift5(c); }
    else { Shift0(c); }
  }

  lemma GroupWide(x: bv8, k: nat)
    requires k < 6 && x <= 31
    ensures Group(Wide(x), k) == if k < 5 then 0 else x
  {
  }

  lemma LeadingGroup(c: bv32)
    requires c <= STATES
    ensures Leading(c) == Wide(Group(c, 0))
  {
  }

  lemma BitsOf(x: bv8)
    requires x <= 31
    ensures (HasBit(Wide(x), 1) <==> x & 1 != 0) && (HasBit(Wide(x), 2) <==> x & 2 != 0) && (HasBit(Wide(x), 4) <==> x & 4 != 0)
    ensures (HasBit(Wide(x), 8) <==> x & 8 != 0) && (HasBit(Wide(x), 16) <==> x & 16 != 0)
  {
  }

  /** The five constants are k(x) = x^6 modulo the generator, times one, two, four, eight and sixteen. */
  lemma Constants(k: nat)
    requires k < 6
    ensures var g := Gen(k + 1);
      && Group(0x3b6a57b2, k) == g && Group(0x26508e6d, k) == Double(g) && Group(0x1ea119fa, k) == Double(Double(g))
      && Group(0x3d4233dd, k) == Double(Double(Double(g))) && Group(0x2a1462b3, k) == Double(Double(Double(Double(g))))
  {
  }

  lemma GroupWhen(h: bool, c: bv32, k: nat)
    requires k < 6
    ensures Group(When(h, c), k) == If8(h, Group(c, k))
  {
  }

  lemma GroupXor5(a: bv32, b: bv32, c: bv32, d: bv32, e: bv32, k: nat)
    requires k < 6
    ensures Group(Xor5(a, b, c, d, e), k) == Xor8(Xor8(Xor8(Xor8(Group(a, k), Group(b, k)), Group(c, k)), Group(d, k)), Group(e, k))
  {
    hide Xor, Xor8, Group;
    GroupXor(Xor(Xor(Xor(a, b), c), d), e, k);
    GroupXor(Xor(Xor(a, b), c), d, k);
    GroupXor(Xor(a, b), c, k);
    GroupXor(a, b, k);
  }

  lemma ReduceGroup(x: bv8, k: nat)
    requires k < 6 && x <= 31
    ensures Group(Reduce(Wide(x)), k) == Times(Gen(k + 1), x)
  {
    hide Group, Wide, HasBit, When, If8, Xor5, Xor8, Double, Gen;
    BitsOf(x);
    Constants(k);
    var w := Wide(x);
    GroupXor5(When(HasBit(w, 1), 0x3b6a57b2), When(HasBit(w, 2), 0x26508e6d), When(HasBit(w, 4), 0x1ea119fa),
              When(HasBit(w, 8), 0x3d4233dd), When(HasBit(w, 16), 0x2a1462b3), k);
    GroupWhen(HasBit(w, 1), 0x3b6a57b2, k);
    GroupWhen(HasBit(w, 2), 0x26508e6d, k);
    GroupWhen(HasBit(w, 4), 0x1ea119fa, k);
    GroupWhen(HasBit(w, 8), 0x3d4233dd, k);
    GroupWhen(HasBit(w, 16), 0x2a1462b3, k);
  }

  /** A step takes c(x) to c(x) * x + y modulo the generator. */
  lemma GroupStep(c: bv32, y: bv8, k: nat)
    requires k < 6 && c <= STATES && y <= 31
    ensures Group(Step(c, y), k) == Xor8(if k < 5 then Group(c, k + 1) else y, Times(Gen(k + 1), Group(c, 0)))
  {
    hide Xor, Xor8, Group, Wide, Shift, Reduce, Leading, Times, Gen;
    GroupXor(Xor(Shift(c), Wide(y)), Reduce(Leading(c)), k);
    GroupXor(Shift(c), Wide(y), k);
    GroupShift(c, k);
    GroupWide(y, k);
    Xor8Left(y);
    if k < 5 { Xor8Right(Group(c, k + 1)); }
    LeadingGroup(c);
    GroupSmall(c, 0);
    ReduceGroup(Group(c, 0), k);
  }

  lemma Xor8Right(x: bv8)
    ensures Xor8(x, 0) == x
  {
  }

  // ----- polynomials

  function Term(q: seq<bv8>, m: nat, j: nat): bv8 {
    if 0 <= m - j < |q| then Times(Gen(j), q[m - j]) else 0
  }

  /** The first j of the seven terms of a coefficient. */
  function Sum(q: seq<bv8>, m: nat, j: nat): bv8 {
    if j == 0 then 0 else Xor8(Sum(q, m, j - 1), Term(q, m, j - 1))
  }

  /** A coefficient of the product of q and the generator, which has six coefficients more than q. */
  function ProductAt(q: seq<bv8>, m: nat): bv8 { Sum(q, m, 7) }

  /** A coefficient of a remainder that stands below n coefficients. */
  function RestAt(r: seq<bv8>, n: nat, m: nat): bv8 { if n <= m < n + |r| then r[m - n] else 0 }

  /** p is q times the generator plus r, and r has a lower degree than the generator. */
  predicate Division(p: seq<bv8>, q: seq<bv8>, r: seq<bv8>) {
    && |p| == |q| + 6 && |r| == 6 && Symbols(q) && Symbols(r)
    && forall m | 0 <= m < |p| :: p[m] == Xor8(ProductAt(q, m), RestAt(r, |q|, m))
  }

  /** The polynomial of some values, with a one in front. */
  function Polynomial(v: seq<bv8>): seq<bv8> { Zeros(5) + [1] + v }

  lemma {:induction false} SumGrows(q: seq<bv8>, c: bv8, m: nat, j: nat)
    ensures Sum(q + [c], m, j) == Xor8(Sum(q, m, j), if 0 <= m - |q| < j then Times(Gen(m - |q|), c) else 0)
  {
    hide Xor8, Times, Gen;
    Xor8Right(0);
    if j > 0 {
      SumGrows(q, c, m, j - 1);
      var i := m - (j - 1);
      assert 0 <= i < |q| ==> (q + [c])[i] == q[i];
      var old', z, t := Sum(q, m, j - 1), Times(Gen(NonNegative(m - |q|)), c), Term(q, m, j - 1);
      Xor8Right(old');
      Xor8Right(Xor8(old', t));
      Swapped(old', z, t);
      Swapped(old', z, 0);
      Xor8Right(Xor8(old', z));
    }
  }

  function NonNegative(n: int): nat { if n < 0 then 0 else n }

  lemma Swapped(a: bv8, b: bv8, c: bv8)
    ensures Xor8(Xor8(a, b), c) == Xor8(Xor8(a, c), b)
  {
  }

  /** One more coefficient of the quotient adds to the last seven of the product. */
  lemma ProductGrows(q: seq<bv8>, c: bv8, m: nat)
    requires m <= |q| + 6
    ensures ProductAt(q + [c], m) == Xor8(ProductAt(q, m), if m < |q| then 0 else Times(Gen(m - |q|), c))
  {
    hide Xor8, Times, Gen, Sum;
    SumGrows(q, c, m, 7);
  }

  lemma {:induction false} NoSum(q: seq<bv8>, j: nat)
    requires j <= 7
    ensures Sum(q, |q| + 6, j) == 0
  {
    hide Xor8;
    if j > 0 {
      NoSum(q, j - 1);
      Xor8Right(0);
    }
  }

  lemma NoProduct(q: seq<bv8>)
    ensures ProductAt(q, |q| + 6) == 0
  {
    NoSum(q, 7);
  }

  lemma Cancel(a: bv8, b: bv8, z: bv8)
    ensures Xor8(Xor8(a, z), Xor8(b, z)) == Xor8(a, b) && Xor8(Xor8(a, z), 0) == Xor8(a, z) && Xor8(Xor8(0, z), Xor8(a, z)) == a
  {
  }

  lemma DivisionStep(p: seq<bv8>, q: seq<bv8>, r: seq<bv8>, y: bv8, r': seq<bv8>)
    requires Division(p, q, r) && |r'| == 6 && Symbols(r')
    requires forall k | 0 <= k < 6 :: r'[k] == Xor8(if k < 5 then r[k + 1] else y, Times(Gen(k + 1), r[0]))
    ensures Division(p + [y], q + [r[0]], r')
  {
    hide Xor8, Times, Gen, ProductAt;
    var p', q', n := p + [y], q + [r[0]], |q|;
    forall m | 0 <= m < |p'| ensures p'[m] == Xor8(ProductAt(q', m), RestAt(r', n + 1, m)) {
      ProductGrows(q, r[0], m);
      if m < n {
        Xor8Right(ProductAt(q, m));
      } else {
        var z := Times(Gen(m - n), r[0]);
        Cancel(ProductAt(q, m), 0, z);
        if m == n {
          GenFirst();
          TimesOne(r[0]);
        } else if m < n + 6 {
          Cancel(ProductAt(q, m), r[m - n], z);
        } else {
          NoProduct(q);
          Cancel(y, 0, z);
        }
      }
    }
  }

  lemma GenFirst()
    ensures Gen(0) == 1
  {
  }

  /** Feeding values divides their polynomial by the generator. */
  lemma {:induction false} FeedDivides(v: seq<bv8>) returns (q: seq<bv8>)
    requires Symbols(v)
    ensures Division(Polynomial(v), q, Unpack(PolyMod(v)))
  {
    hide Division, PolyMod, Unpack, Polynomial;
    if v == [] {
      q := [];
      NothingDivides();
    } else {
      var w, y := v[..|v| - 1], v[|v| - 1];
      q := FeedDivides(w);
      assert v == w + [y];
      PolyModInside(w);
      UnpackStep(w, y);
      hide Xor8, Times, Gen;
      DivisionStep(Polynomial(w), q, Unpack(PolyMod(w)), y, Unpack(PolyMod(v)));
      PolynomialGrows(w, y);
      q := q + [Unpack(PolyMod(w))[0]];
    }
  }

  lemma PolynomialGrows(w: seq<bv8>, y: bv8)
    ensures Polynomial(w + [y]) == Polynomial(w) + [y]
  {
  }

  lemma UnpackStep(w: seq<bv8>, y: bv8)
    requires Symbol(y)
    ensures var r, r' := Unpack(PolyMod(w)), Unpack(PolyMod(w + [y]));
      forall k | 0 <= k < 6 :: r'[k] == Xor8(if k < 5 then r[k + 1] else y, Times(Gen(k + 1), r[0]))
  {
    hide Step, Group, Xor8, Times, Gen;
    var c := PolyMod(w);
    PolyModInside(w);
    assert (w + [y])[..|w|] == w;
    assert PolyMod(w + [y]) == Step(c, y);
    GroupStep(c, y, 0);
    GroupStep(c, y, 1);
    GroupStep(c, y, 2);
    GroupStep(c, y, 3);
    GroupStep(c, y, 4);
    GroupStep(c, y, 5);
  }

  lemma NothingDivides()
    ensures Division(Polynomial([]), [], Unpack(PolyMod([])))
  {
    hide Sum, Xor8, Unpack;
    UnpackOne();
    assert Unpack(PolyMod([])) == [0, 0, 0, 0, 0, 1];
    forall m | 0 <= m < 6 ensures ProductAt([], m) == 0 { EmptySum(m, 7); }
    ZeroLeft(0);
    ZeroLeft(1);
  }

  lemma {:induction false} EmptySum(m: nat, j: nat)
    ensures Sum([], m, j) == 0
  {
    hide Xor8;
    if j > 0 {
      EmptySum(m, j - 1);
      Xor8Right(0);
    }
  }

  // ----- there is only one remainder

  lemma {:induction false} OneQuotient(p: seq<bv8>, q: seq<bv8>, r: seq<bv8>, q': seq<bv8>, r': seq<bv8>, n: nat)
    requires Division(p, q, r) && Division(p, q', r') && n <= |q| == |q'|
    ensures q[..n] == q'[..n]
  {
    hide Division;
    if n > 0 {
      OneQuotient(p, q, r, q', r', n - 1);
      NextSame(p, q, r, q', r', n - 1);
      assert q[..n] == q[..n - 1] + [q[n - 1]];
      assert q'[..n] == q'[..n - 1] + [q'[n - 1]];
    }
  }

  lemma NextSame(p: seq<bv8>, q: seq<bv8>, r: seq<bv8>, q': seq<bv8>, r': seq<bv8>, n: nat)
    requires Division(p, q, r) && Division(p, q', r') && n < |q| == |q'| && q[..n] == q'[..n]
    ensures q[n] == q'[n]
  {
    hide Xor8, Times, Gen;
    assert forall i | 0 <= i < n :: q[i] == q[..n][i] == q'[..n][i] == q'[i];
    Xor8Right(ProductAt(q, n));
    Xor8Right(ProductAt(q', n));
    FirstSame(q, q', n, 7);
    GenFirst();
    TimesOne(q[n]);
    TimesOne(q'[n]);
  }

  /** The first term is the same if the sum and the other terms are. */
  lemma {:induction false} FirstSame(q: seq<bv8>, q': seq<bv8>, n: nat, j: nat)
    requires n < |q| == |q'| && 1 <= j && Sum(q, n, j) == Sum(q', n, j)
    requires forall i | 0 <= i < n :: q[i] == q'[i]
    ensures Term(q, n, 0) == Term(q', n, 0)
  {
    hide Xor8, Times, Gen;
    if j == 1 {
      SumOfOne(q, n);
      SumOfOne(q', n);
    } else {
      SameRest(Sum(q, n, j - 1), Sum(q', n, j - 1), Term(q, n, j - 1));
      FirstSame(q, q', n, j - 1);
    }
  }

  lemma SumOfOne(q: seq<bv8>, n: nat)
    ensures Sum(q, n, 1) == Term(q, n, 0)
  {
    hide Term;
    assert Sum(q, n, 0) == 0;
    ZeroLeft(Term(q, n, 0));
  }

  lemma ZeroLeft(x: bv8)
    ensures Xor8(0, x) == x
  {
  }

  lemma SameRest(a: bv8, b: bv8, x: bv8)
    requires Xor8(a, x) == Xor8(b, x)
    ensures a == b
  {
  }

  lemma RestSame(a: bv8, x: bv8, y: bv8)
    requires Xor8(a, x) == Xor8(a, y)
    ensures x == y
  {
  }

  lemma OneRemainder(p: seq<bv8>, q: seq<bv8>, r: seq<bv8>, q': seq<bv8>, r': seq<bv8>)
    requires Division(p, q, r) && Division(p, q', r')
    ensures q == q' && r == r'
  {
    hide Xor8, ProductAt;
    OneQuotient(p, q, r, q', r', |q|);
    assert q == q[..|q|] == q'[..|q|] == q';
    forall k | 0 <= k < 6 ensures r[k] == r'[k] {
      var m := |q| + k;
      assert RestAt(r, |q|, m) == r[k] && RestAt(r', |q|, m) == r'[k];
      assert p[m] == Xor8(ProductAt(q, m), r[k]) == Xor8(ProductAt(q, m), r'[k]);
      RestSame(ProductAt(q, |q| + k), r[k], r'[k]);
    }
  }

  /** The checksum's six symbols, and no others, are the remainder of the values' polynomial by the
      generator. */
  lemma RemainderExact(v: seq<bv8>, r: seq<bv8>)
    requires Symbols(v)
    ensures (exists q :: Division(Polynomial(v), q, r)) <==> r == Unpack(PolyMod(v))
  {
    hide Division, PolyMod, Unpack, Polynomial;
    var q0 := FeedDivides(v);
    if q :| Division(Polynomial(v), q, r) { OneRemainder(Polynomial(v), q0, Unpack(PolyMod(v)), q, r); }
  }

  /** A string's values verify exactly if the generator divides their polynomial, with the expanded
      human-readable part in front of them, up to a remainder of one. */
  lemma VerifiesExact(hrp: seq<Byte>, values: seq<Byte>)
    requires Fives(values)
    ensures VerifyChecksum(hrp, values) <==>
            exists q :: Division(Polynomial(Words(ExpandHRP(hrp) + values)), q, [0, 0, 0, 0, 0, 1])
  {
    hide Words, WordOf, Division, Polynomial, ExpandHRP, PolyMod, Unpack;
    var v := ExpandHRP(hrp) + values;
    ExpandedFives(hrp);
    SmallWords(v);
    RemainderExact(Words(v), [0, 0, 0, 0, 0, 1]);
    UnpackOne();
    PolyModInside(Words(v));
    PackUnpack(PolyMod(Words(v)));
    PackUnpack(1);
  }

  lemma UnpackOne()
    ensures Unpack(1) == [0, 0, 0, 0, 0, 1]
  {
  }

  // ----- the rest of a string

  /** The expanded human-readable part: the three high bits of every character, a zero, and the five low
      bits of every character. */
  lemma ExpandedExact(hrp: seq<Byte>, i: nat)
    requires i < |hrp|
    ensures var e := ExpandHRP(hrp);
      e[i] <= 7 && e[|hrp|] == 0 && e[|hrp| + 1 + i] <= 31 && 32 * e[i] + e[|hrp| + 1 + i] == hrp[i]
  {
  }

  lemma ExpandedFives(hrp: seq<Byte>)
    ensures Fives(ExpandHRP(hrp))
  {
  }

  /** The character set. */
  lemma CharsetExact(v: Byte)
    requires v <= 31
    ensures CharOf(v) as char == "qpzry9x8gf2tvdw0s3jn54khce6mua7l"[v]
  {
  }

  lemma RevLower(c: Byte)
    ensures RevOf(LowerCase(c)) == RevOf(c)
  {
  }

  /** The symbol of a character in either case. */
  lemma RevExact(v: Byte, c: Byte)
    requires v <= 31
    ensures RevOf(c) == v <==> LowerCase(c) == CharOf(v)
  {
    hide RevOf, CharOf, LowerCase;
    RevOfChar(v);
    RevLower(c);
    if RevOf(c) == v { CharOfRev(c); }
  }

  /** The product of BIP 173's example: {5} * {26} = {9}. */
  lemma FieldExample()
    ensures Times(5, 26) == 9
  {
  }

  // ----- an example of BIP 173

  lemma ExampleSteps()
    ensures Step(0x1, 3) == 0x23
    ensures Step(0x23, 0) == 0x460
    ensures Step(0x460, 1) == 0x8c01
    ensures Step(0x8c01, 10) == 0x11802a
    ensures Step(0x11802a, 28) == 0x230055c
    ensures Step(0x230055c, 25) == 0x3d6afc2b
    ensures Step(0x3d6afc2b, 31) == 0x2f84386
    ensures Step(0x2f84386, 20) == 0x24622766
    ensures Step(0x24622766, 31) == 0x1
  {
  }

  /** "a12uel5l" is the string of the human-readable part "a" without values, and is read back. */
  lemma Example()
    ensures Encode([97], []) == [97, 49, 50, 117, 101, 108, 53, 108] && Decode([97, 49, 50, 117, 101, 108, 53, 108]) == Valid([97], [])
  {
    hide CreateChecksum, VerifyChecksum, Chars, Encodable, Decode, Encode, Fives;
    var h: seq<Byte>, c: seq<Byte> := [97], [10, 28, 25, 31, 20, 31];
    ExampleVerifies(c);
    assert [] + c == c;
    ExampleChars(c);
    ChecksumVerifies(h, [], c);
    ExampleEncoded(h, c);
    ExampleEncodable(h);
    EncodeDecode(h, []);
  }

  lemma ExampleEncoded(h: seq<Byte>, c: seq<Byte>)
    requires h == [97] && CreateChecksum(h, []) == c && Fives(c) && Chars(c) == [50, 117, 101, 108, 53, 108]
    ensures Encode(h, []) == [97, 49, 50, 117, 101, 108, 53, 108] && Fives([])
  {
    hide CreateChecksum, Chars;
    assert [] + c == c;
  }

  lemma ExampleChars(c: seq<Byte>)
    requires c == [10, 28, 25, 31, 20, 31]
    ensures Fives(c) && Chars(c) == [50, 117, 101, 108, 53, 108]
  {
  }

  lemma ExampleEncodable(h: seq<Byte>)
    requires h == [97]
    ensures Encodable(h, [])
  {
  }

  lemma ExampleVerifies(c: seq<Byte>)
    requires c == [10, 28, 25, 31, 20, 31]
    ensures VerifyChecksum([97], c)
  {
    hide Step, WordOf;
    ExampleSteps();
    ExampleWords();
    var v := Words(ExpandHRP([97]) + c);
    assert v == [3, 0, 1, 10, 28, 25, 31, 20, 31];
    assert v[..9] == v;
    assert v[..1][..0] == v[..0] && Feed(1, v[..1]) == 0x23;
    assert v[..2][..1] == v[..1] && Feed(1, v[..2]) == 0x460;
    assert v[..3][..2] == v[..2] && Feed(1, v[..3]) == 0x8c01;
    assert v[..4][..3] == v[..3] && Feed(1, v[..4]) == 0x11802a;
    assert v[..5][..4] == v[..4] && Feed(1, v[..5]) == 0x230055c;
    assert v[..6][..5] == v[..5] && Feed(1, v[..6]) == 0x3d6afc2b;
    assert v[..7][..6] == v[..6] && Feed(1, v[..7]) == 0x2f84386;
    assert v[..8][..7] == v[..7] && Feed(1, v[..8]) == 0x24622766;
    assert v[..9][..8] == v[..8] && Feed(1, v[..9]) == 0x1;
  }

  lemma ExampleWords()
    ensures WordOf(3) == 3 && WordOf(0) == 0 && WordOf(1) == 1 && WordOf(10) == 10 && WordOf(28) == 28
    ensures WordOf(25) == 25 && WordOf(31) == 31 && WordOf(20) == 20
  {
  }
}
