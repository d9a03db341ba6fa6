/** The checksum polynomial of Bech32 (the "Checksum" part of the "Bech32" section of BIP 173)
    as a linear map over bits.

    The lemmas on single words come first; all the others see the operations on words only
    through them. */
module Bech32Poly {

  const STATES: bv32 := 0x3fff_ffff

  function Xor(a: bv32, b: bv32): bv32 { a ^ b }
  function Xor5(a: bv32, b: bv32, c: bv32, d: bv32, e: bv32): bv32 {
    Xor(Xor(Xor(Xor(a, b), c), d), e)
  }
  function Xor8(a: bv8, b: bv8): bv8 { a ^ b }
  function Wide(x: bv8): bv32 { x as bv32 }
  function Up(c: bv32): bv32 { c << 5 }
  function Leading(c: bv32): bv32 { c >> 25 }
  predicate HasBit(c: bv32, bit: bv32) { c & bit != 0 }
  function When(h: bool, k: bv32): bv32 { if h then k else 0 }

  /** What the leading coefficient contributes modulo the generator. */
  function Reduce(c0: bv32): bv32 {
    Xor5(When(HasBit(c0, 1), 0x3b6a57b2), When(HasBit(c0, 2), 0x26508e6d), When(HasBit(c0, 4), 0x1ea119fa),
         When(HasBit(c0, 8), 0x3d4233dd), When(HasBit(c0, 16), 0x2a1462b3))
  }

  /** The other coefficients move up by one. */
  function Shift(c: bv32): bv32 { Up(c & 0x01ff_ffff) }

  /** One more symbol. */
  function Step(c: bv32, x: bv8): bv32 { Xor(Xor(Shift(c), Wide(x)), Reduce(Leading(c))) }

  function Feed(c: bv32, v: seq<bv8>): bv32 {
    if v == [] then c else Step(Feed(c, v[..|v| - 1]), v[|v| - 1])
  }

  /** The polynomial has an implicit one in front. */
  function PolyMod(v: seq<bv8>): bv32 { Feed(1, v) }

  predicate Symbol(x: bv8) { x <= 31 }
  predicate Symbols(v: seq<bv8>) { forall i | 0 <= i < |v| :: Symbol(v[i]) }

  function XorSeq(u: seq<bv8>, w: seq<bv8>): (r: seq<bv8>)
    requires |u| == |w|
    ensures |r| == |u|
  {
    if u == [] then [] else XorSeq(u[..|u| - 1], w[..|w| - 1]) + [Xor8(u[|u| - 1], w[|w| - 1])]
  }

  // ----- words

  lemma XorZero(k: bv32)
    ensures Xor(k, 0) == k && Xor(0, k) == k
  {
  }

  lemma XorSelf(k: bv32)
    ensures Xor(k, k) == 0
  {
  }

  lemma XorIsZero(a: bv32, b: bv32)
    requires Xor(a, b) == 0
    ensures a == b
  {
  }

  lemma XorIsOne(z: bv32, p: bv32)
    requires Xor(z, p) == 1
    ensures p == Xor(z, 1)
  {
  }

  lemma XorBack(z: bv32)
    ensures Xor(z, Xor(z, 1)) == 1
  {
  }

  lemma XorInside(a: bv32, b: bv32)
    requires a <= STATES && b <= STATES
    ensures Xor(a, b) <= STATES
  {
  }

  lemma Xor5Inside(a: bv32, b: bv32, c: bv32, d: bv32, e: bv32)
    requires a <= STATES && b <= STATES && c <= STATES && d <= STATES && e <= STATES
    ensures Xor5(a, b, c, d, e) <= STATES
  {
  }

  lemma XorAssoc(a: bv32, b: bv32, c: bv32)
    ensures Xor(Xor(a, b), c) == Xor(a, Xor(b, c))
  {
  }

  lemma XorSwap(a: bv32, b: bv32)
    ensures Xor(a, b) == Xor(b, a)
  {
  }

  lemma Regroup2(a: bv32, d: bv32, b: bv32, e: bv32)
    ensures Xor(Xor(a, d), Xor(b, e)) == Xor(Xor(a, b), Xor(d, e))
  {
    hide Xor;
    XorAssoc(a, d, Xor(b, e));
    XorAssoc(d, b, e);
    XorSwap(d, b);
    XorAssoc(b, d, e);
    XorAssoc(a, b, Xor(d, e));
  }

  lemma Regroup3(a: bv32, b: bv32, c: bv32, d: bv32, e: bv32, f: bv32)
    ensures Xor(Xor(Xor(a, d), Xor(b, e)), Xor(c, f)) == Xor(Xor(Xor(a, b), c), Xor(Xor(d, e), f))
  {
    hide Xor;
    Regroup2(a, d, b, e);
    Regroup2(Xor(a, b), Xor(d, e), c, f);
  }

  lemma Regroup5(a: bv32, b: bv32, c: bv32, d: bv32, e: bv32, p: bv32, q: bv32, r: bv32, s: bv32, t: bv32)
    ensures Xor5(Xor(a, p), Xor(b, q), Xor(c, r), Xor(d, s), Xor(e, t)) == Xor(Xor5(a, b, c, d, e), Xor5(p, q, r, s, t))
  {
    hide Xor;
    Regroup3(a, b, c, p, q, r);
    Regroup2(Xor(Xor(a, b), c), Xor(Xor(p, q), r), d, s);
    Regroup2(Xor(Xor(Xor(a, b), c), d), Xor(Xor(Xor(p, q), r), s), e, t);
  }

  lemma Xor8Zero(x: bv8, y: bv8)
    requires Xor8(x, y) == 0
    ensures x == y
  {
  }

  lemma Xor8Left(x: bv8)
    ensures Xor8(0, x) == x && Xor8(x, x) == 0
  {
  }

  lemma Xor8Small(x: bv8, y: bv8)
    requires x <= 31 && y <= 31
    ensures Xor8(x, y) <= 31
  {
  }

  lemma WideXor(x: bv8, y: bv8)
    ensures Wide(Xor8(x, y)) == Xor(Wide(x), Wide(y))
  {
  }

  lemma WideInside(x: bv8)
    ensures Wide(x) <= STATES && Wide(0) == 0
  {
  }

  lemma ShiftXor(c: bv32, d: bv32)
    ensures Shift(Xor(c, d)) == Xor(Shift(c), Shift(d))
  {
  }

  lemma ShiftInside(c: bv32)
    ensures Shift(c) <= STATES
  {
  }

  lemma LeadingXor(c: bv32, d: bv32)
    ensures Leading(Xor(c, d)) == Xor(Leading(c), Leading(d))
  {
  }

  lemma LeadingSmall(c: bv32)
    requires c <= STATES
    ensures Leading(c) <= 31
  {
  }

  lemma ShiftLow(c: bv32, r: bv32)
    requires Xor(Xor(Shift(c), 0), r) == 0
    ensures r & 31 == 0
  {
  }

  lemma ShiftZero(c: bv32)
    requires Leading(c) == 0 && Xor(Xor(Shift(c), 0), 0) == 0
    ensures c == 0
  {
  }

  /** Without a leading coefficient the shift loses nothing. */
  lemma ShiftWhole(p: bv32)
    requires p <= 0x01ff_ffff
    ensures Shift(p) == Up(p) && Leading(p) == 0
  {
  }

  // ----- the reduction

  lemma BothClear(c: bv32, d: bv32, b: bv32)
    requires c & b == 0 && d & b == 0
    ensures (c ^ d) & b == 0
  {
  }

  lemma BothSet(c: bv32, d: bv32)
    ensures c & 1 != 0 && d & 1 != 0 ==> (c ^ d) & 1 == 0
    ensures c & 2 != 0 && d & 2 != 0 ==> (c ^ d) & 2 == 0
    ensures c & 4 != 0 && d & 4 != 0 ==> (c ^ d) & 4 == 0
    ensures c & 8 != 0 && d & 8 != 0 ==> (c ^ d) & 8 == 0
    ensures c & 16 != 0 && d & 16 != 0 ==> (c ^ d) & 16 == 0
  {
  }

  lemma OneSet(c: bv32, d: bv32)
    ensures c & 1 != 0 && d & 1 == 0 ==> (c ^ d) & 1 != 0
    ensures c & 2 != 0 && d & 2 == 0 ==> (c ^ d) & 2 != 0
    ensures c & 4 != 0 && d & 4 == 0 ==> (c ^ d) & 4 != 0
    ensures c & 8 != 0 && d & 8 == 0 ==> (c ^ d) & 8 != 0
    ensures c & 16 != 0 && d & 16 == 0 ==> (c ^ d) & 16 != 0
  {
  }

  lemma XorComm(c: bv32, d: bv32)
    ensures c ^ d == d ^ c
  {
  }

  predicate SingleBit(b: bv32) { b == 1 || b == 2 || b == 4 || b == 8 || b == 16 }

  lemma HasBitXor(c: bv32, d: bv32, b: bv32)
    requires SingleBit(b)
    ensures HasBit(Xor(c, d), b) == (HasBit(c, b) != HasBit(d, b))
  {
    BothSet(c, d);
    OneSet(c, d);
    OneSet(d, c);
    XorComm(c, d);
    if !HasBit(c, b) && !HasBit(d, b) { BothClear(c, d, b); }
  }

  lemma WhenXor(p: bool, q: bool, k: bv32)
    ensures When(p != q, k) == Xor(When(p, k), When(q, k))
  {
    hide Xor;
    XorZero(k);
    XorZero(0);
    XorSelf(k);
  }

  lemma ReduceXor(c: bv32, d: bv32)
    ensures Reduce(Xor(c, d)) == Xor(Reduce(c), Reduce(d))
  {
    hide HasBit, When, Xor, Xor5;
    HasBitXor(c, d, 1);
    HasBitXor(c, d, 2);
    HasBitXor(c, d, 4);
    HasBitXor(c, d, 8);
    HasBitXor(c, d, 16);
    WhenXor(HasBit(c, 1), HasBit(d, 1), 0x3b6a57b2);
    WhenXor(HasBit(c, 2), HasBit(d, 2), 0x26508e6d);
    WhenXor(HasBit(c, 4), HasBit(d, 4), 0x1ea119fa);
    WhenXor(HasBit(c, 8), HasBit(d, 8), 0x3d4233dd);
    WhenXor(HasBit(c, 16), HasBit(d, 16), 0x2a1462b3);
    Regroup5(When(HasBit(c, 1), 0x3b6a57b2), When(HasBit(c, 2), 0x26508e6d), When(HasBit(c, 4), 0x1ea119fa),
             When(HasBit(c, 8), 0x3d4233dd), When(HasBit(c, 16), 0x2a1462b3),
             When(HasBit(d, 1), 0x3b6a57b2), When(HasBit(d, 2), 0x26508e6d), When(HasBit(d, 4), 0x1ea119fa),
             When(HasBit(d, 8), 0x3d4233dd), When(HasBit(d, 16), 0x2a1462b3));
  }

  lemma WhenInside(h: bool, k: bv32)
    requires k <= STATES
    ensures When(h, k) <= STATES
  {
    if h { assert When(h, k) == k; } else { assert When(h, k) == 0; }
  }

  lemma ReduceInside(c: bv32)
    ensures Reduce(c) <= STATES
  {
    hide HasBit, When, Xor5;
    WhenInside(HasBit(c, 1), 0x3b6a57b2);
    WhenInside(HasBit(c, 2), 0x26508e6d);
    WhenInside(HasBit(c, 4), 0x1ea119fa);
    WhenInside(HasBit(c, 8), 0x3d4233dd);
    WhenInside(HasBit(c, 16), 0x2a1462b3);
    Xor5Inside(When(HasBit(c, 1), 0x3b6a57b2), When(HasBit(c, 2), 0x26508e6d), When(HasBit(c, 4), 0x1ea119fa),
               When(HasBit(c, 8), 0x3d4233dd), When(HasBit(c, 16), 0x2a1462b3));
  }

  /** The constant coefficients of the five multiples of k(x) are linearly independent. */
  lemma WhenLow(p: bool, q: bool, r: bool, s: bool, t: bool)
    requires Xor5(When(p, 0x3b6a57b2), When(q, 0x26508e6d), When(r, 0x1ea119fa), When(s, 0x3d4233dd), When(t, 0x2a1462b3)) & 31 == 0
    ensures !p && !q && !r && !s && !t
  {
  }

  lemma NoBits(c0: bv32)
    requires c0 <= 31 && !HasBit(c0, 1) && !HasBit(c0, 2) && !HasBit(c0, 4) && !HasBit(c0, 8) && !HasBit(c0, 16)
    ensures c0 == 0
  {
  }

  lemma ReduceLow(c0: bv32)
    requires c0 <= 31 && Reduce(c0) & 31 == 0
    ensures c0 == 0
  {
    hide When, HasBit, Xor5;
    WhenLow(HasBit(c0, 1), HasBit(c0, 2), HasBit(c0, 4), HasBit(c0, 8), HasBit(c0, 16));
    NoBits(c0);
  }

  lemma ReduceNothing()
    ensures Reduce(0) == 0
  {
  }

  // ----- one step

  lemma StepXor(c: bv32, d: bv32, x: bv8, y: bv8)
    ensures Step(Xor(c, d), Xor8(x, y)) == Xor(Step(c, x), Step(d, y))
  {
    hide Reduce, Shift, Leading, Wide, Xor, Xor8;
    ShiftXor(c, d);
    WideXor(x, y);
    LeadingXor(c, d);
    ReduceXor(Leading(c), Leading(d));
    Regroup3(Shift(c), Wide(x), Reduce(Leading(c)), Shift(d), Wide(y), Reduce(Leading(d)));
  }

  lemma StepInside(c: bv32, x: bv8)
    ensures Step(c, x) <= STATES
  {
    hide Reduce, Shift, Leading, Wide, Xor;
    ShiftInside(c);
    WideInside(x);
    ReduceInside(Leading(c));
    XorInside(Shift(c), Wide(x));
    XorInside(Xor(Shift(c), Wide(x)), Reduce(Leading(c)));
  }

  /** No state but zero is mapped to zero: the generator has a constant term. */
  lemma StepOfNonzero(c: bv32)
    requires c <= STATES && Step(c, 0) == 0
    ensures c == 0
  {
    hide Reduce, Shift, Leading, Wide, Xor;
    WideInside(0);
    LeadingSmall(c);
    ShiftLow(c, Reduce(Leading(c)));
    ReduceLow(Leading(c));
    ReduceNothing();
    ShiftZero(c);
  }

  /** The step is injective on the 30-bit states. */
  lemma StepInjective(c: bv32, d: bv32, x: bv8)
    requires c <= STATES && d <= STATES && Step(c, x) == Step(d, x)
    ensures c == d
  {
    hide Step, Xor, Xor8;
    StepXor(c, d, x, x);
    Xor8Left(x);
    XorSelf(Step(c, x));
    XorInside(c, d);
    StepOfNonzero(Xor(c, d));
    XorIsZero(c, d);
  }

  // ----- whole sequences

  lemma FeedInside(c: bv32, v: seq<bv8>)
    requires c <= STATES
    ensures Feed(c, v) <= STATES
  {
    hide Step;
    if v != [] { StepInside(Feed(c, v[..|v| - 1]), v[|v| - 1]); }
  }

  lemma {:induction false} FeedAppend(c: bv32, u: seq<bv8>, w: seq<bv8>)
    ensures Feed(c, u + w) == Feed(Feed(c, u), w)
  {
    hide Step;
    if w == [] {
      assert u + w == u;
    } else {
      assert (u + w)[..|u + w| - 1] == u + w[..|w| - 1];
      FeedAppend(c, u, w[..|w| - 1]);
    }
  }

  /** The checksum is linear. */
  lemma {:induction false} FeedXor(c: bv32, d: bv32, u: seq<bv8>, w: seq<bv8>)
    requires |u| == |w|
    ensures Feed(Xor(c, d), XorSeq(u, w)) == Xor(Feed(c, u), Feed(d, w))
  {
    hide Step, Xor, Xor8;
    if u != [] {
      var n := |u| - 1;
      FeedXor(c, d, u[..n], w[..n]);
      assert XorSeq(u, w)[..n] == XorSeq(u[..n], w[..n]);
      StepXor(Feed(c, u[..n]), Feed(d, w[..n]), u[n], w[n]);
    }
  }

  lemma {:induction false} FeedInjective(c: bv32, d: bv32, v: seq<bv8>)
    requires c <= STATES && d <= STATES && Feed(c, v) == Feed(d, v)
    ensures c == d
  {
    hide Step;
    if v != [] {
      var n := |v| - 1;
      FeedInside(c, v[..n]);
      FeedInside(d, v[..n]);
      StepInjective(Feed(c, v[..n]), Feed(d, v[..n]), v[n]);
      FeedInjective(c, d, v[..n]);
    }
  }

  lemma {:induction false} XorSeqAt(u: seq<bv8>, w: seq<bv8>, i: nat)
    requires |u| == |w| && i < |u|
    ensures XorSeq(u, w)[i] == Xor8(u[i], w[i])
  {
    hide Xor8;
    if i < |u| - 1 { XorSeqAt(u[..|u| - 1], w[..|w| - 1], i); }
  }

  // ----- six symbols

  function Pack(v: seq<bv8>): bv32 {
    if v == [] then 0 else Xor(Up(Pack(v[..|v| - 1])), Wide(v[|v| - 1]))
  }

  /** What up to six symbols pack to. */
  function PackLimit(n: nat): bv32 {
    if n == 0 then 0 else if n == 1 then 0x1f else if n == 2 then 0x3ff else if n == 3 then 0x7fff
    else if n == 4 then 0xf_ffff else if n == 5 then 0x1ff_ffff else 0x3fff_ffff
  }

  lemma PackGrows(p: bv32, x: bv8)
    requires x <= 31
    ensures p <= 0 ==> Xor(Up(p), Wide(x)) <= 0x1f
    ensures p <= 0x1f ==> Xor(Up(p), Wide(x)) <= 0x3ff
    ensures p <= 0x3ff ==> Xor(Up(p), Wide(x)) <= 0x7fff
    ensures p <= 0x7fff ==> Xor(Up(p), Wide(x)) <= 0xf_ffff
    ensures p <= 0xf_ffff ==> Xor(Up(p), Wide(x)) <= 0x1ff_ffff
    ensures p <= 0x1ff_ffff ==> Xor(Up(p), Wide(x)) <= 0x3fff_ffff
  {
  }

  lemma Limits(p: bv32)
    ensures p <= 0x1f ==> p <= 0x1ff_ffff
    ensures p <= 0x3ff ==> p <= 0x1ff_ffff
    ensures p <= 0x7fff ==> p <= 0x1ff_ffff
    ensures p <= 0xf_ffff ==> p <= 0x1ff_ffff
    ensures p <= 0 ==> p <= 0x1ff_ffff
  {
  }

  lemma {:induction false} PackSmall(v: seq<bv8>)
    requires |v| <= 6 && Symbols(v)
    ensures Pack(v) <= PackLimit(|v|)
  {
    hide Xor, Up, Wide;
    if v != [] {
      PackSmall(v[..|v| - 1]);
      PackGrows(Pack(v[..|v| - 1]), v[|v| - 1]);
    }
  }

  lemma PackPrefix(v: seq<bv8>)
    requires 0 < |v| <= 6 && Symbols(v)
    ensures Pack(v[..|v| - 1]) <= 0x1ff_ffff
  {
    hide Pack;
    PackSmall(v[..|v| - 1]);
    Limits(Pack(v[..|v| - 1]));
  }

  /** From the zero state, six symbols are just packed. */
  lemma {:induction false} FeedPacks(v: seq<bv8>)
    requires |v| <= 6 && Symbols(v)
    ensures Feed(0, v) == Pack(v)
  {
    hide Xor, Up, Wide, Shift, Leading, Reduce;
    if v != [] {
      var p := Pack(v[..|v| - 1]);
      FeedPacks(v[..|v| - 1]);
      PackPrefix(v);
      ShiftWhole(p);
      ReduceNothing();
      XorZero(Xor(Up(p), Wide(v[|v| - 1])));
    }
  }

  lemma Unshift(p: bv32, x: bv8)
    requires p <= 0x1ff_ffff && x <= 31 && Xor(Up(p), Wide(x)) == 0
    ensures p == 0 && x == 0
  {
  }

  lemma {:induction false} PackNonzero(v: seq<bv8>)
    requires |v| <= 6 && Symbols(v) && Pack(v) == 0
    ensures forall i | 0 <= i < |v| :: v[i] == 0
  {
    hide Xor, Up, Wide;
    if v != [] {
      var n := |v| - 1;
      PackPrefix(v);
      Unshift(Pack(v[..n]), v[n]);
      PackNonzero(v[..n]);
      forall i | 0 <= i < |v| ensures v[i] == 0 { if i < n { assert v[..n][i] == 0; } }
    }
  }

  // ----- the theorem on six-symbol windows

  lemma FeedOfDifference(s: bv32, a: seq<bv8>, b: seq<bv8>)
    requires |a| == |b| <= 6 && Symbols(a) && Symbols(b) && Feed(s, a) == Feed(s, b)
    ensures a == b
  {
    hide Feed, Step, Pack, Xor, Xor8, XorSeq;
    FeedXor(s, s, a, b);
    XorSelf(s);
    XorSelf(Feed(s, a));
    var d := XorSeq(a, b);
    forall i | 0 <= i < |d| ensures Symbol(d[i]) {
      XorSeqAt(a, b, i);
      Xor8Small(a[i], b[i]);
    }
    FeedPacks(d);
    PackNonzero(d);
    forall i | 0 <= i < |a| ensures a[i] == b[i] {
      XorSeqAt(a, b, i);
      Xor8Zero(a[i], b[i]);
    }
  }

  /** Two sequences of any length that differ only inside six consecutive symbols have
      different checksums. */
  lemma WindowDetected(before: seq<bv8>, a: seq<bv8>, b: seq<bv8>, after: seq<bv8>)
    requires |a| == |b| <= 6 && Symbols(a) && Symbols(b) && a != b
    ensures PolyMod(before + a + after) != PolyMod(before + b + after)
  {
    hide Feed, Step;
    var s := Feed(1, before);
    FeedAppend(1, before, a);
    FeedAppend(1, before, b);
    FeedAppend(1, before + a, after);
    FeedAppend(1, before + b, after);
    FeedInside(1, before);
    FeedInside(s, a);
    FeedInside(s, b);
    if PolyMod(before + a + after) == PolyMod(before + b + after) {
      FeedInjective(Feed(s, a), Feed(s, b), after);
      FeedOfDifference(s, a, b);
    }
  }

  // ----- completing a checksum

  function Low(c: bv32): bv8 { (c & 31) as bv8 }

  /** The symbol that starts at a bit. */
  function Group(m: bv32, k: nat): bv8
    requires k < 6
  {
    if k == 0 then Low(m >> 25)
    else if k == 1 then Low(m >> 20)
    else if k == 2 then Low(m >> 15)
    else if k == 3 then Low(m >> 10)
    else if k == 4 then Low(m >> 5)
    else Low(m)
  }

  lemma GroupSmall(m: bv32, k: nat)
    requires k < 6
    ensures Group(m, k) <= 31
  {
  }

  /** The six symbols of a packed state. */
  function Unpack(m: bv32): (v: seq<bv8>)
    ensures |v| == 6 && Symbols(v)
  {
    GroupSmall(m, 0); GroupSmall(m, 1); GroupSmall(m, 2); GroupSmall(m, 3); GroupSmall(m, 4); GroupSmall(m, 5);
    [Group(m, 0), Group(m, 1), Group(m, 2), Group(m, 3), Group(m, 4), Group(m, 5)]
  }

  function Pack6(a: bv8, b: bv8, c: bv8, d: bv8, e: bv8, f: bv8): bv32 {
    Xor(Up(Xor(Up(Xor(Up(Xor(Up(Xor(Up(Xor(Up(0), Wide(a))), Wide(b))), Wide(c))), Wide(d))), Wide(e))), Wide(f))
  }

  lemma PackSix(v: seq<bv8>)
    requires |v| == 6
    ensures Pack(v) == Pack6(v[0], v[1], v[2], v[3], v[4], v[5])
  {
    hide Xor, Up, Wide;
    assert v[..5][..4] == v[..4] && v[..4][..3] == v[..3] && v[..3][..2] == v[..2] && v[..2][..1] == v[..1] && v[..1][..0] == [];
    assert Pack(v[..1]) == Xor(Up(0), Wide(v[0]));
    assert Pack(v[..2]) == Xor(Up(Pack(v[..1])), Wide(v[1]));
    assert Pack(v[..3]) == Xor(Up(Pack(v[..2])), Wide(v[2]));
    assert Pack(v[..4]) == Xor(Up(Pack(v[..3])), Wide(v[3]));
    assert Pack(v[..5]) == Xor(Up(Pack(v[..4])), Wide(v[4]));
  }

  lemma Pack6Group(m: bv32)
    requires m <= STATES
    ensures Pack6(Low(m >> 25), Low(m >> 20), Low(m >> 15), Low(m >> 10), Low(m >> 5), Low(m)) == m
  {
  }

  lemma PackUnpack(m: bv32)
    requires m <= STATES
    ensures Pack(Unpack(m)) == m
  {
    hide Pack, Pack6;
    PackSix(Unpack(m));
    Pack6Group(m);
  }

  lemma {:induction false} PackUnique(v: seq<bv8>, w: seq<bv8>)
    requires |v| == |w| <= 6 && Symbols(v) && Symbols(w) && Pack(v) == Pack(w)
    ensures v == w
  {
    hide Pack, Feed;
    FeedPacks(v);
    FeedPacks(w);
    FeedOfDifference(0, v, w);
  }

  function Zeros(n: nat): (z: seq<bv8>)
    ensures |z| == n && forall i | 0 <= i < n :: z[i] == 0
  {
    seq(n, _ => 0)
  }

  lemma ZerosXor(v: seq<bv8>)
    ensures XorSeq(Zeros(|v|), v) == v
  {
    hide Xor8, XorSeq;
    forall i | 0 <= i < |v| ensures XorSeq(Zeros(|v|), v)[i] == v[i] {
      XorSeqAt(Zeros(|v|), v, i);
      Xor8Left(v[i]);
    }
  }

  /** What the last six symbols contribute. */
  lemma LastSix(e: seq<bv8>, v: seq<bv8>)
    requires |v| == 6 && Symbols(v)
    ensures PolyMod(e + v) == Xor(PolyMod(e + Zeros(6)), Pack(v))
  {
    hide Feed, Step, Pack, Xor;
    var s := Feed(1, e);
    FeedAppend(1, e, v);
    FeedAppend(1, e, Zeros(6));
    FeedXor(s, 0, Zeros(6), v);
    ZerosXor(v);
    XorZero(s);
    FeedPacks(v);
  }

  /** Six symbols give a sequence the checksum one if and only if they are those unpacked from
      the checksum of the sequence with six zeros, with its lowest bit flipped. */
  lemma ChecksumExact(e: seq<bv8>, v: seq<bv8>)
    requires |v| == 6 && Symbols(v)
    ensures PolyMod(e + v) == 1 <==> v == Unpack(Xor(PolyMod(e + Zeros(6)), 1))
  {
    hide PolyMod, Pack, Unpack, Xor;
    var z := PolyMod(e + Zeros(6));
    LastSix(e, v);
    PolyModInside(e + Zeros(6));
    XorInside(z, 1);
    PackUnpack(Xor(z, 1));
    XorBack(z);
    if PolyMod(e + v) == 1 {
      XorIsOne(z, Pack(v));
      PackUnique(v, Unpack(Xor(z, 1)));
    }
  }

  lemma PolyModInside(v: seq<bv8>)
    ensures PolyMod(v) <= STATES
  {
    hide Feed;
    FeedInside(1, v);
  }
}
