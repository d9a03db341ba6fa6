/** The heights that skip links point to, and how many steps back they take. */
module BlockSkips {
  import opened Powers

  // ----- where skip links point

  /** The bitwise and of two numbers. */
  function And(x: nat, y: nat): nat {
    if x == 0 || y == 0 then 0
    else 2 * And(x / 2, y / 2) + (if x % 2 == 1 && y % 2 == 1 then 1 else 0)
  }

  function InvertLowestOne(n: nat): nat { if n == 0 then 0 else And(n, n - 1) }

  function SkipHeight(height: int): int {
    if height < 2 then 0
    else if height % 2 == 1 then InvertLowestOne(InvertLowestOne(height - 1)) + 1
    else InvertLowestOne(height)
  }

  lemma {:induction false} AndSelf(x: nat)
    ensures And(x, x) == x
  {
    if x > 0 { AndSelf(x / 2); }
  }

  /** The lowest bit that is set is taken out, and nothing else. */
  lemma {:induction false} LowestOne(n: nat) returns (k: nat)
    requires n > 0
    ensures n == InvertLowestOne(n) + Pow(2, k) && n % Pow(2, k) == 0 && InvertLowestOne(n) % (2 * Pow(2, k)) == 0
  {
    if n % 2 == 1 {
      AndSelf(n / 2);
      k := 0;
    } else {
      var k1 := LowestOne(n / 2);
      k := k1 + 1;
      DoubleMultiple(n / 2, Pow(2, k1));
      DoubleMultiple(InvertLowestOne(n / 2), 2 * Pow(2, k1));
    }
  }

  lemma DoubleMultiple(x: nat, m: nat)
    requires m > 0 && x % m == 0
    ensures (2 * x) % (2 * m) == 0
  {
    var q := x / m;
    assert x == q * m;
    assert 2 * (q * m) == q * (2 * m);
    DivModUnique(2 * x, 2 * m, q, 0);
  }

  lemma InvertBelow(n: nat)
    ensures if n > 0 then InvertLowestOne(n) < n else InvertLowestOne(n) == 0
  {
    if n > 0 { var k := LowestOne(n); }
  }

  /** A skip link points back. */
  lemma SkipHeightBelow(height: int)
    requires height >= 1
    ensures 0 <= SkipHeight(height) < height
  {
    hide InvertLowestOne;
    if height >= 2 {
      if height % 2 == 1 {
        InvertBelow(height - 1);
        InvertBelow(InvertLowestOne(height - 1));
      } else {
        InvertBelow(height);
      }
    }
  }

  /** k is the lowest bit that is set. */
  predicate LowestBit(n: nat, k: nat) { n % (2 * Pow(2, k)) == Pow(2, k) }

  lemma LowestIs(n: nat) returns (k: nat)
    requires n > 0
    ensures LowestBit(n, k) && InvertLowestOne(n) == n - Pow(2, k)
  {
    k := LowestOne(n);
    var m := 2 * Pow(2, k);
    var q := InvertLowestOne(n) / m;
    Cut(InvertLowestOne(n), m);
    DivModUnique(n, m, q, Pow(2, k));
  }

  /** An even height is linked to the one without its lowest bit; an odd one to the odd one without the two
      lowest bits above its last, as far as it has them. */
  lemma SkipHeightExact(height: nat) returns (j: nat, k: nat)
    requires height >= 2
    ensures height % 2 == 0 ==> LowestBit(height, j) && SkipHeight(height) == height - Pow(2, j)
    ensures height % 2 == 1 ==> LowestBit(height - 1, j)
    ensures height % 2 == 1 ==>
      if height - 1 == Pow(2, j) then SkipHeight(height) == 1
      else LowestBit(height - 1 - Pow(2, j), k) && SkipHeight(height) == height - Pow(2, j) - Pow(2, k)
  {
    hide InvertLowestOne, LowestBit;
    k := 0;
    if height % 2 == 0 {
      j := LowestIs(height);
    } else {
      j := LowestIs(height - 1);
      var rest := InvertLowestOne(height - 1);
      InvertBelow(rest);
      if rest > 0 { k := LowestIs(rest); }
    }
  }

  // ----- the steps back

  lemma {:induction false} InvertHalves(n: nat)
    requires n > 0
    ensures InvertLowestOne(n) == if n % 2 == 1 then n - 1 else 2 * InvertLowestOne(n / 2)
  {
    if n % 2 == 1 { AndSelf(n / 2); }
  }

  /** The next height on the way back to a target, with all skip links set. */
  function Next(h: int, target: int): int {
    var skip, prev := SkipHeight(h), SkipHeight(h - 1);
    if skip == target || (skip > target && !(prev < skip - 2 && prev >= target)) then skip else h - 1
  }

  lemma NextBetween(h: int, target: int)
    requires 0 <= target < h
    ensures target <= Next(h, target) < h
  {
    hide SkipHeight;
    SkipHeightBelow(h);
  }

  /** The number of steps. */
  function Turns(h: int, target: int): nat
    requires 0 <= target <= h
    decreases h
  {
    if h == target then 0
    else
      NextBetween(h, target);
      1 + Turns(Next(h, target), target)
  }

  lemma TurnsNone(h: nat)
    ensures Turns(h, h) == 0
  {
  }

  lemma TurnsNext(h: int, target: int)
    requires 0 <= target < h
    ensures target <= Next(h, target) < h && Turns(h, target) == 1 + Turns(Next(h, target), target)
  {
    hide Next;
    NextBetween(h, target);
  }

  function Ones(n: nat): nat { if n == 0 then 0 else Ones(n / 2) + n % 2 }

  lemma {:induction false} OnesInverted(n: nat)
    requires n > 0
    ensures Ones(InvertLowestOne(n)) == Ones(n) - 1
  {
    hide InvertLowestOne;
    InvertHalves(n);
    if n % 2 == 0 {
      OnesInverted(n / 2);
      OnesDouble(InvertLowestOne(n / 2));
    } else {
      OnesDouble(n / 2);
    }
  }

  lemma OnesDouble(n: nat)
    ensures Ones(2 * n) == Ones(n) && Ones(2 * n + 1) == Ones(n) + 1
  {
    assert 2 * n / 2 == n && (2 * n + 1) / 2 == n;
  }

  lemma {:induction false} OnesBelow(n: nat, p: nat)
    requires n < Pow(2, p)
    ensures Ones(n) <= p
  {
    if n > 0 {
      assert p > 0;
      OnesBelow(n / 2, p - 1);
    }
  }

  /** The lowest bit is that of the remainder by a power of two, unless it is zero. */
  lemma {:induction false} InvertBelowMultiple(q: nat, p: nat, x: nat)
    requires 0 < x < Pow(2, p)
    ensures InvertLowestOne(q * Pow(2, p) + x) == q * Pow(2, p) + InvertLowestOne(x)
  {
    hide InvertLowestOne;
    var m := Pow(2, p - 1);
    var h := q * Pow(2, p) + x;
    assert q * Pow(2, p) == 2 * (q * m) by { MulAssoc(q, 2, m); MulAssoc(2, q, m); }
    assert h % 2 == x % 2 && h / 2 == q * m + x / 2;
    InvertHalves(h);
    InvertHalves(x);
    if x % 2 == 0 { InvertBelowMultiple(q, p - 1, x / 2); }
  }

  lemma {:induction false} InvertOddMultiple(q: nat, p: nat)
    requires q % 2 == 1
    ensures InvertLowestOne(q * Pow(2, p)) == (q - 1) * Pow(2, p)
  {
    hide InvertLowestOne;
    InvertHalves(q * Pow(2, p));
    if p > 0 {
      var m := Pow(2, p - 1);
      assert q * Pow(2, p) == 2 * (q * m) by { MulAssoc(q, 2, m); MulAssoc(2, q, m); }
      assert (q - 1) * Pow(2, p) == 2 * ((q - 1) * m) by { MulAssoc(q - 1, 2, m); MulAssoc(2, q - 1, m); }
      assert q * m > 0 by { MulPositive(q, m); }
      InvertOddMultiple(q, p - 1);
    }
  }

  // A height h above its target is written as q * 2^p + x, where q is odd, x is below 2^p, and the target is
  // one of the 2^p heights below q * 2^p.

  function Top(q: nat, p: nat): nat { q * Pow(2, p) }

  predicate Phase(q: nat, p: nat, x: nat, target: nat) {
    q % 2 == 1 && x < Pow(2, p) && Top(q, p) - Pow(2, p) <= target < Top(q, p)
  }

  /** Any height above its target is of this form, and below the bits they share. */
  lemma {:induction false} FindPhase(h: nat, target: nat, k: nat) returns (q: nat, p: nat, x: nat)
    requires target < h && h / Pow(2, k) == target / Pow(2, k)
    ensures p < k && Phase(q, p, x, target) && h == Top(q, p) + x
  {
    if k == 0 {
      assert false;
    } else {
      var m := Pow(2, k - 1);
      assert Pow(2, k) == 2 * m;
      if h / m == target / m {
        q, p, x := FindPhase(h, target, k - 1);
      } else {
        q, p, x := h / m, k - 1, h % m;
        HalfApart(h, target, m);
      }
    }
  }

  lemma HalfApart(h: nat, target: nat, m: nat)
    requires m > 0 && target < h && h / (2 * m) == target / (2 * m) && h / m != target / m
    ensures h / m % 2 == 1 && h / m * m - m <= target < h / m * m && h == h / m * m + h % m
  {
    var q, r := h / m, target / m;
    Cut(h, m);
    Cut(target, m);
    DivDiv(h, m, 2);
    DivDiv(target, m, 2);
    assert q / 2 == r / 2;
    if q < r { LeadingDigit(m, q, h % m, r); }
    assert q == r + 1;
    assert (r + 1) * m == r * m + m;
  }

  lemma TopEven(q: nat, p: nat)
    requires p > 0
    ensures Top(q, p) % 2 == 0 && (q > 0 ==> Top(q, p) >= 2)
  {
    var m := Pow(2, p - 1);
    assert q * Pow(2, p) == 2 * (q * m) by { MulAssoc(q, 2, m); MulAssoc(2, q, m); }
    if q > 0 { MulPositive(q, m); }
  }

  lemma InvertTop(q: nat, p: nat)
    requires q % 2 == 1
    ensures Top(q, p) >= Pow(2, p) && InvertLowestOne(Top(q, p)) == Top(q, p) - Pow(2, p) == Top(q - 1, p)
  {
    hide InvertLowestOne;
    InvertOddMultiple(q, p);
    assert (q - 1) * Pow(2, p) == q * Pow(2, p) - Pow(2, p);
  }

  lemma InvertBelowTop(q: nat, p: nat, x: nat)
    requires 0 < x < Pow(2, p)
    ensures InvertLowestOne(Top(q, p) + x) == Top(q, p) + InvertLowestOne(x)
  {
    InvertBelowMultiple(q, p, x);
  }

  lemma SkipTop(q: nat, p: nat)
    requires p > 0 && q % 2 == 1
    ensures SkipHeight(Top(q, p)) == Top(q, p) - Pow(2, p)
  {
    hide InvertLowestOne, Top, Pow;
    TopEven(q, p);
    InvertTop(q, p);
  }

  lemma SkipEven(q: nat, p: nat, x: nat)
    requires p > 0 && q > 0 && 0 < x < Pow(2, p) && x % 2 == 0
    ensures SkipHeight(Top(q, p) + x) == Top(q, p) + InvertLowestOne(x)
  {
    hide InvertLowestOne, Top, Pow;
    TopEven(q, p);
    InvertBelowTop(q, p, x);
  }

  /** An odd height with set bits above its last one and below the phase's: one, or more. */
  lemma SkipOdd(q: nat, p: nat, u: nat)
    requires p > 0 && q % 2 == 1 && 0 < u < Pow(2, p) && u % 2 == 0
    ensures var skip, v := SkipHeight(Top(q, p) + u + 1), InvertLowestOne(u);
      skip == if v > 0 then Top(q, p) + InvertLowestOne(v) + 1 else Top(q, p) - Pow(2, p) + 1
  {
    hide InvertLowestOne, Top, Pow;
    TopEven(q, p);
    InvertBelowTop(q, p, u);
    InvertBelow(u);
    InvertTop(q, p);
    if InvertLowestOne(u) > 0 { InvertBelowTop(q, p, InvertLowestOne(u)); }
  }

  lemma SkipAboveTop(q: nat, p: nat)
    requires p > 0 && q % 2 == 1
    ensures var skip := SkipHeight(Top(q, p) + 1);
      Top(q, p) >= Pow(2, p) && if Top(q, p) == Pow(2, p) then skip == 1 else skip < Top(q, p) - Pow(2, p)
  {
    hide InvertLowestOne, Top, Pow;
    TopEven(q, p);
    InvertTop(q, p);
    InvertBelow(0);
    if Top(q - 1, p) > 0 { OddAbove(q - 1, p); }
  }

  /** The height below an even one, inverted, is at least two lower. */
  lemma OddAbove(q: nat, p: nat)
    requires p > 0 && Top(q, p) > 0
    ensures InvertLowestOne(Top(q, p)) + 2 <= Top(q, p)
  {
    hide InvertLowestOne, Top, Pow;
    TopEven(q, p);
    var h := Top(q, p);
    InvertHalves(h);
    InvertBelow(h / 2);
  }

  /** What the steps in one phase cost at most. */
  function Credit(x: nat): nat {
    var n := Ones(x / 2);
    if x % 2 == 1 then n + 2 else if n <= 1 then n + 1 else n + 3
  }

  /** What all the phases below a bit cost at most. */
  function Reserve(p: nat): nat { if p == 0 then 0 else if p == 1 then 1 else Reserve(p - 1) + p + 1 }

  lemma {:induction false} ReserveIs(p: nat)
    requires p > 0
    ensures 2 * Reserve(p) == p * p + 3 * p - 2
  {
    if p > 1 { ReserveIs(p - 1); }
  }

  lemma {:induction false} ReserveGrows(p: nat, k: nat)
    requires p <= k
    ensures Reserve(p) <= Reserve(k)
  {
    if p < k { ReserveGrows(p, k - 1); }
  }

  lemma CreditWithin(x: nat, p: nat)
    requires x < Pow(2, p)
    ensures Credit(x) + Reserve(p) <= Reserve(p + 1)
  {
    if p == 0 {
      assert x == 0 && Ones(0) == 0;
    } else {
      OnesBelow(x / 2, p - 1);
    }
  }

  ghost predicate Bounded(h: int, target: int, n: int) { 0 <= target <= h && Turns(h, target) <= n }

  lemma OneTurn(h: int, target: int, k: int, n: int)
    requires 0 <= target < h && target <= Next(h, target) < h && Bounded(Next(h, target), target, k) && k < n
    ensures Bounded(h, target, n)
  {
    hide Next;
  }

  lemma NoTurn(h: int)
    requires h >= 0
    ensures Bounded(h, h, 0)
  {
  }

  /** At the top of a phase one step leads to the target or below the top. */
  lemma {:induction false} TopTurns(q: nat, p: nat, target: nat)
    requires Phase(q, p, 0, target)
    ensures Bounded(Top(q, p), target, 1 + Reserve(p))
    decreases Top(q, p), 0
  {
    hide SkipHeight, Turns, Top, Pow;
    var top, m := Top(q, p), Pow(2, p);
    NextBetween(top, target);
    var k := 0;
    if Next(top, target) == target {
      NoTurn(target);
    } else {
      k := Reserve(p);
      TopLow(q, p, target);
      SkipTop(q, p);
      assert Next(top, target) == top - 1;
      SameBlock(q, p, target);
      var q', p', x' := FindPhase(top - 1, target, p);
      PhaseTurns(q', p', x', target);
      CreditWithin(x', p');
      ReserveGrows(p' + 1, p);
    }
    OneTurn(top, target, k, 1 + Reserve(p));
  }

  lemma TopLow(q: nat, p: nat, target: nat)
    requires Phase(q, p, 0, target) && target < Top(q, p) - 1
    ensures p > 0
  {
    assert Pow(2, 0) == 1;
  }

  lemma SameBlock(q: nat, p: nat, target: nat)
    requires q > 0 && Pow(2, p) > 0
    requires Top(q, p) - Pow(2, p) <= target < Top(q, p)
    ensures target / Pow(2, p) == q - 1 && (Top(q, p) - 1) / Pow(2, p) == q - 1
  {
    var m := Pow(2, p);
    assert (q - 1) * m == q * m - m;
    DivModUnique(target, m, q - 1, target - (q - 1) * m);
    DivModUnique(q * m - 1, m, q - 1, m - 1);
  }

  /** Above an odd height's last bit is one set bit or none: two steps, or down to the even height. */
  lemma OddLow(q: nat, p: nat, u: nat, target: nat)
    requires p > 0 && Phase(q, p, u + 1, target) && u % 2 == 0 && (u == 0 || InvertLowestOne(u) == 0)
    ensures var h := Top(q, p) + u + 1;
      if SkipHeight(h) >= target then Bounded(h, target, 2) else Next(h, target) == h - 1
  {
    hide SkipHeight, InvertLowestOne, Turns, Top, Pow;
    var top, m := Top(q, p), Pow(2, p);
    var h := top + u + 1;
    if u == 0 {
      SkipAboveTop(q, p);
      SkipTop(q, p);
    } else {
      SkipOdd(q, p, u);
      SkipEven(q, p, u);
    }
    if SkipHeight(h) >= target {
      NextBetween(h, target);
      assert Next(h, target) == SkipHeight(h);
      var skip := SkipHeight(h);
      NoTurn(target);
      if skip > target {
        NextBetween(skip, target);
        assert Next(skip, target) == target;
        OneTurn(skip, target, 0, 1);
      }
      OneTurn(h, target, if skip > target then 1 else 0, 2);
    }
  }

  lemma OnesEven(u: nat)
    requires u % 2 == 0
    ensures Ones(u / 2) == Ones(u) && Ones((u + 1) / 2) == Ones(u)
    ensures u > 0 ==> InvertLowestOne(u) % 2 == 0 && InvertLowestOne(u) < u
  {
    hide InvertLowestOne, Ones;
    OnesDouble(u / 2);
    if u > 0 {
      InvertHalves(u);
      InvertBelow(u);
    }
  }

  lemma OddCredit(u: nat)
    requires u % 2 == 0 && u > 0 && InvertLowestOne(u) > 0
    ensures var v := InvertLowestOne(u); var w := InvertLowestOne(v);
      w < v < u && w % 2 == 0 && Credit(w + 1) + 2 == Credit(u + 1)
  {
    hide InvertLowestOne, Ones;
    var v := InvertLowestOne(u);
    OnesEven(u);
    OnesEven(v);
    OnesEven(InvertLowestOne(v));
    OnesInverted(u);
    OnesInverted(v);
  }

  /** With more ones an odd height's skip link is taken, and clears two of them. */
  lemma OddHigh(q: nat, p: nat, u: nat, target: nat)
    requires p > 0 && Phase(q, p, u + 1, target) && u % 2 == 0 && u > 0 && InvertLowestOne(u) > 0
    ensures var x := InvertLowestOne(InvertLowestOne(u)) + 1;
      && Next(Top(q, p) + u + 1, target) == Top(q, p) + x
      && Phase(q, p, x, target) && x <= u && Credit(x) + 2 == Credit(u + 1)
  {
    hide SkipHeight, InvertLowestOne, Top, Pow, Credit;
    OddCredit(u);
    SkipOdd(q, p, u);
    SkipEven(q, p, u);
  }

  /** An even height's skip link clears its lowest one; unless that of the height below is better, which
      has no more ones, and is taken. */
  lemma EvenStep(q: nat, p: nat, x: nat, target: nat)
    requires p > 0 && Phase(q, p, x, target) && x % 2 == 0 && x > 0
    ensures var h, next := Top(q, p) + x, Next(Top(q, p) + x, target);
      || (next == h - 1 && SkipHeight(h - 1) >= target && NoMoreOnes(x))
      || (next == Top(q, p) + InvertLowestOne(x) && Credit(InvertLowestOne(x)) < Credit(x))
  {
    hide SkipHeight, InvertLowestOne, Top, Pow, Credit, NoMoreOnes;
    SkipEven(q, p, x);
    EvenCredit(x);
    var c := x / 8;
    if x == 8 * c { SkipFar(q, p, c); } else { EvenOnes(x); }
  }

  predicate NoMoreOnes(x: nat) {
    x > 0 && Ones((x - 1) / 2) <= Ones(x / 2) && (Ones(x / 2) <= 1 ==> x == 2 || x == 4)
  }

  lemma EvenCredit(x: nat)
    requires x % 2 == 0 && x > 0
    ensures Credit(InvertLowestOne(x)) < Credit(x) && InvertLowestOne(x) < x
  {
    hide InvertLowestOne, Ones;
    OnesEven(x);
    OnesEven(InvertLowestOne(x));
    OnesInverted(x);
  }

  lemma EvenOnes(x: nat)
    requires x % 2 == 0 && x != 8 * (x / 8)
    ensures NoMoreOnes(x)
  {
    hide Ones, NoMoreOnes;
    var c, r := x / 8, x % 8;
    assert x == 8 * c + r;
    if r == 4 { FourOnes(c); } else if r == 2 { TwoOnes(2 * c); } else { TwoOnes(2 * c + 1); }
  }

  lemma TwoOnes(c: nat)
    ensures NoMoreOnes(4 * c + 2)
  {
    hide Ones;
    assert (4 * c + 2) / 2 == 2 * c + 1 && (4 * c + 1) / 2 == 2 * c;
    OnesDouble(c);
    OnesZero(c);
  }

  lemma FourOnes(c: nat)
    ensures NoMoreOnes(8 * c + 4)
  {
    hide Ones;
    assert (8 * c + 4) / 2 == 2 * (2 * c + 1) && (8 * c + 3) / 2 == 2 * (2 * c) + 1;
    OnesDouble(2 * c + 1);
    OnesDouble(2 * c);
    OnesDouble(c);
    OnesZero(c);
  }

  lemma OnesZero(n: nat)
    ensures Ones(n) == 0 <==> n == 0
  {
    if n > 0 && n % 2 == 0 { OnesZero(n / 2); }
  }

  lemma InvertEight(c: nat)
    requires c > 0
    ensures var u := 8 * c - 2; var v := InvertLowestOne(u);
      v > 0 && InvertLowestOne(v) == 8 * c - 8 && InvertLowestOne(8 * c) <= 8 * c - 8
  {
    hide InvertLowestOne;
    InvertTwice(4 * c - 1);
    InvertTwice(4 * c - 2);
    InvertTwice(2 * c - 1);
    InvertHalves(4 * c - 1);
    InvertHalves(2 * c - 1);
    InvertTwice(4 * c);
    InvertTwice(2 * c);
    InvertTwice(c);
    InvertBelow(c);
  }

  lemma InvertTwice(n: nat)
    requires n > 0
    ensures InvertLowestOne(2 * n) == 2 * InvertLowestOne(n)
  {
    InvertHalves(2 * n);
  }

  /** Below a multiple of eight the skip link does not reach as far. */
  lemma SkipFar(q: nat, p: nat, c: nat)
    requires p > 0 && q % 2 == 1 && 0 < 8 * c < Pow(2, p)
    ensures SkipHeight(Top(q, p) + 8 * c - 1) > Top(q, p) + InvertLowestOne(8 * c)
  {
    hide SkipHeight, InvertLowestOne, Top, Pow;
    InvertEight(c);
    SkipOdd(q, p, 8 * c - 2);
  }

  lemma PhaseFits(q: nat, p: nat, x: nat, target: nat)
    requires Phase(q, p, x, target) && x > 0
    ensures p > 0 && Reserve(p) >= 1 && forall y: nat | y <= x :: Phase(q, p, y, target)
  {
    assert p > 0;
    ReserveGrows(1, p);
  }

  /** One phase, and those below it. */
  lemma {:induction false} PhaseTurns(q: nat, p: nat, x: nat, target: nat)
    requires Phase(q, p, x, target)
    ensures Bounded(Top(q, p) + x, target, Credit(x) + Reserve(p))
    decreases Top(q, p) + x, 1
  {
    hide Phase, Credit, Bounded, InvertLowestOne, Top, Pow, Next;
    if x == 0 {
      TopTurns(q, p, target);
      assert Credit(0) == 1 by { TopCredit(); }
    } else {
      PhaseFits(q, p, x, target);
      if x % 2 == 0 {
        EvenTurns(q, p, x, target);
      } else if x > 1 && InvertLowestOne(x - 1) > 0 {
        var y := InvertLowestOne(InvertLowestOne(x - 1)) + 1;
        OddHigh(q, p, x - 1, target);
        PhaseTurns(q, p, y, target);
        Above(q, p, x, target);
        Above(q, p, y, target);
        OneTurn(Top(q, p) + x, target, Credit(y) + Reserve(p), Credit(x) + Reserve(p));
      } else {
        OddTurns(q, p, x, target);
      }
    }
  }

  lemma TopCredit()
    ensures Credit(0) == 1
  {
  }

  lemma {:induction false} OddTurns(q: nat, p: nat, x: nat, target: nat)
    requires p > 0 && x > 0 && Phase(q, p, x, target) && Phase(q, p, x - 1, target) && x % 2 == 1 && (x == 1 || InvertLowestOne(x - 1) == 0)
    ensures Bounded(Top(q, p) + x, target, Credit(x) + Reserve(p))
    decreases Top(q, p) + x, 0
  {
    hide Phase, Bounded, InvertLowestOne, SkipHeight, Next, Top, Pow, Ones;
    OddLow(q, p, x - 1, target);
    OnesEven(x - 1);
    OnesZero(0);
    if x > 1 { OnesInverted(x - 1); }
    var h := Top(q, p) + x;
    if SkipHeight(h) >= target {
      AtMost(h, target, 2, Credit(x) + Reserve(p));
    } else {
      PhaseTurns(q, p, x - 1, target);
      Above(q, p, x, target);
      OneTurn(h, target, Credit(x - 1) + Reserve(p), Credit(x) + Reserve(p));
    }
  }

  lemma AtMost(h: int, target: int, k: int, n: int)
    requires Bounded(h, target, k) && k <= n
    ensures Bounded(h, target, n)
  {
  }

  lemma Above(q: nat, p: nat, x: nat, target: nat)
    requires Phase(q, p, x, target)
    ensures target < Top(q, p) + x && (x > 0 ==> target <= Top(q, p) + x - 1)
  {
  }

  lemma {:induction false} EvenTurns(q: nat, p: nat, x: nat, target: nat)
    requires p > 0 && x > 0 && Phase(q, p, x, target) && Phase(q, p, x - 1, target) && x % 2 == 0 && Reserve(p) >= 1
    requires forall y: nat | y <= x :: Phase(q, p, y, target)
    ensures Bounded(Top(q, p) + x, target, Credit(x) + Reserve(p))
    decreases Top(q, p) + x, 0
  {
    hide Phase, Bounded, InvertLowestOne, SkipHeight, Next, Top, Pow, Ones;
    var h := Top(q, p) + x;
    Above(q, p, x, target);
    EvenStep(q, p, x, target);
    OnesEven(x);
    if Next(h, target) == h - 1 && SkipHeight(h - 1) >= target && NoMoreOnes(x) {
      if x == 2 || x == 4 {
        SmallOnes();
        OddLow(q, p, x - 2, target);
        OneTurn(h, target, 2, Credit(x) + Reserve(p));
      } else {
        PhaseTurns(q, p, x - 1, target);
        OneTurn(h, target, Credit(x - 1) + Reserve(p), Credit(x) + Reserve(p));
      }
    } else {
      var y := InvertLowestOne(x);
      PhaseTurns(q, p, y, target);
      Above(q, p, y, target);
      OneTurn(h, target, Credit(y) + Reserve(p), Credit(x) + Reserve(p));
    }
  }

  lemma SmallOnes()
    ensures InvertLowestOne(2) == 0 && Credit(2) == 2 && Credit(4) == 2
  {
    InvertHalves(2);
    InvertHalves(1);
    assert Ones(1) == 1 && Ones(2) == 1;
  }

  /** Walking back from a height of k bits takes at most k * (k + 3) / 2 - 1 steps. */
  lemma TurnsBound(h: nat, target: nat, k: nat)
    requires target <= h < Pow(2, k) && k > 0
    ensures 2 * Turns(h, target) <= k * k + 3 * k - 2
  {
    hide Turns;
    ReserveIs(k);
    if target == h {
      NoTurn(h);
      assert k * k >= 1;
    } else {
      SmallMod(h, Pow(2, k));
      SmallMod(target, Pow(2, k));
      var q, p, x := FindPhase(h, target, k);
      PhaseTurns(q, p, x, target);
      CreditWithin(x, p);
      ReserveGrows(p + 1, k);
    }
  }

  /** Few steps back from a height: in the order of the square of its number of bits. */
  ghost predicate Few(h: int, steps: int) {
    forall k: nat | k > 0 && h < Pow(2, k) :: 2 * steps <= k * k + 3 * k - 2
  }

  lemma TurnsFew(h: nat, target: nat)
    requires target <= h
    ensures Few(h, Turns(h, target))
  {
    hide Turns, Pow;
    forall k: nat | k > 0 && h < Pow(2, k) ensures 2 * Turns(h, target) <= k * k + 3 * k - 2 { TurnsBound(h, target, k); }
  }
}
