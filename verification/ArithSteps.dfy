/** What one turn of each loop of the 256-bit arithmetic does to the numbers. */
module ArithSteps {
  import opened Powers
  import opened ArithLimbs

  lemma HighLow(n: int)
    ensures n == High(n) * BASE + Low(n)
  {
  }

  lemma StartOfValue(s: seq<Limb>)
    ensures Value(s[..0]) == 0 && Pow(BASE, 0) == 1
  {
    ValueOfZeros(s[..0]);
  }

  /** A limb step: the carry goes into the next limb. */
  lemma CarryStep(s: seq<Limb>, s': seq<Limb>, i: nat, n: nat, total: int, total': int, carry: nat, add: int)
    requires |s| == |s'| && i < |s| && s'[..i] == s[..i] && s'[i] == Low(n)
    requires Value(s[..i]) + carry * Pow(BASE, i) == total
    requires total' == total + add * Pow(BASE, i) && n == carry + add
    ensures Value(s'[..i + 1]) + High(n) * Pow(BASE, i + 1) == total'
  {
    hide Pow, Value, Low, High;
    ValueSnoc(s', i);
    PowAdd(BASE, i, 1);
    PowOne(BASE);
    HighLow(n);
    var p := Pow(BASE, i);
    calc {
      Value(s'[..i + 1]) + High(n) * Pow(BASE, i + 1);
      Value(s[..i]) + Low(n) * p + High(n) * (p * BASE);
      { assert High(n) * (p * BASE) == High(n) * BASE * p; }
      Value(s[..i]) + Low(n) * p + High(n) * BASE * p;
      { assert (High(n) * BASE + Low(n)) * p == High(n) * BASE * p + Low(n) * p; }
      Value(s[..i]) + n * p;
      { assert (carry + add) * p == carry * p + add * p; }
      total + add * p;
    }
  }

  lemma Reduced(s: seq<Limb>, carry: int, total: int)
    requires |s| == WIDTH && Value(s) + carry * MODULUS == total
    ensures total % MODULUS == Value(s) < MODULUS
  {
    hide Pow, Value;
    ValueBound(s);
    DivModUnique(total, MODULUS, carry, Value(s));
  }

  lemma TwoLimbs(s: seq<Limb>)
    requires |s| == WIDTH && forall j | 2 <= j < WIDTH :: s[j] == 0
    ensures Value(s) == s[0] + s[1] * BASE
  {
    hide Pow, Value;
    ValueSplit(s, 2);
    ValueOfZeros(s[2..]);
    ValueSnoc(s, 1);
    OneLimb(s[..1]);
    PowOne(BASE);
  }

  lemma TwoLimbsOnly(s: seq<Limb>)
    requires |s| == WIDTH
    ensures (forall j | 2 <= j < WIDTH :: s[j] == 0) ==> Value(s) == s[0] + s[1] * BASE
    ensures Value(s) < BASE * BASE ==> forall j | 2 <= j < WIDTH :: s[j] == 0
  {
    hide Pow, Value;
    if forall j | 2 <= j < WIDTH :: s[j] == 0 { TwoLimbs(s); }
    if Value(s) < BASE * BASE {
      ValueSplit(s, 2);
      PowAdd(BASE, 1, 1);
      PowOne(BASE);
      ValueOfZeros(s[2..]);
      assert forall j | 2 <= j < WIDTH :: s[j] == s[2..][j - 2];
    }
  }

  lemma LowLimbs(s: seq<Limb>)
    requires |s| == WIDTH
    ensures Value(s) % (BASE * BASE) == s[0] + s[1] * BASE
  {
    hide Pow, Value;
    ValueSplit(s, 2);
    ValueSnoc(s, 1);
    OneLimb(s[..1]);
    PowOne(BASE);
    PowAdd(BASE, 1, 1);
    DivModUnique(Value(s), BASE * BASE, Value(s[2..]), s[0] + s[1] * BASE);
  }

  lemma OrShifted(x: Limb, y: Limb)
    ensures Or(x, y * BASE) == x + y * BASE
  {
    hide Pow, Or;
    BaseIsPower();
    ProductMod(BASE, y);
    OrDisjoint(y * BASE, x, 32);
  }

  lemma SuffixGrows(s: seq<Limb>, t: seq<Limb>, i: nat)
    requires |s| == |t| && i < |s| && s[i] == t[i] && s[i + 1..] == t[i + 1..]
    ensures s[i..] == t[i..]
  {
    assert s[i..] == [s[i]] + s[i + 1..];
    assert t[i..] == [t[i]] + t[i + 1..];
  }

  lemma CarryBound(n: nat)
    requires n < 2 * BASE
    ensures High(n) <= 1
  {
  }

  lemma WideCarry(n: nat)
    requires n < BASE * BASE
    ensures High(n) < BASE
  {
  }

  /** A product of two words leaves room in 64 bits for twice the largest word. */
  lemma ProductBound(x: Limb, y: Limb)
    ensures x * y + 2 * (BASE - 1) < BASE * BASE
  {
    MulMonotone(x, BASE - 1, y);
    assert (BASE - 1) * y <= (BASE - 1) * (BASE - 1);
  }

  lemma WordStep(a: seq<Limb>, s: seq<Limb>, s': seq<Limb>, i: nat, n: nat, b: Limb, carry: nat)
    requires |a| == |s| == |s'| && i < |s| && s'[..i] == s[..i] && s'[i] == Low(n)
    requires Value(s[..i]) + carry * Pow(BASE, i) == Value(a[..i]) * b
    requires n == carry + b * (a[i] as int)
    ensures Value(s'[..i + 1]) + High(n) * Pow(BASE, i + 1) == Value(a[..i + 1]) * b
  {
    hide Pow, Value, Low, High;
    ValueSnoc(a, i);
    MulTerm(Value(a[..i]), a[i], Pow(BASE, i), b);
    CarryStep(s, s', i, n, Value(a[..i]) * b, Value(a[..i + 1]) * b, carry, b * a[i] as int);
  }

  lemma MulTerm(v: nat, x: nat, p: nat, b: nat)
    ensures (v + x * p) * b == v * b + b * (x as int) * p
  {
    assert x * p * b == b * x * p;
  }

  lemma AddOfMod(x: int, y: int, m: nat)
    requires m > 0
    ensures (x + y % m) % m == (x + y) % m
  {
    ModOfSum(x + y % m, m, y / m);
  }

  lemma IncrementLimb(s: seq<Limb>, i: nat)
    requires i < |s|
    ensures var x := Low(s[i] as int + 1);
      Value(s[i := x]) + (if x == 0 then Pow(BASE, i + 1) else 0) == Value(s) + Pow(BASE, i)
  {
    hide Pow, Value;
    ValueUpdate(s, i, Low(s[i] as int + 1));
    PowAdd(BASE, i, 1);
    PowOne(BASE);
  }

  lemma DecrementLimb(s: seq<Limb>, i: nat)
    requires i < |s|
    ensures var x := Low(s[i] as int + BASE - 1);
      Value(s[i := x]) - (if x == BASE - 1 then Pow(BASE, i + 1) else 0) == Value(s) - Pow(BASE, i)
  {
    hide Pow, Value, Low;
    var x := Low(s[i] as int + BASE - 1);
    LowPredecessor(s[i]);
    ValueUpdate(s, i, x);
    PowAdd(BASE, i, 1);
    PowOne(BASE);
    if s[i] != 0 { assert x as int - s[i] as int == -1; }
  }

  lemma LowPredecessor(x: Limb)
    ensures Low(x as int + BASE - 1) == if x == 0 then BASE - 1 else x as int - 1
  {
  }

  lemma {:induction false} ValueOfComplement(s: seq<Limb>, t: seq<Limb>)
    requires |s| == |t| && forall i | 0 <= i < |s| :: t[i] == BASE - 1 - s[i]
    ensures Value(t) == Pow(BASE, |s|) - 1 - Value(s)
  {
    hide Pow;
    PowOne(BASE);
    if s != [] {
      var n := |s| - 1;
      ValueOfComplement(s[..n], t[..n]);
      PowAdd(BASE, n, 1);
      var p := Pow(BASE, n);
      assert (BASE - 1 - s[n]) * p == BASE * p - p - s[n] * p;
    }
  }

  // ----- shifts

  /** A shifted limb falls into two limbs. */
  lemma ShiftedLimb(x: Limb, s: nat)
    requires s < 32
    ensures x * Pow(2, s) == Shl(x, s) + Shr(x, 32 - s) * BASE
    ensures Shl(x, s) % Pow(2, s) == 0 && Shr(x, 32 - s) < Pow(2, s)
    ensures Shl(x, s) == x % Pow(2, 32 - s) * Pow(2, s)
  {
    hide Pow;
    var m, n := Pow(2, s), Pow(2, 32 - s);
    BaseIsPower();
    PowAdd(2, s, 32 - s);
    var q, r := x / n, x % n;
    calc {
      x * m;
      (q * n + r) * m;
      { assert (q * n + r) * m == q * n * m + r * m; assert q * n * m == q * (m * n); }
      q * BASE + r * m;
    }
    LeadingDigit(m, r, 0, n);
    assert n * m == BASE;
    DivModUnique(x * m, BASE, q, r * m);
    assert r * m == m * r;
    ProductMod(m, r);
    if q >= m { MulMonotone(m, q, n); }
  }

  /** Adding to a limb adds to the number. */
  lemma AddAt(s: seq<Limb>, k: nat, x: Limb)
    requires k < |s| && s[k] as int + x as int < BASE
    ensures Value(s[k := s[k] as int + x as int]) == Value(s) + x * Pow(BASE, k)
  {
    hide Pow, Value;
    ValueUpdate(s, k, s[k] as int + x as int);
  }

  /** Writing both parts of a shifted limb into limbs that have room for them. */
  lemma BothParts(t: seq<Limb>, k: nat, lo: Limb, hi: Limb, s: nat)
    requires k + 1 < |t| && t[k + 1] == 0 && t[k] < Pow(2, s) && lo % Pow(2, s) == 0 && s < 32
    ensures Value(t[k + 1 := hi][k := OrLimb(t[k], lo)]) == Value(t) + (lo + hi * BASE) * Pow(BASE, k)
  {
    hide Pow, Value, Or;
    OnePartOf(t[k + 1 := hi], k, lo, s);
    AddAt(t, k + 1, hi);
    PowAdd(BASE, k, 1);
    PowOne(BASE);
    var p := Pow(BASE, k);
    assert hi * (p * BASE) == hi * BASE * p;
    assert (lo + hi * BASE) * p == lo * p + hi * BASE * p;
  }

  /** A term more on both sides. */
  lemma TermMore(v: nat, x: nat, p: nat, m: nat, q: nat, total: nat)
    requires total == v * (m * q)
    ensures (v + x * p) * (m * q) == total + x * m * (p * q)
  {
    var d := m * q;
    assert (v + x * p) * d == v * d + x * p * d;
    assert x * p * d == x * (p * (m * q));
    assert p * (m * q) == m * (p * q);
    assert x * (m * (p * q)) == x * m * (p * q);
  }

  /** Limb j has room for the upper bits of a shifted limb, and the limbs above it are zero. */
  ghost predicate ShiftRoom(t: seq<Limb>, j: nat, s: nat)
    requires |t| == WIDTH
  {
    (j < WIDTH ==> t[j] < Pow(2, s)) && forall m | j < m < WIDTH :: t[m] == 0
  }

  /** The two writes of one turn of the left shift. */
  ghost function ShiftedInto(t: seq<Limb>, x: Limb, j: nat, s: nat): (t': seq<Limb>)
    requires |t| == WIDTH && s < 32
    ensures |t'| == WIDTH
  {
    var t1 := if j + 1 < WIDTH && s != 0 then t[j + 1 := OrLimb(t[j + 1], Shr(x, 32 - s))] else t;
    if j < WIDTH then t1[j := OrLimb(t1[j], Shl(x, s))] else t1
  }

  lemma ShiftInside(t: seq<Limb>, x: Limb, j: nat, s: nat)
    requires |t| == WIDTH && s < 32 && j + 1 < WIDTH && ShiftRoom(t, j, s)
    ensures Value(ShiftedInto(t, x, j, s)) == Value(t) + x * Pow(2, s) * Pow(BASE, j)
    ensures ShiftRoom(ShiftedInto(t, x, j, s), j + 1, s)
  {
    hide Pow, Value, Shl, Shr, Or;
    ShiftedLimb(x, s);
    var hi, lo := Shr(x, 32 - s), Shl(x, s);
    BothParts(t, j, lo, hi, s);
    ZeroOr(hi);
    if s == 0 { PowOne(2); assert hi == 0 && t[j + 1 := hi] == t; }
  }

  lemma ShiftAtTop(t: seq<Limb>, x: Limb, j: nat, s: nat)
    requires |t| == WIDTH && s < 32 && j + 1 == WIDTH && ShiftRoom(t, j, s)
    ensures Value(ShiftedInto(t, x, j, s)) + Shr(x, 32 - s) * MODULUS == Value(t) + x * Pow(2, s) * Pow(BASE, j)
  {
    hide Pow, Value, Shl, Shr, OrLimb;
    ShiftedLimb(x, s);
    OnePartOf(t, j, Shl(x, s), s);
    LostOne(Shl(x, s), Shr(x, 32 - s), j);
  }

  lemma LostOne(lo: nat, hi: nat, j: nat)
    requires j + 1 == WIDTH
    ensures (lo + hi * BASE) * Pow(BASE, j) == lo * Pow(BASE, j) + hi * MODULUS
  {
    hide Pow;
    PowAdd(BASE, j, 1);
    PowOne(BASE);
    var p := Pow(BASE, j);
    assert hi * BASE * p == hi * (p * BASE);
    assert (lo + hi * BASE) * p == lo * p + hi * BASE * p;
  }

  lemma LostAll(y: nat, j: nat)
    requires j >= WIDTH
    ensures y * Pow(BASE, j) == y * Pow(BASE, j - WIDTH) * MODULUS
  {
    hide Pow;
    PowAdd(BASE, WIDTH, j - WIDTH);
    var e := Pow(BASE, j - WIDTH);
    assert y * (MODULUS * e) == y * e * MODULUS;
  }

  /** A limb is shifted in; `more` is what falls off the top. */
  lemma ShiftTurn(t: seq<Limb>, x: Limb, j: nat, s: nat) returns (more: nat)
    requires |t| == WIDTH && s < 32 && ShiftRoom(t, j, s)
    ensures Value(ShiftedInto(t, x, j, s)) + more * MODULUS == Value(t) + x * Pow(2, s) * Pow(BASE, j)
    ensures ShiftRoom(ShiftedInto(t, x, j, s), j + 1, s)
  {
    hide Pow, Value, Shl, Shr, OrLimb, MODULUS;
    if j + 1 < WIDTH {
      ShiftInside(t, x, j, s);
      more := 0;
    } else if j < WIDTH {
      ShiftAtTop(t, x, j, s);
      more := Shr(x, 32 - s);
    } else {
      LostAll(x * Pow(2, s), j);
      more := x * Pow(2, s) * Pow(BASE, j - WIDTH);
    }
  }

  /** One turn of the left shift; `lost` counts what has fallen off. */
  lemma ShiftLeftStep(a: seq<Limb>, i: nat, s: nat, k: nat, t: seq<Limb>, lost: nat) returns (lost': nat)
    requires |a| == |t| == WIDTH && i < WIDTH && s < 32
    requires Value(t) + lost * MODULUS == Value(a[..i]) * (Pow(2, s) * Pow(BASE, k))
    requires ShiftRoom(t, i + k, s)
    ensures var t' := ShiftedInto(t, a[i], i + k, s);
      && Value(t') + lost' * MODULUS == Value(a[..i + 1]) * (Pow(2, s) * Pow(BASE, k))
      && ShiftRoom(t', i + 1 + k, s)
  {
    hide Pow, Value, Shl, Shr, OrLimb, MODULUS, ShiftRoom, ShiftedInto;
    var more := ShiftTurn(t, a[i], i + k, s);
    ValueSnoc(a, i);
    PowAdd(BASE, i, k);
    TermMore(Value(a[..i]), a[i], Pow(BASE, i), Pow(2, s), Pow(BASE, k), Value(t) + lost * MODULUS);
    lost' := lost + more;
    assert (lost + more) * MODULUS == lost * MODULUS + more * MODULUS;
  }

  /** The limb a right shift writes to last has room, and the limbs from there on are zero. */
  ghost predicate RightRoom(t: seq<Limb>, j: int, s: nat)
    requires |t| == WIDTH && s < 32 && j <= WIDTH
  {
    && (1 <= j ==> t[j - 1] < Pow(2, 32 - s))
    && (forall m | 0 <= m < WIDTH && j <= m :: t[m] == 0)
  }

  /** The two writes of one turn of the right shift. */
  ghost function ShiftedDown(t: seq<Limb>, x: Limb, j: int, s: nat): (t': seq<Limb>)
    requires |t| == WIDTH && s < 32 && j < WIDTH
    ensures |t'| == WIDTH
  {
    var t1 := if j - 1 >= 0 && s != 0 then t[j - 1 := OrLimb(t[j - 1], Shl(x, 32 - s))] else t;
    if j >= 0 then t1[j := OrLimb(t1[j], Shr(x, s))] else t1
  }

  /** A limb shifted down falls into two limbs. */
  lemma LoweredLimb(x: Limb, s: nat)
    requires s < 32
    ensures x == Shr(x, s) * Pow(2, s) + x % Pow(2, s)
    ensures Shr(x, s) < Pow(2, 32 - s)
    ensures s > 0 ==> Shl(x, 32 - s) % Pow(2, 32 - s) == 0 && Shl(x, 32 - s) * Pow(2, s) == x % Pow(2, s) * BASE
    ensures s == 0 ==> x % Pow(2, s) == 0
  {
    hide Pow, Shl;
    BaseIsPower();
    PowAdd(2, s, 32 - s);
    PowOne(2);
    var m, n := Pow(2, s), Pow(2, 32 - s);
    if Shr(x, s) >= n { MulMonotone(n, Shr(x, s), m); }
    if s > 0 {
      ShiftedLimb(x, 32 - s);
      assert x % m * n * m == x % m * (m * n);
    }
  }

  lemma DownInside(t: seq<Limb>, x: Limb, j: int, s: nat)
    requires |t| == WIDTH && s < 32 && 1 <= j < WIDTH && RightRoom(t, j, s)
    ensures (Value(ShiftedDown(t, x, j, s)) - Value(t)) * Pow(2, s) == x * Pow(BASE, j)
    ensures RightRoom(ShiftedDown(t, x, j, s), j + 1, s)
  {
    hide Pow, Value, Shl, Shr, Or, OrLimb;
    LoweredLimb(x, s);
    var hi, lo := Shr(x, s), if s != 0 then Shl(x, 32 - s) else 0;
    var t1 := if s != 0 then t[j - 1 := OrLimb(t[j - 1], lo)] else t;
    ZeroOr(hi);
    if s != 0 { OnePartOf(t, j - 1, lo, 32 - s); }
    assert ShiftedDown(t, x, j, s) == t1[j := hi];
    AddAt(t1, j, hi);
    PowAdd(BASE, j - 1, 1);
    PowOne(BASE);
    var m, p := Pow(2, s), Pow(BASE, j - 1);
    assert (lo * p + hi * (p * BASE)) * m == lo * m * p + hi * m * (p * BASE);
    assert x % m * BASE * p == x % m * (p * BASE);
    assert (hi * m + x % m) * (p * BASE) == hi * m * (p * BASE) + x % m * (p * BASE);
  }

  lemma OnePartOf(t: seq<Limb>, k: nat, lo: Limb, s: nat)
    requires k < |t| && s <= 32 && t[k] < Pow(2, s) && lo % Pow(2, s) == 0
    ensures Value(t[k := OrLimb(t[k], lo)]) == Value(t) + lo * Pow(BASE, k)
  {
    hide Pow, Value, Or;
    assert OrLimb(t[k], lo) == Or(t[k], lo);
    OrDisjoint(lo, t[k], s);
    AddAt(t, k, lo);
  }

  /** The first limb that is not shifted out altogether. */
  lemma DownFirst(t: seq<Limb>, x: Limb, s: nat)
    requires |t| == WIDTH && s < 32 && RightRoom(t, 0, s)
    ensures Value(t) == 0 && Value(ShiftedDown(t, x, 0, s)) == Shr(x, s)
    ensures RightRoom(ShiftedDown(t, x, 0, s), 1, s)
  {
    hide Pow, Value, Shr, Or, OrLimb;
    LoweredLimb(x, s);
    ZeroOr(Shr(x, s));
    ValueOfZeros(t);
    AddAt(t, 0, Shr(x, s));
    PowOne(BASE);
  }

  /** One turn of the right shift keeps what is shifted so far a quotient of what was read so far. */
  lemma ShiftRightStep(a: seq<Limb>, i: nat, s: nat, k: nat, t: seq<Limb>)
    requires |a| == |t| == WIDTH && i < WIDTH && s < 32
    requires Value(t) == Value(a[..i]) / (Pow(2, s) * Pow(BASE, k))
    requires RightRoom(t, i - k, s)
    ensures var t' := ShiftedDown(t, a[i], i - k, s);
      && Value(t') == Value(a[..i + 1]) / (Pow(2, s) * Pow(BASE, k))
      && RightRoom(t', i + 1 - k, s)
  {
    hide Pow, Value, Shl, Shr, OrLimb;
    var x, j, m, q := a[i], i - k, Pow(2, s), Pow(BASE, k);
    var t' := ShiftedDown(t, x, j, s);
    ValueSnoc(a, i);
    ValueBound(a[..i + 1]);
    ValueBound(a[..i]);
    MulPositive(m, q);
    if j < 0 {
      ValueOfZeros(t);
      PowGrows(BASE, i + 1, k);
      MulMonotone(1, m, q);
      DivModUnique(Value(a[..i + 1]), m * q, 0, Value(a[..i + 1]));
    } else if j == 0 {
      DownFirst(t, x, s);
      LoweredLimb(x, s);
      FirstQuotient(x, Shr(x, s), m, q, Value(a[..i]));
    } else {
      DownInside(t, x, j, s);
      PowAdd(BASE, j, k);
      NextQuotient(Value(a[..i]), Value(t), Value(t'), x, Pow(BASE, j), m, q);
    }
  }

  lemma FirstQuotient(x: nat, h: nat, m: nat, q: nat, low: nat)
    requires m > 0 && q > 0 && x == h * m + x % m && low < q
    ensures m * q > 0 && (low + x * q) / (m * q) == h
  {
    MulPositive(m, q);
    var r := x % m;
    assert x * q == h * (m * q) + r * q by { assert (h * m + r) * q == h * m * q + r * q; }
    LeadingDigit(q, r, low, m);
    DivModUnique(low + x * q, m * q, h, r * q + low);
  }

  lemma NextQuotient(v: nat, w: nat, w': nat, x: nat, p: nat, m: nat, q: nat)
    requires m > 0 && q > 0 && m * q > 0 && w == v / (m * q) && (w' - w) * m == x * p
    ensures (v + x * (p * q)) / (m * q) == w'
  {
    var d := m * q;
    assert x * (p * q) == (w' - w) * m * q;
    assert (w' - w) * m * q == (w' - w) * d;
    assert (w' - w) * d == w' * d - w * d;
    DivModUnique(v + x * (p * q), d, w', v % d);
  }

  lemma ZeroOr(x: Limb)
    ensures OrLimb(0, x) == x
  {
  }

  // ----- multiplication

  /** One limb product: limb i + j takes in limb j of one factor times limb i of the other. */
  lemma MulStep(start: seq<Limb>, t: seq<Limb>, t': seq<Limb>, i: nat, j: nat, x: Limb, b: seq<Limb>, n: nat, carry: nat)
    requires |start| == |t| == |t'| == |b| == WIDTH && i + j < WIDTH
    requires t'[..i + j] == t[..i + j] && t'[i + j] == Low(n)
    requires n == carry + start[i + j] as int + x as int * b[i] as int
    requires Value(t[..i + j]) + carry * Pow(BASE, i + j) == Value(start[..i + j]) + x * Value(b[..i]) * Pow(BASE, j)
    ensures Value(t'[..i + j + 1]) + High(n) * Pow(BASE, i + j + 1)
            == Value(start[..i + j + 1]) + x * Value(b[..i + 1]) * Pow(BASE, j)
  {
    hide Pow, Value, Low, High;
    ValueSnoc(start, i + j);
    ValueSnoc(b, i);
    PowAdd(BASE, i, j);
    var v, y, w := Value(b[..i]), b[i] as int, start[i + j] as int;
    MulTerms(w, x, v, y, Pow(BASE, i), Pow(BASE, j));
    CarryStep(t, t', i + j, n, Value(start[..i + j]) + x * v * Pow(BASE, j),
              Value(start[..i + j + 1]) + x * Value(b[..i + 1]) * Pow(BASE, j), carry, w + x as int * y);
  }

  lemma MulTerms(w: int, x: int, v: int, y: int, p: int, q: int)
    ensures w * (p * q) + x * (v + y * p) * q == x * v * q + (w + x * y) * (p * q)
  {
    assert (x * v + x * y * p) * q == x * v * q + x * y * (p * q);
    assert (w + x * y) * (p * q) == w * (p * q) + x * y * (p * q);
  }

  /** All the products of one limb; `lost` counts what does not fit. */
  lemma MulRow(a: seq<Limb>, b: seq<Limb>, start: seq<Limb>, t: seq<Limb>, j: nat, carry: nat, lost: nat) returns (lost': nat)
    requires |a| == |b| == |start| == |t| == WIDTH && j < WIDTH
    requires Value(start) + lost * MODULUS == Value(a[..j]) * Value(b)
    requires Value(t) + carry * MODULUS == Value(start) + a[j] * Value(b[..WIDTH - j]) * Pow(BASE, j)
    ensures Value(t) + lost' * MODULUS == Value(a[..j + 1]) * Value(b)
  {
    hide Pow, Value;
    ValueSnoc(a, j);
    ValueSplit(b, WIDTH - j);
    PowAdd(BASE, WIDTH - j, j);
    var x, h := a[j] as int, Value(b[WIDTH - j..]);
    lost' := RowTotal(Value(a[..j]), x, Pow(BASE, j), Value(b[..WIDTH - j]), Pow(BASE, WIDTH - j), h,
                      Value(b), MODULUS, Value(start), Value(t), lost, carry);
  }

  lemma RowTotal(v: nat, x: nat, q: nat, u: nat, r: nat, h: nat, b: nat, m: nat, start: nat, t: nat, lost: nat, carry: nat)
    returns (lost': nat)
    requires b == u + r * h && m == r * q
    requires start + lost * m == v * b && t + carry * m == start + x * u * q
    ensures t + lost' * m == (v + x * q) * b
  {
    lost' := lost + carry + x * h;
    RowTerms(x, q, u, r, h);
    calc {
      (v + x * q) * b;
      v * b + x * q * b;
      start + lost * m + (x * u * q + x * h * m);
      t + carry * m + lost * m + x * h * m;
      { assert (lost + carry + x * h) * m == lost * m + carry * m + x * h * m; }
      t + lost' * m;
    }
  }

  lemma RowTerms(x: nat, q: nat, u: nat, r: nat, h: nat)
    ensures x * q * (u + r * h) == x * u * q + x * h * (r * q)
  {
    assert x * q * (u + r * h) == x * q * u + x * q * (r * h);
    assert x * q * u == x * u * q;
    assert x * q * (r * h) == x * h * (r * q);
  }

  /** A product of two words with a carry and a limb added is at most 64 bits wide. */
  lemma WideSum(carry: nat, z: Limb, x: Limb, y: Limb)
    requires carry < BASE
    ensures 0 <= x * y && carry + z as int + x as int * y as int < BASE * BASE
  {
    ProductBound(x, y);
  }

  // ----- the highest bit

  lemma WhenSet(x: Limb, n: nat)
    requires TestBit(x, n)
    ensures x >= Pow(2, n)
  {
    hide Pow;
    DivSmaller(x, Pow(2, n));
    MulMonotone(1, Shr(x, n), Pow(2, n));
  }

  lemma WhenClear(x: Limb, n: nat)
    requires !TestBit(x, n) && x < Pow(2, n + 1)
    ensures x < Pow(2, n)
  {
    PowAdd(2, n, 1);
    PowOne(2);
    hide Pow;
    if Shr(x, n) >= 2 { MulMonotone(2, Shr(x, n), Pow(2, n)); }
  }

  /** The highest bit of the highest limb that is not zero is the highest bit of the number. */
  lemma HighestBit(s: seq<Limb>, pos: nat, n: nat)
    requires |s| == WIDTH && pos < WIDTH && n < 32 && forall j | pos < j < WIDTH :: s[j] == 0
    requires Pow(2, n) <= s[pos] < Pow(2, n + 1)
    ensures Pow(2, 32 * pos + n) <= Value(s) < Pow(2, 32 * pos + n + 1)
  {
    hide Pow, Value;
    ValueSplit(s, pos + 1);
    ValueOfZeros(s[pos + 1..]);
    ValueSnoc(s, pos);
    ValueBound(s[..pos]);
    LimbPower(pos);
    PowAdd(2, n, 32 * pos);
    PowAdd(2, n + 1, 32 * pos);
    var p := Pow(BASE, pos);
    MulMonotone(Pow(2, n), s[pos], p);
    LeadingDigit(p, s[pos], Value(s[..pos]), Pow(2, n + 1));
  }

  // ----- division

  /** Setting a bit below all the bits set so far. */
  lemma SetBit(q: seq<Limb>, shift: nat)
    requires |q| == WIDTH && shift < 32 * WIDTH && Value(q) % Pow(2, shift + 1) == 0
    ensures var k := shift / 32; var bit := Pow(2, shift % 32);
      bit < BASE && Value(q[k := OrLimb(q[k], bit)]) == Value(q) + Pow(2, shift)
  {
    hide Pow, Value, Or;
    var k, r := shift / 32, shift % 32;
    LimbOfMultiple(q, k, r + 1);
    BaseIsPower();
    PowGrowsStrictly(2, r, 32);
    PowGrowsStrictly(2, r, r + 1);
    assert OrLimb(q[k], Pow(2, r)) == Or(q[k], Pow(2, r));
    OrDisjoint(q[k], Pow(2, r), r + 1);
    AddAt(q, k, Pow(2, r));
    LimbPower(k);
    PowAdd(2, r, 32 * k);
  }

  /** Aligning the divisor loses nothing and brings it within a factor of two of the number. */
  lemma Aligned(a: nat, b: nat, nb: nat, db: nat)
    requires 1 <= db <= nb <= 256 && Pow(2, nb - 1) <= a < Pow(2, nb) && Pow(2, db - 1) <= b < Pow(2, db)
    ensures b * Pow(2, nb - db) < MODULUS && a < 2 * (b * Pow(2, nb - db))
  {
    hide Pow;
    var m := Pow(2, nb - db);
    PowAdd(2, db, nb - db);
    PowAdd(2, db - 1, nb - db);
    PowAdd(2, 1, nb - 1);
    PowOne(2);
    PowGrows(2, nb, 256);
    LimbPower(WIDTH);
    LeadingDigit(m, b, 0, Pow(2, db));
    MulMonotone(Pow(2, db - 1), b, m);
  }

  /** What the long division keeps: `shift` is the position of the bit looked at next. */
  ghost predicate Dividing(a: nat, b: nat, q: nat, num: nat, div: nat, shift: int) {
    && -1 <= shift < 256
    && a == q * b + num
    && q % Pow(2, shift + 1) == 0
    && (if shift >= 0 then div == b * Pow(2, shift) && num < 2 * div else num < b)
  }

  lemma DividingStep(a: nat, b: nat, q: nat, num: nat, div: nat, shift: nat)
    requires Dividing(a, b, q, num, div, shift)
    ensures var bit := if num >= div then Pow(2, shift) else 0;
      Dividing(a, b, q + bit, if num >= div then num - div else num, div / 2, shift - 1)
  {
    hide Pow;
    PowAdd(2, shift, 1);
    PowOne(2);
    NextBit(q, Pow(2, shift));
    QuotientBit(q, Pow(2, shift), b);
    if shift > 0 { HalfShift(b, shift); }
  }

  lemma QuotientBit(q: nat, p: nat, b: nat)
    ensures (q + p) * b == q * b + b * p
  {
  }

  lemma NextBit(q: nat, p: nat)
    requires p > 0 && q % (p * 2) == 0
    ensures q % p == 0 && (q + p) % p == 0
  {
    MultipleOf(q, p, 2);
    ModOfSum(q, p, 1);
  }

  lemma HalfShift(b: nat, shift: nat)
    requires shift > 0
    ensures b * Pow(2, shift) / 2 == b * Pow(2, shift - 1) && b * Pow(2, shift) % 2 == 0
  {
    hide Pow;
    PowAdd(2, shift - 1, 1);
    PowOne(2);
    var h := Pow(2, shift - 1);
    assert b * (h * 2) == b * h * 2;
  }

  lemma SmallDividend(a: nat, b: nat, nb: nat, db: nat)
    requires nb < db && (if nb == 0 then a == 0 else a < Pow(2, nb)) && Pow(2, db - 1) <= b
    ensures a < b
  {
    PowGrows(2, nb, db - 1);
  }

  lemma DividingStart(a: nat, b: nat, shift: nat)
    requires shift < 256 && a < 2 * (b * Pow(2, shift))
    ensures Dividing(a, b, 0, a, b * Pow(2, shift), shift)
  {
    hide Pow;
    DivModUnique(0, Pow(2, shift + 1), 0, 0);
  }

  lemma DividingBit(a: nat, b: nat, q: nat, num: nat, div: nat, shift: int)
    requires Dividing(a, b, q, num, div, shift)
    ensures -1 <= shift < 256 && q % Pow(2, shift + 1) == 0
  {
  }

  lemma DividingEnd(a: nat, b: nat, q: nat, num: nat, div: nat)
    requires Dividing(a, b, q, num, div, -1)
    ensures a == q * b + num && num < b
  {
  }

  // ----- the loops' starts

  lemma ShiftAmount(k: nat, s: nat, shift: nat)
    requires shift == 32 * k + s
    ensures Pow(2, s) * Pow(BASE, k) == Pow(2, shift) && Pow(2, shift) > 0
  {
    hide Pow;
    LimbPower(k);
    PowAdd(2, s, 32 * k);
  }

  lemma ShiftStart(t: seq<Limb>, a: seq<Limb>, k: nat, s: nat)
    requires |t| == WIDTH && s < 32 && forall j | 0 <= j < WIDTH :: t[j] == 0
    ensures Value(t) == 0 && Value(a[..0]) == 0 && ShiftRoom(t, k, s) && RightRoom(t, 0 - k as int, s)
    ensures 0 * (Pow(2, s) * Pow(BASE, k)) == 0
  {
    hide Pow;
    ValueOfZeros(t);
  }

  lemma MulStart(t: seq<Limb>, a: seq<Limb>, b: seq<Limb>)
    requires |t| == WIDTH && forall j | 0 <= j < WIDTH :: t[j] == 0
    ensures Value(t) == 0 && Value(a[..0]) * Value(b) == 0
  {
    ValueOfZeros(t);
  }

  lemma MulRowStart(t: seq<Limb>, b: seq<Limb>, j: nat, x: Limb)
    requires j < |t|
    ensures x * Value(b[..0]) * Pow(BASE, j) == 0
  {
    hide Pow;
    StartOfValue(b);
    assert x * 0 * Pow(BASE, j) == 0;
  }

  lemma ZeroSum(n: int, t: seq<Limb>, i: nat, j: nat, x: Limb)
    requires i + j < |t| && t[i + j] == 0 && t[i] == 0 && n == 0 + t[i + j] as int + x as int * t[i] as int
    ensures n == 0 && Low(n) == 0 && High(n) == 0
  {
  }
}
