/** Little-endian limbs of 32 bits and the number they stand for. */
module ArithLimbs {
  import opened Powers

  const BASE: nat := 0x1_0000_0000
  const WIDTH: nat := 8

  type Limb = x: int | 0 <= x < BASE

  ghost function Value(s: seq<Limb>): nat {
    if s == [] then 0 else Value(s[..|s| - 1]) + s[|s| - 1] * Pow(BASE, |s| - 1)
  }

  /** The bitwise or of two words. */
  function Or(x: nat, y: nat): nat {
    if x == 0 then y
    else if y == 0 then x
    else 2 * Or(x / 2, y / 2) + (if x % 2 == 1 || y % 2 == 1 then 1 else 0)
  }

  lemma ValueSnoc(s: seq<Limb>, i: nat)
    requires i < |s|
    ensures Value(s[..i + 1]) == Value(s[..i]) + s[i] * Pow(BASE, i)
  {
    hide Pow;
    assert s[..i + 1][..i] == s[..i];
  }

  lemma {:induction false} ValueBound(s: seq<Limb>)
    ensures Value(s) < Pow(BASE, |s|)
  {
    hide Pow;
    if s == [] {
    } else {
      var n, last := |s| - 1, s[|s| - 1];
      ValueBound(s[..n]);
      PowAdd(BASE, 1, n);
      PowOne(BASE);
      LeadingDigit(Pow(BASE, n), last, Value(s[..n]), BASE);
    }
  }

  lemma PowOne(b: nat)
    ensures Pow(b, 1) == b && Pow(b, 0) == 1
  {
  }

  lemma {:induction false} ValueSplit(s: seq<Limb>, i: nat)
    requires i <= |s|
    ensures Value(s) == Value(s[..i]) + Pow(BASE, i) * Value(s[i..])
  {
    hide Pow;
    if i == |s| {
      assert s[..i] == s && s[i..] == [];
    } else {
      var n, last := |s| - 1, s[|s| - 1];
      ValueSplit(s[..n], i);
      assert s[..n][..i] == s[..i];
      assert s[i..][..n - i] == s[..n][i..];
      PowAdd(BASE, i, n - i);
      var v := Value(s[..n][i..]);
      calc {
        Pow(BASE, i) * Value(s[i..]);
        Pow(BASE, i) * (v + last * Pow(BASE, n - i));
        Pow(BASE, i) * v + Pow(BASE, i) * (last * Pow(BASE, n - i));
        { assert Pow(BASE, i) * (last * Pow(BASE, n - i)) == last * (Pow(BASE, i) * Pow(BASE, n - i)); }
        Pow(BASE, i) * v + last * Pow(BASE, n);
      }
    }
  }

  lemma {:induction false} ValueUpdate(s: seq<Limb>, k: nat, x: Limb)
    requires k < |s|
    ensures Value(s[k := x]) == Value(s) + (x - s[k]) * Pow(BASE, k)
  {
    hide Pow;
    var n := |s| - 1;
    var t := s[k := x];
    if k == n {
      assert t[..n] == s[..n];
      assert (x - s[k]) * Pow(BASE, k) == x * Pow(BASE, k) - s[k] * Pow(BASE, k);
    } else {
      ValueUpdate(s[..n], k, x);
      assert t[..n] == s[..n][k := x];
    }
  }

  lemma {:induction false} ValueOfZeros(s: seq<Limb>)
    ensures Value(s) == 0 <==> forall i | 0 <= i < |s| :: s[i] == 0
  {
    hide Pow;
    if s != [] {
      var n := |s| - 1;
      ValueOfZeros(s[..n]);
      if s[n] > 0 { MulPositive(s[n], Pow(BASE, n)); }
      assert forall i | 0 <= i < n :: s[..n][i] == s[i];
    }
  }

  /** The highest limb at which two numbers differ decides. */
  lemma ValueOrder(s: seq<Limb>, t: seq<Limb>, i: nat)
    requires |s| == |t| && i < |s| && s[i + 1..] == t[i + 1..] && s[i] < t[i]
    ensures Value(s) < Value(t)
  {
    hide Pow;
    ValueSplit(s, i + 1);
    ValueSplit(t, i + 1);
    ValueSnoc(s, i);
    ValueSnoc(t, i);
    ValueBound(s[..i]);
    LeadingDigit(Pow(BASE, i), s[i], Value(s[..i]), t[i]);
  }

  ghost const MODULUS: nat := Pow(BASE, WIDTH)

  function Low(n: int): Limb { n % BASE }
  function High(n: int): (h: int)
    ensures n >= 0 ==> h >= 0
  {
    n / BASE
  }

  /** `x >> n` and `x << n` on 32 bits. */
  function Shr(x: Limb, n: nat): Limb {
    DivBound(x, Pow(2, n));
    x / Pow(2, n)
  }

  function Shl(x: Limb, n: nat): Limb { x * Pow(2, n) % BASE }

  function OrLimb(x: Limb, y: Limb): Limb {
    BaseIsPower();
    OrBound(x, y, 32);
    Or(x, y)
  }

  /** The bit of value 2^n. */
  predicate TestBit(x: Limb, n: nat) { Shr(x, n) % 2 == 1 }

  // ----- disjoint bits

  /** Numbers without common bits: one is a multiple of the power of two the other is below. */
  lemma {:induction false} OrDisjoint(x: nat, y: nat, k: nat)
    requires x % Pow(2, k) == 0 && y < Pow(2, k)
    ensures Or(x, y) == x + y && Or(y, x) == x + y
  {
    if x != 0 && y != 0 {
      assert k > 0;
      HalfOfMultiple(x, Pow(2, k - 1));
      OrDisjoint(x / 2, y / 2, k - 1);
    }
  }

  lemma HalfOfMultiple(x: nat, m: nat)
    requires m > 0 && x % (2 * m) == 0
    ensures x % 2 == 0 && x / 2 % m == 0
  {
    var q := x / (2 * m);
    assert x == 2 * m * q;
    assert 2 * m * q == q * m * 2;
    DivModUnique(x, 2, q * m, 0);
    DivModUnique(x / 2, m, q, 0);
  }

  /** The or of two words is a word. */
  lemma {:induction false} OrBound(x: nat, y: nat, k: nat)
    requires x < Pow(2, k) && y < Pow(2, k)
    ensures Or(x, y) < Pow(2, k)
  {
    if x != 0 && y != 0 {
      assert k > 0;
      OrBound(x / 2, y / 2, k - 1);
    }
  }

  lemma BaseIsPower()
    ensures BASE == Pow(2, 32)
  {
    assert Pow(2, 8) == 256;
    PowAdd(2, 8, 8);
    PowAdd(2, 16, 16);
  }

  lemma LimbPower(i: nat)
    ensures Pow(BASE, i) == Pow(2, 32 * i) && Pow(BASE, i) > 0
  {
    hide Pow;
    BaseIsPower();
    PowPow(2, 32, i);
  }

  // ----- the bits of limbs

  /** A multiple of 2^(32k + r) has a limb k that is a multiple of 2^r. */
  lemma LimbOfMultiple(s: seq<Limb>, k: nat, r: nat)
    requires k < |s| && r <= 32 && Value(s) % Pow(2, 32 * k + r) == 0
    ensures s[k] % Pow(2, r) == 0
  {
    hide Pow, Value;
    LimbPower(k);
    PowAdd(2, 32 * k, r);
    var p, m := Pow(BASE, k), Pow(2, r);
    ValueSplit(s, k);
    ValueBound(s[..k]);
    ValueSplit(s[k..], 1);
    OneLimb(s[k..][..1]);
    PowOne(BASE);
    var low, high, rest := Value(s[..k]), Value(s[k..]), Value(s[k..][1..]);
    var q := Value(s) / (p * m);
    assert Value(s) == p * m * q;
    assert p * m * q == m * q * p;
    DivModUnique(Value(s), p, m * q, 0);
    assert high * p == p * high;
    DivModUnique(Value(s), p, high, low);
    assert high == m * q;
    BaseIsPower();
    PowAdd(2, r, 32 - r);
    var b := Pow(2, 32 - r);
    assert s[k] + m * b * rest == m * q;
    assert m * b * rest == m * (b * rest);
    assert m * (q - b * rest) == m * q - m * (b * rest);
    assert s[k] == (q - b * rest) * m;
    DivModUnique(s[k], m, q - b * rest, 0);
  }

  lemma DivBound(x: nat, m: nat)
    requires m > 0
    ensures 0 <= x / m <= x
  {
    MulMonotone(1, m, x / m);
  }

  lemma OneLimb(s: seq<Limb>)
    requires |s| == 1
    ensures Value(s) == s[0]
  {
    assert s[..0] == [];
    PowOne(BASE);
  }
}
