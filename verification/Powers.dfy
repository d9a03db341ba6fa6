/** Powers and the arithmetic of quotients and remainders. */
module Powers {

  function Max(x: nat, y: nat): nat { if x < y then y else x }

  function Pow(b: nat, e: nat): (p: nat)
    ensures b > 0 ==> p > 0
  {
    if e == 0 then 1 else b * Pow(b, e - 1)
  }

  lemma MulPositive(x: nat, y: nat)
    requires x > 0 && y > 0
    ensures x * y > 0
  {
  }

  lemma {:induction false} PowAdd(b: nat, m: nat, n: nat)
    ensures Pow(b, m + n) == Pow(b, m) * Pow(b, n)
  {
    if m > 0 {
      PowAdd(b, m - 1, n);
      MulAssoc(b, Pow(b, m - 1), Pow(b, n));
    }
  }

  lemma {:induction false} PowPow(b: nat, m: nat, n: nat)
    ensures Pow(Pow(b, m), n) == Pow(b, m * n)
  {
    if n > 0 {
      PowPow(b, m, n - 1);
      PowAdd(b, m, m * (n - 1));
      assert m + m * (n - 1) == m * n;
    } else {
      assert m * n == 0;
    }
  }

  lemma PowGrows(b: nat, m: nat, n: nat)
    requires m <= n && b > 0
    ensures Pow(b, m) <= Pow(b, n)
  {
    PowAdd(b, m, n - m);
    MulAtLeast(Pow(b, m), Pow(b, n - m));
  }

  lemma PowGrowsStrictly(b: nat, m: nat, n: nat)
    requires m < n && b > 1
    ensures Pow(b, m) < Pow(b, n)
  {
    PowGrows(b, m + 1, n);
    assert Pow(b, m + 1) == b * Pow(b, m);
    MulMonotone(2, b, Pow(b, m));
  }

  /** The exponents of two powers compare like the powers. */
  lemma PowBelow(b: nat, m: nat, n: nat)
    requires b > 1 && Pow(b, m) < Pow(b, n)
    ensures m < n
  {
    if n <= m { PowGrows(b, n, m); }
  }

  lemma MulAssoc(x: int, y: int, z: int)
    ensures x * y * z == x * (y * z)
  {
  }

  lemma MulAtLeast(x: nat, y: nat)
    requires y >= 1
    ensures x <= x * y
  {
  }

  lemma MulMonotone(x: nat, y: nat, z: nat)
    requires x <= y
    ensures x * z <= y * z
  {
  }

  /** The leading digit decides. */
  lemma LeadingDigit(m: int, q: int, r: int, q': int)
    requires q < q' && r < m && m > 0
    ensures q * m + r < q' * m
  {
    MulMonotone(1, q' - q, m);
    assert (q' - q) * m == q' * m - q * m;
  }

  /** A quotient and a remainder are determined by what they are for. */
  lemma DivModUnique(x: int, m: int, q: int, r: int)
    requires m > 0 && x == q * m + r && 0 <= r < m
    ensures x / m == q && x % m == r
  {
    if q < x / m { LeadingDigit(m, q, r, x / m); }
    if x / m < q { LeadingDigit(m, x / m, x % m, q); }
  }

  lemma SmallMod(x: nat, m: nat)
    requires x < m
    ensures x % m == x && x / m == 0
  {
  }

  /** The largest multiple that is not above a number. */
  lemma Cut(x: nat, m: nat)
    requires m > 0
    ensures 0 <= x - x % m == x / m * m && x / m * m / m == x / m && x / m * m % m == 0
  {
    DivModUnique(x / m * m, m, x / m, 0);
  }

  lemma ModOfSum(x: int, m: int, k: int)
    requires m > 0
    ensures (x + k * m) % m == x % m
  {
    DivModUnique(x + k * m, m, x / m + k, x % m) by {
      assert (x / m + k) * m == x / m * m + k * m;
    }
  }

  lemma DivSmaller(x: nat, m: nat)
    requires m > 0
    ensures x / m * m <= x < (x / m + 1) * m
  {
  }

  /** Dividing by a product is dividing twice. */
  lemma DivDiv(x: nat, m: nat, n: nat)
    requires m > 0 && n > 0
    ensures m * n > 0 && x / (m * n) == x / m / n
  {
    MulPositive(m, n);
    var q, r := x / m / n, x / m % n;
    assert x / m == q * n + r;
    var s := x % m;
    calc {
      x;
      (q * n + r) * m + s;
      { assert (q * n + r) * m == q * n * m + r * m; assert q * n * m == q * (m * n); }
      q * (m * n) + (r * m + s);
    }
    assert r * m + s < m * n by { MulMonotone(r + 1, n, m); assert (r + 1) * m == r * m + m; }
    DivModUnique(x, m * n, q, r * m + s);
  }

  lemma MultipleOf(x: nat, m: nat, n: nat)
    requires m > 0 && n > 0 && m * n > 0 && x % (m * n) == 0
    ensures x % m == 0
  {
    var q := x / (m * n);
    assert x == q * (m * n);
    assert q * (m * n) == q * n * m;
    DivModUnique(x, m, q * n, 0);
  }

  lemma ProductMod(m: nat, n: nat)
    requires m > 0
    ensures m * n % m == 0 && m * n / m == n
  {
    DivModUnique(m * n, m, n, 0);
  }
}
