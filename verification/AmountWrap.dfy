/** What becomes of an amount whose compressed form does not fit into 64 bits: it is cut to 64 bits,
    and never decompressed to the amount again. */
module AmountWrap {
  import opened Powers
  import opened VarInts

  const TWO63: nat := 0x8000_0000_0000_0000

  /** What is read back from an amount of 64 bits, compressed and decompressed in 64 bits. */
  function KeptAmount(u: nat): (r: nat)
    ensures r < TWO64
  {
    DecompressAmount(CompressAmount(u) % TWO64) % TWO64
  }

  // A compressed form that is cut by k times 2^64 has its last digit, the exponent, changed to
  // ShiftedTo(k), and the rest of it reduced by Shift(k).

  function ShiftedTo(k: nat): nat { 4 * k % 10 }

  function Shift(k: nat): nat {
    if k == 1 then 1844674407370955162
    else if k == 2 then 3689348814741910324
    else if k == 3 then 5534023222112865485
    else if k == 4 then 7378697629483820647
    else if k == 5 then 9223372036854775808
    else if k == 6 then 11068046444225730970
    else if k == 7 then 12912720851596686132
    else 14757395258967641293
  }

  lemma ShiftIs(k: nat)
    requires 1 <= k <= 8
    ensures 10 * Shift(k) == k * TWO64 + ShiftedTo(k)
  {
  }

  lemma CutDigits(k: nat, s: nat, y: int)
    requires 1 <= k <= 8 && y == 1 + 10 * s - k * TWO64 && y >= 0
    ensures y >= 1 && (y - 1) % 10 == ShiftedTo(k) && (y - 1) / 10 == s - Shift(k)
  {
    ShiftIs(k);
    hide Shift;
  }

  // The amount 10 q + d, with an even last digit d, would have to solve a linear equation modulo
  // 2^64. Modulo 2^63 its coefficient, half of 10 (10^e - 1), is invertible.

  function Factor(e: nat): nat { if e == 2 then 495 else if e == 4 then 49995 else if e == 6 then 4999995 else 499999995 }

  function Inverse(e: nat): nat {
    if e == 2 then 8068121397895187727 else if e == 4 then 6380997940008660579
    else if e == 6 then 5868474094666536435 else 5594053834762946099
  }

  lemma IsInverse(e: nat) returns (t: nat)
    requires e == 2 || e == 4 || e == 6 || e == 8
    ensures Inverse(e) * Factor(e) == 1 + t * TWO63
  {
    t := if e == 2 then 433 else if e == 4 then 34588 else if e == 6 then 3181303 else 303254263;
  }

  /** A multiple of 2^63 that is a multiple of an invertible number comes from one. */
  lemma OneSolution(f: nat, inv: nat, t: nat, q: nat, q': nat, m: int)
    requires inv * f == 1 + t * TWO63 && f * (q - q') == TWO63 * m && q < TWO63 && q' < TWO63
    ensures q == q'
  {
    var h, x := TWO63, q - q';
    assert inv * (f * x) == (inv * f) * x && inv * (h * m) == (inv * m) * h;
    assert (1 + t * h) * x == x + (t * x) * h && (inv * m) * h - (t * x) * h == (inv * m - t * x) * h;
    var n := inv * m - t * x;
    assert x == n * h;
  }

  /** The solution for each k and d: the last digit of the amount that is read, by how much its other
      digits are less, q below 2^63, and the multiple of 2^64 in the equation. */
  datatype Solution = Solution(digit: nat, less: nat, q: nat, j: int)

  function SolutionOf(k: nat, d: nat): Solution {
    if k == 1 then
      if d == 2 then Solution(9, 204963823041217241, 8408702848023182971, 44468)
      else if d == 4 then Solution(2, 204963823041217240, 1528855063276942358, 7176)
      else if d == 6 then Solution(4, 204963823041217240, 5218203878018852681, 27174)
      else Solution(6, 204963823041217240, 8907552692760763004, 47172)
    else if k == 2 then
      if d == 2 then Solution(7, 409927646082434481, 1478102203758023347, 57905858)
      else if d == 4 then Solution(9, 409927646082434481, 5167451018499933670, 257905856)
      else if d == 6 then Solution(2, 409927646082434480, 3292761304803938201, 156278724)
      else Solution(4, 409927646082434480, 6982110119545848524, 356278722)
    else if k == 3 then
      if d == 2 then Solution(6, 614891469123651721, 5148939675793002791, 243)
      else if d == 4 then Solution(8, 614891469123651721, 8838288490534913114, 441)
      else if d == 6 then Solution(1, 614891469123651720, 5726564995272796831, 274)
      else Solution(3, 614891469123651720, 192541773159931346, -23)
    else if k == 4 then
      if d == 2 then Solution(4, 819855292164868961, 1583391593534596659, 413913)
      else if d == 4 then Solution(6, 819855292164868961, 5272740408276506982, 2413911)
      else if d == 6 then Solution(8, 819855292164868961, 8962089223018417305, 4413909)
      else Solution(1, 819855292164868960, 6950189379370626668, 3323257)
    else if k == 6 then
      if d == 2 then Solution(1, 1229782938247303441, 4137957002286368699, 15763)
      else if d == 4 then Solution(3, 1229782938247303441, 7827305817028279022, 35761)
      else if d == 6 then Solution(5, 1229782938247303441, 2293282594915413537, 5764)
      else Solution(7, 1229782938247303441, 5982631409657323860, 25762)
    else if k == 7 then
      if d == 2 then Solution(8, 1434746761288520682, 4145966937329963059, 146975538)
      else if d == 4 then Solution(1, 1434746761288520681, 2271277223633967590, 45348406)
      else if d == 6 then Solution(3, 1434746761288520681, 5960626038375877913, 245348404)
      else Solution(5, 1434746761288520681, 426602816263012428, -54651593)
    else
      if d == 2 then Solution(7, 1639710584329737922, 3854976146492388901, 118)
      else if d == 4 then Solution(9, 1639710584329737922, 7544324961234299224, 316)
      else if d == 6 then Solution(2, 1639710584329737921, 4432601465972182941, 149)
      else Solution(4, 1639710584329737921, 8121950280714093264, 347)
  }

  function Ten(e: nat): nat { if e == 2 then 100 else if e == 4 then 1_0000 else if e == 6 then 100_0000 else 1_0000_0000 }

  /** Whether the compressed form lies between k and k + 1 times 2^64. */
  predicate InRange(k: nat, d: nat, q: int) { k * TWO64 <= 1 + 10 * (9 * q + d - 1) < (k + 1) * TWO64 }

  predicate Solves(k: nat, d: nat, s: Solution) {
    && 1 <= s.digit <= 9 && 9 * s.less == Shift(k) + s.digit - d && s.q < TWO63
    && 2 * Factor(ShiftedTo(k)) * s.q == d + Ten(ShiftedTo(k)) * (10 * s.less - s.digit) + TWO64 * s.j
  }

  predicate Even(d: nat) { d == 2 || d == 4 || d == 6 || d == 8 }

  lemma SolutionsLow(k: nat, d: nat)
    requires 1 <= k <= 4 && Even(d)
    ensures Solves(k, d, SolutionOf(k, d)) && !InRange(k, d, SolutionOf(k, d).q)
  {
  }

  lemma SolutionsHigh(k: nat, d: nat)
    requires 6 <= k <= 8 && Even(d)
    ensures Solves(k, d, SolutionOf(k, d)) && !InRange(k, d, SolutionOf(k, d).q)
  {
  }

  /** The digits 10 q' + d' that are read, and the exponent behind them, for an amount 10 q + d. */
  predicate ReadAs(k: nat, d: nat, q: int, q': int, d': nat) {
    1 <= d <= 9 && 1 <= d' <= 9 && 9 * q' + d' - 1 == 9 * q + d - 1 - Shift(k)
  }

  /** They are the amount, up to m times 2^64. */
  predicate SameAmount(k: nat, d: nat, q: int, q': int, d': nat, m: int) {
    (10 * q' + d') * Power10(ShiftedTo(k)) == 10 * q + d + m * TWO64
  }

  lemma TenIs(k: nat)
    requires 1 <= k <= 8
    ensures Power10(ShiftedTo(k)) == if k == 5 then 1 else Ten(ShiftedTo(k))
    ensures k != 5 ==> ShiftedTo(k) in {2, 4, 6, 8} && Ten(ShiftedTo(k)) % 2 == 0
    ensures k != 5 ==> 10 * (Ten(ShiftedTo(k)) - 1) == 2 * Factor(ShiftedTo(k))
  {
    var e := ShiftedTo(k);
    assert Power10(2) == 100;
    assert Power10(4) == 10 * (10 * Power10(2));
    assert Power10(6) == 10 * (10 * Power10(4));
    assert Power10(8) == 10 * (10 * Power10(6));
  }

  /** Cut by five times 2^64, the exponent stays zero and the amount read is less than 2^64 below. */
  lemma NotByFive(d: nat, q: nat, q': int, d': nat, m: int)
    requires ReadAs(5, d, q, q', d')
    ensures !SameAmount(5, d, q, q', d', m)
  {
    assert ShiftedTo(5) == 0 && Power10(0) == 1 && (10 * q' + d') * 1 == 10 * q' + d';
  }

  lemma NotIfOdd(k: nat, d: nat, q: nat, q': int, d': nat, m: int)
    requires 1 <= k <= 8 && k != 5 && d % 2 == 1
    ensures !SameAmount(k, d, q, q', d', m)
  {
    TenIs(k);
    hide Power10, Ten, Shift;
    var t := Ten(ShiftedTo(k)) / 2;
    assert (10 * q' + d') * (2 * t) == 2 * ((10 * q' + d') * t);
  }

  lemma NotTheCandidate(k: nat, d: nat, q: nat, q': int, d': nat, m: int, s: Solution)
    requires 1 <= k <= 8 && k != 5 && ReadAs(k, d, q, q', d') && InRange(k, d, q)
    requires Solves(k, d, s) && !InRange(k, d, s.q)
    ensures !SameAmount(k, d, q, q', d', m)
  {
    TenIs(k);
    var e := ShiftedTo(k);
    var f, t := Factor(e), Ten(e);
    assert d' == s.digit && q' == q - s.less;
    if SameAmount(k, d, q, q', d', m) {
      Equation(t, f, q, d, s.less, s.digit, m);
      Difference(f, q, s.q, m, s.j, d + t * (10 * s.less - s.digit));
      var c := IsInverse(e);
      OneSolution(f, Inverse(e), c, q, s.q, m - s.j);
    }
  }

  /** No amount whose compressed form lies between k and k + 1 times 2^64 is read back. */
  lemma NeverSame(k: nat, d: nat, q: nat, q': int, d': nat, m: int)
    requires 1 <= k <= 8 && ReadAs(k, d, q, q', d') && InRange(k, d, q)
    ensures !SameAmount(k, d, q, q', d', m)
  {
    LastDigit(k, d, q, q', d');
    hide ReadAs, SameAmount, SolutionOf, Solves, InRange;
    if k == 5 {
      NotByFive(d, q, q', d', m);
    } else if d % 2 == 0 {
      if k <= 4 { SolutionsLow(k, d); } else { SolutionsHigh(k, d); }
      NotTheCandidate(k, d, q, q', d', m, SolutionOf(k, d));
    } else {
      NotIfOdd(k, d, q, q', d', m);
    }
  }

  lemma LastDigit(k: nat, d: nat, q: nat, q': int, d': nat)
    requires ReadAs(k, d, q, q', d')
    ensures d % 2 == 0 ==> Even(d)
  {
  }

  lemma Equation(t: int, f: int, q: int, d: int, less: int, digit: int, m: int)
    requires 10 * (t - 1) == 2 * f && (10 * (q - less) + digit) * t == 10 * q + d + m * TWO64
    ensures 2 * f * q == d + t * (10 * less - digit) + TWO64 * m
  {
    assert (10 * (q - less) + digit) * t == 10 * (q * t) - t * (10 * less - digit);
    assert 10 * (t - 1) * q == 10 * (q * t) - 10 * q;
  }

  lemma Difference(f: int, q: int, q': int, m: int, j: int, p: int)
    requires 2 * f * q == p + TWO64 * m && 2 * f * q' == p + TWO64 * j
    ensures f * (q - q') == TWO63 * (m - j)
  {
    assert 2 * f * q == 2 * (f * q) && 2 * f * q' == 2 * (f * q') && f * (q - q') == f * q - f * q';
  }

  /** An amount of 64 bits is kept exactly if its compressed form fits into 64 bits. */
  lemma KeptExactly(u: nat)
    requires u < TWO64
    ensures KeptAmount(u) == u <==> CompressAmount(u) < TWO64
  {
    AmountTrip(u);
    SmallMod(u, TWO64);
    if CompressAmount(u) < TWO64 {
      SmallMod(CompressAmount(u), TWO64);
    } else {
      CompressedFits(u);
      TooLong(u);
    }
  }

  lemma TooLong(u: nat)
    requires u < TWO64 && u % 10 != 0 && CompressAmount(u) >= TWO64
    ensures KeptAmount(u) != u
  {
    var q, d, x := u / 10, u % 10, CompressAmount(u);
    assert Strip(u, 0) == (u, 0);
    assert x == 1 + 10 * (9 * q + d - 1);
    var k, y := x / TWO64, x % TWO64;
    CutOnce(x, k);
    CutDigits(k, 9 * q + d - 1, y);
    var z := (y - 1) / 10;
    var w := DecompressAmount(y);
    ReadBack(y, ShiftedTo(k), z);
    NeverSame(k, d, q, z / 9, z % 9 + 1, w / TWO64);
  }

  lemma CutOnce(x: nat, k: nat)
    requires TWO64 <= x < 9 * TWO64 && k == x / TWO64
    ensures 1 <= k <= 8 && x % TWO64 == x - k * TWO64
  {
  }

  lemma ReadBack(y: nat, e: nat, z: nat)
    requires y >= 1 && (y - 1) % 10 == e < 9 && (y - 1) / 10 == z
    ensures DecompressAmount(y) == (10 * (z / 9) + z % 9 + 1) * Power10(e)
  {
  }
}
