/** Variable-length integers and amounts in streams of bytes. */
module VarInts {
  import opened Octets
  import opened Powers

  datatype Read<T> = Failed | Got(value: T, rest: seq<Byte>)

  // ----- numbers

  /** Base 128, high digits first; all but the last digit are one too small and marked. */
  function Marked(n: nat): seq<Byte> {
    if n <= 0x7F then [0x80 + n] else Marked(n / 128 - 1) + [0x80 + n % 128]
  }

  function VarInt(n: nat): seq<Byte> {
    if n <= 0x7F then [n] else Marked(n / 128 - 1) + [n % 128]
  }

  function ReadMore(n: nat, s: seq<Byte>): Read<nat>
    decreases |s|
  {
    if s == [] then Failed
    else if s[0] >= 0x80 then ReadMore(128 * n + s[0] as int % 128 + 1, s[1..])
    else Got(128 * n + s[0] as int % 128, s[1..])
  }

  function ReadVarInt(s: seq<Byte>): Read<nat> { ReadMore(0, s) }

  lemma {:induction false} ReadMarked(n: nat, s: seq<Byte>)
    ensures ReadMore(0, Marked(n) + s) == ReadMore(n + 1, s)
    decreases n
  {
    hide ReadMore;
    var q, r := n / 128, n % 128;
    var b: Byte := 0x80 + r;
    if n <= 0x7F {
      ReadOne(0, b, s);
    } else {
      Regroup(Marked(q - 1), b, s);
      ReadMarked(q - 1, [b] + s);
      ReadOne(q, b, s);
    }
  }

  lemma Regroup(a: seq<Byte>, b: Byte, c: seq<Byte>)
    ensures a + [b] + c == a + ([b] + c)
  {
  }

  lemma ReadOne(q: nat, b: Byte, s: seq<Byte>)
    requires b >= 0x80
    ensures ReadMore(q, [b] + s) == ReadMore(128 * q + b as int % 128 + 1, s)
  {
    assert ([b] + s)[1..] == s;
  }

  /** A number is read back from its text, whatever follows. */
  lemma VarIntTrip(n: nat, s: seq<Byte>)
    ensures ReadVarInt(VarInt(n) + s) == Got(n, s)
  {
    if n <= 0x7F {
      assert (VarInt(n) + s)[1..] == s;
    } else {
      var b: Byte := n % 128;
      assert VarInt(n) + s == Marked(n / 128 - 1) + ([b] + s);
      ReadMarked(n / 128 - 1, [b] + s);
      assert ([b] + s)[1..] == s;
    }
  }

  // ----- integers of a fixed width

  const TWO31: nat := 0x8000_0000
  const TWO32: nat := 0x1_0000_0000
  const TWO64: nat := 0x1_0000_0000_0000_0000

  /** What is written for an integer that may be negative: a negative one is below 0x80 and takes a
      single byte, of its lowest seven bits. */
  function VarIntOf(n: int): seq<Byte> { if n < 0 then [n % 128] else VarInt(n) }

  /** A reading in an unsigned type that has m values. */
  function Cut(r: Read<nat>, m: nat): Read<nat>
    requires m > 0
  {
    if r.Failed? then Failed else Got(r.value % m, r.rest)
  }

  function ReadCut(s: seq<Byte>, m: nat): Read<nat>
    requires m > 0
  {
    Cut(ReadVarInt(s), m)
  }

  lemma CutTrip(n: nat, m: nat, s: seq<Byte>)
    requires n < m
    ensures ReadCut(VarInt(n) + s, m) == Got(n, s)
  {
    VarIntTrip(n, s);
    SmallMod(n, m);
  }

  /** A 32-bit word read as a signed number. */
  function Int32(x: nat): int { if x >= TWO31 then x - TWO32 else x }

  function ReadInt32(s: seq<Byte>): Read<int> {
    var r := ReadCut(s, TWO32);
    if r.Failed? then Failed else Got(Int32(r.value), r.rest)
  }

  /** What is read back from a 32-bit integer. */
  function KeptInt(n: int): int { if n < 0 then n % 128 else n }

  /** A 32-bit integer is read back exactly if it is not negative. */
  lemma Int32Trip(n: int, s: seq<Byte>)
    requires 0 - TWO31 <= n < TWO31
    ensures ReadInt32(VarIntOf(n) + s) == Got(KeptInt(n), s)
    ensures KeptInt(n) == n <==> n >= 0
  {
    if n < 0 {
      assert VarIntOf(n) == VarInt(n % 128);
      CutTrip(n % 128, TWO32, s);
    } else {
      CutTrip(n, TWO32, s);
    }
  }

  /** Version -1 is written as the byte 0x7F and read back as 127. */
  lemma MinusOne(s: seq<Byte>)
    ensures VarIntOf(-1) == [0x7F] && ReadInt32(VarIntOf(-1) + s) == Got(127, s)
  {
    Int32Trip(-1, s);
  }

  /** The digits that a number still to be written takes, the last one first. */
  function Reversed(s: seq<Byte>): seq<Byte> {
    if s == [] then [] else Reversed(s[1..]) + [s[0]]
  }

  lemma ReversedAppend(s: seq<Byte>, b: Byte)
    ensures Reversed(s + [b]) == [b] + Reversed(s)
  {
    if s == [] {
      assert [b][1..] == [];
    } else {
      assert (s + [b])[1..] == s[1..] + [b];
      ReversedAppend(s[1..], b);
    }
  }

  /** What is still to be written for a number when some digits are collected already. */
  function Ahead(m: int, len: nat): seq<Byte>
    requires len > 0 ==> m >= 0
  {
    if len == 0 then VarIntOf(m) else Marked(m)
  }

  function Digit(m: int, len: nat): Byte { m % 128 + if len > 0 then 0x80 else 0x00 }

  lemma DigitTaken(m: int, len: nat, done: seq<Byte>)
    requires len > 0 ==> m >= 0
    ensures Ahead(m, len) + Reversed(done)
            == (if m <= 0x7F then [] else Ahead(m / 128 - 1, len + 1)) + Reversed(done + [Digit(m, len)])
  {
    ReversedAppend(done, Digit(m, len));
  }

  /** Write a number of some bits: the digits are collected last one first, in a buffer of a
      byte for every seven bits, and written in reverse. */
  method WriteVarInt(n: int, bits: nat) returns (out: seq<Byte>)
    requires bits > 0 && n < Pow(2, bits)
    ensures out == VarIntOf(n)
  {
    hide Pow, Ahead, Digit;
    var tmp := new Byte[(bits + 6) / 7];
    var len: nat, m: int := 0, n;
    ghost var room := bits;
    assert tmp[..0] == [];
    WriteStart(n);
    while true
      invariant 0 <= len < tmp.Length && 7 * len + room == bits && m < Pow(2, room) && room > 0
      invariant len > 0 ==> m >= 0
      invariant Ahead(m, len) + Reversed(tmp[..len]) == VarIntOf(n)
      decreases m
    {
      DigitTaken(m, len, tmp[..len]);
      tmp[len] := Digit(m, len);
      assert tmp[..len + 1] == tmp[..len] + [Digit(m, len)];
      if m <= 0x7F {
        break;
      }
      RoomLeft(m, room);
      m := m / 128 - 1;
      len := len + 1;
      room := room - 7;
    }
    out := PutReversed(tmp, len);
    assert [] + Reversed(tmp[..len + 1]) == Reversed(tmp[..len + 1]);
  }

  method PutReversed(tmp: array<Byte>, len: nat) returns (out: seq<Byte>)
    requires len < tmp.Length
    ensures out == Reversed(tmp[..len + 1])
  {
    out := [];
    var i := len;
    while i >= 0
      invariant -1 <= i <= len && out + Reversed(tmp[..i + 1]) == Reversed(tmp[..len + 1])
    {
      ReversedAppend(tmp[..i], tmp[i]);
      assert tmp[..i + 1] == tmp[..i] + [tmp[i]];
      assert out + ([tmp[i]] + Reversed(tmp[..i])) == out + [tmp[i]] + Reversed(tmp[..i]);
      out := out + [tmp[i]];
      i := i - 1;
    }
    assert tmp[..0] == [];
  }

  lemma WriteStart(n: int)
    ensures Ahead(n, 0) + Reversed([]) == VarIntOf(n)
  {
  }

  /** A number of more than seven bits has seven bits less after one digit. */
  lemma RoomLeft(m: nat, room: nat)
    requires m < Pow(2, room) && m > 0x7F
    ensures room > 7 && m / 128 - 1 < Pow(2, room - 7)
  {
    assert Pow(2, 7) == 128;
    if room <= 7 { PowGrows(2, room, 7); }
    PowAdd(2, 7, room - 7);
  }

  /** Reading goes on from numbers that are the same in the type. */
  lemma {:induction false} CutMore(n: nat, n': nat, s: seq<Byte>, m: nat)
    requires m > 0 && n % m == n' % m
    ensures Cut(ReadMore(n, s), m) == Cut(ReadMore(n', s), m)
    decreases |s|
  {
    if s != [] {
      var d := s[0] as int % 128;
      SameAfter(n, n', d, m);
      SameAfter(n, n', d + 1, m);
      if s[0] >= 0x80 { CutMore(128 * n + d + 1, 128 * n' + d + 1, s[1..], m); }
    }
  }

  lemma SameAfter(n: nat, n': nat, d: nat, m: nat)
    requires m > 0 && n % m == n' % m
    ensures (128 * n + d) % m == (128 * n' + d) % m
  {
    var r, q, q' := n % m, n / m, n' / m;
    assert n == r + m * q && n' == r + m * q';
    assert 128 * n + d == 128 * r + d + 128 * q * m && 128 * n' + d == 128 * r + d + 128 * q' * m by {
      assert 128 * (m * q) == 128 * q * m && 128 * (m * q') == 128 * q' * m;
    }
    ModOfSum(128 * r + d, m, 128 * q);
    ModOfSum(128 * r + d, m, 128 * q');
  }

  /** Read a number in an unsigned type that has m values. */
  method ReadVarIntLoop(s: seq<Byte>, m: nat) returns (r: Read<nat>)
    requires m > 0
    ensures r == ReadCut(s, m)
  {
    var n: nat, i: nat := 0, 0;
    assert s[0..] == s;
    while true
      invariant i <= |s| && n < m && Cut(ReadMore(n, s[i..]), m) == ReadCut(s, m)
      decreases |s| - i
    {
      if i == |s| {
        return Failed;
      }
      var chData := s[i];
      ghost var before, digit := n, chData as int % 128;
      i := i + 1;
      assert s[i - 1..][1..] == s[i..];
      n := (128 * n + chData as int % 128) % m;
      if chData >= 0x80 {
        n := (n + 1) % m;
        WrapTwice(128 * before + digit, m);
        CutMore(n, 128 * before + digit + 1, s[i..], m);
      } else {
        SmallMod(n, m);
        return Got(n, s[i..]);
      }
    }
  }

  lemma WrapTwice(n: nat, m: nat)
    requires m > 0
    ensures (n % m + 1) % m == (n + 1) % m && (n + 1) % m % m == (n + 1) % m
  {
    SmallMod((n + 1) % m, m);
    assert n + 1 == n % m + 1 + n / m * m;
    ModOfSum(n % m + 1, m, n / m);
  }

  // ----- amounts

  function Power10(e: nat): nat {
    if e == 0 then 1 else 10 * Power10(e - 1)
  }

  /** Take out up to nine factors of ten. */
  function Strip(n: nat, e: nat): (nat, nat)
    decreases 9 - e
  {
    if n % 10 == 0 && e < 9 then Strip(n / 10, e + 1) else (n, e)
  }

  function CompressAmount(n: nat): nat {
    if n == 0 then 0
    else
      var (m, e) := Strip(n, 0);
      if e < 9 then 1 + (m / 10 * 9 + m % 10 - 1) * 10 + e else 1 + (m - 1) * 10 + 9
  }

  function DecompressAmount(x: nat): nat {
    if x == 0 then 0
    else
      var e, y := (x - 1) % 10, (x - 1) / 10;
      (if e < 9 then y / 9 * 10 + y % 9 + 1 else y + 1) * Power10(e)
  }

  lemma {:induction false} StripIs(n: nat, e: nat)
    requires n > 0 && e <= 9
    ensures var r := Strip(n, e);
      e <= r.1 <= 9 && r.0 > 0 && n == r.0 * Power10(r.1 - e) && (r.1 < 9 ==> r.0 % 10 != 0)
    decreases 9 - e
  {
    if n % 10 == 0 && e < 9 {
      StripIs(n / 10, e + 1);
      var r := Strip(n / 10, e + 1);
      assert r.0 * (10 * Power10(r.1 - e - 1)) == 10 * (r.0 * Power10(r.1 - e - 1));
    }
  }

  lemma {:induction false} StripScaled(n: nat, e: nat, k: nat)
    requires n > 0 && e + k <= 9 && (n % 10 != 0 || e + k == 9)
    ensures Strip(n * Power10(e), k) == (n, e + k)
    decreases e
  {
    if e > 0 {
      var p := n * Power10(e - 1);
      assert n * (10 * Power10(e - 1)) == 10 * p;
      StripScaled(n, e - 1, k + 1);
    } else {
      assert n * Power10(0) == n;
    }
  }

  /** Amounts are read back from their compressed form. */
  lemma AmountTrip(n: nat)
    ensures DecompressAmount(CompressAmount(n)) == n
  {
    hide Strip, Power10;
    if n > 0 {
      StripIs(n, 0);
      var (m, e) := Strip(n, 0);
      if e < 9 { LowDigits(m / 10, m % 10, e); } else { HighDigits(m, e); }
    }
  }

  lemma LowDigits(q: nat, d: nat, e: nat)
    requires 1 <= d <= 9 && e < 9
    ensures var x := 1 + (q * 9 + d - 1) * 10 + e;
      (x - 1) % 10 == e && (x - 1) / 10 == q * 9 + d - 1 && (x - 1) / 10 / 9 == q && (x - 1) / 10 % 9 == d - 1
  {
  }

  lemma HighDigits(m: nat, e: nat)
    requires m > 0 && e == 9
    ensures var x := 1 + (m - 1) * 10 + 9; (x - 1) % 10 == 9 && (x - 1) / 10 == m - 1
  {
  }

  /** Every number is the compressed form of one amount. */
  lemma CompressedTrip(x: nat)
    ensures CompressAmount(DecompressAmount(x)) == x
  {
    if x > 0 {
      var e, y := (x - 1) % 10, (x - 1) / 10;
      var n := if e < 9 then y / 9 * 10 + y % 9 + 1 else y + 1;
      StripScaled(n, e, 0);
      Power10Positive(e);
      MulPositive(n, Power10(e));
      if e < 9 { assert n / 10 == y / 9 && n % 10 == y % 9 + 1; }
    }
  }

  lemma Power10Positive(e: nat)
    ensures Power10(e) > 0
  {
  }

  /** The largest amount without a zero at the end whose compressed form fits into 64 bits. */
  const MAX_COMPRESSIBLE: nat := 2_049_638_230_412_172_402

  /** The compressed form of an amount of 64 bits fits into 64 bits exactly if the amount ends in a
      zero or is not too large. */
  lemma CompressedFits(n: nat)
    requires n < TWO64
    ensures CompressAmount(n) < TWO64 <==> n % 10 == 0 || n <= MAX_COMPRESSIBLE
  {
    if n > 0 && n % 10 == 0 {
      StripIs(n / 10, 1);
      StripSmaller(n / 10, 1);
    }
  }

  lemma {:induction false} StripSmaller(n: nat, e: nat)
    requires e <= 9
    ensures Strip(n, e).0 <= n && Strip(n, e).1 <= 9
    decreases 9 - e
  {
    if n % 10 == 0 && e < 9 { StripSmaller(n / 10, e + 1); }
  }

  /** The loop of CompressAmount. */
  method StripTens(amount: nat) returns (n: nat, e: nat)
    requires amount > 0
    ensures (n, e) == Strip(amount, 0) && e <= 9 && n > 0 && (e < 9 ==> n % 10 != 0)
  {
    n, e := amount, 0;
    while n % 10 == 0 && e < 9
      invariant n > 0 && e <= 9 && Strip(n, e) == Strip(amount, 0)
      decreases 9 - e
    {
      n := n / 10;
      e := e + 1;
    }
  }

  /** CompressAmount in 64-bit arithmetic. */
  method Compress(amount: nat) returns (r: nat)
    requires amount < TWO64
    ensures r == CompressAmount(amount) % TWO64
    ensures r == CompressAmount(amount) <==> amount % 10 == 0 || amount <= MAX_COMPRESSIBLE
  {
    hide Strip;
    CompressedFits(amount);
    if CompressAmount(amount) < TWO64 { SmallMod(CompressAmount(amount), TWO64); }
    if amount == 0 {
      return 0;
    }
    var n, e := StripTens(amount);
    if e < 9 {
      var d := n % 10;
      assert 1 <= d <= 9;
      r := (1 + (n / 10 * 9 + d - 1) * 10 + e) % TWO64;
    } else {
      r := (1 + (n - 1) * 10 + 9) % TWO64;
    }
  }

  /** The loop of DecompressAmount, in 64-bit arithmetic. */
  method Decompress(compressed: nat) returns (r: nat)
    requires compressed < TWO64
    ensures r == DecompressAmount(compressed) % TWO64
  {
    if compressed == 0 {
      return 0;
    }
    var x := compressed - 1;
    var e := x % 10;
    x := x / 10;
    var n := 0;
    if e < 9 {
      var d := x % 9 + 1;
      x := x / 9;
      n := x * 10 + d;
    } else {
      n := x + 1;
    }
    r := Scale(n, e);
  }

  /** Multiply by ten as often as wanted, in 64-bit arithmetic. */
  method Scale(start: nat, times: nat) returns (n: nat)
    requires start < TWO64
    ensures n == start * Power10(times) % TWO64
  {
    hide Power10;
    n := start;
    var e := times;
    while e > 0
      invariant 0 <= e && 0 <= n < TWO64 && n * Power10(e) % TWO64 == start * Power10(times) % TWO64
    {
      WrapStep(n, e);
      n := n * 10 % TWO64;
      e := e - 1;
    }
    WrapEnd(n);
  }

  lemma WrapEnd(n: nat)
    requires n < TWO64
    ensures n * Power10(0) % TWO64 == n
  {
    assert n * Power10(0) == n;
    SmallMod(n, TWO64);
  }

  lemma WrapStep(n: nat, e: nat)
    requires e > 0
    ensures n * 10 % TWO64 * Power10(e - 1) % TWO64 == n * Power10(e) % TWO64
  {
    var p, q := Power10(e - 1), n * 10 / TWO64;
    assert n * 10 == n * 10 % TWO64 + q * TWO64;
    assert n * (10 * p) == n * 10 * p;
    assert (n * 10 % TWO64 + q * TWO64) * p == n * 10 % TWO64 * p + q * p * TWO64;
    ModOfSum(n * 10 % TWO64 * p, TWO64, q * p);
  }
}
