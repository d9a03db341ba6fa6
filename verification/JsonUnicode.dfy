/** The \uXXXX literals: every code point, written as one literal or as a surrogate pair of
    them, becomes its UTF-8 bytes. */
module JsonUnicode {
  import opened Octets
  import opened JsonText
  import opened JsonParse
  import opened JsonRoundTrip

  /** A hexadecimal digit in either case. */
  predicate DigitOf(b: Byte, n: int) {
    (0 <= n < 10 && b == ZERO + n) || (10 <= n < 16 && (b == 97 + (n - 10) || b == 65 + (n - 10)))
  }

  lemma HexValueExact(b: Byte, n: int)
    ensures HexValue(b) == n <==> DigitOf(b, n) || (n == -1 && forall m | 0 <= m < 16 :: !DigitOf(b, m))
  {
    assert HexValue(b) >= 0 ==> DigitOf(b, HexValue(b));
  }

  /** The four digits of a number, each in either case. */
  predicate HexOf(x: seq<Byte>, n: int) {
    && |x| == 4 && 0 <= n < 0x10000
    && DigitOf(x[0], n / 4096) && DigitOf(x[1], n / 256 % 16) && DigitOf(x[2], n / 16 % 16) && DigitOf(x[3], n % 16)
  }

  /** Some of four bytes is no digit. */
  predicate NoHex(x: seq<Byte>) { |x| == 4 && exists i | 0 <= i < 4 :: HexValue(x[i]) == -1 }

  lemma HexSum(n: nat)
    requires n < 0x10000
    ensures 4096 * (n / 4096) + 256 * (n / 256 % 16) + 16 * (n / 16 % 16) + n % 16 == n
    ensures n / 4096 < 16 && n / 256 == 16 * (n / 4096) + n / 256 % 16
  {
    var a, b := n / 16, n / 256;
    assert n == 16 * a + n % 16;
    assert b == a / 16 && a == 16 * b + a % 16;
    assert n / 4096 == b / 16 && b == 16 * (b / 16) + b % 16;
  }

  lemma HexDigits(a: nat, b: nat, c: nat, d: nat)
    requires a < 16 && b < 16 && c < 16 && d < 16
    ensures var n := 4096 * a + 256 * b + 16 * c + d;
      n < 0x10000 && n / 4096 == a && n / 256 % 16 == b && n / 16 % 16 == c && n % 16 == d
  {
    var n := 4096 * a + 256 * b + 16 * c + d;
    assert n / 16 == 256 * a + 16 * b + c;
    assert n / 256 == 16 * a + b;
  }

  /** Four digits are read as their number, in either case; and as zero if one is none. */
  lemma Hex4Exact(t: seq<Byte>, o: nat, n: int)
    requires o + 4 <= |t|
    ensures var x := t[o..o + 4];
      Hex4(t, o) == n <==> HexOf(x, n) || (n == 0 && NoHex(x))
  {
    hide HexValue, DigitOf;
    var x := t[o..o + 4];
    assert x[0] == t[o] && x[1] == t[o + 1] && x[2] == t[o + 2] && x[3] == t[o + 3];
    var a, b, c, d := HexValue(x[0]), HexValue(x[1]), HexValue(x[2]), HexValue(x[3]);
    if 0 <= n < 0x10000 {
      HexSum(n);
      HexValueExact(x[0], n / 4096);
      HexValueExact(x[1], n / 256 % 16);
      HexValueExact(x[2], n / 16 % 16);
      HexValueExact(x[3], n % 16);
    }
    HexRange(x[0]);
    HexRange(x[1]);
    HexRange(x[2]);
    HexRange(x[3]);
    if a >= 0 && b >= 0 && c >= 0 && d >= 0 { HexDigits(a, b, c, d); }
  }

  lemma HexRange(b: Byte)
    ensures -1 <= HexValue(b) < 16
  {
  }

  /** One \uXXXX sequence. */
  predicate UnitOf(x: seq<Byte>, n: int) { |x| == 6 && x[0] == BACKSLASH && x[1] == LOWER_U && HexOf(x[2..], n) }

  predicate BadUnit(x: seq<Byte>) { |x| == 6 && x[0] == BACKSLASH && x[1] == LOWER_U && NoHex(x[2..]) }

  /** The text of a code point, its digits in either case; those above the basic plane take a surrogate
      pair, and surrogates have none. */
  predicate LiteralOf(x: seq<Byte>, cp: nat) {
    if cp < 0x10000 then UnitOf(x, cp) && !Surrogate(cp)
    else cp <= 0x10FFFF && |x| == 12 && UnitOf(x[..6], High(cp)) && UnitOf(x[6..], Low(cp))
  }

  predicate Surrogate(cp: nat) { 0xD800 <= cp <= 0xDFFF }

  /** The two halves of a surrogate pair. */
  function High(cp: nat): nat
    requires cp >= 0x10000
  {
    0xD800 + (cp - 0x10000) / 1024
  }

  function Low(cp: nat): nat
    requires cp >= 0x10000
  {
    0xDC00 + (cp - 0x10000) % 1024
  }

  lemma Halves(cp: nat)
    requires 0x10000 <= cp <= 0x10FFFF
    ensures 0xD800 <= High(cp) <= 0xDBFF && 0xDC00 <= Low(cp) <= 0xDFFF
    ensures 0x10000 + High(cp) % 1024 * 1024 + Low(cp) % 1024 == cp
  {
    var h := (cp - 0x10000) / 1024;
    assert 0xD800 % 1024 == 0 && 0xDC00 % 1024 == 0;
    assert High(cp) % 1024 == h;
  }

  lemma FromHalves(high: nat, low: nat)
    requires 0xD800 <= high <= 0xDBFF && 0xDC00 <= low <= 0xDFFF
    ensures var cp := 0x10000 + high % 1024 * 1024 + low % 1024;
      0x10000 <= cp <= 0x10FFFF && High(cp) == high && Low(cp) == low
  {
    assert high % 1024 == high - 0xD800 && low % 1024 == low - 0xDC00;
  }

  /** A sequence that begins at an offset. */
  lemma UnitAt(t: seq<Byte>, o: nat, n: int)
    requires o + 6 <= |t| && t[o] == BACKSLASH && t[o + 1] == LOWER_U
    ensures var x := t[o..o + 6];
      Hex4(t, o + 2) == n <==> UnitOf(x, n) || (n == 0 && BadUnit(x))
  {
    hide Hex4, HexOf, NoHex;
    assert t[o..o + 6][2..] == t[o + 2..o + 6];
    Hex4Exact(t, o + 2, n);
  }

  /** What is decoded is the code point whose text, in either case, stands there; or zero, where the four
      bytes behind \u are not all digits. Nothing else is decoded. */
  lemma LiteralExact(t: seq<Byte>, o: nat, end: nat, cp: nat, n: nat)
    requires o + 1 < end <= |t| && t[o] == BACKSLASH && t[o + 1] == LOWER_U && n > 0
    ensures Utf16(t, o, end) == (cp, n) <==> o + n <= end && Decodes(t[o..o + n], cp)
  {
    hide Hex4, HexOf, NoHex, High, Low;
    if end - o >= 6 {
      var first := Hex4(t, o + 2);
      if 0xD800 <= first <= 0xDBFF { PairExact(t, o, end, cp, n); } else { SingleExact(t, o, end, cp, n); }
    }
  }

  /** A text and the code point it is decoded to. */
  predicate Decodes(x: seq<Byte>, cp: nat) { LiteralOf(x, cp) || (cp == 0 && BadUnit(x)) }

  lemma SingleExact(t: seq<Byte>, o: nat, end: nat, cp: nat, n: nat)
    requires o + 6 <= end <= |t| && t[o] == BACKSLASH && t[o + 1] == LOWER_U && n > 0
    requires !(0xD800 <= Hex4(t, o + 2) <= 0xDBFF)
    ensures Utf16(t, o, end) == (cp, n) <==> o + n <= end && Decodes(t[o..o + n], cp)
  {
    hide Hex4, HexOf, NoHex, High, Low, UnitOf, BadUnit;
    UnitAt(t, o, cp);
    UnitLength(t[o..o + 6], cp);
    if o + n <= end {
      var x := t[o..o + n];
      UnitLength(x, cp);
      if cp >= 0x10000 && LiteralOf(x, cp) {
        Halves(cp);
        assert x[..6] == t[o..o + 6];
        UnitAt(t, o, High(cp));
      }
    }
  }

  lemma UnitLength(x: seq<Byte>, n: int)
    ensures (UnitOf(x, n) ==> |x| == 6 && n < 0x10000) && (BadUnit(x) ==> |x| == 6)
  {
  }

  lemma PairExact(t: seq<Byte>, o: nat, end: nat, cp: nat, n: nat)
    requires o + 6 <= end <= |t| && t[o] == BACKSLASH && t[o + 1] == LOWER_U && n > 0
    requires 0xD800 <= Hex4(t, o + 2) <= 0xDBFF
    ensures Utf16(t, o, end) == (cp, n) <==> o + n <= end && Decodes(t[o..o + n], cp)
  {
    hide Hex4, HexOf, NoHex, High, Low, UnitOf, BadUnit;
    var first := Hex4(t, o + 2);
    if Utf16(t, o, end) == (cp, n) {
      var second := Hex4(t, o + 8);
      FromHalves(first, second);
      PairUnits(t, o);
      UnitAt(t, o, first);
      UnitAt(t, o + 6, second);
    }
    if o + n <= end && Decodes(t[o..o + n], cp) {
      var x := t[o..o + n];
      UnitLength(x, cp);
      if n == 12 {
        Halves(cp);
        PairUnits(t, o);
        UnitBegins(x[6..], Low(cp));
        assert t[o + 6] == x[6..][0] && t[o + 7] == x[6..][1];
        UnitAt(t, o, High(cp));
        UnitAt(t, o + 6, Low(cp));
      } else {
        UnitAt(t, o, cp);
      }
    }
  }

  lemma UnitBegins(x: seq<Byte>, n: int)
    requires UnitOf(x, n)
    ensures |x| == 6 && x[0] == BACKSLASH && x[1] == LOWER_U
  {
  }

  lemma PairUnits(t: seq<Byte>, o: nat)
    requires o + 12 <= |t|
    ensures t[o..o + 12][..6] == t[o..o + 6] && t[o..o + 12][6..] == t[o + 6..o + 12]
  {
  }

  /** The case of the digits does not matter. */
  lemma EitherCase(t: seq<Byte>, u: seq<Byte>, o: nat)
    requires o + 4 <= |t| == |u| && forall i | o <= i < o + 4 :: u[i] == if 65 <= t[i] <= 70 then t[i] + 32 else t[i]
    ensures Hex4(t, o) == Hex4(u, o)
  {
  }

  /** The six bits of a continuation byte. */
  function Six(b: Byte): int { b as int - 0x80 }
  function Lead(b: Byte, mark: int): int { b as int - mark }

  /** The code point of a byte sequence in UTF-8, or -1. */
  function CodePoint(s: seq<Byte>): int {
    if |s| == 1 && s[0] < 0x80 then s[0]
    else if |s| == 2 && 0xC0 <= s[0] < 0xE0 && Continues(s[1]) then 64 * Lead(s[0], 0xC0) + Six(s[1])
    else if |s| == 3 && 0xE0 <= s[0] < 0xF0 && Continues(s[1]) && Continues(s[2]) then
      4096 * Lead(s[0], 0xE0) + 64 * Six(s[1]) + Six(s[2])
    else if |s| == 4 && 0xF0 <= s[0] < 0xF8 && Continues(s[1]) && Continues(s[2]) && Continues(s[3]) then
      0x40000 * Lead(s[0], 0xF0) + 4096 * Six(s[1]) + 64 * Six(s[2]) + Six(s[3])
    else -1
  }

  predicate Continues(b: Byte) { 0x80 <= b < 0xC0 }

  lemma Sixes(cp: nat)
    ensures cp / 4096 == cp / 64 / 64 && cp / 0x40000 == cp / 4096 / 64
    ensures cp == 64 * (cp / 64) + cp % 64
  {
  }

  /** The bytes written for a code point are its UTF-8 form, and the shortest one. */
  lemma Utf8Trip(cp: nat)
    requires cp <= 0x10FFFF
    ensures CodePoint(Utf8(cp)) == cp
    ensures |Utf8(cp)| == if cp < 0x80 then 1 else if cp < 0x800 then 2 else if cp < 0x10000 then 3 else 4
  {
    Sixes(cp);
    Sixes(cp / 64);
    Sixes(cp / 4096);
  }
}
