/** Bech32 strings: a human-readable part, the separator 1, and a data part of 5-bit symbols
    that ends with six symbols of checksum. What encoding and decoding compute, and that they
    are inverse to each other. */
module Bech32Codec {
  import opened Octets
  import opened Bech32Poly

  const ONE: Byte := 49
  const LIMIT: nat := 1023

  /** The characters "qpzry9x8gf2tvdw0s3jn54khce6mua7l" of the data part. */
  function CharOf(v: Byte): Byte {
    if v == 0 then 113 else if v == 1 then 112 else if v == 2 then 122 else if v == 3 then 114
    else if v == 4 then 121 else if v == 5 then 57 else if v == 6 then 120 else if v == 7 then 56
    else if v == 8 then 103 else if v == 9 then 102 else if v == 10 then 50 else if v == 11 then 116
    else if v == 12 then 118 else if v == 13 then 100 else if v == 14 then 119 else if v == 15 then 48
    else if v == 16 then 115 else if v == 17 then 51 else if v == 18 then 106 else if v == 19 then 110
    else if v == 20 then 53 else if v == 21 then 52 else if v == 22 then 107 else if v == 23 then 104
    else if v == 24 then 99 else if v == 25 then 101 else if v == 26 then 54 else if v == 27 then 109
    else if v == 28 then 117 else if v == 29 then 97 else if v == 30 then 55 else 108
  }

  /** The symbol of a character in either case; -1 if it is none. */
  function RevOf(c: Byte): int {
    if c == 113 || c == 81 then 0 else if c == 112 || c == 80 then 1 else if c == 122 || c == 90 then 2
    else if c == 114 || c == 82 then 3 else if c == 121 || c == 89 then 4 else if c == 57 then 5
    else if c == 120 || c == 88 then 6 else if c == 56 then 7 else if c == 103 || c == 71 then 8
    else if c == 102 || c == 70 then 9 else if c == 50 then 10 else if c == 116 || c == 84 then 11
    else if c == 118 || c == 86 then 12 else if c == 100 || c == 68 then 13 else if c == 119 || c == 87 then 14
    else if c == 48 then 15 else if c == 115 || c == 83 then 16 else if c == 51 then 17
    else if c == 106 || c == 74 then 18 else if c == 110 || c == 78 then 19 else if c == 53 then 20
    else if c == 52 then 21 else if c == 107 || c == 75 then 22 else if c == 104 || c == 72 then 23
    else if c == 99 || c == 67 then 24 else if c == 101 || c == 69 then 25 else if c == 54 then 26
    else if c == 109 || c == 77 then 27 else if c == 117 || c == 85 then 28 else if c == 97 || c == 65 then 29
    else if c == 55 then 30 else if c == 108 || c == 76 then 31 else -1
  }

  predicate IsLower(c: Byte) { 97 <= c <= 122 }
  predicate IsUpper(c: Byte) { 65 <= c <= 90 }
  predicate IsPrintable(c: Byte) { 33 <= c <= 126 }
  function LowerCase(c: Byte): Byte { if IsUpper(c) then c - 65 + 97 else c }

  lemma RevOfChar(v: Byte)
    requires v <= 31
    ensures RevOf(CharOf(v)) == v && IsPrintable(CharOf(v)) && !IsUpper(CharOf(v)) && CharOf(v) != ONE
  {
  }

  lemma CharOfRev(c: Byte)
    requires RevOf(c) != -1
    ensures 0 <= RevOf(c) <= 31 && CharOf(RevOf(c)) == LowerCase(c) && c != ONE
  {
  }

  // ----- words

  function WordOf(x: Byte): bv8 { x as bv8 }
  function ByteOf(w: bv8): Byte { w as int }

  lemma ByteOfWord(x: Byte)
    requires x <= 31
    ensures ByteOf(WordOf(x)) == x
  {
  }

  lemma WordOfByte(w: bv8)
    ensures WordOf(ByteOf(w)) == w
  {
  }

  lemma SmallWord(x: Byte)
    requires x <= 31
    ensures WordOf(x) <= 31
  {
  }

  lemma SmallByte(w: bv8)
    requires w <= 31
    ensures ByteOf(w) <= 31
  {
  }

  lemma ZeroWord()
    ensures WordOf(0) == 0
  {
  }

  function Words(v: seq<Byte>): (w: seq<bv8>)
    ensures |w| == |v| && forall i | 0 <= i < |v| :: w[i] == WordOf(v[i])
  {
    seq(|v|, i requires 0 <= i < |v| => WordOf(v[i]))
  }

  function Bytes(w: seq<bv8>): (v: seq<Byte>)
    ensures |v| == |w| && forall i | 0 <= i < |w| :: v[i] == ByteOf(w[i])
  {
    var v: seq<Byte> := seq(|w|, i requires 0 <= i < |w| => ByteOf(w[i]));
    v
  }

  predicate Fives(v: seq<Byte>) { forall i | 0 <= i < |v| :: v[i] <= 31 }

  lemma WordsOfBytes(w: seq<bv8>)
    ensures Words(Bytes(w)) == w
  {
    hide WordOf, ByteOf;
    forall i | 0 <= i < |w| ensures Words(Bytes(w))[i] == w[i] { WordOfByte(w[i]); }
  }

  lemma BytesOfWords(v: seq<Byte>)
    requires Fives(v)
    ensures Bytes(Words(v)) == v
  {
    hide WordOf, ByteOf;
    forall i | 0 <= i < |v| ensures Bytes(Words(v))[i] == v[i] { ByteOfWord(v[i]); }
  }

  lemma WordsAppend(u: seq<Byte>, v: seq<Byte>)
    ensures Words(u + v) == Words(u) + Words(v)
  {
    hide WordOf;
  }

  lemma SmallWords(v: seq<Byte>)
    requires Fives(v)
    ensures Symbols(Words(v))
  {
    hide WordOf;
    forall i | 0 <= i < |v| ensures Symbol(Words(v)[i]) { SmallWord(v[i]); }
  }

  lemma SmallBytes(w: seq<bv8>)
    requires Symbols(w)
    ensures Fives(Bytes(w))
  {
    hide ByteOf;
    forall i | 0 <= i < |w| ensures Bytes(w)[i] <= 31 { SmallByte(w[i]); }
  }

  // ----- checksums

  /** The human-readable part as it enters the checksum. */
  function ExpandHRP(hrp: seq<Byte>): (r: seq<Byte>)
    ensures |r| == 2 * |hrp| + 1
  {
    var high: seq<Byte> := seq(|hrp|, i requires 0 <= i < |hrp| => hrp[i] / 32);
    var low: seq<Byte> := seq(|hrp|, i requires 0 <= i < |hrp| => hrp[i] % 32);
    high + [0] + low
  }

  function Poly(v: seq<Byte>): bv32 { PolyMod(Words(v)) }

  predicate VerifyChecksum(hrp: seq<Byte>, values: seq<Byte>) {
    Poly(ExpandHRP(hrp) + values) == 1
  }

  const NO_CHECKSUM: seq<Byte> := [0, 0, 0, 0, 0, 0]

  function CreateChecksum(hrp: seq<Byte>, values: seq<Byte>): (r: seq<Byte>)
    ensures |r| == 6
  {
    Bytes(Unpack(Xor(Poly(ExpandHRP(hrp) + values + NO_CHECKSUM), 1)))
  }

  /** Of all six symbols exactly the checksum makes the values verify. */
  lemma ChecksumVerifies(hrp: seq<Byte>, values: seq<Byte>, c: seq<Byte>)
    requires |c| == 6 && Fives(c)
    ensures VerifyChecksum(hrp, values + c) <==> c == CreateChecksum(hrp, values)
    ensures Fives(CreateChecksum(hrp, values))
  {
    hide Words, Bytes, PolyMod, Unpack, Xor, WordOf, ByteOf, ExpandHRP;
    var e := ExpandHRP(hrp) + values;
    assert ExpandHRP(hrp) + (values + c) == e + c;
    WordsAppend(e, c);
    WordsAppend(e, NO_CHECKSUM);
    ZeroWord();
    assert Words(NO_CHECKSUM) == Zeros(6);
    SmallWords(c);
    ChecksumExact(Words(e), Words(c));
    var u := Unpack(Xor(Poly(e + NO_CHECKSUM), 1));
    WordsOfBytes(u);
    BytesOfWords(c);
    SmallBytes(u);
  }

  // ----- encoding

  function Chars(v: seq<Byte>): (r: seq<Byte>)
    requires Fives(v)
    ensures |r| == |v| && forall i | 0 <= i < |v| :: r[i] == CharOf(v[i])
  {
    seq(|v|, i requires 0 <= i < |v| => CharOf(v[i]))
  }

  /** The empty string if a value is no symbol. */
  function Encode(hrp: seq<Byte>, values: seq<Byte>): seq<Byte> {
    var combined := values + CreateChecksum(hrp, values);
    if Fives(combined) then hrp + [ONE] + Chars(combined) else []
  }

  // ----- decoding

  datatype Decoded = Invalid | Valid(hrp: seq<Byte>, values: seq<Byte>)

  predicate Printable(s: seq<Byte>) { forall i | 0 <= i < |s| :: IsPrintable(s[i]) }
  predicate HasLower(s: seq<Byte>) { exists i | 0 <= i < |s| :: IsLower(s[i]) }
  predicate HasUpper(s: seq<Byte>) { exists i | 0 <= i < |s| :: IsUpper(s[i]) }

  function Lower(s: seq<Byte>): (r: seq<Byte>)
    ensures |r| == |s| && forall i | 0 <= i < |s| :: r[i] == LowerCase(s[i])
  {
    seq(|s|, i requires 0 <= i < |s| => LowerCase(s[i]))
  }

  /** The position of the last separator, or -1. */
  function LastOne(s: seq<Byte>): (r: int)
    ensures -1 <= r < |s| && (r >= 0 ==> s[r] == ONE) && forall i | r < i < |s| :: s[i] != ONE
  {
    if s == [] then -1 else if s[|s| - 1] == ONE then |s| - 1 else LastOne(s[..|s| - 1])
  }

  predicate Readable(s: seq<Byte>) { forall i | 0 <= i < |s| :: RevOf(s[i]) != -1 }

  function Revs(s: seq<Byte>): (r: seq<Byte>)
    requires Readable(s)
    ensures |r| == |s| && forall i | 0 <= i < |s| :: r[i] == RevOf(s[i])
  {
    seq(|s|, i requires 0 <= i < |s| => RevOf(s[i]))
  }

  function Decode(s: seq<Byte>): Decoded {
    var pos := LastOne(s);
    if !Printable(s) || (HasLower(s) && HasUpper(s)) then Invalid
    else if |s| > LIMIT || pos <= 0 || pos + 7 > |s| then Invalid
    else if !Readable(s[pos + 1..]) then Invalid
    else
      var values := Revs(s[pos + 1..]);
      var hrp := Lower(s[..pos]);
      if VerifyChecksum(hrp, values) then Valid(hrp, values[..|values| - 6]) else Invalid
  }

  // ----- the theorems

  /** The human-readable parts and lengths Bech32 is defined for. */
  predicate Encodable(hrp: seq<Byte>, values: seq<Byte>) {
    && hrp != [] && Printable(hrp) && !HasUpper(hrp)
    && |hrp| + |values| + 7 <= LIMIT
  }

  lemma LastOneAt(s: seq<Byte>, k: nat)
    requires k < |s| && s[k] == ONE && forall i | k < i < |s| :: s[i] != ONE
    ensures LastOne(s) == k
  {
  }

  /** The data part of an encoded string: printable, in lower case, without a separator, and
      read back as it was. */
  lemma CharsRead(v: seq<Byte>)
    requires Fives(v)
    ensures var r := Chars(v);
      Printable(r) && !HasUpper(r) && (forall i | 0 <= i < |r| :: r[i] != ONE) && Readable(r) && Revs(r) == v
  {
    hide CharOf, RevOf, IsPrintable, IsUpper;
    forall i | 0 <= i < |v|
      ensures var c := CharOf(v[i]); IsPrintable(c) && !IsUpper(c) && c != ONE && RevOf(c) == v[i]
    {
      RevOfChar(v[i]);
    }
  }

  lemma LowerIsSame(s: seq<Byte>)
    ensures Lower(s) == s <==> !HasUpper(s)
  {
    if HasUpper(s) {
      var i :| 0 <= i < |s| && IsUpper(s[i]);
      assert Lower(s)[i] != s[i];
    } else {
      assert forall i | 0 <= i < |s| :: !IsUpper(s[i]);
      assert Lower(s) == s;
    }
  }

  lemma PrintableAppend(a: seq<Byte>, b: seq<Byte>)
    ensures Printable(a + b) <==> Printable(a) && Printable(b)
    ensures HasUpper(a + b) <==> HasUpper(a) || HasUpper(b)
  {
    hide IsPrintable, IsUpper;
    var s := a + b;
    assert forall i | 0 <= i < |a| :: s[i] == a[i];
    assert forall i | 0 <= i < |b| :: s[|a| + i] == b[i];
    if HasUpper(a) {
      var i :| 0 <= i < |a| && IsUpper(a[i]);
      assert IsUpper(s[i]);
    }
    if HasUpper(b) {
      var i :| 0 <= i < |b| && IsUpper(b[i]);
      assert IsUpper(s[|a| + i]);
    }
  }

  lemma SeparatorPlain()
    ensures Printable([ONE]) && !HasUpper([ONE])
  {
  }

  /** Symbols are read back from their encoding exactly for the human-readable parts and the
      lengths that Bech32 allows. */
  lemma EncodeDecode(hrp: seq<Byte>, values: seq<Byte>)
    requires Fives(values)
    ensures Decode(Encode(hrp, values)) == Valid(hrp, values) <==> Encodable(hrp, values)
  {
    hide CharOf, RevOf, CreateChecksum, VerifyChecksum, Printable, HasUpper, LastOne, Lower, Readable, Revs, Chars, Fives, HasLower;
    var checksum := CreateChecksum(hrp, values);
    AllFives(hrp, values);
    var combined := values + checksum;
    var data, s := Chars(combined), Encode(hrp, values);
    assert s == hrp + [ONE] + data;
    CharsRead(combined);
    SeparatorPlain();
    PrintableAppend(hrp, [ONE]);
    PrintableAppend(hrp + [ONE], data);
    LastOneAt(s, |hrp|);
    assert s[|hrp| + 1..] == data && s[..|hrp|] == hrp;
    LowerIsSame(hrp);
    assert combined[..|combined| - 6] == values;
    if !HasUpper(hrp) { ChecksumVerifies(hrp, values, checksum); }
  }

  lemma AllFives(hrp: seq<Byte>, values: seq<Byte>)
    requires Fives(values)
    ensures Fives(CreateChecksum(hrp, values)) && Fives(values + CreateChecksum(hrp, values))
  {
    hide CreateChecksum;
    ChecksumVerifies(hrp, values, NO_CHECKSUM);
  }

  lemma CharsOfRevs(s: seq<Byte>)
    requires Readable(s)
    ensures Fives(Revs(s)) && Chars(Revs(s)) == Lower(s)
  {
    hide CharOf, RevOf, LowerCase;
    forall i | 0 <= i < |s| ensures 0 <= RevOf(s[i]) <= 31 && CharOf(RevOf(s[i])) == LowerCase(s[i]) {
      CharOfRev(s[i]);
    }
    assert Chars(Revs(s)) == Lower(s);
  }

  /** Whatever is decoded is encoded again as the string it came from, in lower case. */
  lemma DecodeEncode(s: seq<Byte>)
    requires Decode(s).Valid?
    ensures var d := Decode(s);
      Encode(d.hrp, d.values) == Lower(s) && Fives(d.values) && Encodable(d.hrp, d.values)
  {
    hide CharOf, RevOf, CreateChecksum, VerifyChecksum, Printable, HasUpper, LastOne, Lower, Readable, Revs, Chars, Fives, HasLower, LowerCase;
    var d, pos := Decode(s), LastOne(s);
    var rest := s[pos + 1..];
    var all := Revs(rest);
    CharsOfRevs(rest);
    var n := |all| - 6;
    var c := all[n..];
    assert all == d.values + c;
    FivesParts(d.values, c);
    ChecksumVerifies(d.hrp, d.values, c);
    assert Encode(d.hrp, d.values) == d.hrp + [ONE] + Chars(all);
    LowerParts(s, pos);
    assert s == s[..pos] + s[pos..];
    PrintableAppend(s[..pos], s[pos..]);
    PrintableLower(s[..pos]);
  }

  lemma FivesParts(a: seq<Byte>, b: seq<Byte>)
    requires Fives(a + b)
    ensures Fives(a) && Fives(b)
  {
    assert forall i | 0 <= i < |a| :: (a + b)[i] == a[i];
    assert forall i | 0 <= i < |b| :: (a + b)[|a| + i] == b[i];
  }

  lemma LowerParts(s: seq<Byte>, pos: nat)
    requires pos < |s| && s[pos] == ONE
    ensures Lower(s) == Lower(s[..pos]) + [ONE] + Lower(s[pos + 1..])
  {
  }

  lemma PrintableLower(s: seq<Byte>)
    requires Printable(s)
    ensures Printable(Lower(s)) && !HasUpper(Lower(s))
  {
  }

  /** Of two value sequences that differ only inside six consecutive symbols, at most one
      verifies. */
  lemma AtMostOneVerifies(hrp: seq<Byte>, before: seq<Byte>, a: seq<Byte>, b: seq<Byte>, after: seq<Byte>)
    requires |a| == |b| <= 6 && Fives(a) && Fives(b) && a != b
    ensures !(VerifyChecksum(hrp, before + a + after) && VerifyChecksum(hrp, before + b + after))
  {
    hide Words, Bytes, PolyMod, WordOf, ByteOf, ExpandHRP;
    var e := ExpandHRP(hrp) + before;
    assert ExpandHRP(hrp) + (before + a + after) == e + a + after;
    assert ExpandHRP(hrp) + (before + b + after) == e + b + after;
    WordsAppend(e + a, after);
    WordsAppend(e + b, after);
    WordsAppend(e, a);
    WordsAppend(e, b);
    SmallWords(a);
    SmallWords(b);
    BytesOfWords(a);
    BytesOfWords(b);
    WindowDetected(Words(e), Words(a), Words(b), Words(after));
  }
}
