/** Base58 text of byte vectors: what is encoded and decoded, and that both are inverse to
    each other, leading zeros included. */
module Base58Codec {
  import opened Octets
  import opened Powers
  import opened Positional

  const ONE: Byte := 49

  /** The characters "123456789ABCDEFGHJKLMNPQRSTUVWXYZabcdefghijkmnopqrstuvwxyz", as the six runs
      of consecutive characters they consist of. */
  function CharOf(d: nat): (c: Byte)
    requires d < 58
  {
    if d < 9 then 49 + d
    else if d < 17 then 65 + (d - 9)
    else if d < 22 then 74 + (d - 17)
    else if d < 33 then 80 + (d - 22)
    else if d < 44 then 97 + (d - 33)
    else 109 + (d - 44)
  }

  /** The place of a character in the alphabet, or -1. */
  function DigitOf(c: Byte): (d: int)
    ensures -1 <= d < 58
  {
    if 49 <= c <= 57 then c - 49
    else if 65 <= c <= 72 then c - 65 + 9
    else if 74 <= c <= 78 then c - 74 + 17
    else if 80 <= c <= 90 then c - 80 + 22
    else if 97 <= c <= 107 then c - 97 + 33
    else if 109 <= c <= 122 then c - 109 + 44
    else -1
  }

  predicate IsSpace(c: Byte) { 9 <= c <= 13 || c == 32 }

  lemma CharDigit(d: nat)
    requires d < 58
    ensures DigitOf(CharOf(d)) == d && !IsSpace(CharOf(d)) && CharOf(d) != 0 && (CharOf(d) == ONE <==> d == 0)
  {
  }

  lemma DigitChar(c: Byte)
    requires DigitOf(c) != -1
    ensures CharOf(DigitOf(c)) == c && !IsSpace(c) && c != 0 && (DigitOf(c) == 0 <==> c == ONE)
  {
  }

  function Repeat(c: Byte, n: nat): (s: seq<Byte>)
    ensures |s| == n && forall i | 0 <= i < n :: s[i] == c
  {
    seq(n, _ => c)
  }

  function Chars(d: seq<nat>): (s: seq<Byte>)
    requires DigitsIn(58, d)
    ensures |s| == |d| && forall i | 0 <= i < |d| :: s[i] == CharOf(d[i])
  {
    seq(|d|, i requires 0 <= i < |d| => CharOf(d[i]))
  }

  predicate Alphabetic(s: seq<Byte>) { forall i | 0 <= i < |s| :: DigitOf(s[i]) != -1 }
  predicate Spaces(s: seq<Byte>) { forall i | 0 <= i < |s| :: IsSpace(s[i]) }

  function Digits(s: seq<Byte>): (d: seq<nat>)
    requires Alphabetic(s)
    ensures |d| == |s| && DigitsIn(58, d) && forall i | 0 <= i < |s| :: d[i] == DigitOf(s[i])
  {
    seq(|s|, i requires 0 <= i < |s| => DigitOf(s[i]))
  }

  function AsBytes(d: seq<nat>): (s: seq<Byte>)
    requires DigitsIn(256, d)
    ensures s == d
  {
    seq(|d|, i requires 0 <= i < |d| => d[i])
  }

  // ----- encoding

  function Encode(v: seq<Byte>): seq<Byte> {
    var k := LeadingZeros(v);
    Repeat(ONE, k) + Chars(DigitsOf(58, Num(256, v[k..])))
  }

  // ----- decoding

  /** The numbers of spaces, of ones, and of characters other than spaces at the beginning of a
      text. */
  function CountSpaces(t: seq<Byte>): (n: nat)
    ensures n <= |t| && (n < |t| ==> !IsSpace(t[n])) && forall i | 0 <= i < n :: IsSpace(t[i])
  {
    if t == [] || !IsSpace(t[0]) then 0 else 1 + CountSpaces(t[1..])
  }

  function CountOnes(t: seq<Byte>): (n: nat)
    ensures n <= |t| && (n < |t| ==> t[n] != ONE) && forall i | 0 <= i < n :: t[i] == ONE
  {
    if t == [] || t[0] != ONE then 0 else 1 + CountOnes(t[1..])
  }

  function CountWord(t: seq<Byte>): (n: nat)
    ensures n <= |t| && (n < |t| ==> IsSpace(t[n])) && forall i | 0 <= i < n :: !IsSpace(t[i])
  {
    if t == [] || IsSpace(t[0]) then 0 else 1 + CountWord(t[1..])
  }

  datatype Decoded = Invalid | Valid(bytes: seq<Byte>)

  /** The bytes of the digits behind the leading ones of a word. */
  function WordBytes(word: seq<Byte>): seq<Byte>
    requires Alphabetic(word)
  {
    var k := CountOnes(word);
    Repeat(0, k) + AsBytes(DigitsOf(256, Num(58, Digits(word[k..]))))
  }

  /** Decode a C string, given without its terminator. */
  function Decode(t: seq<Byte>): Decoded {
    var t1 := t[CountSpaces(t)..];
    var n := CountWord(t1);
    if !Alphabetic(t1[..n]) || !Spaces(t1[n..]) then Invalid
    else Valid(WordBytes(t1[..n]))
  }

  // ----- round trips

  lemma DigitsOfChars(d: seq<nat>)
    requires DigitsIn(58, d)
    ensures Alphabetic(Chars(d)) && Digits(Chars(d)) == d
  {
    hide CharOf, DigitOf;
    forall i | 0 <= i < |d| ensures DigitOf(CharOf(d[i])) == d[i] { CharDigit(d[i]); }
  }

  lemma CharsOfDigits(s: seq<Byte>)
    requires Alphabetic(s)
    ensures Chars(Digits(s)) == s
  {
    hide CharOf, DigitOf;
    forall i | 0 <= i < |s| ensures CharOf(DigitOf(s[i])) == s[i] { DigitChar(s[i]); }
  }

  lemma CountOnesAt(t: seq<Byte>, k: nat)
    requires k <= |t| && (k < |t| ==> t[k] != ONE) && forall i | 0 <= i < k :: t[i] == ONE
    ensures CountOnes(t) == k
  {
  }

  lemma LeadingZerosAt(t: seq<nat>, k: nat)
    requires k <= |t| && (k < |t| ==> t[k] != 0) && forall i | 0 <= i < k :: t[i] == 0
    ensures LeadingZeros(t) == k
  {
  }

  lemma OnesAlphabetic(k: nat)
    ensures Alphabetic(Repeat(ONE, k))
  {
  }

  lemma AlphabeticAppend(s: seq<Byte>, t: seq<Byte>)
    requires Alphabetic(s) && Alphabetic(t)
    ensures Alphabetic(s + t)
  {
  }

  lemma FirstDigit(d: seq<nat>)
    requires DigitsIn(58, d) && d != [] && d[0] != 0
    ensures Chars(d)[0] != ONE
  {
    CharDigit(d[0]);
  }

  /** An encoded vector is a word of the alphabet that stands for the vector. */
  lemma EncodedWord(v: seq<Byte>)
    ensures Alphabetic(Encode(v)) && WordBytes(Encode(v)) == v
  {
    hide CharOf, DigitOf, Chars, Digits, Num, LeadingZeros;
    var k := LeadingZeros(v);
    var rest := v[k..];
    var d := DigitsOf(58, Num(256, rest));
    var word := Encode(v);
    DigitsOfChars(d);
    OnesAlphabetic(k);
    AlphabeticAppend(Repeat(ONE, k), Chars(d));
    if d != [] { FirstDigit(d); }
    CountOnesAt(word, k);
    assert word[k..] == Chars(d);
    NumOfDigits(58, Num(256, rest));
    DigitsOfNum(256, rest);
    assert v == Repeat(0, k) + rest;
  }

  /** A word of the alphabet is the encoding of the vector it stands for. */
  lemma WordEncoded(s: seq<Byte>)
    requires Alphabetic(s)
    ensures Encode(WordBytes(s)) == s
  {
    hide CharOf, DigitOf, Chars, Digits, Num, CountOnes;
    var k := CountOnes(s);
    var rest := s[k..];
    var d := Digits(rest);
    var b := DigitsOf(256, Num(58, d));
    var v := WordBytes(s);
    LeadingZerosAt(v, k);
    assert v[k..] == b;
    NumOfDigits(256, Num(58, d));
    if rest != [] { DigitChar(rest[0]); }
    DigitsOfNum(58, d);
    CharsOfDigits(rest);
    assert s == Repeat(ONE, k) + rest;
  }

  lemma CountSpacesAt(t: seq<Byte>, n: nat)
    requires n <= |t| && (n < |t| ==> !IsSpace(t[n])) && forall i | 0 <= i < n :: IsSpace(t[i])
    ensures CountSpaces(t) == n
  {
    hide IsSpace;
  }

  lemma CountWordAt(t: seq<Byte>, n: nat)
    requires n <= |t| && (n < |t| ==> IsSpace(t[n])) && forall i | 0 <= i < n :: !IsSpace(t[i])
    ensures CountWord(t) == n
  {
    hide IsSpace;
  }

  /** A word of the alphabet decodes whatever spaces stand around it. */
  lemma DecodePadded(before: seq<Byte>, word: seq<Byte>, after: seq<Byte>)
    requires Spaces(before) && Alphabetic(word) && Spaces(after) && (word == [] ==> after == [])
    ensures Decode(before + word + after) == Valid(WordBytes(word))
  {
    hide IsSpace, DigitOf, WordBytes;
    var t := before + word + after;
    forall i | 0 <= i < |word| ensures !IsSpace(word[i]) { DigitChar(word[i]); }
    assert forall i | 0 <= i < |before| :: t[i] == before[i];
    CountSpacesAt(t, |before|);
    var t1 := t[|before|..];
    assert t1 == word + after;
    CountWordAt(t1, |word|);
    assert t1[..|word|] == word && t1[|word|..] == after;
  }

  /** Decoding gives back what was encoded, for every byte vector. */
  lemma DecodeEncode(v: seq<Byte>)
    ensures Decode(Encode(v)) == Valid(v)
  {
    hide Encode, WordBytes, Decode;
    EncodedWord(v);
    DecodePadded([], Encode(v), []);
    assert [] + Encode(v) + [] == Encode(v);
  }

  /** A text decodes exactly if it is a word of the alphabet between spaces, and then the word
      is the encoding of what it decodes to. */
  lemma DecodeExact(t: seq<Byte>)
    ensures var a := CountSpaces(t); var n := CountWord(t[a..]); var word := t[a..a + n];
      && (Decode(t).Valid? <==> Alphabetic(word) && Spaces(t[a + n..]))
      && (Decode(t).Valid? ==> Encode(Decode(t).bytes) == word)
  {
    hide Encode, WordBytes, CountSpaces, CountWord, Alphabetic, Spaces;
    var a := CountSpaces(t);
    var n := CountWord(t[a..]);
    assert t[a..][..n] == t[a..a + n] && t[a..][n..] == t[a + n..];
    if Decode(t).Valid? { WordEncoded(t[a..a + n]); }
  }

  /** Encoding gives back what was decoded, for every text of the alphabet. */
  lemma EncodeDecode(s: seq<Byte>)
    requires Alphabetic(s)
    ensures Decode(s).Valid? && Encode(Decode(s).bytes) == s
  {
    hide Encode, WordBytes, Decode;
    DecodePadded([], s, []);
    assert [] + s + [] == s;
    WordEncoded(s);
  }

  // ----- what an encoding is

  /** The alphabet, run by run: no zero, capital i, capital o or small l. */
  lemma CharsetExact(d: nat)
    requires d < 58
    ensures CharOf(d) as char ==
            if d < 9 then "123456789"[d] else if d < 17 then "ABCDEFGH"[d - 9] else if d < 22 then "JKLMN"[d - 17]
            else if d < 33 then "PQRSTUVWXYZ"[d - 22] else if d < 44 then "abcdefghijk"[d - 33] else "mnopqrstuvwxyz"[d - 44]
  {
  }

  /** The encoding of a vector is the word of the alphabet that is the same number, its digits taken as those
      of base 58, and has as many leading ones as the vector has leading zeros. */
  lemma EncodeExact(v: seq<Byte>, s: seq<Byte>)
    ensures s == Encode(v) <==> Alphabetic(s) && CountOnes(s) == LeadingZeros(v) && Num(58, Digits(s)) == Num(256, v)
  {
    EncodingIs(v);
    if Alphabetic(s) && CountOnes(s) == LeadingZeros(v) && Num(58, Digits(s)) == Num(256, v) {
      hide Num, Encode, Alphabetic, Digits, CountOnes, LeadingZeros;
      SameParts(s, Encode(v));
    }
  }

  lemma EncodingIs(v: seq<Byte>)
    ensures var s := Encode(v); Alphabetic(s) && CountOnes(s) == LeadingZeros(v) && Num(58, Digits(s)) == Num(256, v)
  {
    hide CharOf, DigitOf, Chars, Digits, Num, LeadingZeros;
    var k, s := LeadingZeros(v), Encode(v);
    var d := DigitsOf(58, Num(256, v[k..]));
    EncodedWord(v);
    DigitsOfChars(d);
    if d != [] { FirstDigit(d); }
    CountOnesAt(s, k);
    assert s[k..] == Chars(d);
    WordNumber(s);
    NumOfDigits(58, Num(256, v[k..]));
    NumOfStripped(256, v);
  }

  /** Leading ones do not count. */
  lemma WordNumber(s: seq<Byte>)
    requires Alphabetic(s)
    ensures Alphabetic(s[CountOnes(s)..]) && Num(58, Digits(s)) == Num(58, Digits(s[CountOnes(s)..]))
  {
    hide DigitOf, Num;
    var k := CountOnes(s);
    var rest := s[k..];
    forall i | 0 <= i < k ensures Digits(s)[i] == 0 { DigitChar(s[i]); }
    if rest != [] { DigitChar(rest[0]); }
    LeadingZerosAt(Digits(s), k);
    assert Digits(s)[k..] == Digits(rest);
    NumOfStripped(58, Digits(s));
  }

  lemma SameParts(s: seq<Byte>, s': seq<Byte>)
    requires Alphabetic(s) && Alphabetic(s') && CountOnes(s) == CountOnes(s') && Num(58, Digits(s)) == Num(58, Digits(s'))
    ensures s == s'
  {
    hide DigitOf, Num, Digits, CountOnes;
    WordNumber(s);
    WordNumber(s');
    WordEncoded(s);
    WordEncoded(s');
  }
}
