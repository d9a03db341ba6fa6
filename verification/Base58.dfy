/** The Base58 functions as the code computes them: buffers of digits, multiplied and added to
    in place with a running carry. */
module Base58 {
  import opened Octets
  import opened Powers
  import opened Positional
  import opened Base58Codec

  /** Multiply the number in a buffer by a factor and add to it; what does not fit is returned. */
  method MultiplyAdd(digits: array<nat>, b: nat, factor: nat, add: nat) returns (carry: nat)
    requires b > 1 && DigitsIn(b, digits[..])
    modifies digits
    ensures DigitsIn(b, digits[..])
    ensures Num(b, digits[..]) + carry * Pow(b, digits.Length) == old(Num(b, digits[..])) * factor + add
  {
    hide Pow, Num;
    ghost var s := digits[..];
    carry := add;
    var i := digits.Length;
    PassStart(b, s, factor, add);
    while i > 0
      invariant 0 <= i <= digits.Length && digits[..i] == s[..i] && DigitsIn(b, digits[..])
      invariant (Num(b, s[..i]) * factor + carry) * Pow(b, digits.Length - i) + Num(b, digits[i..]) == Num(b, s) * factor + add
    {
      i := i - 1;
      ghost var before, c := digits[i + 1..], carry;
      carry := carry + factor * digits[i];
      assert digits[i] == s[i];
      digits[i] := carry % b;
      carry := carry / b;
      ghost var x := digits[i];
      assert digits[i..] == [x] + before;
      PassTurn(b, s, i, factor, c, carry, x, before, Num(b, s) * factor + add);
    }
    PassEnd(b, s, digits[..], factor, carry);
    assert digits[0..] == digits[..];
  }

  lemma PassStart(b: nat, s: seq<nat>, factor: nat, add: nat)
    ensures (Num(b, s[..|s|]) * factor + add) * Pow(b, 0) + Num(b, s[|s|..]) == Num(b, s) * factor + add
  {
    hide Pow;
    PowBase(b);
    assert s[..|s|] == s && s[|s|..] == [];
  }

  lemma PassEnd(b: nat, s: seq<nat>, t: seq<nat>, factor: nat, carry: nat)
    requires |s| == |t|
    ensures (Num(b, s[..0]) * factor + carry) * Pow(b, |t|) == carry * Pow(b, |t|)
  {
    assert Num(b, s[..0]) == 0;
  }

  lemma PassTurn(b: nat, s: seq<nat>, i: nat, factor: nat, c: nat, carry: nat, x: nat, rest: seq<nat>, total: nat)
    requires b > 1 && i < |s| && |rest| == |s| - i - 1 && c + factor * s[i] == carry * b + x
    requires (Num(b, s[..i + 1]) * factor + c) * Pow(b, |rest|) + Num(b, rest) == total
    ensures (Num(b, s[..i]) * factor + carry) * Pow(b, |rest| + 1) + Num(b, [x] + rest) == total
  {
    hide Pow, Num;
    var n, p := Num(b, s[..i]), Pow(b, |rest|);
    assert s[..i + 1] == s[..i] + [s[i]];
    NumSnoc(b, s[..i], s[i]);
    NumAppend(b, [x], rest);
    OneDigit(b, x);
    PowAdd(b, 1, |rest|);
    PowBase(b);
    TurnTerms(n, factor, b, s[i], c, carry, x, p);
  }

  lemma OneDigit(b: nat, x: nat)
    ensures Num(b, [x]) == x
  {
    NumSnoc(b, [], x);
    assert [] + [x] == [x];
  }

  lemma TurnTerms(n: nat, factor: nat, b: nat, d: nat, c: nat, carry: nat, x: nat, p: nat)
    requires c + factor * d == carry * b + x
    ensures ((n * b + d) * factor + c) * p == (n * factor + carry) * (b * p) + x * p
  {
    assert (n * b + d) * factor == n * factor * b + factor * d;
    assert (n * factor + carry) * b == n * factor * b + carry * b;
    assert (n * b + d) * factor + c == (n * factor + carry) * b + x;
    var y := n * factor + carry;
    assert (y * b + x) * p == y * b * p + x * p;
    assert y * b * p == y * (b * p);
  }

  /** No carry is left when the buffer is long enough. */
  lemma NoCarry(b: nat, size: nat, value: nat, carry: nat, total: nat)
    requires b > 0 && value + carry * Pow(b, size) == total && total < Pow(b, size)
    ensures carry == 0
  {
    if carry > 0 { MulMonotone(1, carry, Pow(b, size)); }
  }

  /** One more digit keeps the number below the next power. */
  lemma OneMoreDigit(n: nat, base: nat, d: nat, k: nat, limit: nat)
    requires base > 0 && n < Pow(base, k) && d < base && k < limit
    ensures n * base + d < Pow(base, k + 1) <= Pow(base, limit)
  {
    LeadingDigit(base, n, d, Pow(base, k));
    PowGrows(base, k + 1, limit);
  }

  method ZeroBuffer(size: nat) returns (digits: array<nat>)
    ensures fresh(digits) && digits.Length == size && forall i | 0 <= i < size :: digits[i] == 0
  {
    digits := new nat[size](_ => 0);
  }

  method Encode(v: seq<Byte>) returns (str: seq<Byte>)
    ensures str == Base58Codec.Encode(v)
  {
    hide Pow, Num, LeadingZeros, Stripped, DigitsOf, CharOf, DigitSize;
    var zeroes := CountZeros(v);
    ghost var bytes := v[zeroes..];
    var size := |v| - zeroes;
    DigitsEnough(size);
    var b58 := ZeroBuffer(DigitSize(size));
    NumOfZeros(58, b58[..]);
    EmptyNum(256, bytes);
    var p := zeroes;
    while p < |v|
      invariant zeroes <= p <= |v| && DigitsIn(58, b58[..])
      invariant Num(58, b58[..]) == Num(256, bytes[..p - zeroes]) < Pow(256, p - zeroes)
    {
      ghost var n, k := Num(58, b58[..]), p - zeroes;
      assert bytes[..k + 1] == bytes[..k] + [v[p]];
      NumSnoc(256, bytes[..k], v[p]);
      OneMoreDigit(n, 256, v[p], k, size);
      var carry := MultiplyAdd(b58, 58, 256, v[p]);
      NoCarry(58, b58.Length, Num(58, b58[..]), carry, n * 256 + v[p]);
      assert carry == 0;
      p := p + 1;
    }
    assert bytes[..size] == bytes;
    StrippedIsDigits(58, b58[..]);
    var it := CountZeros(b58[..]);
    str := Repeat(ONE, zeroes);
    ghost var start := it;
    while it < b58.Length
      invariant start <= it <= b58.Length && |str| == zeroes + (it - start)
      invariant forall i | 0 <= i < zeroes :: str[i] == ONE
      invariant forall i | start <= i < it :: str[zeroes + i - start] == CharOf(b58[i])
    {
      str := str + [CharOf(b58[it])];
      it := it + 1;
    }
    CharsOfBuffer(b58[..], start, str, zeroes);
  }

  lemma CharsOfBuffer(s: seq<nat>, start: nat, str: seq<Byte>, zeroes: nat)
    requires DigitsIn(58, s) && start == LeadingZeros(s) && |str| == zeroes + (|s| - start)
    requires forall i | 0 <= i < zeroes :: str[i] == ONE
    requires forall i | start <= i < |s| :: str[zeroes + i - start] == CharOf(s[i])
    ensures str == Repeat(ONE, zeroes) + Chars(Stripped(s))
  {
    hide CharOf, LeadingZeros;
    var r := Repeat(ONE, zeroes) + Chars(Stripped(s));
    forall i | 0 <= i < |str| ensures str[i] == r[i] {
      if i >= zeroes { assert str[zeroes + (start + i - zeroes) - start] == CharOf(s[start + i - zeroes]); }
    }
  }

  /** The end of decoding: the zeros, and the bytes of the buffer without its leading zeros. */
  method CollectBytes(b256: array<nat>, zeroes: nat) returns (v: seq<Byte>)
    requires DigitsIn(256, b256[..])
    ensures v == Repeat(0, zeroes) + AsBytes(DigitsOf(256, Num(256, b256[..])))
  {
    hide Num, LeadingZeros, Stripped, DigitsOf;
    StrippedIsDigits(256, b256[..]);
    var it := CountZeros(b256[..]);
    v := Repeat(0, zeroes);
    ghost var start := it;
    while it < b256.Length
      invariant start <= it <= b256.Length && |v| == zeroes + (it - start)
      invariant forall i | 0 <= i < zeroes :: v[i] == 0
      invariant forall i | start <= i < it :: v[zeroes + i - start] == b256[i]
    {
      v := v + [b256[it]];
      it := it + 1;
    }
    BytesOfBuffer(b256[..], start, v, zeroes);
  }

  lemma BytesOfBuffer(s: seq<nat>, start: nat, v: seq<Byte>, zeroes: nat)
    requires DigitsIn(256, s) && start == LeadingZeros(s) && |v| == zeroes + (|s| - start)
    requires forall i | 0 <= i < zeroes :: v[i] == 0
    requires forall i | start <= i < |s| :: v[zeroes + i - start] == s[i]
    ensures v == Repeat(0, zeroes) + AsBytes(Stripped(s))
  {
    hide LeadingZeros;
    var r := Repeat(0, zeroes) + AsBytes(Stripped(s));
    forall i | 0 <= i < |v| ensures v[i] == r[i] {
      if i >= zeroes { assert v[zeroes + (start + i - zeroes) - start] == s[start + i - zeroes]; }
    }
  }

  /** The loop over the characters of a word behind its leading ones; it stops at a space or the
      end, or fails at a character that is not of the alphabet. */
  method DecodeDigits(psz: seq<Byte>, from: nat, b256: array<nat>) returns (ok: bool, p: nat)
    requires from <= |psz| && b256.Length == ByteSize(|psz| - from) && forall i | 0 <= i < b256.Length :: b256[i] == 0
    modifies b256
    ensures from <= p <= |psz| && Alphabetic(psz[from..p])
    ensures ok ==> (p < |psz| ==> IsSpace(psz[p])) && DigitsIn(256, b256[..]) && Num(256, b256[..]) == Num(58, Digits(psz[from..p]))
    ensures !ok ==> p < |psz| && !IsSpace(psz[p]) && DigitOf(psz[p]) == -1
  {
    hide Pow, Num, DigitOf, ByteSize, IsSpace;
    p := from;
    BytesEnough(|psz| - from);
    NumOfZeros(256, b256[..]);
    EmptyNum(58, Digits(psz[from..from]));
    assert Digits(psz[from..from])[..0] == Digits(psz[from..from]);
    while p < |psz| && !IsSpace(psz[p])
      invariant from <= p <= |psz| && Alphabetic(psz[from..p]) && DigitsIn(256, b256[..])
      invariant Num(256, b256[..]) == Num(58, Digits(psz[from..p])) < Pow(58, p - from)
    {
      var d := DigitOf(psz[p]);
      if d == -1 {
        return false, p;
      }
      ghost var n, k := Num(256, b256[..]), p - from;
      assert psz[from..p + 1] == psz[from..p] + [psz[p]];
      assert Digits(psz[from..p + 1]) == Digits(psz[from..p]) + [d];
      NumSnoc(58, Digits(psz[from..p]), d);
      OneMoreDigit(n, 58, d, k, |psz| - from);
      var carry := MultiplyAdd(b256, 256, 58, d);
      NoCarry(256, b256.Length, Num(256, b256[..]), carry, n * 58 + d);
      assert carry == 0;
      p := p + 1;
    }
    ok := true;
  }

  method Decode(psz: seq<Byte>) returns (r: Decoded)
    ensures r == Base58Codec.Decode(psz)
  {
    hide Num, DigitOf, IsSpace, DigitsOf, WordBytes;
    var p := 0;
    while p < |psz| && IsSpace(psz[p])
      invariant p <= |psz| && forall i | 0 <= i < p :: IsSpace(psz[i])
    {
      p := p + 1;
    }
    ghost var a := p;
    var zeroes := 0;
    while p < |psz| && psz[p] == ONE
      invariant p == a + zeroes <= |psz| && forall i | a <= i < p :: psz[i] == ONE
    {
      zeroes := zeroes + 1;
      p := p + 1;
    }
    var from := p;
    var b256 := ZeroBuffer(ByteSize(|psz| - p));
    var ok;
    ok, p := DecodeDigits(psz, from, b256);
    if !ok {
      NotDecoded(psz, a, from, p);
      return Invalid;
    }
    ghost var end := p;
    while p < |psz| && IsSpace(psz[p])
      invariant end <= p <= |psz| && forall i | end <= i < p :: IsSpace(psz[i])
    {
      p := p + 1;
    }
    DecodedWord(psz, a, from, end);
    if p < |psz| {
      assert !IsSpace(psz[end..][p - end]);
      return Invalid;
    }
    assert forall i | 0 <= i < |psz[end..]| :: psz[end..][i] == psz[end + i];
    var v := CollectBytes(b256, zeroes);
    return Valid(v);
  }

  lemma OneIsDigit()
    ensures DigitOf(ONE) != -1 && !IsSpace(ONE)
  {
  }

  lemma AlphabeticNoSpace(s: seq<Byte>)
    requires Alphabetic(s)
    ensures forall i | 0 <= i < |s| :: !IsSpace(s[i])
  {
    hide DigitOf, IsSpace;
    forall i | 0 <= i < |s| ensures !IsSpace(s[i]) { DigitChar(s[i]); }
  }

  /** A character out of the alphabet before the next space: the text does not decode. */
  lemma NotDecoded(t: seq<Byte>, a: nat, from: nat, p: nat)
    requires a <= from <= p < |t| && (forall i | 0 <= i < a :: IsSpace(t[i])) && (forall i | a <= i < from :: t[i] == ONE)
    requires Alphabetic(t[from..p]) && !IsSpace(t[p]) && DigitOf(t[p]) == -1
    ensures Base58Codec.Decode(t) == Invalid
  {
    hide DigitOf, IsSpace, WordBytes;
    OneIsDigit();
    AlphabeticNoSpace(t[from..p]);
    forall i | a <= i <= p ensures !IsSpace(t[i]) { if from <= i < p { assert t[i] == t[from..p][i - from]; } }
    CountSpacesAt(t, a);
    LongWord(t[a..], p - a);
    assert t[a..][..CountWord(t[a..])][p - a] == t[p];
  }

  lemma LongWord(t: seq<Byte>, m: nat)
    requires m < |t| && forall i | 0 <= i <= m :: !IsSpace(t[i])
    ensures CountWord(t) > m
  {
  }

  lemma WordAlphabetic(t: seq<Byte>, a: nat, from: nat, end: nat)
    requires a <= from <= end <= |t| && (forall i | a <= i < from :: t[i] == ONE) && Alphabetic(t[from..end])
    ensures Alphabetic(t[a..end])
  {
    hide DigitOf;
    OneIsDigit();
    var word := t[a..end];
    forall i | 0 <= i < |word| ensures DigitOf(word[i]) != -1 {
      if a + i >= from { assert word[i] == t[from..end][a + i - from]; }
    }
  }

  /** The word that was read: its bounds, and what it stands for. */
  lemma DecodedWord(t: seq<Byte>, a: nat, from: nat, end: nat)
    requires a <= from <= end <= |t| && (forall i | 0 <= i < a :: IsSpace(t[i])) && (forall i | a <= i < from :: t[i] == ONE)
    requires Alphabetic(t[from..end]) && (end < |t| ==> IsSpace(t[end]))
    requires from == |t| || t[from] != ONE
    requires a == |t| || !IsSpace(t[a])
    ensures Alphabetic(t[a..end])
    ensures Base58Codec.Decode(t) == if Spaces(t[end..]) then Valid(WordBytes(t[a..end])) else Invalid
    ensures WordBytes(t[a..end]) == Repeat(0, from - a) + AsBytes(DigitsOf(256, Num(58, Digits(t[from..end]))))
  {
    hide DigitOf, IsSpace, Num, DigitsOf, Alphabetic, CountSpaces, CountWord, CountOnes, Spaces;
    WordAlphabetic(t, a, from, end);
    var word := t[a..end];
    AlphabeticNoSpace(word);
    CountSpacesAt(t, a);
    CountWordAt(t[a..], end - a);
    assert t[a..][..end - a] == word && t[a..][end - a..] == t[end..];
    CountOnesAt(word, from - a);
    assert word[from - a..] == t[from..end];
  }

  /** The overloads for string objects see only what stands before a zero byte. */
  method DecodeString(str: seq<Byte>) returns (r: Decoded)
    ensures r == Base58Codec.Decode(CString(str))
  {
    r := Decode(CString(str));
  }

  lemma EmptyNum(b: nat, s: seq<nat>)
    ensures Num(b, s[..0]) == 0 && Pow(b, 0) == 1
  {
  }

  method CountZeros(s: seq<nat>) returns (k: nat)
    ensures k == LeadingZeros(s)
  {
    k := 0;
    while k < |s| && s[k] == 0
      invariant k <= |s| && forall i | 0 <= i < k :: s[i] == 0
    {
      k := k + 1;
    }
    LeadingZerosAt(s, k);
  }
}
