/** The JSON parser as the code has it: an offset and a depth that move over the text, and
    strings that are unescaped into a buffer whose size is computed beforehand. */
module JsonParser {
  import opened Octets
  import opened JsonText
  import opened JsonParse

  // ----- the size of an unescaped string

  /** Which bytes of a string literal begin an escape that the first pass skipped. */
  ghost predicate Marked(t: seq<Byte>, o: nat, marks: seq<bool>) {
    o + |marks| <= |t| &&
    (marks == [] ||
     var n := |marks| - 1;
     && Marked(t, o, marks[..n])
     && (marks[n] ==> t[o + n] == BACKSLASH && (n > 0 ==> !marks[n - 1])))
  }

  lemma {:induction false} MarkAt(t: seq<Byte>, o: nat, marks: seq<bool>, k: nat)
    requires Marked(t, o, marks) && k < |marks| && marks[k]
    ensures o + k < |t| && t[o + k] == BACKSLASH && (k > 0 ==> !marks[k - 1])
  {
    if k < |marks| - 1 { MarkAt(t, o, marks[..|marks| - 1], k); }
  }

  ghost function Count(marks: seq<bool>): nat {
    if marks == [] then 0 else Count(marks[..|marks| - 1]) + if marks[|marks| - 1] then 1 else 0
  }

  lemma CountSnoc(marks: seq<bool>, b: bool)
    ensures Count(marks + [b]) == Count(marks) + if b then 1 else 0
  {
    assert (marks + [b])[..|marks|] == marks;
  }

  lemma CountPrefix(marks: seq<bool>, k: nat)
    requires k < |marks|
    ensures Count(marks[..k + 1]) == Count(marks[..k]) + if marks[k] then 1 else 0
  {
    assert marks[..k + 1] == marks[..k] + [marks[k]];
    CountSnoc(marks[..k], marks[k]);
  }

  /** Of two neighbouring bytes at most one begins an escape. */
  lemma CountTwo(t: seq<Byte>, o: nat, marks: seq<bool>, k: nat)
    requires Marked(t, o, marks) && k + 2 <= |marks|
    ensures Count(marks[..k]) <= Count(marks[..k + 2]) <= Count(marks[..k]) + 1
  {
    hide Count;
    CountPrefix(marks, k);
    CountPrefix(marks, k + 1);
    if marks[k + 1] { MarkAt(t, o, marks, k + 1); }
  }

  lemma CountSix(t: seq<Byte>, o: nat, marks: seq<bool>, k: nat)
    requires Marked(t, o, marks) && k + 6 <= |marks|
    ensures Count(marks[..k + 6]) <= Count(marks[..k]) + 3
  {
    hide Count;
    CountTwo(t, o, marks, k);
    CountTwo(t, o, marks, k + 2);
    CountTwo(t, o, marks, k + 4);
  }

  /** No more escapes begin than there are bytes. */
  lemma {:induction false} CountRest(marks: seq<bool>, k: nat)
    requires k <= |marks|
    ensures Count(marks) <= Count(marks[..k]) + (|marks| - k)
    decreases |marks| - k
  {
    if k < |marks| {
      CountPrefix(marks, k);
      CountRest(marks, k + 1);
    } else {
      assert marks[..k] == marks;
    }
  }

  /** The bytes written so far leave room for what is still to be written. */
  ghost predicate Room(marks: seq<bool>, k: nat, n: nat) {
    if k <= |marks| then n + Count(marks[..k]) <= k else k == |marks| + 1 && n + Count(marks) <= k
  }

  lemma RoomFits(marks: seq<bool>, k: nat, n: nat)
    requires Room(marks, k, n)
    ensures n + Count(marks) <= |marks| + 1 && (k <= |marks| ==> n + Count(marks) <= |marks|)
  {
    if k <= |marks| { CountRest(marks, k); }
  }

  /** What each kind of unit of the second pass writes still fits. */
  lemma RoomStep(t: seq<Byte>, o: nat, marks: seq<bool>, k: nat, n: nat, length: nat, written: nat)
    requires Marked(t, o, marks) && k < |marks| && Room(marks, k, n)
    requires (length == 1 && written == 1 && t[o + k] != BACKSLASH) || (length == 2 && written == 1)
          || (length == 6 && written <= 3 && k + 6 <= |marks|) || (length == 12 && written <= 4 && k + 12 <= |marks|)
    ensures Room(marks, k + length, n + written)
  {
    hide Count;
    if length == 1 {
      CountPrefix(marks, k);
      if marks[k] { MarkAt(t, o, marks, k); }
    } else if length == 2 {
      CountPrefix(marks, k);
      if k + 2 <= |marks| { CountTwo(t, o, marks, k); } else { assert marks[..k + 1] == marks; }
    } else {
      CountSix(t, o, marks, k);
      if length == 12 { CountSix(t, o, marks, k + 6); }
    }
  }

  // ----- lists of results

  function Prepend(items: seq<Json>, r: ParsedItems): ParsedItems {
    if r.NoItems? then r else Items(items + r.items, r.end)
  }

  function PrependPairs(pairs: seq<Pair>, r: ParsedPairs): ParsedPairs {
    if r.NoPairs? then r else Pairs(pairs + r.pairs, r.end)
  }

  lemma PrependMore(items: seq<Json>, v: Json, r: ParsedItems)
    ensures Prepend(items, Prepend([v], r)) == Prepend(items + [v], r)
  {
    if r.Items? { assert items + ([v] + r.items) == items + [v] + r.items; }
  }

  lemma PrependMorePairs(pairs: seq<Pair>, p: Pair, r: ParsedPairs)
    ensures PrependPairs(pairs, PrependPairs([p], r)) == PrependPairs(pairs + [p], r)
  {
    if r.Pairs? { assert pairs + ([p] + r.pairs) == pairs + [p] + r.pairs; }
  }

  lemma AfterAfter(x: seq<Byte>, y: seq<Byte>, d: Decoded)
    ensures After(x, After(y, d)) == After(x + y, d)
  {
    if d.Bytes? { assert x + (y + d.bytes) == x + y + d.bytes; }
  }

  method ParseHex4(t: seq<Byte>, o: nat) returns (h: nat)
    requires o + 4 <= |t|
    ensures h == Hex4(t, o)
  {
    h := 0;
    var i := 0;
    while i < 4
      invariant 0 <= i <= 4 && Nibbles(t, o, i) == h
    {
      var digit := HexValue(t[o + i]);
      if digit < 0 {
        return 0;
      }
      h := h + digit;
      if i < 3 {
        h := 16 * h;
      }
      i := i + 1;
    }
  }

  /** The number after i digits, ready for the next one; -1 if one of them is no digit. */
  function Nibbles(t: seq<Byte>, o: nat, i: nat): int
    requires i <= 4 && o + 4 <= |t|
  {
    var a, b, c, d := HexValue(t[o]), HexValue(t[o + 1]), HexValue(t[o + 2]), HexValue(t[o + 3]);
    if i == 0 then 0
    else if a < 0 then -1
    else if i == 1 then 16 * a
    else if b < 0 then -1
    else if i == 2 then 256 * a + 16 * b
    else if c < 0 then -1
    else if i == 3 then 4096 * a + 256 * b + 16 * c
    else if d < 0 then -1
    else 4096 * a + 256 * b + 16 * c + d
  }

  class ParseBuffer {
    const content: seq<Byte>
    var offset: nat
    var depth: nat

    constructor (value: seq<Byte>)
      ensures content == value + [0] && offset == 0 && depth == 0
    {
      content := value + [0];
      offset := 0;
      depth := 0;
    }

    method SkipWhitespace()
      requires Terminated(content) && offset <= |content|
      modifies this`offset
      ensures offset == Skip(content, old(offset))
    {
      while offset < |content| && content[offset] <= 32
        invariant offset <= |content| && Skip(content, offset) == Skip(content, old(offset))
      {
        offset := offset + 1;
      }
      if offset == |content| {
        offset := offset - 1;
      }
    }

    /** The first pass over a string: its end, and how many bytes its escapes waste at least. */
    method ScanString() returns (ok: bool, inputEnd: nat, skipped: nat, ghost marks: seq<bool>)
      requires Terminated(content) && offset < |content| && content[offset] == QUOTE
      ensures ok <==> StringEnd(content, offset + 1) < |content|
      ensures ok ==> inputEnd == StringEnd(content, offset + 1) && |marks| == inputEnd - (offset + 1)
      ensures ok ==> Marked(content, offset + 1, marks) && skipped == Count(marks)
    {
      hide Marked, Count;
      inputEnd, skipped, marks := offset + 1, 0, [];
      NoMarks(content, offset + 1);
      while inputEnd < |content| && content[inputEnd] != QUOTE
        invariant offset + 1 <= inputEnd <= |content| && |marks| == inputEnd - (offset + 1)
        invariant StringEnd(content, inputEnd) == StringEnd(content, offset + 1)
        invariant Marked(content, offset + 1, marks) && skipped == Count(marks)
        invariant marks != [] ==> !marks[|marks| - 1]
      {
        if content[inputEnd] == BACKSLASH {
          if inputEnd + 1 >= |content| {
            return false, inputEnd, skipped, marks;
          }
          MarkEscape(content, offset + 1, marks);
          marks := marks + [true];
          skipped := skipped + 1;
          inputEnd := inputEnd + 1;
        }
        MarkPlain(content, offset + 1, marks);
        marks := marks + [false];
        inputEnd := inputEnd + 1;
      }
      ok := inputEnd < |content|;
    }

    /** Turn a \uXXXX literal into UTF-8, from the last byte to the first. */
    method Utf16LiteralToUtf8(input: nat, inputEnd: nat, output: array<Byte>, n: nat) returns (length: nat, n': nat)
      requires input <= inputEnd <= |content| && n <= output.Length
      requires var u := Utf16(content, input, inputEnd); u.1 != 0 ==> n + |Utf8(u.0)| <= output.Length
      modifies output
      ensures var u := Utf16(content, input, inputEnd);
        length == u.1 && (u.1 != 0 ==> n' == n + |Utf8(u.0)| && output[..n'] == old(output[..n]) + Utf8(u.0))
    {
      n' := n;
      if inputEnd - input < 6 {
        return 0, n;
      }
      var first := ParseHex4(content, input + 2);
      if 0xDC00 <= first <= 0xDFFF {
        return 0, n;
      }
      var codepoint: nat;
      if 0xD800 <= first <= 0xDBFF {
        length := 12;
        if inputEnd - (input + 6) < 6 {
          return 0, n;
        }
        if content[input + 6] != BACKSLASH || content[input + 7] != LOWER_U {
          return 0, n;
        }
        var second := ParseHex4(content, input + 8);
        if second < 0xDC00 || second > 0xDFFF {
          return 0, n;
        }
        codepoint := 0x10000 + (first % 1024 * 1024 + second % 1024);
      } else {
        length := 6;
        codepoint := first;
      }
      n' := WriteUtf8(codepoint, output, n);
    }

    /** One unit of the second pass: a byte, a short escape or a \uXXXX literal. */
    method UnescapeUnit(input: nat, inputEnd: nat, output: array<Byte>, length: nat, ghost marks: seq<bool>)
      returns (ok: bool, input': nat, length': nat)
      requires Terminated(content) && offset < input < inputEnd < |content| && |marks| == inputEnd - (offset + 1)
      requires Marked(content, offset + 1, marks) && Room(marks, input - (offset + 1), length)
      requires output.Length == |marks| - Count(marks) + 2 && length <= output.Length
      modifies output
      ensures ok ==> input < input' <= inputEnd + 1 && Room(marks, input' - (offset + 1), length') && length' <= output.Length
      ensures ok ==> After(old(output[..length]), Unescaped(content, input, inputEnd))
                     == After(output[..length'], Unescaped(content, input', inputEnd))
      ensures !ok ==> Unescaped(content, input, inputEnd).Undecodable?
    {
      hide Marked, Count, Room, Utf16, Utf8, ShortUnescape;
      ghost var before, k := output[..length], input - (offset + 1);
      RoomFits(marks, k, length);
      input', length' := input, length;
      if content[input] != BACKSLASH {
        RoomStep(content, offset + 1, marks, k, length, 1, 1);
        RoomFits(marks, k + 1, length + 1);
        output[length] := content[input];
        input', length' := input + 1, length + 1;
        AfterAfter(before, [content[input]], Unescaped(content, input', inputEnd));
        assert output[..length'] == before + [content[input]];
      } else if content[input + 1] == LOWER_U {
        ghost var u := Utf16(content, input, inputEnd);
        if u.1 != 0 {
          RoomStep(content, offset + 1, marks, k, length, u.1, |Utf8(u.0)|);
          RoomFits(marks, k + u.1, length + |Utf8(u.0)|);
          AfterAfter(before, Utf8(u.0), Unescaped(content, input + u.1, inputEnd));
        }
        var sequenceLength;
        sequenceLength, length' := Utf16LiteralToUtf8(input, inputEnd, output, length);
        if sequenceLength == 0 {
          return false, input, length;
        }
        input' := input + sequenceLength;
      } else {
        var b := ShortUnescape(content[input + 1]);
        if b == 0 {
          return false, input, length;
        }
        RoomStep(content, offset + 1, marks, k, length, 2, 1);
        RoomFits(marks, k + 2, length + 1);
        output[length] := b;
        input', length' := input + 2, length + 1;
        AfterAfter(before, [b], Unescaped(content, input', inputEnd));
        assert output[..length'] == before + [b];
      }
      ok := true;
    }

    /** The second pass over a string: it is unescaped into a buffer of the computed size. */
    method Unescape(inputEnd: nat, skipped: nat, ghost marks: seq<bool>) returns (ok: bool, output: array<Byte>, length: nat)
      requires Terminated(content) && offset < inputEnd < |content| && |marks| == inputEnd - (offset + 1)
      requires Marked(content, offset + 1, marks) && skipped == Count(marks) && skipped <= |marks|
      ensures var d := Unescaped(content, offset + 1, inputEnd);
        ok == d.Bytes? && (ok ==> length < output.Length && output[length] == 0 && output[..length] == d.bytes)
    {
      hide Marked, Count, Room, Unescaped;
      var allocationLength := inputEnd - offset - skipped;
      output := new Byte[allocationLength + 1];
      length := 0;
      var input := offset + 1;
      RoomStart(marks);
      ghost var all := Unescaped(content, input, inputEnd);
      assert output[..0] == [];
      AfterNothing(all);
      while input < inputEnd
        invariant offset < input <= inputEnd + 1 && length <= output.Length && Room(marks, input - (offset + 1), length)
        invariant After(output[..length], Unescaped(content, input, inputEnd)) == all
        decreases inputEnd - input
      {
        ok, input, length := UnescapeUnit(input, inputEnd, output, length, marks);
        if !ok {
          return;
        }
      }
      RoomFits(marks, input - (offset + 1), length);
      output[length] := 0;
      UnescapedEnd(content, input, inputEnd, output[..length]);
      ok := true;
    }

    method ParseString() returns (ok: bool, s: seq<Byte>)
      requires Terminated(content) && offset < |content|
      modifies this`offset
      ensures var r := JsonParse.ParseString(content, old(offset));
        ok == r.SomeString? && (ok ==> s == r.s && offset == r.end)
    {
      ok, s := false, [];
      if content[offset] != QUOTE {
        return;
      }
      var found, inputEnd, skipped, marks := ScanString();
      if !found {
        return;
      }
      CountRest(marks, 0);
      var decoded, output, length := Unescape(inputEnd, skipped, marks);
      if !decoded {
        return;
      }
      offset := inputEnd + 1;
      return true, CString(output[..length]);
    }

    method ParseValue() returns (ok: bool, v: Json)
      requires Terminated(content) && offset < |content|
      modifies this
      ensures var r := JsonParse.ParseValue(content, old(offset), old(depth));
        ok == r.Value? && (ok ==> v == r.v && offset == r.end && depth == old(depth))
      decreases |content| - offset, 1
    {
      hide JsonParse.ParseString, JsonParse.ParseArray, JsonParse.ParseObject;
      v := Null;
      if offset + 4 <= |content| && content[offset..offset + 4] == NULL_TEXT {
        offset := offset + 4;
        return true, Null;
      }
      if offset + 5 <= |content| && content[offset..offset + 5] == FALSE_TEXT {
        offset := offset + 5;
        return true, False;
      }
      if offset + 4 <= |content| && content[offset..offset + 4] == TRUE_TEXT {
        offset := offset + 4;
        return true, True;
      }
      if content[offset] == QUOTE {
        var s;
        ok, s := ParseString();
        return ok, String(s);
      }
      if content[offset] == OPEN {
        ok, v := ParseArray();
        return;
      }
      if content[offset] == BEGIN {
        ok, v := ParseObject();
        return;
      }
      return false, Null;
    }

    method ParseArray() returns (ok: bool, v: Json)
      requires Terminated(content) && offset < |content| && content[offset] == OPEN
      modifies this
      ensures var r := JsonParse.ParseArray(content, old(offset), old(depth));
        ok == r.Value? && (ok ==> v == r.v && offset == r.end && depth == old(depth))
      decreases |content| - offset, 0
    {
      hide Skip, ParseItems, JsonParse.ParseValue;
      ok, v := false, Null;
      if depth >= NESTING_LIMIT {
        return;
      }
      depth := depth + 1;
      offset := offset + 1;
      SkipWhitespace();
      if content[offset] == CLOSE {
        depth := depth - 1;
        offset := offset + 1;
        return true, Array([]);
      }
      offset := offset - 1;
      var items;
      ok, items := ParseElements();
      if !ok || content[offset] != CLOSE {
        return false, v;
      }
      depth := depth - 1;
      offset := offset + 1;
      return true, Array(items);
    }

    /** The loop over the elements of an array; it stops behind the last one. */
    method ParseElements() returns (ok: bool, items: seq<Json>)
      requires Terminated(content) && offset + 1 < |content|
      modifies this
      ensures ok ==> offset < |content| && depth == old(depth)
      ensures ParseItems(content, old(offset), old(depth))
              == if ok && content[offset] == CLOSE then Items(items, offset + 1) else NoItems
      decreases |content| - offset - 1, 2
    {
      hide Skip, JsonParse.ParseValue, ParseItems;
      ghost var start := offset;
      items := [];
      var more := true;
      while more
        invariant start <= offset < |content| && depth == old(depth)
        invariant more ==> offset + 1 < |content|
        invariant more ==> ParseItems(content, start, depth) == Prepend(items, ParseItems(content, offset, depth))
        invariant !more ==> ParseItems(content, start, depth)
                            == if content[offset] == CLOSE then Items(items, offset + 1) else NoItems
        decreases more, |content| - offset
      {
        ghost var o := offset;
        ItemsUnfold(content, o, depth);
        offset := offset + 1;
        SkipWhitespace();
        var v;
        ok, v := ParseValue();
        if !ok {
          return;
        }
        SkipWhitespace();
        more := content[offset] == COMMA;
        if more { PrependMore(items, v, ParseItems(content, offset, depth)); }
        items := items + [v];
      }
      ok := true;
    }

    method ParseObject() returns (ok: bool, v: Json)
      requires Terminated(content) && offset < |content| && content[offset] == BEGIN
      modifies this
      ensures var r := JsonParse.ParseObject(content, old(offset), old(depth));
        ok == r.Value? && (ok ==> v == r.v && offset == r.end && depth == old(depth))
      decreases |content| - offset, 0
    {
      hide Skip, ParsePairs, JsonParse.ParseValue;
      ok, v := false, Null;
      if depth >= NESTING_LIMIT {
        return;
      }
      depth := depth + 1;
      offset := offset + 1;
      SkipWhitespace();
      if content[offset] == END {
        depth := depth - 1;
        offset := offset + 1;
        return true, Object([]);
      }
      offset := offset - 1;
      var pairs;
      ok, pairs := ParseMembers();
      if !ok || content[offset] != END {
        return false, v;
      }
      depth := depth - 1;
      offset := offset + 1;
      return true, Object(pairs);
    }

    /** The loop over the members of an object; it stops behind the last one. */
    method ParseMembers() returns (ok: bool, pairs: seq<Pair>)
      requires Terminated(content) && offset + 1 < |content|
      modifies this
      ensures ok ==> offset < |content| && depth == old(depth)
      ensures ParsePairs(content, old(offset), old(depth))
              == if ok && content[offset] == END then Pairs(pairs, offset + 1) else NoPairs
      decreases |content| - offset - 1, 2
    {
      hide Skip, JsonParse.ParseValue, ParsePairs, JsonParse.ParseString;
      ghost var start := offset;
      pairs := [];
      var more := true;
      while more
        invariant start <= offset < |content| && depth == old(depth)
        invariant more ==> offset + 1 < |content|
        invariant more ==> ParsePairs(content, start, depth) == PrependPairs(pairs, ParsePairs(content, offset, depth))
        invariant !more ==> ParsePairs(content, start, depth)
                            == if content[offset] == END then Pairs(pairs, offset + 1) else NoPairs
        decreases more, |content| - offset
      {
        ghost var o := offset;
        PairsUnfold(content, o, depth);
        offset := offset + 1;
        SkipWhitespace();
        var key;
        ok, key := ParseString();
        if !ok {
          return;
        }
        SkipWhitespace();
        if content[offset] != COLON {
          return false, pairs;
        }
        offset := offset + 1;
        SkipWhitespace();
        var v;
        ok, v := ParseValue();
        if !ok {
          return;
        }
        SkipWhitespace();
        more := content[offset] == COMMA;
        if more { PrependMorePairs(pairs, Pair(key, v), ParsePairs(content, offset, depth)); }
        pairs := pairs + [Pair(key, v)];
      }
      ok := true;
    }
  }

  lemma ItemsUnfold(t: seq<Byte>, o: nat, depth: nat)
    requires Terminated(t) && o + 1 < |t|
    ensures var p := ParseValue(t, Skip(t, o + 1), depth);
      ParseItems(t, o, depth) ==
      if p.Failed? then NoItems
      else if t[Skip(t, p.end)] == COMMA then Prepend([p.v], ParseItems(t, Skip(t, p.end), depth))
      else if t[Skip(t, p.end)] == CLOSE then Items([p.v], Skip(t, p.end) + 1)
      else NoItems
  {
  }

  lemma PairsUnfold(t: seq<Byte>, o: nat, depth: nat)
    requires Terminated(t) && o + 1 < |t|
    ensures var key := ParseString(t, Skip(t, o + 1));
      ParsePairs(t, o, depth) ==
      if key.NoString? then NoPairs
      else if t[Skip(t, key.end)] != COLON then NoPairs
      else
        var p := ParseValue(t, Skip(t, Skip(t, key.end) + 1), depth);
        if p.Failed? then NoPairs
        else if t[Skip(t, p.end)] == COMMA then PrependPairs([Pair(key.s, p.v)], ParsePairs(t, Skip(t, p.end), depth))
        else if t[Skip(t, p.end)] == END then Pairs([Pair(key.s, p.v)], Skip(t, p.end) + 1)
        else NoPairs
  {
  }

  lemma NoMarks(t: seq<Byte>, o: nat)
    requires o <= |t|
    ensures Marked(t, o, []) && Count([]) == 0
  {
  }

  lemma MarkPlain(t: seq<Byte>, o: nat, marks: seq<bool>)
    requires Marked(t, o, marks) && o + |marks| < |t|
    ensures Marked(t, o, marks + [false]) && Count(marks + [false]) == Count(marks)
  {
    CountSnoc(marks, false);
    assert (marks + [false])[..|marks|] == marks;
  }

  lemma MarkEscape(t: seq<Byte>, o: nat, marks: seq<bool>)
    requires Marked(t, o, marks) && o + |marks| < |t| && t[o + |marks|] == BACKSLASH && (marks != [] ==> !marks[|marks| - 1])
    ensures Marked(t, o, marks + [true]) && Count(marks + [true]) == Count(marks) + 1
  {
    CountSnoc(marks, true);
    assert (marks + [true])[..|marks|] == marks;
  }

  lemma RoomStart(marks: seq<bool>)
    ensures Room(marks, 0, 0)
  {
  }

  lemma AfterNothing(d: Decoded)
    ensures After([], d) == d
  {
    if d.Bytes? { assert [] + d.bytes == d.bytes; }
  }

  lemma UnescapedEnd(t: seq<Byte>, o: nat, end: nat, x: seq<Byte>)
    requires end <= o && end < |t|
    ensures After(x, Unescaped(t, o, end)) == Bytes(x)
  {
    assert x + [] == x;
  }

  /** The lead byte of a code point of more than one byte, but for its payload. */
  function LeadMark(length: nat): nat {
    if length == 2 then 0xC0 else if length == 3 then 0xE0 else if length == 4 then 0xF0 else 0
  }

  /** A code point without its last groups of six bits. */
  function Part(cp: nat, groups: nat): nat {
    if groups == 0 then cp else Part(cp, groups - 1) / 64
  }

  lemma Utf8Bytes(cp: nat, i: nat)
    requires cp <= 0x10FFFF && i < |Utf8(cp)|
    ensures var n := |Utf8(cp)|;
      Utf8(cp)[i] == if i > 0 then 0x80 + Part(cp, n - 1 - i) % 64 else LeadMark(n) + Part(cp, n - 1)
    ensures i == 0 && |Utf8(cp)| == 1 ==> cp < 0x80
  {
    assert Part(cp, 1) == cp / 64;
    assert Part(cp, 2) == cp / 4096;
    assert Part(cp, 3) == cp / 0x40000;
  }

  /** Write the bytes after the lead byte, the last one first. */
  method WriteTail(cp: nat, output: array<Byte>, n: nat, length: nat) returns (rest: nat)
    requires cp <= 0x10FFFF && length == |Utf8(cp)| && n + length <= output.Length
    modifies output
    ensures output[..n] == old(output[..n]) && rest == Part(cp, length - 1)
    ensures forall i | 0 < i < length :: output[n + i] == Utf8(cp)[i]
  {
    hide Utf8, LeadMark;
    rest := cp;
    for position := length - 1 downto 0
      invariant output[..n] == old(output[..n]) && rest == Part(cp, length - 1 - position)
      invariant forall i | position < i < length :: output[n + i] == Utf8(cp)[i]
    {
      Utf8Bytes(cp, position + 1);
      output[n + position + 1] := 0x80 + rest % 64;
      rest := rest / 64;
    }
  }

  lemma Utf8Length(cp: nat)
    requires cp <= 0x10FFFF
    ensures |Utf8(cp)| == if cp < 0x80 then 1 else if cp < 0x800 then 2 else if cp < 0x10000 then 3 else 4
  {
  }

  /** Write the UTF-8 bytes of a code point. */
  method WriteUtf8(cp: nat, output: array<Byte>, n: nat) returns (n': nat)
    requires cp <= 0x10FFFF && n + |Utf8(cp)| <= output.Length
    modifies output
    ensures n' == n + |Utf8(cp)| && output[..n'] == old(output[..n]) + Utf8(cp)
  {
    hide Utf8, Part;
    ghost var before := output[..n];
    Utf8Length(cp);
    Utf8Bytes(cp, 0);
    var length, mark := 1, 0;
    if cp < 0x80 {
      length := 1;
    } else if cp < 0x800 {
      length, mark := 2, 0xC0;
    } else if cp < 0x10000 {
      length, mark := 3, 0xE0;
    } else {
      length, mark := 4, 0xF0;
    }
    var rest := WriteTail(cp, output, n, length);
    LeadByte(cp, rest, length);
    if length > 1 {
      output[n] := (rest + mark) % 256;
    } else {
      output[n] := rest % 0x80;
    }
    n' := n + length;
    Spliced(output[..], before, n, Utf8(cp));
  }

  lemma LeadByte(cp: nat, rest: nat, length: nat)
    requires cp <= 0x10FFFF && length == |Utf8(cp)| && rest == Part(cp, length - 1)
    ensures Utf8(cp)[0] == if length > 1 then (rest + LeadMark(length)) % 256 else rest % 0x80
  {
    Utf8Bytes(cp, 0);
  }

  lemma Spliced(s: seq<Byte>, x: seq<Byte>, n: nat, y: seq<Byte>)
    requires |x| == n && n + |y| <= |s| && s[..n] == x && forall i | 0 <= i < |y| :: s[n + i] == y[i]
    ensures s[..n + |y|] == x + y
  {
    assert s[n..n + |y|] == y;
  }

  /** cJSON_ParseWithOpts. */
  method ParseWithOpts(value: seq<Byte>, requireNullTerminated: bool) returns (ok: bool, v: Json)
    ensures var r := Parse(value, requireNullTerminated); ok == r.Value? && (ok ==> v == r.v)
  {
    hide Skip, ParseValue;
    var buffer := new ParseBuffer(value);
    buffer.SkipWhitespace();
    ok, v := buffer.ParseValue();
    if !ok {
      return;
    }
    if requireNullTerminated {
      buffer.SkipWhitespace();
      if buffer.content[buffer.offset] != 0 {
        return false, v;
      }
    }
  }
}
