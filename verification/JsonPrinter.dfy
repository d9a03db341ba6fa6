/** The JSON printer as the code has it: a buffer that grows when it has to, into which each
    printing function writes behind the offset and leaves a terminated text. */
module JsonPrinter {
  import opened Octets
  import opened JsonText

  const INT_MAX: nat := 0x7FFF_FFFF

  lemma {:induction false} EscapedAppend(s: seq<Byte>, b: Byte)
    ensures Escaped(s + [b]) == Escaped(s) + Escape(b)
  {
    hide Escape;
    if s == [] {
      assert [b][1..] == [];
    } else {
      EscapedAppend(s[1..], b);
      assert (s + [b])[1..] == s[1..] + [b];
      assert Escape(s[0]) + (Escaped(s[1..]) + Escape(b)) == Escape(s[0]) + Escaped(s[1..]) + Escape(b);
    }
  }

  lemma EscapedPrefix(s: seq<Byte>, i: nat)
    requires i < |s|
    ensures Escaped(s[..i + 1]) == Escaped(s[..i]) + Escape(s[i])
  {
    EscapedAppend(s[..i], s[i]);
    assert s[..i + 1] == s[..i] + [s[i]];
  }

  /** A prefix leaves room for what its last byte takes. */
  lemma {:induction false} EscapedGrows(s: seq<Byte>, i: nat)
    requires i <= |s|
    ensures |Escaped(s[..i])| <= |Escaped(s)|
    decreases |s| - i
  {
    if i < |s| {
      EscapedPrefix(s, i);
      EscapedGrows(s, i + 1);
    } else {
      assert s[..i] == s;
    }
  }

  lemma {:induction false} NothingEscaped(s: seq<Byte>)
    requires |Escaped(s)| == |s|
    ensures Escaped(s) == s
  {
    if s != [] {
      NothingEscaped(s[1..]);
      assert s == [s[0]] + s[1..];
    }
  }

  class PrintBuffer {
    var buffer: array<Byte>
    var length: nat
    var offset: nat
    var depth: nat
    const noalloc: bool
    const format: bool

    ghost predicate Valid()
      reads this`buffer, this`length, this`offset
    {
      && length <= buffer.Length && length <= INT_MAX
      && (if length == 0 then offset == 0 else offset < length)
    }

    /** How long the buffer may become. */
    ghost function Capacity(): nat
      reads this`length
    {
      if noalloc then length else INT_MAX
    }

    /** What stands in front of the offset. */
    ghost function Done(): (s: seq<Byte>)
      requires Valid()
      reads this`buffer, this`length, this`offset, buffer
      ensures |s| == offset
    {
      buffer[..offset]
    }

    /** The buffer holds a terminated text. */
    ghost predicate Holds(text: seq<Byte>)
      reads this`buffer, this`length, buffer
    {
      |text| < length <= buffer.Length && buffer[..|text|] == text && buffer[|text|] == 0
    }

    constructor (buffer: array<Byte>, length: nat, noalloc: bool, format: bool)
      requires length <= buffer.Length && length <= INT_MAX
      ensures Valid() && offset == 0 && depth == 0 && this.buffer == buffer && this.length == length
      ensures this.noalloc == noalloc && this.format == format
    {
      this.buffer, this.length, offset, depth := buffer, length, 0, 0;
      this.noalloc, this.format := noalloc, format;
    }

    /** Make sure that some more bytes and a terminator fit, reallocating if allowed. */
    method Ensure(needed: nat) returns (ok: bool)
      requires Valid()
      modifies this`buffer, this`length
      ensures Valid() && Capacity() == old(Capacity()) && Done() == old(Done()) && (buffer == old(buffer) || (!noalloc && fresh(buffer)))
      ensures ok <==> offset + needed + 1 <= Capacity()
      ensures ok ==> offset + needed + 1 <= length
    {
      if length > 0 && offset >= length {
        return false;
      }
      if needed > INT_MAX {
        return false;
      }
      var total := needed + offset + 1;
      if total <= length {
        return true;
      }
      if noalloc {
        return false;
      }
      var newSize := 0;
      if total > INT_MAX / 2 {
        if total <= INT_MAX {
          newSize := INT_MAX;
        } else {
          return false;
        }
      } else {
        newSize := total * 2;
      }
      var newBuffer := new Byte[newSize];
      forall i | 0 <= i < offset {
        newBuffer[i] := buffer[i];
      }
      length := newSize;
      buffer := newBuffer;
      return true;
    }

    /** Copy some bytes to a position behind the offset. */
    method Put(position: nat, bytes: seq<Byte>)
      requires Valid() && offset <= position && position + |bytes| <= length
      modifies buffer
      ensures buffer[..position] == old(buffer[..position])
      ensures buffer[..position + |bytes|] == old(buffer[..position]) + bytes
    {
      for i := 0 to |bytes|
        invariant buffer[..position + i] == old(buffer[..position]) + bytes[..i]
      {
        buffer[position + i] := bytes[i];
        assert bytes[..i + 1] == bytes[..i] + [bytes[i]];
      }
    }

    /** Move the offset to the terminator behind it. */
    method UpdateOffset(ghost text: seq<Byte>)
      requires Valid() && Holds(text) && offset <= |text| && NulFree(text[offset..])
      modifies this`offset
      ensures Valid() && offset == |text| && Done() == text
    {
      while buffer[offset] != 0
        invariant offset <= |text| && old(offset) <= offset
        decreases |text| - offset
      {
        offset := offset + 1;
      }
    }

    /** How many bytes more a string takes when it is escaped. */
    method CountEscapes(s: seq<Byte>) returns (n: nat)
      requires NulFree(s)
      ensures |s| + n == |Escaped(s)|
    {
      n := 0;
      for i := 0 to |s|
        invariant i + n == |Escaped(s[..i])|
      {
        EscapedPrefix(s, i);
        if s[i] in {34, 92, 8, 12, 10, 13, 9} {
          n := n + 1;
        } else if s[i] < 32 {
          n := n + 5;
        }
      }
      assert s[..|s|] == s;
    }

    /** The escape sequence of one byte, as the code writes it: a control character goes through
        a formatted print, which also writes a terminator. */
    method PutEscape(position: nat, b: Byte, ghost limit: nat)
      requires Valid() && offset <= position && position + |Escape(b)| < limit <= length && b != 0
      modifies buffer
      ensures buffer[..position + |Escape(b)|] == old(buffer[..position]) + Escape(b)
    {
      if b > 31 && b != 34 && b != 92 {
        Put(position, [b]);
      } else if ShortEscape(b) != 0 {
        Put(position, [BACKSLASH, ShortEscape(b)]);
      } else {
        Put(position, Escape(b));
        buffer[position + |Escape(b)|] := 0;
      }
    }

    /** The loop over a string's bytes. */
    method PutEscaped(position: nat, s: seq<Byte>, ghost limit: nat) returns (output: nat)
      requires Valid() && NulFree(s) && offset <= position && position + |Escaped(s)| < limit <= length
      modifies buffer
      ensures output == position + |Escaped(s)| && buffer[..output] == old(buffer[..position]) + Escaped(s)
    {
      hide Escaped, Escape;
      ghost var before := buffer[..position];
      output := position;
      EscapedNothing();
      assert s[..0] == [];
      for i := 0 to |s|
        invariant output == position + |Escaped(s[..i])| <= length && buffer[..output] == before + Escaped(s[..i])
      {
        EscapedPrefix(s, i);
        EscapedGrows(s, i + 1);
        PutEscape(output, s[i], limit);
        assert before + Escaped(s[..i]) + Escape(s[i]) == before + (Escaped(s[..i]) + Escape(s[i]));
        output := output + |Escape(s[i])|;
      }
      assert s[..|s|] == s;
    }

    /** Write a string that has to be escaped. */
    method PutQuoted(s: seq<Byte>, outputLength: nat)
      requires Valid() && NulFree(s) && outputLength == |Escaped(s)| && offset + outputLength + 3 < length
      modifies buffer
      ensures Valid() && buffer[..offset + outputLength + 3] == old(Done()) + Quoted(s) + [0]
    {
      hide Escaped;
      QuoteGrouping(Done(), s);
      Put(offset, [QUOTE]);
      var output := PutEscaped(offset + 1, s, offset + outputLength + 3);
      Put(output, [QUOTE, 0]);
    }

    /** Print a string with its escapes. */
    method PrintStringPtr(s: seq<Byte>) returns (ok: bool)
      requires Valid() && NulFree(s)
      modifies this`buffer, this`length, buffer
      ensures Valid() && Capacity() == old(Capacity()) && (buffer == old(buffer) || (!noalloc && fresh(buffer)))
      ensures ok <==> offset + |Quoted(s)| + 2 <= Capacity()
      ensures ok ==> Holds(old(Done()) + Quoted(s))
    {
      hide Escaped, Escape, Holds;
      ghost var before := Done();
      QuoteGrouping(before, s);
      var escapes := CountEscapes(s);
      var outputLength := |s| + escapes;
      ok := Ensure(outputLength + 3);
      if !ok {
        return;
      }
      if escapes == 0 {
        NothingEscaped(s);
        Put(offset, [QUOTE] + s + [QUOTE] + [0]);
      } else {
        PutQuoted(s, outputLength);
      }
      Terminate(before + Quoted(s));
    }

    /** Write some bytes, with a terminator if there is to be one, and move behind them. */
    method Append(bytes: seq<Byte>, needed: nat, terminate: bool) returns (ok: bool)
      requires Valid() && |bytes| + (if terminate then 1 else 0) <= needed + 1
      modifies this`buffer, this`length, this`offset, buffer
      ensures Valid() && Capacity() == old(Capacity()) && (buffer == old(buffer) || (!noalloc && fresh(buffer)))
      ensures ok <==> old(offset) + needed + 1 <= Capacity()
      ensures ok ==> |bytes| <= needed ==> Done() == old(Done()) + bytes
    {
      ok := Ensure(needed);
      if !ok {
        return;
      }
      ghost var before := Done();
      if |bytes| <= needed {
        Put(offset, bytes);
        if terminate && |bytes| < needed {
          buffer[offset + |bytes|] := 0;
        }
        offset := offset + |bytes|;
        assert buffer[..offset] == before + bytes;
      }
    }

    /** A word that stands for itself. */
    method PrintWord(word: seq<Byte>) returns (ok: bool)
      requires Valid()
      modifies this`buffer, this`length, buffer
      ensures Valid() && Capacity() == old(Capacity()) && (buffer == old(buffer) || (!noalloc && fresh(buffer)))
      ensures ok <==> offset + |word| + 2 <= Capacity()
      ensures ok ==> Holds(old(Done()) + word)
    {
      ghost var before := Done();
      ok := Ensure(|word| + 1);
      if ok {
        Put(offset, word + [0]);
        assert before + (word + [0]) == before + word + [0];
        Terminate(before + word);
      }
    }

    method PrintValue(v: Json) returns (ok: bool)
      requires Valid() && CStrings(v)
      modifies this, buffer
      ensures Valid() && Capacity() == old(Capacity()) && (buffer == old(buffer) || (!noalloc && fresh(buffer)))
      ensures ok <==> old(offset) + |Text(v, format, old(depth))| + 2 <= Capacity()
      ensures ok ==> Holds(old(Done()) + Text(v, format, old(depth))) && depth == old(depth)
      ensures ok ==> old(offset) <= offset <= old(offset) + |Text(v, format, old(depth))|
      decreases v, 0
    {
      hide ItemsText, PairsText, Quoted, Holds, Valid;
      match v
      case Null => ok := PrintWord(NULL_TEXT);
      case False => ok := PrintWord(FALSE_TEXT);
      case True => ok := PrintWord(TRUE_TEXT);
      case String(s) => ok := PrintStringPtr(s);
      case Array(items) => ok := PrintArray(items);
      case Object(pairs) => ok := PrintObject(pairs);
    }

    /** Print a value and move behind it. */
    method PrintElement(v: Json) returns (ok: bool)
      requires Valid() && CStrings(v)
      modifies this, buffer
      ensures Valid() && Capacity() == old(Capacity()) && (buffer == old(buffer) || (!noalloc && fresh(buffer)))
      ensures ok <==> old(offset) + |Text(v, format, old(depth))| + 2 <= Capacity()
      ensures ok ==> Done() == old(Done()) + Text(v, format, old(depth)) && depth == old(depth)
      decreases v, 1
    {
      hide Text, CStrings, Holds;
      ghost var before, text := Done(), Text(v, format, depth);
      TextNulFree(v, format, depth);
      ok := PrintValue(v);
      if ok {
        SuffixNulFree(before, text, offset);
        UpdateOffset(before + text);
      }
    }

    /** Print a key and move behind it. */
    method PrintKey(s: seq<Byte>) returns (ok: bool)
      requires Valid() && NulFree(s)
      modifies this`buffer, this`length, this`offset, buffer
      ensures Valid() && Capacity() == old(Capacity()) && (buffer == old(buffer) || (!noalloc && fresh(buffer)))
      ensures ok <==> old(offset) + |Quoted(s)| + 2 <= Capacity()
      ensures ok ==> Done() == old(Done()) + Quoted(s)
    {
      hide Quoted, Holds;
      ghost var before := Done();
      QuotedNulFree(s);
      ok := PrintStringPtr(s);
      if ok {
        SuffixNulFree(before, Quoted(s), offset);
        UpdateOffset(before + Quoted(s));
      }
    }

    method PrintArray(items: seq<Json>) returns (ok: bool)
      requires Valid() && forall x | x in items :: CStrings(x)
      modifies this, buffer
      ensures Valid() && Capacity() == old(Capacity()) && (buffer == old(buffer) || (!noalloc && fresh(buffer)))
      ensures var text := [OPEN] + ItemsText(items, format, old(depth) + 1) + [CLOSE];
        && (ok <==> old(offset) + |text| + 2 <= Capacity())
        && (ok ==> Holds(old(Done()) + text) && depth == old(depth) && old(offset) <= offset <= old(offset) + |text|)
      decreases items, 1
    {
      hide Text, ItemsText, CStrings, Valid, Holds;
      ghost var before, d := Done(), depth + 1;
      ok := Append([OPEN], 1, false);
      if !ok {
        return;
      }
      depth := depth + 1;
      ok := PrintElements(items);
      if !ok {
        return;
      }
      ghost var body := ItemsText(items, format, d);
      ok := PrintWord([CLOSE]);
      assert before + [OPEN] + body + [CLOSE] == before + ([OPEN] + body + [CLOSE]);
      depth := depth - 1;
    }

    /** One element of an array and what separates it from the next one. */
    method PrintItem(v: Json, last: bool) returns (ok: bool)
      requires Valid() && CStrings(v)
      modifies this, buffer
      ensures Valid() && Capacity() == old(Capacity()) && (buffer == old(buffer) || (!noalloc && fresh(buffer)))
      ensures ok ==> Done() == old(Done()) + ItemText(v, format, depth, last) && depth == old(depth)
      ensures !ok ==> old(offset) + |ItemText(v, format, old(depth), last)| + (if last then 0 else 2) + 2 > Capacity()
      decreases v, 2
    {
      hide Text, CStrings, Valid;
      ghost var before, text := Done(), Text(v, format, depth);
      ok := PrintElement(v);
      if ok && !last {
        var n := if format then 2 else 1;
        ok := Append([COMMA] + When(format, [SPACE]), n + 1, true);
        assert before + text + ([COMMA] + When(format, [SPACE])) == before + ItemText(v, format, depth, last);
      } else {
        assert before + text + [] == before + text;
      }
    }

    /** The loop over the elements of an array. */
    method PrintElements(items: seq<Json>) returns (ok: bool)
      requires Valid() && forall x | x in items :: CStrings(x)
      modifies this, buffer
      ensures Valid() && Capacity() == old(Capacity()) && (buffer == old(buffer) || (!noalloc && fresh(buffer)))
      ensures ok ==> Done() == old(Done()) + ItemsText(items, format, depth) && depth == old(depth)
      ensures !ok ==> old(offset) + |ItemsText(items, format, old(depth))| + 2 > Capacity()
      decreases items, 0
    {
      hide Text, ItemsText, CStrings, Valid, ItemText;
      ghost var before, all := Done(), ItemsText(items, format, depth);
      ghost var done: seq<Byte> := [];
      ok := true;
      assert items[0..] == items;
      var i := 0;
      while i < |items|
        invariant i <= |items| && Valid() && Capacity() == old(Capacity()) && (buffer == old(buffer) || (!noalloc && fresh(buffer)))
        invariant depth == old(depth) && ok && Done() == before + done && done + ItemsText(items[i..], format, depth) == all
      {
        ItemsNext(items, i, format, depth);
        assert |all| == |done| + |ItemsText(items[i..], format, depth)|;
        ghost var first := ItemText(items[i], format, depth, i + 1 == |items|);
        ok := PrintItem(items[i], i + 1 == |items|);
        if !ok {
          return;
        }
        assert before + done + first == before + (done + first);
        done := done + first;
        i := i + 1;
      }
      NoItemsText(format, depth);
      assert items[i..] == [];
    }

    method PrintObject(pairs: seq<Pair>) returns (ok: bool)
      requires Valid() && forall p | p in pairs :: NulFree(p.key) && CStrings(p.value)
      modifies this, buffer
      ensures Valid() && Capacity() == old(Capacity()) && (buffer == old(buffer) || (!noalloc && fresh(buffer)))
      ensures var text := [BEGIN] + When(format, [NEWLINE]) + PairsText(pairs, format, old(depth) + 1) + When(format, Tabs(old(depth))) + [END];
        && (ok <==> old(offset) + |text| + 2 <= Capacity())
        && (ok ==> Holds(old(Done()) + text) && depth == old(depth) && old(offset) <= offset <= old(offset) + |text|)
      decreases pairs, 1
    {
      hide Text, PairsText, CStrings, Valid, Holds, Tabs, When;
      ghost var before := Done();
      ObjectGrouping(before, format, PairsText(pairs, format, depth + 1), depth);
      ok := Append([BEGIN] + When(format, [NEWLINE]), if format then 3 else 2, false);
      if !ok {
        return;
      }
      depth := depth + 1;
      ok := PrintMembers(pairs);
      if !ok {
        return;
      }
      ok := PrintWord(When(format, Tabs(depth - 1)) + [END]);
      depth := depth - 1;
    }

    /** The loop over the members of an object. */
    method PrintMembers(pairs: seq<Pair>) returns (ok: bool)
      requires Valid() && forall p | p in pairs :: NulFree(p.key) && CStrings(p.value)
      modifies this, buffer
      ensures Valid() && Capacity() == old(Capacity()) && (buffer == old(buffer) || (!noalloc && fresh(buffer)))
      ensures ok ==> Done() == old(Done()) + PairsText(pairs, format, depth) && depth == old(depth)
      ensures !ok ==> old(offset) + |PairsText(pairs, format, old(depth))| + 2 > Capacity()
      decreases pairs, 0
    {
      hide Text, PairsText, CStrings, Valid, PairText;
      ghost var before, all := Done(), PairsText(pairs, format, depth);
      ghost var done: seq<Byte> := [];
      ok := true;
      assert pairs[0..] == pairs;
      var i := 0;
      while i < |pairs|
        invariant i <= |pairs| && Valid() && Capacity() == old(Capacity()) && (buffer == old(buffer) || (!noalloc && fresh(buffer)))
        invariant depth == old(depth) && ok && Done() == before + done && done + PairsText(pairs[i..], format, depth) == all
      {
        PairsNext(pairs, i, format, depth);
        assert |all| == |done| + |PairsText(pairs[i..], format, depth)|;
        ghost var first := PairText(pairs[i], format, depth, i + 1 == |pairs|);
        ok := PrintPair(pairs[i], i + 1 == |pairs|);
        if !ok {
          return;
        }
        assert before + done + first == before + (done + first);
        done := done + first;
        i := i + 1;
      }
      NoPairsText(format, depth);
      assert pairs[i..] == [];
    }

    /** The key of a member, and what stands around it. */
    method PrintMemberKey(key: seq<Byte>) returns (ok: bool)
      requires Valid() && NulFree(key)
      modifies this, buffer
      ensures Valid() && Capacity() == old(Capacity()) && (buffer == old(buffer) || (!noalloc && fresh(buffer)))
      ensures ok ==> Done() == old(Done()) + KeyText(key, format, depth) && depth == old(depth)
      ensures !ok ==> old(offset) + |KeyText(key, format, old(depth))| + 1 > Capacity()
    {
      hide Valid, Quoted, Tabs;
      ghost var before, tabs := Done(), When(format, Tabs(depth));
      if format {
        ok := Append(Tabs(depth), depth, false);
        if !ok {
          return;
        }
      }
      assert Done() == before + tabs;
      ok := PrintKey(key);
      if !ok {
        return;
      }
      ok := Append([COLON] + When(format, [TAB]), if format then 2 else 1, false);
      MiddleFirst(before, tabs, Quoted(key), [COLON] + When(format, [TAB]));
    }

    /** One member of an object. */
    method PrintPair(p: Pair, last: bool) returns (ok: bool)
      requires Valid() && NulFree(p.key) && CStrings(p.value)
      modifies this, buffer
      ensures Valid() && Capacity() == old(Capacity()) && (buffer == old(buffer) || (!noalloc && fresh(buffer)))
      ensures ok ==> Done() == old(Done()) + PairText(p, format, depth, last) && depth == old(depth)
      ensures !ok ==> old(offset) + |PairText(p, format, old(depth), last)| + 2 > Capacity()
      decreases p, 2
    {
      hide Text, CStrings, Valid, KeyText, PairText;
      ghost var before, key, value := Done(), KeyText(p.key, format, depth), Text(p.value, format, depth);
      PairGrouping(p, format, depth, last);
      ok := PrintMemberKey(p.key);
      if !ok {
        return;
      }
      ok := PrintElement(p.value);
      if !ok {
        return;
      }
      var n := (if format then 1 else 0) + (if last then 0 else 1);
      ok := Append(When(!last, [COMMA]) + When(format, [NEWLINE]), n + 1, true);
      MiddleFirst(before, key, value, When(!last, [COMMA]) + When(format, [NEWLINE]));
    }

    /** Text followed by a zero byte is what the buffer holds. */
    lemma Terminate(text: seq<Byte>)
      requires |text| < length <= buffer.Length && buffer[..|text| + 1] == text + [0]
      ensures Holds(text)
    {
      assert buffer[..|text|] == buffer[..|text| + 1][..|text|];
      assert buffer[|text|] == buffer[..|text| + 1][|text|];
    }
  }

  lemma EscapedNothing()
    ensures Escaped([]) == []
  {
  }

  lemma SuffixNulFree(before: seq<Byte>, text: seq<Byte>, o: nat)
    requires NulFree(text) && |before| <= o <= |before| + |text|
    ensures NulFree((before + text)[o..])
  {
  }

  /** An element of an array with what separates it from the next one. */
  function ItemText(v: Json, format: bool, d: nat, last: bool): seq<Byte> {
    Text(v, format, d) + When(!last, [COMMA] + When(format, [SPACE]))
  }

  lemma ItemsNext(items: seq<Json>, i: nat, format: bool, d: nat)
    requires i < |items|
    ensures ItemsText(items[i..], format, d)
            == ItemText(items[i], format, d, i + 1 == |items|) + ItemsText(items[i + 1..], format, d)
    ensures i + 1 < |items| ==> |ItemsText(items[i + 1..], format, d)| >= 2
  {
    hide Text;
    assert items[i..][1..] == items[i + 1..];
  }

  lemma PairsNext(pairs: seq<Pair>, i: nat, format: bool, d: nat)
    requires i < |pairs|
    ensures PairsText(pairs[i..], format, d) == PairText(pairs[i], format, d, i + 1 == |pairs|) + PairsText(pairs[i + 1..], format, d)
  {
    hide Text, Escaped;
    assert pairs[i..][1..] == pairs[i + 1..];
  }

  lemma MiddleFirst(a: seq<Byte>, b: seq<Byte>, c: seq<Byte>, d: seq<Byte>)
    ensures a + b + c + d == a + (b + c + d)
  {
  }

  /** A key with its tabs and its colon. */
  function KeyText(key: seq<Byte>, format: bool, d: nat): (r: seq<Byte>)
    ensures |r| >= 2
  {
    When(format, Tabs(d)) + Quoted(key) + ([COLON] + When(format, [TAB]))
  }

  lemma PairGrouping(p: Pair, format: bool, d: nat, last: bool)
    ensures PairText(p, format, d, last)
            == KeyText(p.key, format, d) + Text(p.value, format, d) + (When(!last, [COMMA]) + When(format, [NEWLINE]))
  {
    hide Text, Quoted, Tabs;
  }

  lemma ObjectGrouping(before: seq<Byte>, format: bool, body: seq<Byte>, d: nat)
    ensures var head, tabs := [BEGIN] + When(format, [NEWLINE]), When(format, Tabs(d));
      && before + head + body + (tabs + [END]) == before + (head + body + tabs + [END])
      && |head| == (if format then 2 else 1) && (!format ==> |tabs| == 0)
  {
    hide Tabs;
  }

  lemma QuoteGrouping(before: seq<Byte>, s: seq<Byte>)
    ensures before + ([QUOTE] + Escaped(s) + [QUOTE] + [0]) == before + Quoted(s) + [0]
    ensures before + [QUOTE] + Escaped(s) + [QUOTE, 0] == before + Quoted(s) + [0]
    ensures |Quoted(s)| == |Escaped(s)| + 2
  {
    hide Escaped;
  }

  datatype Printed = NotPrinted | Printed(text: seq<Byte>)

  /** cJSON_Print and cJSON_PrintUnformatted: the text, if it is not too long. */
  method Print(v: Json, format: bool) returns (r: Printed)
    requires CStrings(v)
    ensures r == if |Text(v, format, 0)| + 2 <= INT_MAX then Printed(Text(v, format, 0)) else NotPrinted
  {
    hide Text, CStrings;
    var memory := new Byte[256];
    var buffer := new PrintBuffer(memory, 0, false, format);
    assert buffer.Done() == [];
    var ok := buffer.PrintElement(v);
    if !ok {
      return NotPrinted;
    }
    assert [] + Text(v, format, 0) == Text(v, format, 0);
    return Printed(buffer.buffer[..buffer.offset]);
  }

  /** cJSON_PrintPreallocated: the buffer has to be one byte longer than the text with its
      terminator. */
  method PrintPreallocated(v: Json, buf: array<Byte>, format: bool) returns (ok: bool)
    requires CStrings(v) && buf.Length <= INT_MAX
    modifies buf
    ensures ok <==> |Text(v, format, 0)| + 2 <= buf.Length
    ensures ok ==> var n := |Text(v, format, 0)|; buf[..n] == Text(v, format, 0) && buf[n] == 0
  {
    hide Text, CStrings;
    var buffer := new PrintBuffer(buf, buf.Length, true, format);
    assert buffer.Done() == [];
    ok := buffer.PrintValue(v);
    assert [] + Text(v, format, 0) == Text(v, format, 0);
  }
}
