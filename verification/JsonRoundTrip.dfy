/** Parsing what was printed gives back what was printed, up to the nesting limit of the
    parser, formatted or not, whatever surrounds it. */
module JsonRoundTrip {
  import opened Octets
  import opened Powers
  import opened JsonText
  import opened JsonParse

  lemma ReadsParts(t: seq<Byte>, o: nat, x: seq<Byte>, y: seq<Byte>)
    requires Reads(t, o, x + y)
    ensures Reads(t, o, x) && Reads(t, o + |x|, y)
  {
    assert t[o..o + |x + y|][..|x|] == x;
    assert t[o..o + |x + y|][|x|..] == y;
  }

  lemma ReadsByte(t: seq<Byte>, o: nat, x: seq<Byte>, i: nat)
    requires Reads(t, o, x) && i < |x|
    ensures t[o + i] == x[i]
  {
    assert t[o..o + |x|][i] == t[o + i];
  }

  lemma {:induction false} SkipBlank(t: seq<Byte>, o: nat, n: nat)
    requires Terminated(t) && o + n < |t| && t[o + n] > 32 && forall i | o <= i < o + n :: t[i] <= 32
    ensures Skip(t, o) == o + n
    decreases n
  {
    if n > 0 { SkipBlank(t, o + 1, n - 1); }
  }

  // ----- strings

  lemma HexTrip(n: nat)
    requires n < 16
    ensures HexValue(HexDigit(n)) == n
  {
  }

  /** One escaped byte: the scan passes it, and it is unescaped as itself. */
  lemma EscapeTrip(t: seq<Byte>, o: nat, b: Byte, end: nat)
    requires b != 0 && Reads(t, o, Escape(b)) && o + |Escape(b)| <= end < |t|
    ensures StringEnd(t, o) == StringEnd(t, o + |Escape(b)|)
    ensures Unescaped(t, o, end) == After([b], Unescaped(t, o + |Escape(b)|, end))
  {
    hide Hex4, HexDigit, Utf8;
    var e := Escape(b);
    assert forall i | 0 <= i < |e| :: t[o + i] == e[i] by { forall i | 0 <= i < |e| ensures t[o + i] == e[i] { ReadsByte(t, o, e, i); } }
    assert t[o] == e[0];
    if |e| == 2 {
      assert t[o + 1] == e[1];
    } else if |e| == 6 {
      assert t[o + 1] == e[1] && t[o + 2] == e[2] && t[o + 3] == e[3] && t[o + 4] == e[4] && t[o + 5] == e[5];
      ControlTrip(t, o, b, end);
    }
  }

  lemma ControlTrip(t: seq<Byte>, o: nat, b: Byte, end: nat)
    requires 0 < b < 32 && o + 6 <= end < |t| && t[o] == BACKSLASH && t[o + 1] == LOWER_U
    requires t[o + 2] == ZERO && t[o + 3] == ZERO && t[o + 4] == HexDigit(b / 16) && t[o + 5] == HexDigit(b % 16)
    ensures StringEnd(t, o) == StringEnd(t, o + 6)
    ensures Utf16(t, o, end) == (b as nat, 6) && Utf8(b) == [b]
  {
    HexTrip(b / 16);
    HexTrip(b % 16);
    HexTrip(0);
    assert Hex4(t, o + 2) == b;
    var e := StringEnd(t, o + 6);
    assert StringEnd(t, o + 5) == e;
    assert StringEnd(t, o + 4) == e;
    assert StringEnd(t, o + 3) == e;
    assert StringEnd(t, o + 2) == e;
  }

  lemma Regroup3(a: seq<Byte>, b: seq<Byte>, c: seq<Byte>)
    ensures a + b + c == a + (b + c)
  {
  }

  lemma EscapedShape(s: seq<Byte>)
    requires s != []
    ensures Escaped(s) + [QUOTE] == Escape(s[0]) + (Escaped(s[1..]) + [QUOTE])
    ensures |Escaped(s)| == |Escape(s[0])| + |Escaped(s[1..])|
    ensures s == [s[0]] + s[1..]
  {
    hide Escape;
    Regroup3(Escape(s[0]), Escaped(s[1..]), [QUOTE]);
  }

  lemma EscapedNone(t: seq<Byte>, o: nat)
    requires Reads(t, o, Escaped([]) + [QUOTE])
    ensures |Escaped([])| == 0 && o < |t| && StringEnd(t, o) == o && Unescaped(t, o, o) == Bytes([])
  {
    ReadsByte(t, o, [QUOTE], 0);
  }

  /** An escaped string: the scan ends at its quote, and it is unescaped as itself. */
  lemma {:induction false} EscapedTrip(t: seq<Byte>, o: nat, s: seq<Byte>)
    requires NulFree(s) && Reads(t, o, Escaped(s) + [QUOTE])
    ensures var end := o + |Escaped(s)|;
      end < |t| && StringEnd(t, o) == end && Unescaped(t, o, end) == Bytes(s)
    decreases |s|
  {
    hide Escape, Escaped, Reads, StringEnd, Unescaped;
    if s == [] {
      EscapedNone(t, o);
    } else {
      var end, e, rest := o + |Escaped(s)|, Escape(s[0]), Escaped(s[1..]);
      EscapedShape(s);
      ReadsParts(t, o, e, rest + [QUOTE]);
      ReadsFits(t, o + |e|, rest + [QUOTE]);
      EscapeTrip(t, o, s[0], end);
      EscapedTrip(t, o + |e|, s[1..]);
    }
  }

  lemma ReadsFits(t: seq<Byte>, o: nat, x: seq<Byte>)
    requires Reads(t, o, x)
    ensures o + |x| <= |t|
  {
  }

  lemma {:induction false} CStringOf(s: seq<Byte>)
    requires NulFree(s)
    ensures CString(s) == s
  {
    if s != [] {
      CStringOf(s[1..]);
      assert s == [s[0]] + s[1..];
    }
  }

  /** A printed string is parsed as itself. */
  lemma StringTrip(t: seq<Byte>, o: nat, s: seq<Byte>)
    requires NulFree(s) && Reads(t, o, Quoted(s)) && Terminated(t)
    ensures o < |t| && t[o] == QUOTE && ParseString(t, o) == SomeString(s, o + |Quoted(s)|)
  {
    hide Escaped, StringEnd, Unescaped, CString;
    assert Quoted(s) == [QUOTE] + (Escaped(s) + [QUOTE]);
    ReadsParts(t, o, [QUOTE], Escaped(s) + [QUOTE]);
    ReadsByte(t, o, [QUOTE], 0);
    EscapedTrip(t, o + 1, s);
    CStringOf(s);
  }

  // ----- values

  /** What a value's text begins with. */
  function FirstByte(v: Json): Byte {
    match v
    case Null => 110
    case False => 102
    case True => 116
    case String(_) => QUOTE
    case Array(_) => OPEN
    case Object(_) => BEGIN
  }

  lemma TextBegins(v: Json, format: bool, depth: nat)
    ensures Text(v, format, depth)[0] == FirstByte(v) > 32 && FirstByte(v) != CLOSE
  {
    hide Escaped, ItemsText, PairsText;
  }

  /** A text that begins with another byte is none of the three words. */
  lemma NoWord(t: seq<Byte>, o: nat)
    requires o < |t| && t[o] != 110 && t[o] != 102 && t[o] != 116
    ensures !Reads(t, o, NULL_TEXT) && !Reads(t, o, FALSE_TEXT) && !Reads(t, o, TRUE_TEXT)
  {
    if Reads(t, o, NULL_TEXT) { ReadsByte(t, o, NULL_TEXT, 0); }
    if Reads(t, o, FALSE_TEXT) { ReadsByte(t, o, FALSE_TEXT, 0); }
    if Reads(t, o, TRUE_TEXT) { ReadsByte(t, o, TRUE_TEXT, 0); }
  }

  lemma WordTrip(t: seq<Byte>, o: nat, v: Json, depth: nat)
    requires Terminated(t) && (v.Null? || v.False? || v.True?) && Reads(t, o, Text(v, false, 0))
    ensures o < |t| && ParseValue(t, o, depth) == Value(v, o + |Text(v, false, 0)|)
  {
    ReadsByte(t, o, Text(v, false, 0), 0);
    if !v.Null? && Reads(t, o, NULL_TEXT) { ReadsByte(t, o, NULL_TEXT, 0); }
    if v.True? && Reads(t, o, FALSE_TEXT) { ReadsByte(t, o, FALSE_TEXT, 0); }
  }

  /** Where the text of a value stands in front of further text, it is parsed as that value if
      the nesting limit permits, and refused otherwise. */
  lemma {:induction false} ValueTrip(v: Json, format: bool, d: nat, t: seq<Byte>, o: nat, k: nat)
    requires Terminated(t) && CStrings(v) && Reads(t, o, Text(v, format, d)) && k <= NESTING_LIMIT
    ensures o < |t|
    ensures ParseValue(t, o, k) == if k + Height(v) <= NESTING_LIMIT then Value(v, o + |Text(v, format, d)|) else Failed
    decreases v, 0
  {
    hide Escaped, ItemsText, PairsText, ParseArray, ParseObject, ParseString, ItemsHeight, PairsHeight;
    TextBegins(v, format, d);
    ReadsByte(t, o, Text(v, format, d), 0);
    match v
    case String(s) =>
      NoWord(t, o);
      StringTrip(t, o, s);
    case Array(items) =>
      NoWord(t, o);
      ArrayTrip(items, format, d, t, o, k);
    case Object(pairs) =>
      NoWord(t, o);
      ObjectTrip(pairs, format, d, t, o, k);
    case _ => WordTrip(t, o, v, k);
  }

  lemma {:induction false} ArrayTrip(items: seq<Json>, format: bool, d: nat, t: seq<Byte>, o: nat, k: nat)
    requires Terminated(t) && (forall x | x in items :: CStrings(x)) && k <= NESTING_LIMIT
    requires Reads(t, o, [OPEN] + ItemsText(items, format, d + 1) + [CLOSE])
    ensures o < |t| && t[o] == OPEN
    ensures ParseArray(t, o, k) == if k + 1 + ItemsHeight(items) <= NESTING_LIMIT
                                   then Value(Array(items), o + 2 + |ItemsText(items, format, d + 1)|) else Failed
    decreases items, 3
  {
    hide Text, ParseItems, Height, Reads, Skip;
    var body := ItemsText(items, format, d + 1) + [CLOSE];
    assert [OPEN] + ItemsText(items, format, d + 1) + [CLOSE] == [OPEN] + body;
    ReadsParts(t, o, [OPEN], body);
    ReadsByte(t, o, [OPEN], 0);
    ReadsByte(t, o + 1, body, 0);
    if items == [] {
      SkipBlank(t, o + 1, 0);
    } else {
      TextBegins(items[0], format, d + 1);
      SkipBlank(t, o + 1, 0);
      if k < NESTING_LIMIT { ItemsTrip(items, format, d + 1, t, o, o + 1, k + 1); }
    }
  }

  function Separator(format: bool, last: bool): seq<Byte> {
    When(!last, [COMMA] + When(format, [SPACE]))
  }

  lemma ItemsShape(items: seq<Json>, format: bool, d: nat, tail: seq<Byte>)
    requires items != []
    ensures ItemsText(items, format, d) + tail
            == Text(items[0], format, d) + (Separator(format, |items| == 1) + (ItemsText(items[1..], format, d) + tail))
    ensures |ItemsText(items, format, d)|
            == |Text(items[0], format, d)| + |Separator(format, |items| == 1)| + |ItemsText(items[1..], format, d)|
  {
    hide Text;
    Regroup(Text(items[0], format, d), Separator(format, |items| == 1), ItemsText(items[1..], format, d), tail);
  }

  lemma Regroup(a: seq<Byte>, b: seq<Byte>, c: seq<Byte>, d: seq<Byte>)
    ensures a + b + c + d == a + (b + (c + d))
  {
  }

  /** What stands behind an element: the bracket, or a comma and the next element. */
  lemma SeparatorTrip(t: seq<Byte>, o: nat, format: bool, rest: seq<Byte>, last: bool)
    requires Terminated(t) && rest != [] && rest[0] > 32 && (last ==> rest[0] == CLOSE)
    requires Reads(t, o, Separator(format, last) + rest)
    ensures Skip(t, o) == o < |t| && t[o] == if last then CLOSE else COMMA
    ensures if last then |Separator(format, last)| == 0
            else o + 1 < |t| && Skip(t, o + 1) == o + |Separator(format, last)|
  {
    hide Reads, Skip;
    var sep := Separator(format, last);
    ReadsParts(t, o, sep, rest);
    ReadsByte(t, o + |sep|, rest, 0);
    if !last {
      ReadsByte(t, o, sep, 0);
      if format { ReadsByte(t, o, sep, 1); }
      SkipBlank(t, o + 1, |sep| - 1);
    }
    SkipBlank(t, o, 0);
  }

  /** The elements of an array from one byte before them on. */
  lemma {:induction false} ItemsTrip(items: seq<Json>, format: bool, d: nat, t: seq<Byte>, o: nat, q: nat, k: nat)
    requires Terminated(t) && items != [] && (forall x | x in items :: CStrings(x)) && k <= NESTING_LIMIT
    requires o + 1 < |t| && Skip(t, o + 1) == q
    requires Reads(t, q, ItemsText(items, format, d) + [CLOSE])
    ensures ParseItems(t, o, k) == if k + ItemsHeight(items) <= NESTING_LIMIT
                                   then Items(items, q + |ItemsText(items, format, d)| + 1) else NoItems
    decreases items, 2
  {
    hide Text, ParseValue, Height, Skip, Reads, ItemsText, Separator, CStrings;
    var last, first := |items| == 1, Text(items[0], format, d);
    var sep, rest := Separator(format, last), ItemsText(items[1..], format, d) + [CLOSE];
    ItemsShape(items, format, d, [CLOSE]);
    ReadsParts(t, q, first, sep + rest);
    var o1 := q + |first|;
    ReadsParts(t, o1, sep, rest);
    ValueTrip(items[0], format, d, t, q, k);
    ItemsBegin(items[1..], format, d);
    SeparatorTrip(t, o1, format, rest, last);
    assert items == [items[0]] + items[1..];
    if last {
      assert items[1..] == [];
      assert ItemsHeight(items) == Height(items[0]);
    } else {
      ItemsTrip(items[1..], format, d, t, o1, o1 + |sep|, k);
    }
  }

  lemma ItemsBegin(items: seq<Json>, format: bool, d: nat)
    ensures var rest := ItemsText(items, format, d) + [CLOSE];
      rest[0] > 32 && (items == [] ==> |ItemsText(items, format, d)| == 0 && rest[0] == CLOSE)
  {
    hide Text;
    if items != [] { TextBegins(items[0], format, d); }
  }

  lemma BlankTabs(t: seq<Byte>, o: nat, n: nat)
    requires Reads(t, o, Tabs(n))
    ensures forall i | o <= i < o + n :: t[i] <= 32
  {
    forall i | o <= i < o + n ensures t[i] <= 32 { ReadsByte(t, o, Tabs(n), i - o); }
  }

  /** The closing brace and the tabs in front of it. */
  function Tail(format: bool, d: nat): seq<Byte> { When(format, Tabs(d)) + [END] }

  lemma TailTrip(t: seq<Byte>, o: nat, format: bool, d: nat)
    requires Terminated(t) && Reads(t, o, Tail(format, d))
    ensures Skip(t, o) == o + |Tail(format, d)| - 1 && t[o + |Tail(format, d)| - 1] == END
  {
    ReadsParts(t, o, When(format, Tabs(d)), [END]);
    var n := |When(format, Tabs(d))|;
    ReadsByte(t, o + n, [END], 0);
    if format { BlankTabs(t, o, d); }
    SkipBlank(t, o, n);
  }

  function Head(format: bool): (r: seq<Byte>)
    ensures |r| > 0
  {
    [BEGIN] + When(format, [NEWLINE])
  }

  lemma ObjectShape(pairs: seq<Pair>, format: bool, d: nat)
    ensures Text(Object(pairs), format, d) == Head(format) + (PairsText(pairs, format, d + 1) + Tail(format, d))
  {
    hide PairsText;
    Regroup(Head(format), PairsText(pairs, format, d + 1), When(format, Tabs(d)), [END]);
  }

  lemma HeadTrip(t: seq<Byte>, o: nat, format: bool)
    requires Terminated(t) && Reads(t, o, Head(format)) && o + |Head(format)| < |t|
    ensures o < |t| && t[o] == BEGIN && Skip(t, o + 1) == Skip(t, o + |Head(format)|)
  {
    hide Reads;
    ReadsByte(t, o, Head(format), 0);
    if format { ReadsByte(t, o, Head(format), 1); }
    SkipMore(t, o + 1, o + |Head(format)|);
  }

  lemma {:induction false} ObjectTrip(pairs: seq<Pair>, format: bool, d: nat, t: seq<Byte>, o: nat, k: nat)
    requires Terminated(t) && Clean(pairs) && k <= NESTING_LIMIT
    requires Reads(t, o, Text(Object(pairs), format, d))
    ensures o < |t| && t[o] == BEGIN
    ensures ParseObject(t, o, k) == if k + 1 + PairsHeight(pairs) <= NESTING_LIMIT
      then Value(Object(pairs), o + |Text(Object(pairs), format, d)|) else Failed
    decreases pairs, 3
  {
    hide Text, ParsePairs, Height, Skip, PairsText, Tail, Head, Reads, CStrings, When, Clean;
    var head, body, tail := Head(format), PairsText(pairs, format, d + 1), Tail(format, d);
    ObjectShape(pairs, format, d);
    ReadsParts(t, o, head, body + tail);
    var q := o + |head|;
    ReadsParts(t, q, body, tail);
    TailFits(format, d);
    TailTrip(t, q + |body|, format, d);
    HeadTrip(t, o, format);
    if pairs == [] {
      NoPairsText(format, d + 1);
    } else {
      PairBegins(pairs, format, d + 1, t, q, tail);
      if k < NESTING_LIMIT { PairsTrip(pairs, format, d + 1, t, Skip(t, o + 1) - 1, q, k + 1); }
    }
  }

  /** Blanks in front of more blanks. */
  lemma SkipMore(t: seq<Byte>, o: nat, q: nat)
    requires Terminated(t) && (q == o || (q == o + 1 && q < |t| && t[o] <= 32))
    ensures Skip(t, o) == Skip(t, q)
  {
  }

  lemma PairBegins(pairs: seq<Pair>, format: bool, d: nat, t: seq<Byte>, q: nat, tail: seq<Byte>)
    requires Terminated(t) && pairs != [] && q > 0 && Reads(t, q, PairsText(pairs, format, d) + tail)
    ensures var q1 := q + |When(format, Tabs(d))|;
      0 < q1 < |t| && t[q1] == QUOTE && Skip(t, q) == q1 && Skip(t, q1) == q1
  {
    hide Text, Quoted, Reads, Skip, PairsText, PairText, Tabs;
    var tabs := When(format, Tabs(d));
    var n := |tabs|;
    PairsShape(pairs, format, d, tail);
    PairShape(pairs[0], format, d, |pairs| == 1);
    var key, more := Quoted(pairs[0].key), Colon(format) + (Text(pairs[0].value, format, d) + PairEnd(format, |pairs| == 1));
    ReadsParts(t, q, PairText(pairs[0], format, d, |pairs| == 1), PairsText(pairs[1..], format, d) + tail);
    ReadsParts(t, q, tabs, key + more);
    ReadsParts(t, q + n, key, more);
    QuoteFirst(pairs[0].key);
    ReadsByte(t, q + n, key, 0);
    if format { BlankTabs(t, q, d); }
    SkipBlank(t, q, n);
    SkipBlank(t, q + n, 0);
  }

  lemma QuoteFirst(s: seq<Byte>)
    ensures |Quoted(s)| > 0 && Quoted(s)[0] == QUOTE
  {
    hide Escaped;
  }

  lemma PairShape(p: Pair, format: bool, d: nat, last: bool)
    ensures PairText(p, format, d, last)
            == When(format, Tabs(d)) + (Quoted(p.key) + (Colon(format) + (Text(p.value, format, d) + PairEnd(format, last))))
  {
    hide Text, Quoted, Tabs, When;
    Regroup5(When(format, Tabs(d)), Quoted(p.key), [COLON], When(format, [TAB]), Text(p.value, format, d),
             When(!last, [COMMA]), When(format, [NEWLINE]));
  }

  lemma Regroup5(a: seq<Byte>, b: seq<Byte>, c: seq<Byte>, d: seq<Byte>, e: seq<Byte>, f: seq<Byte>, g: seq<Byte>)
    ensures a + b + c + d + e + f + g == a + (b + ((c + d) + (e + (f + g))))
  {
  }

  function Colon(format: bool): seq<Byte> { [COLON] + When(format, [TAB]) }
  function PairEnd(format: bool, last: bool): seq<Byte> { When(!last, [COMMA]) + When(format, [NEWLINE]) }

  lemma ColonTrip(t: seq<Byte>, o: nat, format: bool)
    requires Terminated(t) && Reads(t, o, Colon(format))
    requires var o2 := o + |Colon(format)|; o2 < |t| && t[o2] > 32
    ensures o < |t| && Skip(t, o) == o && t[o] == COLON && Skip(t, o + 1) == o + |Colon(format)|
  {
    hide Reads, Skip;
    ReadsByte(t, o, Colon(format), 0);
    if format { ReadsByte(t, o, Colon(format), 1); }
    SkipBlank(t, o, 0);
    SkipBlank(t, o + 1, |Colon(format)| - 1);
  }

  /** One pair's text: where its key and its value end, and what they are parsed as. */
  lemma {:induction false} PairTrip(p: Pair, format: bool, d: nat, last: bool, t: seq<Byte>, q: nat, k: nat) returns (o1: nat, q2: nat)
    requires Terminated(t) && NulFree(p.key) && CStrings(p.value) && k <= NESTING_LIMIT
    requires Reads(t, q, PairText(p, format, d, last))
    ensures var q1 := q + |When(format, Tabs(d))|;
      && o1 < |t| && q1 < |t| && ParseString(t, q1) == SomeString(p.key, o1)
      && Skip(t, o1) == o1 && t[o1] == COLON
      && ParseValue(t, Skip(t, o1 + 1), k) == (if k + Height(p.value) <= NESTING_LIMIT then Value(p.value, q2) else Failed)
      && q2 + |PairEnd(format, last)| == q + |PairText(p, format, d, last)|
      && Reads(t, q2, PairEnd(format, last))
    decreases p, 2
  {
    hide Text, ParseValue, Height, Skip, CStrings, ParseString, Quoted, Reads, PairText, Colon, PairEnd;
    var tabs, key, colon, value, end := When(format, Tabs(d)), Quoted(p.key), Colon(format), Text(p.value, format, d), PairEnd(format, last);
    PairShape(p, format, d, last);
    ReadsParts(t, q, tabs, key + (colon + (value + end)));
    var q1 := q + |tabs|;
    ReadsParts(t, q1, key, colon + (value + end));
    StringTrip(t, q1, p.key);
    o1 := q1 + |key|;
    ReadsParts(t, o1, colon, value + end);
    var o2 := o1 + |colon|;
    ReadsParts(t, o2, value, end);
    TextBegins(p.value, format, d);
    ReadsByte(t, o2, value, 0);
    ColonTrip(t, o1, format);
    ValueTrip(p.value, format, d, t, o2, k);
    q2 := o2 + |value|;
  }

  /** Behind a pair: the comma of the next one, or white space only. */
  lemma PairEndTrip(t: seq<Byte>, q: nat, format: bool, last: bool)
    requires Terminated(t) && Reads(t, q, PairEnd(format, last)) && q + |PairEnd(format, last)| < |t|
    ensures var q' := q + |PairEnd(format, last)|;
      if last then Skip(t, q) == Skip(t, q')
      else Skip(t, q) == q && t[q] == COMMA && q + 1 < |t| && Skip(t, q + 1) == Skip(t, q')
  {
    hide Reads;
    var e := PairEnd(format, last);
    if !last { ReadsByte(t, q, e, 0); }
    if format { ReadsByte(t, q, e, |e| - 1); }
    SkipMore(t, if last then q else q + 1, q + |e|);
  }

  lemma PairsShape(pairs: seq<Pair>, format: bool, d: nat, tail: seq<Byte>)
    requires pairs != []
    ensures PairsText(pairs, format, d) + tail
            == PairText(pairs[0], format, d, |pairs| == 1) + (PairsText(pairs[1..], format, d) + tail)
    ensures |PairsText(pairs, format, d)|
            == |PairText(pairs[0], format, d, |pairs| == 1)| + |PairsText(pairs[1..], format, d)|
  {
    hide PairText;
  }

  /** What parsing one pair and the rest gives. */
  lemma PairsStep(t: seq<Byte>, o: nat, k: nat, key: seq<Byte>, o1: nat, p: Parsed)
    requires Terminated(t) && o + 1 < |t| && ParseString(t, Skip(t, o + 1)) == SomeString(key, o1)
    requires o1 < |t| && Skip(t, o1) == o1 && t[o1] == COLON && ParseValue(t, Skip(t, o1 + 1), k) == p
    ensures p.Failed? ==> ParsePairs(t, o, k) == NoPairs
    ensures p.Value? ==> p.end < |t|
    ensures p.Value? && t[Skip(t, p.end)] == COMMA ==>
      var rest := ParsePairs(t, Skip(t, p.end), k);
      ParsePairs(t, o, k) == if rest.NoPairs? then NoPairs else Pairs([Pair(key, p.v)] + rest.pairs, rest.end)
    ensures p.Value? && t[Skip(t, p.end)] == END ==>
      ParsePairs(t, o, k) == Pairs([Pair(key, p.v)], Skip(t, p.end) + 1)
  {
    hide Skip, ParseString, ParseValue;
  }

  lemma PairsHeights(pairs: seq<Pair>)
    requires pairs != []
    ensures PairsHeight(pairs) == Max(Height(pairs[0].value), PairsHeight(pairs[1..]))
    ensures |pairs| == 1 ==> PairsHeight(pairs) == Height(pairs[0].value) && pairs[1..] == [] && pairs == [pairs[0]]
    ensures pairs == [pairs[0]] + pairs[1..] && pairs[0] == Pair(pairs[0].key, pairs[0].value)
  {
    hide Height;
    if |pairs| == 1 { assert pairs[1..] == []; }
  }

  ghost predicate Clean(pairs: seq<Pair>) {
    forall p | p in pairs :: NulFree(p.key) && CStrings(p.value)
  }

  lemma CleanRest(pairs: seq<Pair>)
    requires pairs != [] && Clean(pairs)
    ensures Clean(pairs[1..]) && NulFree(pairs[0].key) && CStrings(pairs[0].value)
  {
  }

  /** The pairs of an object from one byte before the first key on. */
  lemma {:induction false} PairsTrip(pairs: seq<Pair>, format: bool, d: nat, t: seq<Byte>, o: nat, q: nat, k: nat)
    requires Terminated(t) && pairs != [] && Clean(pairs) && k <= NESTING_LIMIT
    requires d > 0 && o + 1 < |t| && Skip(t, o + 1) == q + |When(format, Tabs(d))|
    requires Reads(t, q, PairsText(pairs, format, d) + Tail(format, d - 1))
    ensures ParsePairs(t, o, k) == if k + PairsHeight(pairs) <= NESTING_LIMIT
      then Pairs(pairs, q + |PairsText(pairs, format, d)| + |Tail(format, d - 1)|) else NoPairs
    decreases pairs, 2
  {
    hide Text, ParseValue, Height, Skip, CStrings, ParseString, PairText, PairsText, Tail, Reads, PairEnd, When,
      ParsePairs, PairsHeight, NulFree, Clean;
    var last, tail := |pairs| == 1, Tail(format, d - 1);
    var first, rest := PairText(pairs[0], format, d, last), PairsText(pairs[1..], format, d) + tail;
    PairsShape(pairs, format, d, tail);
    PairsHeights(pairs);
    CleanRest(pairs);
    ReadsParts(t, q, first, rest);
    TailFits(format, d - 1);
    var q' := q + |first|;
    ReadsFits(t, q', rest);
    var o1, q2 := PairTrip(pairs[0], format, d, last, t, q, k);
    PairEndTrip(t, q2, format, last);
    var p := ParseValue(t, Skip(t, o1 + 1), k);
    PairsStep(t, o, k, pairs[0].key, o1, p);
    if last {
      NoPairsText(format, d);
      assert rest == tail;
      TailTrip(t, q', format, d - 1);
    } else {
      PairBegins(pairs[1..], format, d, t, q', tail);
      PairsTrip(pairs[1..], format, d, t, q2, q', k);
      if p.Value? {
        assert Skip(t, p.end) == q2;
        assert ParsePairs(t, q2, k) == if k + PairsHeight(pairs[1..]) <= NESTING_LIMIT
          then Pairs(pairs[1..], q' + |PairsText(pairs[1..], format, d)| + |tail|) else NoPairs;
      }
    }
  }

  lemma TailFits(format: bool, d: nat)
    ensures |Tail(format, d)| > 0
  {
  }

  // ----- the theorem

  /** A tree that was printed, formatted or not, is parsed as itself if its nesting is within
      the limit, and is refused otherwise. */
  lemma RoundTrip(v: Json, format: bool, requireEnd: bool)
    requires CStrings(v)
    ensures var text := Text(v, format, 0);
      Parse(text, requireEnd) == if Height(v) <= NESTING_LIMIT then Value(v, |text|) else Failed
  {
    hide Text, ParseValue, Height, CStrings;
    var text := Text(v, format, 0);
    var t := text + [0];
    assert t[0..0 + |text|] == text;
    TextBegins(v, format, 0);
    SkipBlank(t, 0, 0);
    ValueTrip(v, format, 0, t, 0, 0);
    assert Skip(t, |text|) == |text|;
  }
}
