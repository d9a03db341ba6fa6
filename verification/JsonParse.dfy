/** What a text is parsed as, and that every printed tree is parsed as itself. */
module JsonParse {
  import opened Octets
  import opened JsonText

  const NESTING_LIMIT: nat := 1000

  /** The text of a C string ends with its zero byte. */
  predicate Terminated(t: seq<Byte>) { |t| > 0 && t[|t| - 1] == 0 }

  /** `x` stands in `t` at an offset. */
  predicate Reads(t: seq<Byte>, o: nat, x: seq<Byte>) {
    o + |x| <= |t| && t[o..o + |x|] == x
  }

  // ----- strings

  function HexValue(b: Byte): int {
    if 48 <= b <= 57 then b - 48
    else if 65 <= b <= 70 then 10 + b - 65
    else if 97 <= b <= 102 then 10 + b - 97
    else -1
  }

  /** Four hexadecimal digits; zero if one is none. */
  function Hex4(t: seq<Byte>, o: nat): (h: nat)
    requires o + 4 <= |t|
    ensures h < 0x10000
  {
    var a, b, c, d := HexValue(t[o]), HexValue(t[o + 1]), HexValue(t[o + 2]), HexValue(t[o + 3]);
    if a < 0 || b < 0 || c < 0 || d < 0 then 0 else 4096 * a + 256 * b + 16 * c + d
  }

  /** The bytes of a code point. */
  function Utf8(cp: nat): (r: seq<Byte>)
    requires cp <= 0x10FFFF
    ensures 1 <= |r| <= 4 && (cp < 0x10000 ==> |r| <= 3)
  {
    if cp < 0x80 then [cp]
    else if cp < 0x800 then [0xC0 + cp / 64, 0x80 + cp % 64]
    else if cp < 0x10000 then [0xE0 + cp / 4096, 0x80 + cp / 64 % 64, 0x80 + cp % 64]
    else [0xF0 + cp / 0x40000, 0x80 + cp / 4096 % 64, 0x80 + cp / 64 % 64, 0x80 + cp % 64]
  }

  /** A \uXXXX sequence or a surrogate pair of them: the code point and the length of the text,
      which is zero if there is none. */
  function Utf16(t: seq<Byte>, o: nat, end: nat): (r: (nat, nat))
    requires o <= end <= |t|
    ensures r.0 <= 0x10FFFF && r.1 in {0, 6, 12} && o + r.1 <= end && (r.1 == 6 ==> r.0 < 0x10000)
  {
    if end - o < 6 then (0, 0)
    else
      var first := Hex4(t, o + 2);
      if 0xDC00 <= first <= 0xDFFF then (0, 0)
      else if 0xD800 <= first <= 0xDBFF then
        if end - o < 12 || t[o + 6] != BACKSLASH || t[o + 7] != LOWER_U then (0, 0)
        else
          var second := Hex4(t, o + 8);
          if second < 0xDC00 || second > 0xDFFF then (0, 0)
          else (0x10000 + first % 1024 * 1024 + second % 1024, 12)
      else (first, 6)
  }

  /** The byte a letter stands for after a backslash, or zero. */
  function ShortUnescape(b: Byte): Byte {
    match b
    case 98 => 8
    case 102 => 12
    case 110 => 10
    case 114 => 13
    case 116 => 9
    case 34 => 34
    case 92 => 92
    case 47 => 47
    case _ => 0
  }

  /** The offset of the quote that ends a string, or the length of the text. */
  function StringEnd(t: seq<Byte>, o: nat): (e: nat)
    requires o <= |t|
    ensures o <= e <= |t| && (e < |t| ==> t[e] == QUOTE)
    decreases |t| - o
  {
    if o == |t| then |t|
    else if t[o] == QUOTE then o
    else if t[o] == BACKSLASH then if o + 1 >= |t| then |t| else StringEnd(t, o + 2)
    else StringEnd(t, o + 1)
  }

  datatype Decoded = Undecodable | Bytes(bytes: seq<Byte>)

  function After(x: seq<Byte>, d: Decoded): Decoded {
    if d.Undecodable? then d else Bytes(x + d.bytes)
  }

  /** The string literal up to an offset, with its escapes taken out. */
  function Unescaped(t: seq<Byte>, o: nat, end: nat): Decoded
    requires end < |t|
    decreases |t| - o
  {
    if o >= end then Bytes([])
    else if t[o] != BACKSLASH then After([t[o]], Unescaped(t, o + 1, end))
    else if t[o + 1] == LOWER_U then
      var u := Utf16(t, o, end);
      if u.1 == 0 then Undecodable else After(Utf8(u.0), Unescaped(t, o + u.1, end))
    else if ShortUnescape(t[o + 1]) != 0 then After([ShortUnescape(t[o + 1])], Unescaped(t, o + 2, end))
    else Undecodable
  }

  datatype ParsedString = NoString | SomeString(s: seq<Byte>, end: nat)

  function ParseString(t: seq<Byte>, o: nat): (r: ParsedString)
    requires Terminated(t) && o < |t|
    ensures r.SomeString? ==> o < r.end < |t|
  {
    if t[o] != QUOTE then NoString
    else
      var end := StringEnd(t, o + 1);
      if end >= |t| then NoString
      else
        var d := Unescaped(t, o + 1, end);
        if d.Undecodable? then NoString else SomeString(CString(d.bytes), end + 1)
  }

  // ----- values

  /** The offset of the next byte that is no white space; the last byte counts as one. */
  function Skip(t: seq<Byte>, o: nat): (r: nat)
    requires Terminated(t)
    ensures r < |t| && (o < |t| ==> o <= r)
    decreases |t| - o
  {
    if o < |t| && t[o] <= 32 then Skip(t, o + 1)
    else if o >= |t| then |t| - 1
    else o
  }

  datatype Parsed = Failed | Value(v: Json, end: nat)
  datatype ParsedItems = NoItems | Items(items: seq<Json>, end: nat)
  datatype ParsedPairs = NoPairs | Pairs(pairs: seq<Pair>, end: nat)

  function ParseValue(t: seq<Byte>, o: nat, depth: nat): (r: Parsed)
    requires Terminated(t) && o < |t|
    ensures r.Value? ==> o < r.end < |t|
    decreases |t| - o, 1
  {
    if Reads(t, o, NULL_TEXT) then Value(Null, o + 4)
    else if Reads(t, o, FALSE_TEXT) then Value(False, o + 5)
    else if Reads(t, o, TRUE_TEXT) then Value(True, o + 4)
    else if t[o] == QUOTE then
      var s := ParseString(t, o);
      if s.NoString? then Failed else Value(String(s.s), s.end)
    else if t[o] == OPEN then ParseArray(t, o, depth)
    else if t[o] == BEGIN then ParseObject(t, o, depth)
    else Failed
  }

  function ParseArray(t: seq<Byte>, o: nat, depth: nat): (r: Parsed)
    requires Terminated(t) && o < |t| && t[o] == OPEN
    ensures r.Value? ==> o < r.end < |t|
    decreases |t| - o, 0
  {
    if depth >= NESTING_LIMIT then Failed
    else
      var o1 := Skip(t, o + 1);
      if t[o1] == CLOSE then Value(Array([]), o1 + 1)
      else
        var r := ParseItems(t, o1 - 1, depth + 1);
        if r.NoItems? then Failed else Value(Array(r.items), r.end)
  }

  /** The elements of an array from one byte before the first on, up to the bracket. */
  function ParseItems(t: seq<Byte>, o: nat, depth: nat): (r: ParsedItems)
    requires Terminated(t) && o + 1 < |t|
    ensures r.Items? ==> o + 1 < r.end < |t|
    decreases |t| - o - 1, 2
  {
    var p := ParseValue(t, Skip(t, o + 1), depth);
    if p.Failed? then NoItems
    else
      var o1 := Skip(t, p.end);
      if t[o1] == COMMA then
        var rest := ParseItems(t, o1, depth);
        if rest.NoItems? then NoItems else Items([p.v] + rest.items, rest.end)
      else if t[o1] == CLOSE then Items([p.v], o1 + 1)
      else NoItems
  }

  function ParseObject(t: seq<Byte>, o: nat, depth: nat): (r: Parsed)
    requires Terminated(t) && o < |t| && t[o] == BEGIN
    ensures r.Value? ==> o < r.end < |t|
    decreases |t| - o, 0
  {
    if depth >= NESTING_LIMIT then Failed
    else
      var o1 := Skip(t, o + 1);
      if t[o1] == END then Value(Object([]), o1 + 1)
      else
        var r := ParsePairs(t, o1 - 1, depth + 1);
        if r.NoPairs? then Failed else Value(Object(r.pairs), r.end)
  }

  function ParsePairs(t: seq<Byte>, o: nat, depth: nat): (r: ParsedPairs)
    requires Terminated(t) && o + 1 < |t|
    ensures r.Pairs? ==> o + 1 < r.end < |t|
    decreases |t| - o - 1, 2
  {
    var key := ParseString(t, Skip(t, o + 1));
    if key.NoString? then NoPairs
    else
      var o1 := Skip(t, key.end);
      if t[o1] != COLON then NoPairs
      else
        var p := ParseValue(t, Skip(t, o1 + 1), depth);
        if p.Failed? then NoPairs
        else
          var o2 := Skip(t, p.end);
          if t[o2] == COMMA then
            var rest := ParsePairs(t, o2, depth);
            if rest.NoPairs? then NoPairs else Pairs([Pair(key.s, p.v)] + rest.pairs, rest.end)
          else if t[o2] == END then Pairs([Pair(key.s, p.v)], o2 + 1)
          else NoPairs
  }

  /** The whole of cJSON_ParseWithOpts on a C string. */
  function Parse(text: seq<Byte>, requireEnd: bool): Parsed {
    var t := text + [0];
    var r := ParseValue(t, Skip(t, 0), 0);
    if r.Value? && requireEnd && t[Skip(t, r.end)] != 0 then Failed else r
  }
}
