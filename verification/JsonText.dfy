/** JSON trees and the text they are printed as. */
module JsonText {
  import opened Octets
  import opened Powers

  const TAB: Byte := 9
  const NEWLINE: Byte := 10
  const SPACE: Byte := 32
  const QUOTE: Byte := 34
  const COMMA: Byte := 44
  const ZERO: Byte := 48
  const COLON: Byte := 58
  const OPEN: Byte := 91
  const BACKSLASH: Byte := 92
  const CLOSE: Byte := 93
  const LOWER_A: Byte := 97
  const LOWER_U: Byte := 117
  const BEGIN: Byte := 123
  const END: Byte := 125

  const NULL_TEXT: seq<Byte> := [110, 117, 108, 108]
  const FALSE_TEXT: seq<Byte> := [102, 97, 108, 115, 101]
  const TRUE_TEXT: seq<Byte> := [116, 114, 117, 101]

  datatype Json =
    | Null
    | False
    | True
    | String(s: seq<Byte>)
    | Array(items: seq<Json>)
    | Object(pairs: seq<Pair>)

  datatype Pair = Pair(key: seq<Byte>, value: Json)

  // ----- strings

  /** A C string holds no zero byte. */
  predicate NulFree(s: seq<Byte>) { forall i | 0 <= i < |s| :: s[i] != 0 }

  predicate CStrings(v: Json) {
    match v
    case String(s) => NulFree(s)
    case Array(items) => forall x | x in items :: CStrings(x)
    case Object(pairs) => forall p | p in pairs :: NulFree(p.key) && CStrings(p.value)
    case _ => true
  }

  function HexDigit(n: nat): Byte
    requires n < 16
  {
    if n < 10 then ZERO + n else LOWER_A + (n - 10)
  }

  /** The letter of a short escape, or zero. */
  function ShortEscape(b: Byte): Byte {
    match b
    case 34 => 34
    case 92 => 92
    case 8 => 98
    case 12 => 102
    case 10 => 110
    case 13 => 114
    case 9 => 116
    case _ => 0
  }

  /** One byte of a string as it is printed. */
  function Escape(b: Byte): (r: seq<Byte>)
    ensures 1 <= |r| <= 6 && (b != 0 ==> NulFree(r))
  {
    if ShortEscape(b) != 0 then [BACKSLASH, ShortEscape(b)]
    else if b < 32 then [BACKSLASH, LOWER_U, ZERO, ZERO, HexDigit(b / 16), HexDigit(b % 16)]
    else [b]
  }

  function Escaped(s: seq<Byte>): (r: seq<Byte>)
    ensures |r| >= |s|
  {
    if s == [] then [] else Escape(s[0]) + Escaped(s[1..])
  }

  function Quoted(s: seq<Byte>): seq<Byte> { [QUOTE] + Escaped(s) + [QUOTE] }

  // ----- values

  function Tabs(n: nat): (r: seq<Byte>)
    ensures |r| == n && forall i | 0 <= i < n :: r[i] == TAB
  {
    seq(n, _ => TAB)
  }

  function When(c: bool, s: seq<Byte>): seq<Byte> { if c then s else [] }

  /** The text of a value, indented for a nesting depth when it is formatted. */
  function Text(v: Json, format: bool, depth: nat): (r: seq<Byte>)
    ensures |r| >= 2
    decreases v, 0
  {
    match v
    case Null => NULL_TEXT
    case False => FALSE_TEXT
    case True => TRUE_TEXT
    case String(s) => Quoted(s)
    case Array(items) => [OPEN] + ItemsText(items, format, depth + 1) + [CLOSE]
    case Object(pairs) =>
      [BEGIN] + When(format, [NEWLINE]) + PairsText(pairs, format, depth + 1) + When(format, Tabs(depth)) + [END]
  }

  function ItemsText(items: seq<Json>, format: bool, depth: nat): seq<Byte>
    decreases items, 1
  {
    if items == [] then []
    else
      Text(items[0], format, depth)
      + When(|items| > 1, [COMMA] + When(format, [SPACE]))
      + ItemsText(items[1..], format, depth)
  }

  function PairText(p: Pair, format: bool, depth: nat, last: bool): seq<Byte>
    decreases p, 1
  {
    When(format, Tabs(depth)) + Quoted(p.key) + [COLON] + When(format, [TAB])
    + Text(p.value, format, depth)
    + When(!last, [COMMA]) + When(format, [NEWLINE])
  }

  function PairsText(pairs: seq<Pair>, format: bool, depth: nat): seq<Byte>
    decreases pairs, 1
  {
    if pairs == [] then []
    else PairText(pairs[0], format, depth, |pairs| == 1) + PairsText(pairs[1..], format, depth)
  }

  /** How deep arrays and objects are nested. */
  function Height(v: Json): nat
    decreases v, 0
  {
    match v
    case Array(items) => 1 + ItemsHeight(items)
    case Object(pairs) => 1 + PairsHeight(pairs)
    case _ => 0
  }

  function ItemsHeight(items: seq<Json>): nat
    decreases items, 1
  {
    if items == [] then 0 else Max(Height(items[0]), ItemsHeight(items[1..]))
  }

  function PairsHeight(pairs: seq<Pair>): nat
    decreases pairs, 1
  {
    if pairs == [] then 0 else Max(Height(pairs[0].value), PairsHeight(pairs[1..]))
  }

  // ----- texts hold no zero byte

  lemma NoItemsText(format: bool, d: nat)
    ensures ItemsText([], format, d) == []
  {
  }

  lemma NoPairsText(format: bool, d: nat)
    ensures PairsText([], format, d) == []
  {
  }

  lemma {:induction false} EscapedNulFree(s: seq<Byte>)
    requires NulFree(s)
    ensures NulFree(Escaped(s))
  {
    if s != [] { EscapedNulFree(s[1..]); }
  }

  lemma {:induction false} TextNulFree(v: Json, format: bool, depth: nat)
    requires CStrings(v)
    ensures NulFree(Text(v, format, depth))
    decreases v, 0
  {
    hide ItemsText, PairsText, Escaped, NulFree, Tabs;
    match v
    case String(s) => QuotedNulFree(s);
    case Array(items) =>
      ItemsNulFree(items, format, depth + 1);
      Bracketed([OPEN], ItemsText(items, format, depth + 1), [], [CLOSE]);
      assert Text(v, format, depth) == [OPEN] + ItemsText(items, format, depth + 1) + [] + [CLOSE];
    case Object(pairs) =>
      PairsNulFree(pairs, format, depth + 1);
      Bracketed([BEGIN] + When(format, [NEWLINE]), PairsText(pairs, format, depth + 1), When(format, Tabs(depth)), [END]);
    case _ => Words();
  }

  lemma Words()
    ensures NulFree(NULL_TEXT) && NulFree(FALSE_TEXT) && NulFree(TRUE_TEXT)
  {
  }

  lemma QuotedNulFree(s: seq<Byte>)
    requires NulFree(s)
    ensures NulFree(Quoted(s))
  {
    EscapedNulFree(s);
  }

  lemma Bracketed(a: seq<Byte>, b: seq<Byte>, c: seq<Byte>, d: seq<Byte>)
    requires NulFree(b) && |a| <= 2 && (|a| > 0 ==> a[0] != 0) && (|a| > 1 ==> a[1] != 0) && |d| == 1 && d[0] != 0
    requires forall i | 0 <= i < |c| :: c[i] == TAB
    ensures NulFree(a + b + c + d)
  {
  }

  lemma {:induction false} ItemsNulFree(items: seq<Json>, format: bool, depth: nat)
    requires forall x | x in items :: CStrings(x)
    ensures NulFree(ItemsText(items, format, depth))
    decreases items, 1
  {
    if items != [] {
      TextNulFree(items[0], format, depth);
      ItemsNulFree(items[1..], format, depth);
    }
  }

  lemma {:induction false} PairsNulFree(pairs: seq<Pair>, format: bool, depth: nat)
    requires forall p | p in pairs :: NulFree(p.key) && CStrings(p.value)
    ensures NulFree(PairsText(pairs, format, depth))
    decreases pairs, 1
  {
    hide PairText, CStrings;
    if pairs != [] {
      TextNulFree(pairs[0].value, format, depth);
      PairNulFree(pairs[0], format, depth, |pairs| == 1);
      PairsNulFree(pairs[1..], format, depth);
    }
  }

  lemma PairNulFree(p: Pair, format: bool, depth: nat, last: bool)
    requires NulFree(p.key) && NulFree(Text(p.value, format, depth))
    ensures NulFree(PairText(p, format, depth, last))
  {
    hide Text, Escaped;
    EscapedNulFree(p.key);
  }
}
