/** Which texts are accepted: exactly those of a grammar, with the values it gives them. */
module JsonGrammar {
  import opened Octets
  import opened Powers
  import opened JsonText
  import opened JsonParse
  import opened JsonRoundTrip
  import opened JsonStrings

  predicate Blank(x: seq<Byte>) { forall i | 0 <= i < |x| :: x[i] <= 32 }

  predicate Is(x: seq<Byte>, word: string) { |x| == |word| && forall i | 0 <= i < |x| :: x[i] as char == word[i] }

  /** A text of a value, without white space around it. */
  ghost predicate Form(x: seq<Byte>, v: Json)
    decreases v, 0
  {
    match v
    case Null => Is(x, "null")
    case False => Is(x, "false")
    case True => Is(x, "true")
    case String(s) => StringForm(x, s)
    case Array(items) =>
      |x| >= 2 && x[0] as char == '[' && x[|x| - 1] as char == ']' && ItemsForm(x[1..|x| - 1], items)
    case Object(pairs) =>
      |x| >= 2 && x[0] as char == '{' && x[|x| - 1] as char == '}' && PairsForm(x[1..|x| - 1], pairs)
  }

  /** Something between white space. */
  predicate Around(x: seq<Byte>, i: int, j: int) { 0 <= i <= j <= |x| && Blank(x[..i]) && Blank(x[j..]) }

  ghost predicate Padded(x: seq<Byte>, v: Json)
    decreases v, 1
  {
    exists i, j :: Around(x, i, j) && Form(x[i..j], v)
  }

  ghost predicate PaddedString(x: seq<Byte>, s: seq<Byte>) {
    exists i, j :: Around(x, i, j) && StringForm(x[i..j], s)
  }

  predicate CommaAt(x: seq<Byte>, c: int) { 0 <= c < |x| && x[c] as char == ',' }
  predicate ColonAt(x: seq<Byte>, c: int) { 0 <= c < |x| && x[c] as char == ':' }

  /** Values with commas between them. */
  ghost predicate ItemsForm(x: seq<Byte>, items: seq<Json>)
    decreases items, 2
  {
    if items == [] then Blank(x)
    else if |items| == 1 then Padded(x, items[0])
    else exists c :: CommaAt(x, c) && Padded(x[..c], items[0]) && ItemsForm(x[c + 1..], items[1..])
  }

  ghost predicate PairForm(x: seq<Byte>, p: Pair)
    decreases p, 2
  {
    exists c :: ColonAt(x, c) && PaddedString(x[..c], p.key) && Padded(x[c + 1..], p.value)
  }

  ghost predicate PairsForm(x: seq<Byte>, pairs: seq<Pair>)
    decreases pairs, 3
  {
    if pairs == [] then Blank(x)
    else if |pairs| == 1 then PairForm(x, pairs[0])
    else exists c :: CommaAt(x, c) && PairForm(x[..c], pairs[0]) && PairsForm(x[c + 1..], pairs[1..])
  }

  // ----- parts of a text

  lemma WordExact(t: seq<Byte>, o: nat, e: nat, word: string, bytes: seq<Byte>)
    requires o <= e <= |t| && Is(bytes, word)
    ensures Is(t[o..e], word) <==> e == o + |bytes| && Reads(t, o, bytes)
  {
    var x := t[o..e];
    if Is(x, word) { assert forall i | 0 <= i < |x| :: x[i] as char == bytes[i] as char; }
  }

  lemma TheWords()
    ensures Is(NULL_TEXT, "null") && Is(FALSE_TEXT, "false") && Is(TRUE_TEXT, "true")
  {
  }

  lemma FormBegins(x: seq<Byte>, v: Json)
    requires Form(x, v)
    ensures |x| >= 2 && x[0] == FirstByte(v) > 32 && FirstByte(v) != CLOSE
  {
    hide ItemsForm, PairsForm;
  }

  lemma {:induction false} SkipStops(t: seq<Byte>, o: nat)
    requires Terminated(t) && o < |t|
    ensures var r := Skip(t, o); (t[r] > 32 || r == |t| - 1) && forall i | o <= i < r :: t[i] <= 32
    decreases |t| - o
  {
    if t[o] <= 32 && o + 1 < |t| { SkipStops(t, o + 1); }
  }

  lemma SkipAgain(t: seq<Byte>, r: nat)
    requires Terminated(t) && r < |t| && (t[r] > 32 || r == |t| - 1)
    ensures Skip(t, r) == r
  {
  }

  lemma SkipBlanks(t: seq<Byte>, o: nat)
    requires Terminated(t) && o < |t|
    ensures var r := Skip(t, o); Blank(t[o..r]) && (t[r] > 32 || r == |t| - 1) && Skip(t, r) == r
  {
    hide Skip;
    SkipStops(t, o);
    SkipAgain(t, Skip(t, o));
  }

  lemma SkipTo(t: seq<Byte>, o: nat, r: nat)
    requires Terminated(t) && o <= r < |t| && t[r] > 32 && Blank(t[o..r])
    ensures Skip(t, o) == r && Skip(t, r) == r
  {
    assert forall i | o <= i < r :: t[i] == t[o..r][i - o];
    SkipBlank(t, o, r - o);
    SkipBlank(t, r, 0);
  }

  lemma Within(t: seq<Byte>, a: nat, i: nat, j: nat, b: nat)
    requires a <= i <= j <= b <= |t|
    ensures var x := t[a..b]; x[..i - a] == t[a..i] && x[j - a..] == t[j..b] && x[i - a..j - a] == t[i..j]
  {
    var x := t[a..b];
    var y := x[i - a..j - a];
    assert |y| == j - i && forall k | 0 <= k < j - i :: y[k] == x[i - a + k] == t[i + k] == t[i..j][k];
  }

  lemma PaddedAt(t: seq<Byte>, a: nat, i: nat, j: nat, b: nat, v: Json)
    requires a <= i <= j <= b <= |t| && Blank(t[a..i]) && Blank(t[j..b]) && Form(t[i..j], v)
    ensures Padded(t[a..b], v)
  {
    hide Form, Blank;
    Within(t, a, i, j, b);
    assert Around(t[a..b], i - a, j - a);
  }

  lemma PaddedStringAt(t: seq<Byte>, a: nat, i: nat, j: nat, b: nat, s: seq<Byte>)
    requires a <= i <= j <= b <= |t| && Blank(t[a..i]) && Blank(t[j..b]) && StringForm(t[i..j], s)
    ensures PaddedString(t[a..b], s)
  {
    hide StringForm, Blank;
    Within(t, a, i, j, b);
    assert Around(t[a..b], i - a, j - a);
  }

  lemma PaddedFrom(t: seq<Byte>, a: nat, b: nat, v: Json) returns (i: nat, j: nat)
    requires Terminated(t) && a <= b < |t| && t[b] > 32 && Padded(t[a..b], v)
    ensures a <= i < j <= b && Skip(t, a) == i && Skip(t, i) == i && Skip(t, j) == b && Form(t[i..j], v) && t[i] == FirstByte(v)
  {
    hide Form, Blank;
    var x := t[a..b];
    var i', j' :| Around(x, i', j') && Form(x[i'..j'], v);
    i, j := a + i', a + j';
    Within(t, a, i, j, b);
    FormBegins(t[i..j], v);
    assert t[i..j][0] == t[i];
    SkipTo(t, a, i);
    SkipTo(t, j, b);
  }

  lemma PaddedStringFrom(t: seq<Byte>, a: nat, b: nat, s: seq<Byte>) returns (i: nat, j: nat)
    requires Terminated(t) && a <= b < |t| && t[b] > 32 && PaddedString(t[a..b], s)
    ensures a <= i < j <= b && Skip(t, a) == i && Skip(t, i) == i && Skip(t, j) == b && StringForm(t[i..j], s) && t[i] == QUOTE
  {
    hide Quoteless, Spelled, Blank;
    var x := t[a..b];
    var i', j' :| Around(x, i', j') && StringForm(x[i'..j'], s);
    i, j := a + i', a + j';
    Within(t, a, i, j, b);
    assert t[i..j][0] == t[i];
    SkipTo(t, a, i);
    SkipTo(t, j, b);
  }

  // ----- what is parsed has the form

  lemma {:induction false} SoundValue(t: seq<Byte>, o: nat, k: nat)
    requires Terminated(t) && o < |t| && k <= NESTING_LIMIT && ParseValue(t, o, k).Value?
    ensures var p := ParseValue(t, o, k); Form(t[o..p.end], p.v) && k + Height(p.v) <= NESTING_LIMIT
    decreases |t| - o, 1
  {
    hide ParseString, ParseArray, ParseObject, StringForm, ItemsForm, PairsForm, Is, Reads, ItemsHeight, PairsHeight;
    var p := ParseValue(t, o, k);
    TheWords();
    if Reads(t, o, NULL_TEXT) {
      WordExact(t, o, p.end, "null", NULL_TEXT);
    } else if Reads(t, o, FALSE_TEXT) {
      WordExact(t, o, p.end, "false", FALSE_TEXT);
    } else if Reads(t, o, TRUE_TEXT) {
      WordExact(t, o, p.end, "true", TRUE_TEXT);
    } else if t[o] == QUOTE {
      ParseStringExact(t, o, p.v.s, p.end);
    } else if t[o] == OPEN {
      SoundArray(t, o, k);
    } else {
      SoundObject(t, o, k);
    }
  }

  lemma {:induction false} SoundArray(t: seq<Byte>, o: nat, k: nat)
    requires Terminated(t) && o < |t| && k <= NESTING_LIMIT && t[o] == OPEN && ParseArray(t, o, k).Value?
    ensures var p := ParseArray(t, o, k); Form(t[o..p.end], p.v) && k + Height(p.v) <= NESTING_LIMIT
    decreases |t| - o, 0
  {
    hide ParseItems, Skip, Blank, Terminated;
    var o1, p := Skip(t, o + 1), ParseArray(t, o, k);
    SkipBlanks(t, o + 1);
    Inner(t, o, p.end);
    if t[o1] != CLOSE { SoundItems(t, o1 - 1, o + 1, k + 1); }
  }

  lemma {:induction false} SoundObject(t: seq<Byte>, o: nat, k: nat)
    requires Terminated(t) && o < |t| && k <= NESTING_LIMIT && t[o] == BEGIN && ParseObject(t, o, k).Value?
    ensures var p := ParseObject(t, o, k); Form(t[o..p.end], p.v) && k + Height(p.v) <= NESTING_LIMIT
    decreases |t| - o, 0
  {
    hide ParsePairs, Skip, Blank, Terminated;
    var o1, p := Skip(t, o + 1), ParseObject(t, o, k);
    SkipBlanks(t, o + 1);
    Inner(t, o, p.end);
    if t[o1] != END { SoundPairs(t, o1 - 1, o + 1, k + 1); }
  }

  lemma ItemsUnfold(t: seq<Byte>, o: nat, k: nat)
    requires Terminated(t) && o + 1 < |t| && ParseItems(t, o, k).Items?
    ensures var r, p := ParseItems(t, o, k), ParseValue(t, Skip(t, o + 1), k);
      && p.Value? && p.end < |t|
      && var c := Skip(t, p.end);
      if t[c] == COMMA then
        c + 1 < |t| && var rest := ParseItems(t, c, k); rest.Items? && r == Items([p.v] + rest.items, rest.end)
      else t[c] == CLOSE && r == Items([p.v], c + 1)
  {
    hide ParseValue, Skip;
  }

  lemma {:induction false} SoundItems(t: seq<Byte>, o: nat, a: nat, k: nat)
    requires Terminated(t) && o + 1 < |t| && k <= NESTING_LIMIT && ParseItems(t, o, k).Items?
    requires a <= Skip(t, o + 1) && Blank(t[a..Skip(t, o + 1)])
    ensures var r := ParseItems(t, o, k);
      && a < r.end && r.items != [] && ItemsForm(t[a..r.end - 1], r.items) && t[r.end - 1] == CLOSE
      && k + ItemsHeight(r.items) <= NESTING_LIMIT
    decreases |t| - o - 1, 2
  {
    hide ParseValue, Form, Blank, Height, Terminated, Padded, ParseItems, Skip;
    ItemsUnfold(t, o, k);
    var q := Skip(t, o + 1);
    SoundValue(t, q, k);
    var p := ParseValue(t, q, k);
    var o1 := Skip(t, p.end);
    SkipBlanks(t, p.end);
    PaddedAt(t, a, q, p.end, o1, p.v);
    if t[o1] == COMMA {
      var rest := ParseItems(t, o1, k);
      SkipBlanks(t, o1 + 1);
      SoundItems(t, o1, o1 + 1, k);
      ItemsAt(t, a, o1, rest.end - 1, p.v, rest.items);
    }
  }

  lemma ItemsAt(t: seq<Byte>, a: nat, c: nat, b: nat, v: Json, rest: seq<Json>)
    requires a <= c < b <= |t| && t[c] == COMMA && Padded(t[a..c], v) && rest != [] && ItemsForm(t[c + 1..b], rest)
    ensures ItemsForm(t[a..b], [v] + rest)
  {
    hide Padded, ItemsForm;
    var x := t[a..b];
    Within(t, a, c, c + 1, b);
    assert CommaAt(x, c - a);
    ItemsMore(x, c - a, [v] + rest);
  }

  lemma ItemsMore(x: seq<Byte>, c: nat, items: seq<Json>)
    requires |items| > 1 && CommaAt(x, c) && Padded(x[..c], items[0]) && ItemsForm(x[c + 1..], items[1..])
    ensures ItemsForm(x, items)
  {
  }

  lemma {:induction false} SoundPair(t: seq<Byte>, q: nat, a: nat, k: nat, key: seq<Byte>, e1: nat, i: nat, p: Parsed)
    requires Terminated(t) && a <= q < i < |t| && q < e1 < |t| && k <= NESTING_LIMIT && Blank(t[a..q])
    requires ParseString(t, q) == SomeString(key, e1) && t[Skip(t, e1)] == COLON && Skip(t, e1) + 1 < |t|
    requires i == Skip(t, Skip(t, e1) + 1) && p == ParseValue(t, i, k) && p.Value? && p.end < |t|
    ensures a < Skip(t, p.end) && PairForm(t[a..Skip(t, p.end)], Pair(key, p.v)) && k + Height(p.v) <= NESTING_LIMIT
    decreases |t| - q, 2
  {
    hide ParseValue, ParseString, Form, StringForm, Blank, Height, Terminated, Padded, PaddedString;
    var c, b := Skip(t, e1), Skip(t, p.end);
    SkipBlanks(t, e1);
    ParseStringExact(t, q, key, e1);
    PaddedStringAt(t, a, q, e1, c, key);
    SkipBlanks(t, c + 1);
    SoundValue(t, i, k);
    SkipBlanks(t, p.end);
    PaddedAt(t, c + 1, i, p.end, b, p.v);
    Within(t, a, c, c + 1, b);
    assert ColonAt(t[a..b], c - a);
  }

  lemma PairsUnfold(t: seq<Byte>, o: nat, k: nat)
    requires Terminated(t) && o + 1 < |t| && ParsePairs(t, o, k).Pairs?
    ensures var r, key := ParsePairs(t, o, k), ParseString(t, Skip(t, o + 1));
      && key.SomeString?
      && var c := Skip(t, key.end);
      && t[c] == COLON && c + 1 < |t|
      && var p := ParseValue(t, Skip(t, c + 1), k);
      && p.Value?
      && var o2 := Skip(t, p.end);
      if t[o2] == COMMA then
        o2 + 1 < |t| && var rest := ParsePairs(t, o2, k); rest.Pairs? && r == Pairs([Pair(key.s, p.v)] + rest.pairs, rest.end)
      else t[o2] == END && r == Pairs([Pair(key.s, p.v)], o2 + 1)
  {
    hide ParseValue, ParseString, Skip;
  }

  lemma {:induction false} SoundPairs(t: seq<Byte>, o: nat, a: nat, k: nat)
    requires Terminated(t) && o + 1 < |t| && k <= NESTING_LIMIT && ParsePairs(t, o, k).Pairs?
    requires a <= Skip(t, o + 1) && Blank(t[a..Skip(t, o + 1)])
    ensures var r := ParsePairs(t, o, k);
      && a < r.end && r.pairs != [] && PairsForm(t[a..r.end - 1], r.pairs) && t[r.end - 1] == END
      && k + PairsHeight(r.pairs) <= NESTING_LIMIT
    decreases |t| - o - 1, 3
  {
    hide ParseValue, ParseString, PairForm, PairsForm, Blank, Height, PairsHeight, Terminated, ParsePairs, Skip;
    PairsUnfold(t, o, k);
    var q := Skip(t, o + 1);
    var key := ParseString(t, q);
    var i := Skip(t, Skip(t, key.end) + 1);
    var p := ParseValue(t, i, k);
    SoundPair(t, q, a, k, key.s, key.end, i, p);
    var o2 := Skip(t, p.end);
    PairsHeights(ParsePairs(t, o, k).pairs);
    if t[o2] != COMMA {
      PairsOne(t[a..o2], Pair(key.s, p.v));
    } else {
      var rest := ParsePairs(t, o2, k);
      SkipBlanks(t, o2 + 1);
      SoundPairs(t, o2, o2 + 1, k);
      PairsAt(t, a, o2, rest.end - 1, Pair(key.s, p.v), rest.pairs);
    }
  }

  lemma PairsAt(t: seq<Byte>, a: nat, c: nat, b: nat, p: Pair, rest: seq<Pair>)
    requires a <= c < b <= |t| && t[c] == COMMA && PairForm(t[a..c], p) && rest != [] && PairsForm(t[c + 1..b], rest)
    ensures PairsForm(t[a..b], [p] + rest)
  {
    hide PairForm, PairsForm;
    var x := t[a..b];
    Within(t, a, c, c + 1, b);
    assert CommaAt(x, c - a);
    PairsMore(x, c - a, [p] + rest);
  }

  lemma PairsOne(x: seq<Byte>, p: Pair)
    requires PairForm(x, p)
    ensures PairsForm(x, [p]) && PairsHeight([p]) == Height(p.value)
  {
    PairsHeights([p]);
  }

  lemma PairsMore(x: seq<Byte>, c: nat, pairs: seq<Pair>)
    requires |pairs| > 1 && CommaAt(x, c) && PairForm(x[..c], pairs[0]) && PairsForm(x[c + 1..], pairs[1..])
    ensures PairsForm(x, pairs)
  {
  }

  // ----- what has the form is parsed

  /** A value's text is parsed as that value, up to where it ends, if the nesting limit permits, and refused
      otherwise. */
  lemma {:induction false} CompleteValue(t: seq<Byte>, o: nat, e: nat, k: nat, v: Json)
    requires Terminated(t) && o <= e < |t| && k <= NESTING_LIMIT && Form(t[o..e], v)
    ensures ParseValue(t, o, k) == if k + Height(v) <= NESTING_LIMIT then Value(v, e) else Failed
    decreases v, 0
  {
    hide ParseString, ParseArray, ParseObject, StringForm, ItemsForm, PairsForm, Is, Reads, ItemsHeight, PairsHeight;
    var x := t[o..e];
    FormBegins(x, v);
    assert t[o] == x[0];
    match v
    case String(s) =>
      NoWord(t, o);
      ParseStringExact(t, o, s, e);
    case Array(items) =>
      NoWord(t, o);
      CompleteArray(t, o, e, k, items);
    case Object(pairs) =>
      NoWord(t, o);
      CompleteObject(t, o, e, k, pairs);
    case _ => CompleteWord(t, o, e, k, v);
  }

  lemma CompleteWord(t: seq<Byte>, o: nat, e: nat, k: nat, v: Json)
    requires Terminated(t) && o <= e < |t| && Form(t[o..e], v) && (v.Null? || v.False? || v.True?)
    ensures ParseValue(t, o, k) == Value(v, e)
  {
    hide Is;
    TheWords();
    FormBegins(t[o..e], v);
    match v
    case Null => WordExact(t, o, e, "null", NULL_TEXT);
    case False => WordExact(t, o, e, "false", FALSE_TEXT);
    case True => WordExact(t, o, e, "true", TRUE_TEXT);
    WordTrip(t, o, v, k);
  }

  lemma {:induction false} CompleteArray(t: seq<Byte>, o: nat, e: nat, k: nat, items: seq<Json>)
    requires Terminated(t) && o < e < |t| && k <= NESTING_LIMIT && t[o] == OPEN && Form(t[o..e], Array(items))
    ensures ParseArray(t, o, k) == if k + 1 + ItemsHeight(items) <= NESTING_LIMIT then Value(Array(items), e) else Failed
    decreases items, 3
  {
    hide ParseItems, Skip, Blank, Terminated, Height;
    Inner(t, o, e);
    if items == [] {
      assert Blank(t[o + 1..e - 1]);
      SkipTo(t, o + 1, e - 1);
    } else {
      var q := ItemsBegin(t, o + 1, e - 1, items);
      if k < NESTING_LIMIT { CompleteItems(t, q - 1, o + 1, e - 1, k + 1, items); }
    }
  }

  lemma ItemsBegin(t: seq<Byte>, a: nat, b: nat, items: seq<Json>) returns (q: nat)
    requires Terminated(t) && a <= b < |t| && items != [] && ItemsForm(t[a..b], items) && t[b] == CLOSE
    ensures q == Skip(t, a) == Skip(t, q) && a <= q < b && t[q] != CLOSE
  {
    hide Padded, Form;
    var c, j := b, b;
    if |items| > 1 { c := ItemsSplit(t, a, b, items); }
    q, j := PaddedFrom(t, a, c, items[0]);
  }

  lemma ItemsSplit(t: seq<Byte>, a: nat, b: nat, items: seq<Json>) returns (c: nat)
    requires a <= b <= |t| && |items| > 1 && ItemsForm(t[a..b], items)
    ensures a <= c < b && t[c] == COMMA && Padded(t[a..c], items[0]) && ItemsForm(t[c + 1..b], items[1..])
  {
    hide Padded;
    var x := t[a..b];
    var c' :| CommaAt(x, c') && Padded(x[..c'], items[0]) && ItemsForm(x[c' + 1..], items[1..]);
    c := a + c';
    Within(t, a, c, c + 1, b);
  }

  lemma {:induction false} CompleteItems(t: seq<Byte>, o: nat, a: nat, b: nat, k: nat, items: seq<Json>)
    requires Terminated(t) && a <= b < |t| && k <= NESTING_LIMIT && items != [] && ItemsForm(t[a..b], items) && t[b] == CLOSE
    requires o + 1 < |t| && Skip(t, o + 1) == Skip(t, a)
    ensures ParseItems(t, o, k) == if k + ItemsHeight(items) <= NESTING_LIMIT then Items(items, b + 1) else NoItems
    decreases items, 2
  {
    hide ParseValue, Form, Skip, Height, Terminated, Padded;
    var c := b;
    if |items| > 1 { c := ItemsSplit(t, a, b, items); }
    var i, j := PaddedFrom(t, a, c, items[0]);
    CompleteValue(t, i, j, k, items[0]);
    if |items| == 1 {
      assert items == [items[0]] && items[1..] == [];
    } else {
      CompleteItems(t, c, c + 1, b, k, items[1..]);
      assert items == [items[0]] + items[1..];
    }
  }

  lemma {:induction false} CompleteObject(t: seq<Byte>, o: nat, e: nat, k: nat, pairs: seq<Pair>)
    requires Terminated(t) && o < e < |t| && k <= NESTING_LIMIT && t[o] == BEGIN && Form(t[o..e], Object(pairs))
    ensures ParseObject(t, o, k) == if k + 1 + PairsHeight(pairs) <= NESTING_LIMIT then Value(Object(pairs), e) else Failed
    decreases pairs, 3
  {
    hide ParsePairs, Skip, Blank, Terminated, Height;
    Inner(t, o, e);
    if pairs == [] {
      assert Blank(t[o + 1..e - 1]);
      SkipTo(t, o + 1, e - 1);
    } else {
      var q := PairsBegin(t, o + 1, e - 1, pairs);
      if k < NESTING_LIMIT { CompletePairs(t, q - 1, o + 1, e - 1, k + 1, pairs); }
    }
  }

  /** Where the parts of a pair are. */
  lemma PairParts(t: seq<Byte>, a: nat, b: nat, p: Pair) returns (q: nat, e1: nat, c: nat, i: nat, j: nat)
    requires Terminated(t) && a <= b < |t| && t[b] > 32 && PairForm(t[a..b], p)
    ensures a <= q < e1 <= c < i < j <= b && Skip(t, a) == q == Skip(t, q) && t[q] == QUOTE && ParseString(t, q) == SomeString(p.key, e1)
    ensures Skip(t, e1) == c && t[c] == COLON && Skip(t, c + 1) == i && Skip(t, j) == b && Form(t[i..j], p.value)
  {
    hide Padded, PaddedString, Form, StringForm, Skip, ParseString, Terminated;
    var x := t[a..b];
    var c' :| ColonAt(x, c') && PaddedString(x[..c'], p.key) && Padded(x[c' + 1..], p.value);
    c := a + c';
    Within(t, a, c, c + 1, b);
    q, e1 := PaddedStringFrom(t, a, c, p.key);
    ParseStringExact(t, q, p.key, e1);
    i, j := PaddedFrom(t, c + 1, b, p.value);
  }

  lemma PairsSplit(t: seq<Byte>, a: nat, b: nat, pairs: seq<Pair>) returns (c: nat)
    requires a <= b <= |t| && |pairs| > 1 && PairsForm(t[a..b], pairs)
    ensures a <= c < b && t[c] == COMMA && PairForm(t[a..c], pairs[0]) && PairsForm(t[c + 1..b], pairs[1..])
  {
    hide PairForm;
    var x := t[a..b];
    var c' :| CommaAt(x, c') && PairForm(x[..c'], pairs[0]) && PairsForm(x[c' + 1..], pairs[1..]);
    c := a + c';
    Within(t, a, c, c + 1, b);
  }

  lemma PairsBegin(t: seq<Byte>, a: nat, b: nat, pairs: seq<Pair>) returns (q: nat)
    requires Terminated(t) && a <= b < |t| && pairs != [] && PairsForm(t[a..b], pairs) && t[b] == END
    ensures q == Skip(t, a) == Skip(t, q) && a <= q < b && t[q] != END
  {
    hide PairForm;
    var c := b;
    if |pairs| > 1 { c := PairsSplit(t, a, b, pairs); }
    var e1, d, i, j;
    q, e1, d, i, j := PairParts(t, a, c, pairs[0]);
  }

  lemma {:induction false} CompletePairs(t: seq<Byte>, o: nat, a: nat, b: nat, k: nat, pairs: seq<Pair>)
    requires Terminated(t) && a <= b < |t| && k <= NESTING_LIMIT && pairs != [] && PairsForm(t[a..b], pairs) && t[b] == END
    requires o + 1 < |t| && Skip(t, o + 1) == Skip(t, a)
    ensures ParsePairs(t, o, k) == if k + PairsHeight(pairs) <= NESTING_LIMIT then Pairs(pairs, b + 1) else NoPairs
    decreases pairs, 2
  {
    hide ParseValue, ParseString, Form, Skip, Height, Terminated, PairForm;
    var c := b;
    if |pairs| > 1 { c := PairsSplit(t, a, b, pairs); }
    var q, e1, d, i, j := PairParts(t, a, c, pairs[0]);
    CompleteValue(t, i, j, k, pairs[0].value);
    if |pairs| == 1 {
      assert pairs == [pairs[0]] && pairs[1..] == [];
    } else {
      CompletePairs(t, c, c + 1, b, k, pairs[1..]);
      assert pairs == [pairs[0]] + pairs[1..];
    }
  }

  // ----- the theorem

  /** A text of a value between white space, with nothing behind it if that is required. */
  ghost predicate Accepts(text: seq<Byte>, requireEnd: bool, w: int, e: int, v: Json) {
    0 <= w <= e <= |text| && Blank(text[..w]) && Form(text[w..e], v) && (requireEnd ==> Blank(text[e..]))
  }

  lemma ParsedAccepts(text: seq<Byte>, requireEnd: bool, v: Json, e: nat) returns (w: nat)
    requires Parse(text, requireEnd) == Value(v, e)
    ensures Accepts(text, requireEnd, w, e, v) && Height(v) <= NESTING_LIMIT
  {
    hide Form, Skip, Height, ParseValue;
    var t := text + [0];
    SkipBlanks(t, 0);
    w := Skip(t, 0);
    SoundValue(t, w, 0);
    assert text[..w] == t[0..w] && text[w..e] == t[w..e];
    if requireEnd {
      SkipBlanks(t, e);
      assert t[e..|text|] == text[e..];
    }
  }

  lemma AcceptedParses(text: seq<Byte>, requireEnd: bool, w: int, e: nat, v: Json)
    requires Accepts(text, requireEnd, w, e, v) && Height(v) <= NESTING_LIMIT
    ensures Parse(text, requireEnd) == Value(v, e)
  {
    hide Form, Skip, Height, ParseValue, Blank;
    var t := text + [0];
    FormBegins(text[w..e], v);
    assert text[w..e][0] == t[w];
    assert t[0..w] == text[..w] && t[w..e] == text[w..e];
    SkipTo(t, 0, w);
    CompleteValue(t, w, e, 0, v);
    if requireEnd { EndBlank(text, e); }
  }

  /** A text is parsed as a value, up to an offset, exactly if it has a form of the grammar, and the nesting
      is within the limit. */
  lemma ParseExact(text: seq<Byte>, requireEnd: bool, v: Json, e: nat)
    ensures Parse(text, requireEnd) == Value(v, e)
            <==> Height(v) <= NESTING_LIMIT && exists w :: Accepts(text, requireEnd, w, e, v)
  {
    hide Accepts, Parse, Height;
    if Parse(text, requireEnd) == Value(v, e) {
      var w := ParsedAccepts(text, requireEnd, v, e);
    }
    if Height(v) <= NESTING_LIMIT {
      if w :| Accepts(text, requireEnd, w, e, v) { AcceptedParses(text, requireEnd, w, e, v); }
    }
  }

  lemma EndBlank(text: seq<Byte>, e: nat)
    requires e <= |text| && Blank(text[e..])
    ensures Skip(text + [0], e) == |text|
    decreases |text| - e
  {
    if e < |text| {
      assert text[e] == text[e..][0];
      assert text[e + 1..] == text[e..][1..];
      EndBlank(text, e + 1);
    }
  }

  // ----- an example of the two layouts

  lemma OnePair(p: Pair, format: bool, d: nat)
    ensures PairsText([p], format, d) == PairText(p, format, d, true)
  {
    NoPairsText(format, d);
    assert [p][1..] == [];
  }

  lemma TwoPairs(p: Pair, q: Pair, format: bool, d: nat)
    ensures PairsText([p, q], format, d) == PairText(p, format, d, false) + PairText(q, format, d, true)
  {
    OnePair(q, format, d);
    assert [p, q][1..] == [q];
  }

  lemma TwoItems(v: Json, w: Json, format: bool, d: nat)
    ensures ItemsText([v, w], format, d) == Text(v, format, d) + [COMMA] + When(format, [SPACE]) + Text(w, format, d)
  {
    hide Text;
    assert [v, w][1..] == [w] && [w][1..] == [];
    NoItemsText(format, d);
    assert ItemsText([w], format, d) == Text(w, format, d);
  }

  lemma OneLetter(a: Byte)
    requires 97 <= a <= 122
    ensures Quoted([a]) == [QUOTE, a, QUOTE]
  {
    assert [a][1..] == [] && Escaped([]) == [];
  }

  lemma TabsOf()
    ensures Tabs(0) == [] && Tabs(1) == [TAB] && Tabs(2) == [TAB, TAB]
  {
  }

  lemma ListText(format: bool, d: nat)
    ensures Text(Array([True, Array([])]), format, d) == [OPEN] + TRUE_TEXT + [COMMA] + When(format, [SPACE]) + [OPEN, CLOSE, CLOSE]
  {
    hide ItemsText;
    TwoItems(True, Array([]), format, d + 1);
    NoItemsText(format, d + 2);
  }

  lemma InnerText(b: Byte)
    requires 97 <= b <= 122
    ensures var v := Object([Pair([b], Null)]);
      && Text(v, true, 1) == [BEGIN, NEWLINE, TAB, TAB, QUOTE, b, QUOTE, COLON, TAB] + NULL_TEXT + [NEWLINE, TAB, END]
      && Text(v, false, 1) == [BEGIN, QUOTE, b, QUOTE, COLON] + NULL_TEXT + [END]
  {
    hide PairsText, Quoted, Tabs;
    OneLetter(b);
    TabsOf();
    OnePair(Pair([b], Null), true, 2);
    OnePair(Pair([b], Null), false, 2);
  }

  /** Formatted, a pair begins on a line of its own, indented by a tab a level, and has a tab before its value;
      the elements of an array stay on one line. */
  lemma Layout(a: Byte, b: Byte)
    requires 97 <= a <= 122 && 97 <= b <= 122
    ensures var v := Object([Pair([a], Object([Pair([b], Null)])), Pair([b], Array([True, Array([])]))]);
      && Text(v, true, 0)
         == [BEGIN, NEWLINE, TAB, QUOTE, a, QUOTE, COLON, TAB]
            + ([BEGIN, NEWLINE, TAB, TAB, QUOTE, b, QUOTE, COLON, TAB] + NULL_TEXT + [NEWLINE, TAB, END])
            + [COMMA, NEWLINE, TAB, QUOTE, b, QUOTE, COLON, TAB]
            + ([OPEN] + TRUE_TEXT + [COMMA] + [SPACE] + [OPEN, CLOSE, CLOSE]) + [NEWLINE, END]
      && Text(v, false, 0)
         == [BEGIN, QUOTE, a, QUOTE, COLON] + ([BEGIN, QUOTE, b, QUOTE, COLON] + NULL_TEXT + [END])
            + [COMMA, QUOTE, b, QUOTE, COLON] + ([OPEN] + TRUE_TEXT + [COMMA] + [] + [OPEN, CLOSE, CLOSE]) + [END]
  {
    hide PairsText, ItemsText, Quoted, Tabs;
    OneLetter(a);
    OneLetter(b);
    TabsOf();
    InnerText(b);
    ListText(true, 1);
    ListText(false, 1);
    var inner, list := Object([Pair([b], Null)]), Array([True, Array([])]);
    TwoPairs(Pair([a], inner), Pair([b], list), true, 1);
    TwoPairs(Pair([a], inner), Pair([b], list), false, 1);
    LayoutParts(a, b, inner, list);
  }

  lemma LayoutParts(a: Byte, b: Byte, v: Json, w: Json)
    requires 97 <= a <= 122 && 97 <= b <= 122
    ensures PairText(Pair([a], v), true, 1, false) == [TAB, QUOTE, a, QUOTE, COLON, TAB] + Text(v, true, 1) + [COMMA, NEWLINE]
    ensures PairText(Pair([b], w), true, 1, true) == [TAB, QUOTE, b, QUOTE, COLON, TAB] + Text(w, true, 1) + [NEWLINE]
    ensures PairText(Pair([a], v), false, 1, false) == [QUOTE, a, QUOTE, COLON] + Text(v, false, 1) + [COMMA]
    ensures PairText(Pair([b], w), false, 1, true) == [QUOTE, b, QUOTE, COLON] + Text(w, false, 1)
  {
    hide Text, Quoted, Tabs;
    OneLetter(a);
    OneLetter(b);
    TabsOf();
  }
}
