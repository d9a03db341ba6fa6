/** Which string literals are accepted, and what they spell. */
module JsonStrings {
  import opened Octets
  import opened JsonText
  import opened JsonParse
  import opened JsonUnicode

  /** No quote stands in a text but behind a backslash, and no backslash alone at its end. */
  predicate Quoteless(x: seq<Byte>) {
    if x == [] then true
    else if x[0] == BACKSLASH then |x| >= 2 && Quoteless(x[2..])
    else x[0] != QUOTE && Quoteless(x[1..])
  }

  /** A letter behind a backslash and the byte it stands for. */
  predicate ShortOf(letter: Byte, b: Byte) {
    var c := letter as char;
    || (c == '"' && b == 34) || (c == '\\' && b == 92) || (c == '/' && b == 47)
    || (c == 'b' && b == 8) || (c == 'f' && b == 12) || (c == 'n' && b == 10) || (c == 'r' && b == 13) || (c == 't' && b == 9)
  }

  /** An escape and the bytes it stands for. */
  ghost predicate EscapeOf(x: seq<Byte>, u: seq<Byte>) {
    || (|x| == 2 && x[0] == BACKSLASH && |u| == 1 && ShortOf(x[1], u[0]))
    || exists cp: nat :: cp <= 0x10FFFF && Decodes(x, cp) && u == Utf8(cp)
  }

  ghost predicate EscapedFirst(x: seq<Byte>, n: int, u: seq<Byte>, b: seq<Byte>) {
    0 < n <= |x| && EscapeOf(x[..n], u) && u <= b
  }

  /** The bytes that a text between quotes spells. A backslash can only be left alone at the end where a \\u
      without its digits took another one with it, and then stands for the quote behind. */
  ghost predicate Spells(x: seq<Byte>, b: seq<Byte>)
    decreases |x|
  {
    if x == [] then b == []
    else if x[0] != BACKSLASH then b != [] && b[0] == x[0] && Spells(x[1..], b[1..])
    else
      || (|x| == 1 && b == [QUOTE])
      || exists n, u :: EscapedFirst(x, n, u, b) && Spells(x[n..], b[|u|..])
  }

  ghost predicate Spelled(x: seq<Byte>, s: seq<Byte>) { exists b :: Spells(x, b) && s == CString(b) }

  /** A string literal and the C string it stands for, which ends where a zero byte is spelled. */
  ghost predicate StringForm(x: seq<Byte>, s: seq<Byte>) {
    && |x| >= 2 && x[0] == QUOTE && x[|x| - 1] == QUOTE && Quoteless(x[1..|x| - 1])
    && Spelled(x[1..|x| - 1], s)
  }

  lemma {:induction false} EndExact(t: seq<Byte>, o: nat, e: nat)
    requires o <= e < |t|
    ensures StringEnd(t, o) == e <==> t[e] == QUOTE && Quoteless(t[o..e])
    decreases e - o
  {
    var x := t[o..e];
    if o < e && t[o] == BACKSLASH {
      if o + 2 <= e {
        EndExact(t, o + 2, e);
        assert x[2..] == t[o + 2..e];
      }
    } else if o < e && t[o] != QUOTE {
      EndExact(t, o + 1, e);
      assert x[1..] == t[o + 1..e];
    }
  }

  lemma ShortExact(letter: Byte, b: Byte)
    ensures ShortUnescape(letter) == b && b != 0 <==> ShortOf(letter, b)
  {
  }

  lemma AfterExact(x: seq<Byte>, d: Decoded, b: seq<Byte>)
    ensures After(x, d) == Bytes(b) <==> x <= b && d == Bytes(b[|x|..])
  {
    if x <= b { assert b == x + b[|x|..]; }
    if After(x, d) == Bytes(b) { assert b[|x|..] == d.bytes; }
  }

  lemma DecodesUnit(x: seq<Byte>, cp: nat)
    requires Decodes(x, cp)
    ensures |x| >= 6 && x[0] == BACKSLASH && x[1] == LOWER_U && cp <= 0x10FFFF
  {
    hide HexOf, NoHex;
    if cp >= 0x10000 { assert x[..6][0] == x[0] && x[..6][1] == x[1]; }
  }

  /** The first escape of a text is determined by what it begins with. */
  lemma CodeExact(t: seq<Byte>, o: nat, end: nat, n: nat, u: seq<Byte>)
    requires o + 1 < end < |t| && t[o] == BACKSLASH && t[o + 1] == LOWER_U && 0 < n <= end - o
    ensures EscapeOf(t[o..end][..n], u) <==> Utf16(t, o, end).1 == n && u == Utf8(Utf16(t, o, end).0)
  {
    hide Decodes, Utf16, Utf8;
    var x := t[o..end][..n];
    assert x == t[o..o + n];
    var r := Utf16(t, o, end);
    LiteralExact(t, o, end, r.0, n);
    if EscapeOf(x, u) {
      assert n >= 2 ==> x[1] == LOWER_U;
      var cp: nat :| cp <= 0x10FFFF && Decodes(x, cp) && u == Utf8(cp);
      LiteralExact(t, o, end, cp, n);
    }
  }

  lemma ShortCodeExact(t: seq<Byte>, o: nat, end: nat, n: nat, u: seq<Byte>)
    requires o + 1 < end < |t| && t[o] == BACKSLASH && t[o + 1] != LOWER_U && 0 < n <= end - o
    ensures EscapeOf(t[o..end][..n], u) <==> n == 2 && ShortUnescape(t[o + 1]) != 0 && u == [ShortUnescape(t[o + 1])]
  {
    hide Decodes, ShortUnescape, ShortOf;
    var x := t[o..end][..n];
    if n >= 2 { assert x[1] == t[o + 1]; }
    if cp: nat :| cp <= 0x10FFFF && Decodes(x, cp) && u == Utf8(cp) { DecodesUnit(x, cp); }
    ShortExact(t[o + 1], ShortUnescape(t[o + 1]));
    if |u| == 1 { ShortExact(t[o + 1], u[0]); }
  }

  /** The second pass over a literal gives exactly what it spells. */
  lemma {:induction false} UnescapedExact(t: seq<Byte>, o: nat, end: nat, b: seq<Byte>)
    requires o <= end < |t| && t[end] == QUOTE
    ensures Unescaped(t, o, end) == Bytes(b) <==> Spells(t[o..end], b)
    decreases end - o
  {
    var x := t[o..end];
    if o == end {
    } else if t[o] != BACKSLASH {
      AfterExact([t[o]], Unescaped(t, o + 1, end), b);
      assert x[1..] == t[o + 1..end];
      if b != [] { UnescapedExact(t, o + 1, end, b[1..]); }
    } else if o + 1 == end {
      AloneExact(t, o, end, b);
    } else {
      var code := t[o + 1] == LOWER_U;
      var r := Utf16(t, o, end);
      var n, u := if code then r.1 else 2, if code then Utf8(r.0) else [ShortUnescape(t[o + 1])];
      if (if code then r.1 != 0 else ShortUnescape(t[o + 1]) != 0) {
        AfterExact(u, Unescaped(t, o + n, end), b);
        assert x[n..] == t[o + n..end];
        if u <= b { UnescapedExact(t, o + n, end, b[|u|..]); }
      }
      EscapeExact(t, o, end, b, n, u);
    }
  }

  lemma AloneExact(t: seq<Byte>, o: nat, end: nat, b: seq<Byte>)
    requires end < |t| && t[end] == QUOTE && o + 1 == end && t[o] == BACKSLASH
    ensures Unescaped(t, o, end) == Bytes(b) <==> Spells(t[o..end], b)
  {
    hide Decodes;
    var x := t[o..end];
    assert Unescaped(t, o, end) == After([QUOTE], Bytes([])) == Bytes([QUOTE]);
    forall n, u | EscapedFirst(x, n, u, b) ensures false {
      var cp: nat :| cp <= 0x10FFFF && Decodes(x[..n], cp) && u == Utf8(cp);
      DecodesUnit(x[..n], cp);
    }
  }

  lemma EscapeExact(t: seq<Byte>, o: nat, end: nat, b: seq<Byte>, n: nat, u: seq<Byte>)
    requires o + 1 < end < |t| && t[o] == BACKSLASH
    requires n == (if t[o + 1] == LOWER_U then Utf16(t, o, end).1 else 2)
    requires u == if t[o + 1] == LOWER_U then Utf8(Utf16(t, o, end).0) else [ShortUnescape(t[o + 1])]
    ensures var good := if t[o + 1] == LOWER_U then Utf16(t, o, end).1 != 0 else ShortUnescape(t[o + 1]) != 0;
      Spells(t[o..end], b) <==> good && n <= end - o && u <= b && Spells(t[o..end][n..], b[|u|..])
  {
    hide EscapeOf, Utf16, Utf8, ShortUnescape;
    var x := t[o..end];
    forall n', u' | 0 < n' <= |x| 
      ensures if t[o + 1] == LOWER_U then EscapeOf(x[..n'], u') <==> Utf16(t, o, end).1 == n' && u' == Utf8(Utf16(t, o, end).0)
              else EscapeOf(x[..n'], u') <==> n' == 2 && ShortUnescape(t[o + 1]) != 0 && u' == [ShortUnescape(t[o + 1])]
    {
      if t[o + 1] == LOWER_U { CodeExact(t, o, end, n', u'); } else { ShortCodeExact(t, o, end, n', u'); }
    }
    if n', u' :| EscapedFirst(x, n', u', b) && Spells(x[n'..], b[|u'|..]) { assert n' == n && u' == u; }
    if 0 < n <= |x| && EscapeOf(x[..n], u) && u <= b { assert EscapedFirst(x, n, u, b); }
  }

  lemma Inner(t: seq<Byte>, o: nat, e: nat)
    requires o + 2 <= e <= |t|
    ensures var x := t[o..e]; |x| == e - o && x[0] == t[o] && x[|x| - 1] == t[e - 1] && x[1..|x| - 1] == t[o + 1..e - 1]
  {
    var x := t[o..e];
    var y, z := x[1..|x| - 1], t[o + 1..e - 1];
    assert |y| == |z| && forall i | 0 <= i < |z| :: y[i] == x[1 + i] == t[o + 1 + i] == z[i];
  }

  lemma SpelledExact(t: seq<Byte>, o: nat, end: nat, s: seq<Byte>)
    requires o <= end < |t| && t[end] == QUOTE
    ensures Spelled(t[o..end], s) <==> var d := Unescaped(t, o, end); d.Bytes? && s == CString(d.bytes)
  {
    hide Unescaped, Spelled, Spells, CString;
    forall b ensures Spells(t[o..end], b) <==> Unescaped(t, o, end) == Bytes(b) { UnescapedExact(t, o, end, b); }
    SpelledBy(t[o..end], Unescaped(t, o, end), s);
  }

  lemma SpelledBy(x: seq<Byte>, d: Decoded, s: seq<Byte>)
    requires forall b :: Spells(x, b) <==> d == Bytes(b)
    ensures Spelled(x, s) <==> d.Bytes? && s == CString(d.bytes)
  {
    if d.Bytes? { assert Spells(x, d.bytes); }
    if Spelled(x, s) {
      var b: seq<Byte> :| Spells(x, b) && s == CString(b);
      assert d == Bytes(b) && d.bytes == b;
    }
  }

  /** A string is parsed exactly from a literal of it. */
  lemma ParseStringExact(t: seq<Byte>, o: nat, s: seq<Byte>, e: nat)
    requires Terminated(t) && o < |t|
    ensures ParseString(t, o) == SomeString(s, e) <==> o < e < |t| && StringForm(t[o..e], s)
  {
    hide StringEnd, Unescaped, Spelled, Quoteless, CString;
    if o + 2 <= e < |t| {
      Inner(t, o, e);
      EndExact(t, o + 1, e - 1);
      if t[e - 1] == QUOTE { SpelledExact(t, o + 1, e - 1, s); }
    }
  }

  // ----- what is printed

  /** A byte is printed as it is, or with the shortest of its escapes if it is a control byte, a quote or a
      backslash. */
  lemma EscapeShortest(b: Byte, x: seq<Byte>)
    requires b != 0
    ensures if b >= 32 && b != QUOTE && b != BACKSLASH then Escape(b) == [b]
            else EscapeOf(Escape(b), [b]) && (EscapeOf(x, [b]) ==> |Escape(b)| <= |x|)
  {
    hide Decodes, HexDigit, Utf8;
    if b < 32 && ShortEscape(b) == 0 {
      ControlDecodes(b);
      assert forall letter: Byte :: !ShortOf(letter, b);
    }
    if EscapeOf(x, [b]) {
      if cp: nat :| cp <= 0x10FFFF && Decodes(x, cp) && [b] == Utf8(cp) { DecodesUnit(x, cp); }
    }
  }

  lemma ControlDecodes(b: Byte)
    requires 0 < b < 32 && ShortEscape(b) == 0
    ensures Decodes(Escape(b), b) && Utf8(b) == [b]
  {
    assert b / 4096 == 0 && b / 256 % 16 == 0 && b / 16 % 16 == b / 16;
    assert Escape(b)[2..] == [ZERO, ZERO, HexDigit(b / 16), HexDigit(b % 16)];
  }
}
