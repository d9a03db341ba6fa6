/** Scripts and outputs in streams of bytes: the special forms of common scripts, and that
    every script is read back up to the maximal size. */
module ScriptCodec {
  import opened Octets
  import opened Powers
  import opened VarInts

  const OP_RETURN: Byte := 0x6a
  const OP_DUP: Byte := 0x76
  const OP_EQUAL: Byte := 0x87
  const OP_EQUALVERIFY: Byte := 0x88
  const OP_HASH160: Byte := 0xa9
  const OP_CHECKSIG: Byte := 0xac
  const SPECIAL_SCRIPTS: nat := 6
  const MAX_SCRIPT_SIZE: nat := 10000

  /** Public keys on the curve: whether an uncompressed one is valid, and the uncompressed form
      of a compressed one, if there is any. */
  datatype Curve = Curve(isFullyValid: seq<Byte> -> bool, decompress: seq<Byte> -> seq<Byte>)

  /** A valid uncompressed key is the one its compressed form stands for. */
  ghost predicate Sound(curve: Curve) {
    forall key: seq<Byte> | |key| == 65 && key[0] == 4 && curve.isFullyValid(key) ::
      curve.decompress([2 + key[64] % 2] + key[1..33]) == key
  }

  predicate IsToKeyID(s: seq<Byte>) {
    |s| == 25 && s[0] == OP_DUP && s[1] == OP_HASH160 && s[2] == 20 && s[23] == OP_EQUALVERIFY && s[24] == OP_CHECKSIG
  }

  predicate IsToScriptID(s: seq<Byte>) {
    |s| == 23 && s[0] == OP_HASH160 && s[1] == 20 && s[22] == OP_EQUAL
  }

  predicate IsToCompressedKey(s: seq<Byte>) {
    |s| == 35 && s[0] == 33 && s[34] == OP_CHECKSIG && (s[1] == 2 || s[1] == 3)
  }

  predicate IsToFullKey(curve: Curve, s: seq<Byte>) {
    |s| == 67 && s[0] == 65 && s[66] == OP_CHECKSIG && s[1] == 4 && curve.isFullyValid(s[1..66])
  }

  /** The special form of a script, or nothing. */
  function Compress(curve: Curve, s: seq<Byte>): (r: seq<Byte>)
    ensures r != [] ==> r[0] < SPECIAL_SCRIPTS && |r| == 1 + SpecialSize(r[0])
  {
    if IsToKeyID(s) then [0] + s[3..23]
    else if IsToScriptID(s) then [1] + s[2..22]
    else if IsToCompressedKey(s) then s[1..34]
    else if IsToFullKey(curve, s) then [4 + s[65] % 2] + s[2..34]
    else []
  }

  function SpecialSize(n: nat): nat { if n <= 1 then 20 else if n <= 5 then 32 else 0 }

  /** The script of a special form; empty if a key cannot be decompressed. */
  function Decompress(curve: Curve, n: nat, data: seq<Byte>): seq<Byte>
    requires n < SPECIAL_SCRIPTS && |data| == SpecialSize(n)
  {
    if n == 0 then [OP_DUP, OP_HASH160, 20] + data + [OP_EQUALVERIFY, OP_CHECKSIG]
    else if n == 1 then [OP_HASH160, 20] + data + [OP_EQUAL]
    else if n <= 3 then [33, n] + data + [OP_CHECKSIG]
    else
      var key := curve.decompress([n - 2] + data);
      if |key| == 65 then [65] + key + [OP_CHECKSIG] else []
  }

  function ScriptText(curve: Curve, s: seq<Byte>): seq<Byte> {
    var special := Compress(curve, s);
    if special != [] then special else VarInt((|s| + SPECIAL_SCRIPTS) % TWO32) + s
  }

  function ReadScript(curve: Curve, t: seq<Byte>): Read<seq<Byte>> {
    var r := ReadCut(t, TWO32);
    if r.Failed? then Failed
    else if r.value < SPECIAL_SCRIPTS then
      var size := SpecialSize(r.value);
      if |r.rest| < size then Failed else Got(Decompress(curve, r.value, r.rest[..size]), r.rest[size..])
    else
      var size := r.value - SPECIAL_SCRIPTS;
      if |r.rest| < size then Failed
      else Got(if size > MAX_SCRIPT_SIZE then [OP_RETURN] else r.rest[..size], r.rest[size..])
  }

  /** A special form stands for its script. */
  lemma SpecialTrip(curve: Curve, s: seq<Byte>)
    requires Sound(curve) && Compress(curve, s) != []
    ensures var special := Compress(curve, s); Decompress(curve, special[0], special[1..]) == s && |s| <= 67
  {
    var special := Compress(curve, s);
    if IsToKeyID(s) {
      assert s == [s[0], s[1], s[2]] + s[3..23] + [s[23], s[24]];
      assert special[1..] == s[3..23];
    } else if IsToScriptID(s) {
      assert s == [s[0], s[1]] + s[2..22] + [s[22]];
      assert special[1..] == s[2..22];
    } else if IsToCompressedKey(s) {
      assert s == [s[0], s[1]] + s[2..34] + [s[34]];
      assert special[1..] == s[2..34];
    } else {
      var key := s[1..66];
      assert key[64] == s[65] && key[1..33] == s[2..34] && special[1..] == s[2..34];
      assert s == [s[0]] + key + [s[66]];
    }
  }

  /** What is read back from a script: an overly long one is replaced by a short invalid one. */
  function KeptScript(s: seq<Byte>): seq<Byte> { if |s| <= MAX_SCRIPT_SIZE then s else [OP_RETURN] }

  /** A script, whose size is a 32-bit number with room for the special forms, is read back if it is not
      too long, and replaced otherwise; what follows is left. */
  lemma ScriptTrip(curve: Curve, s: seq<Byte>, rest: seq<Byte>)
    requires Sound(curve) && |s| + SPECIAL_SCRIPTS < TWO32
    ensures ReadScript(curve, ScriptText(curve, s) + rest) == Got(KeptScript(s), rest)
  {
    hide Compress, Decompress, ReadCut, VarInt;
    var special := Compress(curve, s);
    if special != [] {
      SpecialTrip(curve, s);
      var n, data := special[0], special[1..];
      assert special + rest == [n] + (data + rest);
      OneByte(n);
      CutTrip(n, TWO32, data + rest);
      assert (data + rest)[..|data|] == data && (data + rest)[|data|..] == rest;
    } else {
      var n := |s| + SPECIAL_SCRIPTS;
      assert VarInt(n) + s + rest == VarInt(n) + (s + rest);
      SmallMod(n, TWO32);
      CutTrip(n, TWO32, s + rest);
      assert (s + rest)[..|s|] == s && (s + rest)[|s|..] == rest;
    }
  }

  lemma OneByte(n: Byte)
    requires n <= 0x7F
    ensures VarInt(n) == [n]
  {
  }
}
