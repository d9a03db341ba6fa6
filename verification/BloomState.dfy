/** Bloom filters as sets of bits, and the rolling filter made of two of them: it remembers the
    last keys over any run of insertions. */
module BloomState {
  import opened Octets
  import opened Powers

  type Key = seq<Byte>

  const TWO32: nat := 0x1_0000_0000
  const SEED_STEP: nat := 0xFBA4C795

  /** The hash of a seed and a key, the size in bits, the number of hash functions and the tweak. */
  datatype Config = Config(murmur: (nat, Key) -> nat, size: nat, nHashFuncs: nat, nTweak: nat)

  datatype Bloom = Bloom(bits: set<nat>, isFull: bool, isEmpty: bool)

  function Index(c: Config, i: nat, key: Key): (j: nat)
    requires c.size > 0
    ensures j < c.size
  {
    c.murmur((i * SEED_STEP + c.nTweak) % TWO32, key) % c.size
  }

  /** The bits that the first n hash functions give for a key. */
  function Indexes(c: Config, key: Key, n: nat): set<nat>
    requires c.size > 0
  {
    if n == 0 then {} else Indexes(c, key, n - 1) + {Index(c, n - 1, key)}
  }

  function KeyBits(c: Config, key: Key): set<nat>
    requires c.size > 0
  {
    Indexes(c, key, c.nHashFuncs)
  }

  function Insert(c: Config, b: Bloom, key: Key): Bloom
    requires c.size > 0 || b.isFull
  {
    if b.isFull then b else Bloom(b.bits + KeyBits(c, key), false, false)
  }

  predicate Contains(c: Config, b: Bloom, key: Key)
    requires c.size > 0 || b.isFull || b.isEmpty
  {
    b.isFull || (!b.isEmpty && KeyBits(c, key) <= b.bits)
  }

  function Cleared(): Bloom { Bloom({}, false, true) }

  /** An inserted key is found, and no key is lost. */
  lemma InsertKeeps(c: Config, b: Bloom, key: Key, other: Key)
    requires c.size > 0
    ensures Contains(c, Insert(c, b, key), key)
    ensures Contains(c, b, other) ==> Contains(c, Insert(c, b, key), other)
  {
  }

  // ----- the rolling filter

  /** Two filters, cleared in turn, each after two times n insertions. */
  datatype Rolling = Rolling(b1: Bloom, b2: Bloom, nInsertions: nat)

  function Reset(): Rolling { Rolling(Cleared(), Cleared(), 0) }

  function RollingInsert(c: Config, n: nat, r: Rolling, key: Key): Rolling
    requires c.size > 0
  {
    var b1 := if r.nInsertions == 0 then Cleared() else r.b1;
    var b2 := if r.nInsertions != 0 && r.nInsertions == n then Cleared() else r.b2;
    Rolling(Insert(c, b1, key), Insert(c, b2, key), if r.nInsertions + 1 == 2 * n then 0 else r.nInsertions + 1)
  }

  predicate RollingContains(c: Config, n: nat, r: Rolling, key: Key)
    requires c.size > 0
  {
    if r.nInsertions < n then Contains(c, r.b2, key) else Contains(c, r.b1, key)
  }

  function Run(c: Config, n: nat, keys: seq<Key>): Rolling
    requires c.size > 0
  {
    if keys == [] then Reset() else RollingInsert(c, n, Run(c, n, keys[..|keys| - 1]), keys[|keys| - 1])
  }

  /** How many of the last keys each filter is sure to hold. */
  function Window1(n: nat, k: nat): nat { if k == 0 then 2 * n else k }
  function Window2(n: nat, k: nat): nat { if k <= n then k + n else k - n }

  /** A filter holds the last m keys. */
  ghost predicate HoldsLast(c: Config, b: Bloom, keys: seq<Key>, m: nat)
    requires c.size > 0
  {
    forall i | 0 <= i < |keys| && i + m >= |keys| :: Contains(c, b, keys[i])
  }

  lemma HoldsOneMore(c: Config, b: Bloom, keys: seq<Key>, m: nat, key: Key)
    requires c.size > 0 && HoldsLast(c, b, keys, m)
    ensures HoldsLast(c, Insert(c, b, key), keys + [key], m + 1)
  {
    var keys' := keys + [key];
    forall i | 0 <= i < |keys'| && i + m + 1 >= |keys'| ensures Contains(c, Insert(c, b, key), keys'[i]) {
      InsertKeeps(c, b, key, keys'[i]);
    }
  }

  lemma HoldsFirst(c: Config, keys: seq<Key>, key: Key)
    requires c.size > 0
    ensures HoldsLast(c, Insert(c, Cleared(), key), keys + [key], 1)
  {
    InsertKeeps(c, Cleared(), key, key);
  }

  /** What both filters hold after a run. */
  lemma {:induction false} RunHolds(c: Config, n: nat, keys: seq<Key>)
    requires c.size > 0 && n >= 1
    ensures var r := Run(c, n, keys);
      && r.nInsertions < 2 * n
      && HoldsLast(c, r.b1, keys, Window1(n, r.nInsertions)) && HoldsLast(c, r.b2, keys, Window2(n, r.nInsertions))
  {
    if keys != [] {
      var before, key := keys[..|keys| - 1], keys[|keys| - 1];
      RunHolds(c, n, before);
      var r := Run(c, n, before);
      assert keys == before + [key];
      StepHolds(c, n, r, before, key);
    }
  }

  lemma StepHolds(c: Config, n: nat, r: Rolling, keys: seq<Key>, key: Key)
    requires c.size > 0 && n >= 1 && r.nInsertions < 2 * n
    requires HoldsLast(c, r.b1, keys, Window1(n, r.nInsertions)) && HoldsLast(c, r.b2, keys, Window2(n, r.nInsertions))
    ensures var t := RollingInsert(c, n, r, key);
      && t.nInsertions < 2 * n
      && HoldsLast(c, t.b1, keys + [key], Window1(n, t.nInsertions))
      && HoldsLast(c, t.b2, keys + [key], Window2(n, t.nInsertions))
  {
    hide HoldsLast, Insert;
    HoldsFirst(c, keys, key);
    HoldsOneMore(c, r.b1, keys, Window1(n, r.nInsertions), key);
    HoldsOneMore(c, r.b2, keys, Window2(n, r.nInsertions), key);
  }

  /** After any run of insertions since the reset, each of the last n keys is found. */
  lemma LastKeysFound(c: Config, n: nat, keys: seq<Key>, i: nat)
    requires c.size > 0 && n >= 1 && i < |keys| <= i + n
    ensures RollingContains(c, n, Run(c, n, keys), keys[i])
  {
    hide Contains, Insert;
    RunHolds(c, n, keys);
  }

  // ----- what is forgotten

  /** The bits of some keys. */
  function BitsOf(c: Config, keys: seq<Key>): set<nat>
    requires c.size > 0
  {
    if keys == [] then {} else BitsOf(c, keys[..|keys| - 1]) + KeyBits(c, keys[|keys| - 1])
  }

  lemma {:induction false} InBitsOf(c: Config, keys: seq<Key>, j: nat)
    requires c.size > 0
    ensures j in BitsOf(c, keys) <==> exists i :: 0 <= i < |keys| && j in KeyBits(c, keys[i])
  {
    hide KeyBits;
    if keys != [] {
      var n := |keys| - 1;
      InBitsOf(c, keys[..n], j);
      if i :| 0 <= i < n && j in KeyBits(c, keys[..n][i]) { assert j in KeyBits(c, keys[i]); }
      if i :| 0 <= i < |keys| && j in KeyBits(c, keys[i]) { assert i == n || j in KeyBits(c, keys[..n][i]); }
    }
  }

  /** The last m keys, or all if there are not so many. */
  function Last(keys: seq<Key>, m: nat): seq<Key> { if m <= |keys| then keys[|keys| - m..] else keys }

  /** A filter has the bits of the last m keys and no others, and is marked empty exactly before the first. */
  ghost predicate HasLast(c: Config, b: Bloom, keys: seq<Key>, m: nat)
    requires c.size > 0
  {
    b == Bloom(BitsOf(c, Last(keys, m)), false, keys == [])
  }

  lemma HasOneMore(c: Config, b: Bloom, keys: seq<Key>, m: nat, key: Key)
    requires c.size > 0 && HasLast(c, b, keys, m)
    ensures HasLast(c, Insert(c, b, key), keys + [key], m + 1)
  {
    hide KeyBits;
    var keys', last := keys + [key], Last(keys, m);
    assert Last(keys', m + 1) == last + [key];
    assert (last + [key])[..|last|] == last;
  }

  lemma HasFirst(c: Config, keys: seq<Key>, key: Key)
    requires c.size > 0
    ensures HasLast(c, Insert(c, Cleared(), key), keys + [key], 1)
  {
    hide KeyBits;
    assert Last(keys + [key], 1) == [key];
    assert [key][..0] == [];
    assert BitsOf(c, [key]) == KeyBits(c, key);
  }

  lemma StepHas(c: Config, n: nat, r: Rolling, keys: seq<Key>, key: Key)
    requires c.size > 0 && n >= 1 && r.nInsertions < 2 * n
    requires HasLast(c, r.b1, keys, Window1(n, r.nInsertions)) && HasLast(c, r.b2, keys, Window2(n, r.nInsertions))
    ensures var t := RollingInsert(c, n, r, key);
      && t.nInsertions < 2 * n
      && HasLast(c, t.b1, keys + [key], Window1(n, t.nInsertions))
      && HasLast(c, t.b2, keys + [key], Window2(n, t.nInsertions))
  {
    hide HasLast, Insert;
    HasFirst(c, keys, key);
    HasOneMore(c, r.b1, keys, Window1(n, r.nInsertions), key);
    HasOneMore(c, r.b2, keys, Window2(n, r.nInsertions), key);
  }

  /** After any run each filter has exactly the bits of the keys in its window, which is between nothing and
      the last 2n keys. */
  lemma {:induction false} RunExact(c: Config, n: nat, keys: seq<Key>)
    requires c.size > 0 && n >= 1
    ensures var r := Run(c, n, keys);
      && r.nInsertions == |keys| % (2 * n)
      && HasLast(c, r.b1, keys, Window1(n, r.nInsertions)) && HasLast(c, r.b2, keys, Window2(n, r.nInsertions))
  {
    hide HasLast;
    if keys == [] {
      StartHas(c, n);
    } else {
      var before, key := keys[..|keys| - 1], keys[|keys| - 1];
      RunExact(c, n, before);
      var r := Run(c, n, before);
      assert keys == before + [key];
      StepHas(c, n, r, before, key);
      NextModulo(|before|, 2 * n);
    }
  }

  lemma StartHas(c: Config, n: nat)
    requires c.size > 0
    ensures HasLast(c, Cleared(), [], Window1(n, 0)) && HasLast(c, Cleared(), [], Window2(n, 0))
  {
  }

  lemma NextModulo(k: nat, m: nat)
    requires m > 0
    ensures (k + 1) % m == if k % m + 1 == m then 0 else k % m + 1
  {
    var q, r := k / m, k % m;
    MulAssoc(q, 1, m);
    if r + 1 == m {
      assert (q + 1) * m == q * m + m;
      DivModUnique(k + 1, m, q + 1, 0);
    } else {
      DivModUnique(k + 1, m, q, r + 1);
    }
  }

  /** The keys that count when one is looked for: n at least, and less than 2n. */
  function Counting(n: nat, keys: seq<Key>): seq<Key>
    requires n >= 1
  {
    Last(keys, n + |keys| % n)
  }

  /** A key is found after a run exactly if all its bits are bits of the last n keys and of those before
      them since the last multiple of n. */
  lemma FoundExact(c: Config, n: nat, keys: seq<Key>, key: Key)
    requires c.size > 0 && n >= 1
    ensures RollingContains(c, n, Run(c, n, keys), key) <==> keys != [] && KeyBits(c, key) <= BitsOf(c, Counting(n, keys))
  {
    hide KeyBits, BitsOf;
    RunExact(c, n, keys);
    HalfModulo(|keys|, n, 2 * n);
  }

  lemma HalfModulo(k: nat, n: nat, m: nat)
    requires n >= 1 && m == 2 * n
    ensures k % n == if k % m < n then k % m else k % m - n
  {
    Cut(k, m);
    HalfQuotient(k, n, m, k / m, k % m);
  }

  lemma HalfQuotient(k: nat, n: nat, m: nat, q: nat, r: nat)
    requires n >= 1 && m == n + n && r < m && k == q * m + r
    ensures k % n == if r < n then r else r - n
  {
    var p := q + q;
    assert p * n == q * m;
    if r < n { DivModUnique(k, n, p, r); } else { DivModUnique(k, n, p + 1, r - n); }
  }

  /** A key with a bit that none of the last 2n keys has is not found. */
  lemma OldForgotten(c: Config, n: nat, keys: seq<Key>, key: Key, j: nat)
    requires c.size > 0 && n >= 1 && j in KeyBits(c, key)
    requires forall i | 0 <= i < |keys| && i + 2 * n >= |keys| :: j !in KeyBits(c, keys[i])
    ensures !RollingContains(c, n, Run(c, n, keys), key)
  {
    hide KeyBits, BitsOf;
    FoundExact(c, n, keys, key);
    var last := Counting(n, keys);
    InBitsOf(c, last, j);
    var d := |keys| - |last|;
    assert forall i | 0 <= i < |last| :: last[i] == keys[d + i];
  }

  // ----- the flags

  /** The flags of bits that came from elsewhere. */
  ghost function Updated(b: Bloom, size: nat): Bloom {
    Bloom(b.bits, forall j | 0 <= j < size :: j in b.bits, b.bits == {})
  }

  lemma {:induction false} IndexesBelow(c: Config, key: Key, n: nat)
    requires c.size > 0
    ensures (forall j | j in Indexes(c, key, n) :: j < c.size) && (n > 0 ==> Indexes(c, key, n) != {})
  {
    if n > 0 {
      IndexesBelow(c, key, n - 1);
      assert Index(c, n - 1, key) in Indexes(c, key, n);
    }
  }

  /** With up-to-date flags the shortcuts answer as the bits do, and keep an insertion's effect; only
      without hash functions is an empty filter's answer another one. */
  lemma FlagsExact(c: Config, b: Bloom, key: Key)
    requires c.size > 0
    ensures var u := Updated(b, c.size);
      && ((Contains(c, u, key) <==> KeyBits(c, key) <= b.bits) <==> c.nHashFuncs > 0 || b.bits != {})
      && Insert(c, u, key).bits == b.bits + KeyBits(c, key)
  {
    IndexesBelow(c, key, c.nHashFuncs);
    var u := Updated(b, c.size);
    if u.isFull {
      assert forall j | j in KeyBits(c, key) :: j in b.bits;
      assert 0 in b.bits && b.bits + KeyBits(c, key) == b.bits;
    }
  }

  /** The seeds of two of the at most fifty hash functions differ. */
  lemma SeedsDiffer(i: nat, j: nat, nTweak: nat)
    requires i < j < 50
    ensures (i * SEED_STEP + nTweak) % TWO32 != (j * SEED_STEP + nTweak) % TWO32
  {
    var d := j - i;
    assert d * SEED_STEP % TWO32 != 0;
  }
}
