/** The Bloom filter and the rolling Bloom filter as objects. */
module BloomFilters {
  import opened Octets
  import opened PackedBits
  import opened BloomState

  class BloomFilter {
    const murmur: (nat, Key) -> nat
    const vData: array<bv8>
    const nHashFuncs: nat
    var isFull: bool
    var isEmpty: bool
    var nTweak: nat

    function Configuration(): Config
      reads this`nTweak
    {
      Config(murmur, 8 * vData.Length, nHashFuncs, nTweak)
    }

    ghost function Bits(): set<nat>
      reads vData
    {
      set j | 0 <= j < 8 * vData.Length && Bit(vData[j / 8], j % 8)
    }

    ghost function Contents(): Bloom
      reads this, vData
    {
      Bloom(Bits(), isFull, isEmpty)
    }

    /** A filter of some bytes, empty. */
    constructor (murmur: (nat, Key) -> nat, bytes: nat, nHashFuncs: nat, nTweak: nat)
      ensures fresh(vData) && vData.Length == bytes && this.murmur == murmur && this.nHashFuncs == nHashFuncs
      ensures Contents() == Cleared() && this.nTweak == nTweak
    {
      this.murmur, this.nHashFuncs, this.nTweak := murmur, nHashFuncs, nTweak;
      vData := new bv8[bytes];
      isFull, isEmpty := false, true;
      new;
      Clear();
    }

    method Clear()
      modifies vData, this`isFull, this`isEmpty
      ensures Contents() == Cleared()
    {
      for i := 0 to vData.Length
        modifies vData
        invariant forall j | 0 <= j < i :: vData[j] == 0
      {
        vData[i] := 0;
      }
      isFull := false;
      isEmpty := true;
      forall j | 0 <= j < 8 * vData.Length ensures !Bit(vData[j / 8], j % 8) { NoBit(j % 8); }
    }

    method Reset(nNewTweak: nat)
      modifies vData, this`isFull, this`isEmpty, this`nTweak
      ensures Contents() == Cleared() && nTweak == nNewTweak
    {
      Clear();
      nTweak := nNewTweak;
    }

    /** Set one bit. */
    method SetBit(j: nat)
      requires j < 8 * vData.Length
      modifies vData
      ensures Bits() == old(Bits()) + {j}
    {
      hide Bit;
      ghost var before := vData[..];
      vData[j / 8] := vData[j / 8] | Mask(j % 8);
      forall k | 0 <= k < 8 * vData.Length ensures Bit(vData[k / 8], k % 8) == (k == j || Bit(before[k / 8], k % 8)) {
        if k / 8 == j / 8 { BitSet(before[j / 8], j % 8, k % 8); }
      }
    }

    method Insert(key: Key)
      requires vData.Length > 0 || isFull
      modifies vData, this`isEmpty
      ensures Contents() == BloomState.Insert(Configuration(), old(Contents()), key)
    {
      hide Index, Bits;
      if isFull {
        return;
      }
      ghost var bits, c := Bits(), Configuration();
      for i := 0 to nHashFuncs
        modifies vData
        invariant Bits() == bits + Indexes(c, key, i)
      {
        SetBit(Index(Configuration(), i, key));
      }
      isEmpty := false;
    }

    method Contains(key: Key) returns (r: bool)
      requires vData.Length > 0 || isFull || isEmpty
      ensures r == BloomState.Contains(Configuration(), Contents(), key)
    {
      if isFull {
        return true;
      }
      if isEmpty {
        return false;
      }
      hide Index;
      for i := 0 to nHashFuncs
        invariant Indexes(Configuration(), key, i) <= Bits()
      {
        var nIndex := Index(Configuration(), i, key);
        if !Bit(vData[nIndex / 8], nIndex % 8) {
          MissingBit(Configuration(), key, nHashFuncs, i);
          return false;
        }
      }
      return true;
    }

    /** Set the flags by the bits, when they came from elsewhere. */
    method UpdateEmptyFull()
      modifies this`isFull, this`isEmpty
      ensures Contents() == Updated(old(Contents()), 8 * vData.Length)
    {
      var full, empty := true, true;
      for i := 0 to vData.Length
        invariant full <==> forall j | 0 <= j < i :: AllBits(vData[j])
        invariant empty <==> forall j | 0 <= j < i :: NoBits(vData[j])
      {
        FullOrZero(vData[i]);
        full := full && vData[i] == 0xFF;
        empty := empty && vData[i] == 0;
      }
      isFull := full;
      isEmpty := empty;
      AllOrNone();
    }

    lemma AllOrNone()
      ensures (forall j | 0 <= j < vData.Length :: AllBits(vData[j])) <==> (forall j | 0 <= j < 8 * vData.Length :: j in Bits())
      ensures (forall j | 0 <= j < vData.Length :: NoBits(vData[j])) <==> Bits() == {}
    {
      hide Bit;
      assert forall j | 0 <= j < 8 * vData.Length :: j in Bits() <==> Bit(vData[j / 8], j % 8);
      if forall j | 0 <= j < 8 * vData.Length :: j in Bits() {
        forall j | 0 <= j < vData.Length ensures AllBits(vData[j]) {
          assert forall k | 0 <= k < 8 :: 8 * j + k in Bits() ==> Bit(vData[j], k);
        }
      }
      if Bits() == {} {
        forall j | 0 <= j < vData.Length ensures NoBits(vData[j]) {
          assert forall k | 0 <= k < 8 :: Bit(vData[j], k) ==> 8 * j + k in Bits();
        }
      }
    }
  }

  predicate AllBits(x: bv8) { forall k | 0 <= k < 8 :: Bit(x, k) }
  predicate NoBits(x: bv8) { forall k | 0 <= k < 8 :: !Bit(x, k) }

  lemma NoBit(k: nat)
    ensures !Bit(0, k)
  {
  }

  lemma {:induction false} MissingBit(c: Config, key: Key, n: nat, i: nat)
    requires c.size > 0 && i < n
    ensures Index(c, i, key) in Indexes(c, key, n)
  {
    if i < n - 1 { MissingBit(c, key, n - 1, i); }
  }

  class RollingBloomFilter {
    const nBloomSize: nat
    var nInsertions: nat
    const b1: BloomFilter
    const b2: BloomFilter
    ghost const n: nat
    ghost var history: seq<Key>

    /** Both filters are alike, and hold what a run over the history leaves in them. */
    ghost predicate Valid()
      reads this, b1, b2, b1.vData, b2.vData
    {
      && n >= 1 && nBloomSize == 2 * n
      && b1 != b2 && b1.vData != b2.vData && b1.vData.Length > 0 && b1.Configuration() == b2.Configuration()
      && Rolling(b1.Contents(), b2.Contents(), nInsertions) == Run(b1.Configuration(), n, history)
    }

    constructor (murmur: (nat, Key) -> nat, nElements: nat, bytes: nat, nHashFuncs: nat, tweak: nat)
      requires nElements >= 1 && bytes > 0
      ensures Valid() && n == nElements && history == [] && fresh(b1) && fresh(b2) && fresh(b1.vData) && fresh(b2.vData)
    {
      b1 := new BloomFilter(murmur, bytes, nHashFuncs, 0);
      b2 := new BloomFilter(murmur, bytes, nHashFuncs, 0);
      n := nElements;
      nBloomSize := nElements * 2;
      nInsertions := 0;
      history := [];
      new;
      Reset(tweak);
    }

    /** Forget everything, with a new random tweak. */
    method Reset(nNewTweak: nat)
      requires n >= 1 && nBloomSize == 2 * n && b1 != b2 && b1.vData != b2.vData && b1.vData.Length > 0
      requires b1.murmur == b2.murmur && b1.nHashFuncs == b2.nHashFuncs && b1.vData.Length == b2.vData.Length
      modifies this, b1, b2, b1.vData, b2.vData
      ensures Valid() && history == []
    {
      b1.Reset(nNewTweak);
      b2.Reset(nNewTweak);
      nInsertions := 0;
      history := [];
    }

    method Insert(key: Key)
      requires Valid()
      modifies this, b1, b2, b1.vData, b2.vData
      ensures Valid() && history == old(history) + [key]
    {
      hide BloomState.Insert, BloomState.Contains;
      ghost var keys := history + [key];
      assert keys[..|keys| - 1] == history;
      if nInsertions == 0 {
        b1.Clear();
      } else if nInsertions == nBloomSize / 2 {
        b2.Clear();
      }
      b1.Insert(key);
      b2.Insert(key);
      nInsertions := nInsertions + 1;
      if nInsertions == nBloomSize {
        nInsertions := 0;
      }
      history := keys;
    }

    /** Each of the last nElements keys inserted since the reset is found, and no key that has a bit besides
        those of the keys that still count. */
    method Contains(key: Key) returns (r: bool)
      requires Valid()
      ensures r == RollingContains(b1.Configuration(), n, Run(b1.Configuration(), n, history), key)
      ensures key in history[if |history| < n then 0 else |history| - n..] ==> r
      ensures r <==> history != [] && KeyBits(b1.Configuration(), key) <= BitsOf(b1.Configuration(), Counting(n, history))
    {
      hide BloomState.Insert, BloomState.Contains, KeyBits, BitsOf, Counting, Run;
      FoundExact(b1.Configuration(), n, history, key);
      if nInsertions < nBloomSize / 2 {
        r := b2.Contains(key);
      } else {
        r := b1.Contains(key);
      }
      ghost var start := if |history| < n then 0 else |history| - n;
      if key in history[start..] {
        ghost var i :| 0 <= i < |history| - start && history[start..][i] == key;
        LastKeysFound(b1.Configuration(), n, history, start + i);
      }
    }
  }
}
