/** Which new slot an entry gets when a file is read: under the map and the bucket count it was
    written with, the slot in the last bucket that was stored for it; otherwise, or where that one is
    taken, the slot of its source. Whoever comes first stays. */
module AddrManBuckets {
  import opened AddrManState
  import opened AddrManLemmas
  import opened AddrManFile
  import opened AddrManStream

  /** The stored buckets may be used. */
  predicate Usable(file: File, asmapVersion: nat) {
    file.nVersion == 2 && StoredBuckets(file) == NEW_BUCKET_COUNT && file.asmapVersion == asmapVersion
  }

  function SourceOf(place: Placement, rec: Record): Slot { place.SourceSlot(rec.service, rec.source) }

  function NotedSlot(place: Placement, rec: Record, e: map<int, nat>, k: int): Slot {
    place.NewSlot(rec.service, BucketOf(e, k))
  }

  // ----- the last stored bucket

  predicate Lists(buckets: seq<seq<int>>, b: int, k: int) { 0 <= b < |buckets| && k in buckets[b] }

  /** A number is noted exactly if it is valid and listed in some bucket, and then with the last one. */
  lemma {:induction false} LastBucket(buckets: seq<seq<int>>, nNew: int, k: int)
    ensures var e := EntryToBucket(buckets, nNew);
      && (k in e <==> 0 <= k < nNew && exists b :: Lists(buckets, b, k))
      && (k in e ==> Lists(buckets, e[k], k) && forall b | e[k] < b < |buckets| :: !Lists(buckets, b, k))
  {
    hide NoteIndexes;
    if buckets != [] {
      var n := |buckets| - 1;
      var before, e0 := buckets[..n], EntryToBucket(buckets[..n], nNew);
      LastBucket(before, nNew, k);
      NotesOne(e0, buckets[n], n, nNew, k);
      assert forall b | 0 <= b < n :: Lists(before, b, k) == Lists(buckets, b, k);
      if b :| Lists(buckets, b, k) { assert b == n || Lists(before, b, k); }
      if b :| Lists(before, b, k) { assert Lists(buckets, b, k); }
      if k in buckets[n] { assert Lists(buckets, n, k); }
    }
  }

  lemma {:induction false} NotesOne(e: map<int, nat>, x: seq<int>, bucket: nat, nNew: int, k: int)
    ensures var e' := NoteIndexes(e, x, bucket, nNew);
      && (k in e' <==> k in e || (0 <= k < nNew && k in x))
      && (k in e' ==> e'[k] == if 0 <= k < nNew && k in x then bucket else e[k])
  {
    if x != [] {
      var before, i := x[..|x| - 1], x[|x| - 1];
      NotesOne(e, before, bucket, nNew, k);
      assert k in x <==> k in before || k == i;
    }
  }

  // ----- placing the entries

  /** The first entries are the new records, without references, in a manager without new slots. */
  ghost predicate Untouched(s: State, news: seq<Record>) {
    && s.vvNew == map[]
    && forall k | 0 <= k < |news| :: k in s.mapInfo && !s.mapInfo[k].fInTried && s.mapInfo[k].nRefCount == 0
         && s.mapInfo[k].service == news[k].service && s.mapInfo[k].source == news[k].source
  }

  /** The slot of the k-th entry's source is held by it or an earlier one. */
  predicate SourceTaken(place: Placement, news: seq<Record>, v: map<Slot, int>, k: int)
    requires 0 <= k < |news|
  {
    var sl := SourceOf(place, news[k]); sl in v && v[sl] <= k
  }

  /** The slot an entry was noted for is its own, or an earlier one's; then it is as without notes. */
  predicate NotedFirst(place: Placement, news: seq<Record>, e: map<int, nat>, v: map<Slot, int>, k: int)
    requires 0 <= k < |news|
  {
    var sl := NotedSlot(place, news[k], e, k);
    sl in v && (v[sl] == k || (v[sl] < k && SourceTaken(place, news, v, k)))
  }

  /** Every slot is one of its entry's, and an entry has no other. */
  ghost predicate OwnSlots(place: Placement, news: seq<Record>, e: map<int, nat>, use: bool, v: map<Slot, int>, n: nat)
    requires n <= |news|
  {
    && (forall sl | sl in v :: var k := v[sl];
          0 <= k < n && (sl == SourceOf(place, news[k]) || (use && sl == NotedSlot(place, news[k], e, k))))
    && (forall sl, sl' | sl in v && sl' in v && v[sl] == v[sl'] :: sl == sl')
  }

  /** What holds for the first n entries once they were placed. */
  ghost predicate Given(place: Placement, news: seq<Record>, e: map<int, nat>, use: bool, v: map<Slot, int>, n: nat)
    requires n <= |news|
  {
    && OwnSlots(place, news, e, use, v, n)
    && forall k | 0 <= k < n :: if use then NotedFirst(place, news, e, v, k) else SourceTaken(place, news, v, k)
  }

  /** The entries themselves are the same, and the placed ones have a reference. */
  ghost predicate Counted(t: State, news: seq<Record>, n: nat)
    requires n <= |news|
  {
    && (forall k | 0 <= k < |news| :: k in t.mapInfo && !t.mapInfo[k].fInTried
          && t.mapInfo[k].service == news[k].service && t.mapInfo[k].source == news[k].source)
    && (forall k | n <= k < |news| :: t.mapInfo[k].nRefCount == 0)
    && (forall sl | sl in t.vvNew :: var k := t.vvNew[sl]; 0 <= k < |news| && t.mapInfo[k].nRefCount > 0)
  }

  lemma PlaceCounted(t: State, news: seq<Record>, bucket: nat, use: bool, n: nat)
    requires n < |news| && Counted(t, news, n)
    ensures Counted(PlaceEntry(t, n, bucket, use), news, n + 1) && PlaceEntry(t, n, bucket, use).place == t.place
  {
    hide Placement.NewSlot, Placement.SourceSlot;
  }

  /** One turn. */
  lemma PlaceTurn(t: State, news: seq<Record>, e: map<int, nat>, use: bool, n: nat)
    requires n < |news| && Counted(t, news, n)
    ensures Turned(t.place, news[n], e, use, t.vvNew, PlaceEntry(t, n, BucketOf(e, n), use).vvNew, n)
  {
    hide Placement.NewSlot, Placement.SourceSlot;
  }

  /** The table after one turn. */
  predicate Turned(place: Placement, rec: Record, e: map<int, nat>, use: bool, v: map<Slot, int>, w: map<Slot, int>, n: nat) {
    var noted, source := NotedSlot(place, rec, e, n), SourceOf(place, rec);
    w == if use && noted !in v then v[noted := n] else if source !in v then v[source := n] else v
  }

  lemma OwnTurn(place: Placement, news: seq<Record>, e: map<int, nat>, use: bool, v: map<Slot, int>, w: map<Slot, int>, n: nat)
    requires n < |news| && OwnSlots(place, news, e, use, v, n) && Turned(place, news[n], e, use, v, w, n)
    ensures OwnSlots(place, news, e, use, w, n + 1)
  {
    hide NotedSlot, SourceOf;
  }

  lemma KeptTurn(place: Placement, news: seq<Record>, e: map<int, nat>, use: bool, v: map<Slot, int>, w: map<Slot, int>, n: nat, k: nat)
    requires k <= n < |news| && Turned(place, news[n], e, use, v, w, n) && forall sl | sl in v :: v[sl] < n
    requires k < n ==> if use then NotedFirst(place, news, e, v, k) else SourceTaken(place, news, v, k)
    ensures if use then NotedFirst(place, news, e, w, k) else SourceTaken(place, news, w, k)
  {
    hide NotedSlot, SourceOf;
  }

  lemma GivenTurn(place: Placement, news: seq<Record>, e: map<int, nat>, use: bool, v: map<Slot, int>, w: map<Slot, int>, n: nat)
    requires n < |news| && Given(place, news, e, use, v, n) && Turned(place, news[n], e, use, v, w, n)
    ensures Given(place, news, e, use, w, n + 1)
  {
    OwnTurn(place, news, e, use, v, w, n);
    assert forall sl | sl in v :: v[sl] < n;
    hide OwnSlots, Turned, NotedFirst, SourceTaken;
    forall k | 0 <= k < n + 1 ensures if use then NotedFirst(place, news, e, w, k) else SourceTaken(place, news, w, k) {
      KeptTurn(place, news, e, use, v, w, n, k);
    }
  }

  lemma {:induction false} AllGiven(s: State, news: seq<Record>, e: map<int, nat>, use: bool, n: nat)
    requires n <= |news| && Untouched(s, news)
    ensures var t := PlaceEntries(s, e, use, n);
      t.place == s.place && Counted(t, news, n) && Given(s.place, news, e, use, t.vvNew, n)
  {
    hide Given, Counted, PlaceEntry, NotedSlot, SourceOf, Turned;
    if n == 0 {
      NothingGiven(s, news, e, use);
    } else {
      AllGiven(s, news, e, use, n - 1);
      var t := PlaceEntries(s, e, use, n - 1);
      PlaceCounted(t, news, BucketOf(e, n - 1), use, n - 1);
      PlaceTurn(t, news, e, use, n - 1);
      GivenTurn(s.place, news, e, use, t.vvNew, PlaceEntry(t, n - 1, BucketOf(e, n - 1), use).vvNew, n - 1);
    }
  }

  lemma NothingGiven(s: State, news: seq<Record>, e: map<int, nat>, use: bool)
    requires Untouched(s, news)
    ensures Counted(s, news, 0) && Given(s.place, news, e, use, s.vvNew, 0)
  {
  }

  // ----- reading a file

  lemma {:induction false} NewsAre(s: State, recs: seq<Record>)
    requires s.nIdCount == 0
    ensures var t := EnterNews(s, recs);
      && t.nIdCount == |recs| && t.vvNew == s.vvNew && t.place == s.place
      && forall k | 0 <= k < |recs| :: k in t.mapInfo && t.mapInfo[k] == InfoOf(recs[k], false, t.mapInfo[k].nRandomPos)
  {
    if recs != [] { NewsAre(s, recs[..|recs| - 1]); }
  }

  lemma {:induction false} TriedsSpare(s: State, recs: seq<Record>)
    ensures var t := EnterTrieds(s, recs);
      && t.nIdCount >= s.nIdCount && t.vvNew == s.vvNew && t.place == s.place
      && forall k | k in s.mapInfo && k < s.nIdCount :: k in t.mapInfo && t.mapInfo[k] == s.mapInfo[k]
  {
    hide Placement.TriedSlot;
    if recs != [] { TriedsSpare(s, recs[..|recs| - 1]); }
  }

  lemma EnteredUntouched(place: Placement, file: File)
    requires |file.news| == NonNegative(file.nNew)
    ensures Untouched(Entered(place, file), file.news) && Entered(place, file).place == place
  {
    hide EnterNews, EnterTrieds;
    var s0 := Cleared(place).(nNew := file.nNew, nTried := file.nTried);
    NewsAre(s0, file.news);
    TriedsSpare(EnterNews(s0, file.news).(nIdCount := file.nNew), file.trieds);
  }

  lemma PopSpares(s: State, id: int, k: int)
    requires k in s.mapInfo && k != id
    ensures var t := PopEntry(s, id); t.vvNew == s.vvNew && t.place == s.place && k in t.mapInfo && t.mapInfo[k] == s.mapInfo[k]
  {
  }

  lemma DeleteSpares(s: State, id: int, k: int)
    requires RandomLinked(s.mapInfo, s.vRandom) && k in s.mapInfo && id in s.mapInfo && k != id
    ensures var t := Delete(s, id);
      && t.vvNew == s.vvNew && t.place == s.place
      && k in t.mapInfo && t.mapInfo[k] == s.mapInfo[k].(nRandomPos := t.mapInfo[k].nRandomPos)
  {
    hide AddrManState.SwapRandom, PopEntry, RandomLinked;
    var i, j := s.mapInfo[id].nRandomPos, |s.vRandom| - 1;
    PositionOf(s.mapInfo, s.vRandom, id);
    SwapKeepsRandom(s, i, j);
    PopSpares(AddrManState.SwapRandom(s, i, j), id, k);
  }

  /** Pruning loses no entry with a reference. */
  lemma PruneOneSpares(s: State, id: int, k: int)
    requires RandomLinked(s.mapInfo, s.vRandom) && k in s.mapInfo && s.mapInfo[k].nRefCount > 0
    ensures var t := PruneOne(s, id);
      && RandomLinked(t.mapInfo, t.vRandom) && t.vvNew == s.vvNew && t.place == s.place
      && k in t.mapInfo && t.mapInfo[k] == s.mapInfo[k].(nRandomPos := t.mapInfo[k].nRandomPos)
  {
    PruneLinked(s, id);
    hide Delete, RandomLinked;
    if id in s.mapInfo && !s.mapInfo[id].fInTried && s.mapInfo[id].nRefCount == 0 { DeleteSpares(s, id, k); }
  }

  lemma {:induction false} PruneSpares(s: State, n: nat, k: int)
    requires RandomLinked(s.mapInfo, s.vRandom) && k in s.mapInfo && s.mapInfo[k].nRefCount > 0
    ensures var t := Prune(s, n);
      && RandomLinked(t.mapInfo, t.vRandom) && t.vvNew == s.vvNew && t.place == s.place
      && k in t.mapInfo && t.mapInfo[k] == s.mapInfo[k].(nRandomPos := t.mapInfo[k].nRandomPos)
  {
    hide RandomLinked, PruneOne;
    if n > 0 {
      PruneSpares(s, n - 1, k);
      PruneOneSpares(Prune(s, n - 1), n - 1, k);
    }
  }

  lemma {:induction false} PruneTable(s: State, n: nat)
    ensures Prune(s, n).vvNew == s.vvNew && Prune(s, n).place == s.place
  {
    if n > 0 { PruneTable(s, n - 1); }
  }

  /** The k-th new record's entry is there. */
  predicate HoldsNew(m: map<int, Info>, news: seq<Record>, k: int) {
    0 <= k < |news| && k in m && m[k].service == news[k].service && m[k].source == news[k].source
  }

  /** The new table after reading a file: everybody's notes are for the last bucket stored for him; if the
      stored buckets may be used, an entry that is not in the slot it was noted for finds an earlier one
      there; and if they may not, or the slot is taken, the slot of its source is its own or an earlier
      one's. Nobody is anywhere else, or twice. */
  lemma ReadTable(place: Placement, asmapVersion: nat, file: File)
    requires Load(place, asmapVersion, file).Loaded? && file.nNew >= 0
    ensures |file.news| == file.nNew
    ensures var t, e := Load(place, asmapVersion, file).state, EntryToBucket(file.buckets, file.nNew);
      && Given(place, file.news, e, Usable(file, asmapVersion), t.vvNew, |file.news|)
      && forall sl | sl in t.vvNew :: HoldsNew(t.mapInfo, file.news, t.vvNew[sl])
  {
    hide Entered, EntryToBucket, PlaceEntries, Prune, Given, Untouched, RandomLinked, StoredBuckets;
    var e, use, n := EntryToBucket(file.buckets, file.nNew), Usable(file, asmapVersion), |file.news|;
    var s := Entered(place, file);
    EnteredUntouched(place, file);
    EnteredNumbered(place, file);
    AllGiven(s, file.news, e, use, n);
    PlacedSame(s, e, use, n);
    var u := PlaceEntries(s, e, use, n);
    var m := NonNegative(u.nIdCount);
    PruneTable(u, m);
    forall sl | sl in u.vvNew ensures HoldsNew(Prune(u, m).mapInfo, file.news, u.vvNew[sl]) { PruneSpares(u, m, u.vvNew[sl]); }
  }

  /** Under another map, another version or another number of buckets all new entries are re-bucketed: every
      occupied slot is that of its entry's source, and the slot of a source is held by the first entry that
      has it. */
  lemma Rebucketed(place: Placement, asmapVersion: nat, file: File, k: nat) returns (i: nat)
    requires Load(place, asmapVersion, file).Loaded? && k < |file.news| && !Usable(file, asmapVersion)
    ensures var t, sl := Load(place, asmapVersion, file).state, SourceOf(place, file.news[k]);
      && (forall x | x in t.vvNew :: t.vvNew[x] in t.mapInfo && var info := t.mapInfo[t.vvNew[x]]; x == place.SourceSlot(info.service, info.source))
      && i <= k && SourceOf(place, file.news[i]) == sl && sl in t.vvNew && t.vvNew[sl] == i
      && forall j | 0 <= j < i :: SourceOf(place, file.news[j]) != sl
  {
    ReadTable(place, asmapVersion, file);
    hide Load, Placement.SourceSlot, EntryToBucket, Usable;
    var t := Load(place, asmapVersion, file).state;
    assert SourceTaken(place, file.news, t.vvNew, k);
    i := t.vvNew[SourceOf(place, file.news[k])];
    forall j | 0 <= j < i ensures SourceOf(place, file.news[j]) != SourceOf(place, file.news[k]) {
      assert SourceTaken(place, file.news, t.vvNew, j);
    }
  }

  /** Under the map, version and bucket count it was written with, an entry is in the slot of the last bucket
      stored for it, unless an entry before it is there. */
  lemma StoredSlotKept(place: Placement, asmapVersion: nat, file: File, k: nat)
    requires Load(place, asmapVersion, file).Loaded? && k < |file.news| && Usable(file, asmapVersion)
    ensures var t, e := Load(place, asmapVersion, file).state, EntryToBucket(file.buckets, file.nNew);
      var noted, source := NotedSlot(place, file.news[k], e, k), SourceOf(place, file.news[k]);
      && noted in t.vvNew && t.vvNew[noted] <= k
      && (t.vvNew[noted] != k ==> source in t.vvNew && t.vvNew[source] <= k)
      && forall x | x in t.vvNew && t.vvNew[x] == k :: x == noted || x == source
  {
    ReadTable(place, asmapVersion, file);
    hide Load, Placement.SourceSlot, Placement.NewSlot, EntryToBucket, Usable;
    var t, e := Load(place, asmapVersion, file).state, EntryToBucket(file.buckets, file.nNew);
    assert NotedFirst(place, file.news, e, t.vvNew, k);
  }

  /** The number of buckets is stored with bit 30 the other way round, so that readers of version 0,
      which take it as it is, find a number out of range. */
  lemma FlipsBit30(x: int)
    ensures var y := FlipBit30(x);
      && FlipBit30(y) == x && (y / 0x4000_0000 % 2 == 1 <==> x / 0x4000_0000 % 2 == 0)
      && y % 0x4000_0000 == x % 0x4000_0000 && y / 0x8000_0000 == x / 0x8000_0000
  {
  }

  /** The buckets of a written file are used exactly under a map of the same version; a reader of the
      layout before it sees more than 2^30 of them. */
  lemma WrittenUsable(s: State, nKey: nat, written: nat, asmapVersion: nat)
    ensures var file := AddrManFile.Serialize(s, nKey, written);
      && StoredBuckets(file) == NEW_BUCKET_COUNT && StoredBuckets(file.(nVersion := 0)) > 0x4000_0000
      && (Usable(file, asmapVersion) <==> written == asmapVersion)
  {
    hide Picked, Records, Buckets;
  }
}
