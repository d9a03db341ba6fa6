/** Writing a manager to a stream and reading it back, as loops over its fields. */
module AddrManStream {
  import opened AddrManState
  import opened AddrManLemmas
  import opened AddrManOps
  import opened AddrMan
  import opened AddrManFile
  import opened AddrManReload

  // ----- writing

  lemma PickedStep(m: map<int, Info>, tried: bool, i: nat, n: nat)
    requires i < n && Wanted(m, tried, i)
    ensures |Picked(m, tried, i)| < |Picked(m, tried, n)|
  {
    PickedPrefix(m, tried, i + 1, n);
  }

  lemma RecordsMore(m: map<int, Info>, tried: bool, id: nat)
    ensures Records(m, Picked(m, tried, id + 1))
            == Records(m, Picked(m, tried, id)) + if Wanted(m, tried, id) then [RecordOf(m[id])] else []
  {
    hide Wanted;
    assert Picked(m, tried, id + 1) == Picked(m, tried, id) + if Wanted(m, tried, id) then [id] else [];
  }

  /** The records of the new entries, and the number of every entry among them. */
  method WriteNews(m: map<int, Info>, nIdCount: nat, nNew: int) returns (news: seq<Record>, mapUnkIds: map<int, int>)
    requires nNew == |Picked(m, false, nIdCount)|
    ensures news == Records(m, Picked(m, false, nIdCount))
    ensures forall id | 0 <= id < nIdCount && id in m :: id in mapUnkIds && mapUnkIds[id] == Position(m, false, id)
  {
    hide Picked, Records;
    news, mapUnkIds := [], map[];
    var nIds := 0;
    RecordsNone(m, false);
    for id := 0 to nIdCount
      invariant nIds == |Picked(m, false, id)| && news == Records(m, Picked(m, false, id))
      invariant forall i | 0 <= i < id && i in m :: i in mapUnkIds && mapUnkIds[i] == Position(m, false, i)
    {
      RecordsMore(m, false, id);
      if id in m {
        mapUnkIds := mapUnkIds[id := nIds];
        var info := m[id];
        if info.nRefCount != 0 {
          PickedStep(m, false, id, nIdCount);
          assert nIds != nNew;
          news := news + [RecordOf(info)];
          nIds := nIds + 1;
        }
      }
    }
  }

  lemma RecordsNone(m: map<int, Info>, tried: bool)
    ensures Picked(m, tried, 0) == [] && Records(m, Picked(m, tried, 0)) == []
  {
  }

  method WriteTrieds(m: map<int, Info>, nIdCount: nat, nTried: int) returns (trieds: seq<Record>)
    requires nTried == |Picked(m, true, nIdCount)|
    ensures trieds == Records(m, Picked(m, true, nIdCount))
  {
    hide Picked, Records;
    trieds := [];
    var nIds := 0;
    RecordsNone(m, true);
    for id := 0 to nIdCount
      invariant nIds == |Picked(m, true, id)| && trieds == Records(m, Picked(m, true, id))
    {
      RecordsMore(m, true, id);
      if id in m && m[id].fInTried {
        PickedStep(m, true, id, nIdCount);
        assert nIds != nTried;
        trieds := trieds + [RecordOf(m[id])];
        nIds := nIds + 1;
      }
    }
  }

  /** The numbers of the entries in one bucket, and how many they are. */
  method WriteBucket(man: Manager, bucket: nat, mapUnkIds: map<int, int>) returns (nSize: nat, indexes: seq<int>)
    requires man.Shape() && Consistent(man.Contents()) && bucket < NEW_BUCKET_COUNT
    requires forall id | id in man.mapInfo :: id >= 0 && id in mapUnkIds && mapUnkIds[id] == Position(man.mapInfo, false, id)
    ensures indexes == Indexes(man.mapInfo, TableOf(man.vvNew), bucket, BUCKET_SIZE) && nSize == |indexes|
  {
    hide Consistent, PlacementOf, TableOf, Position;
    ghost var t := TableOf(man.vvNew);
    nSize := 0;
    for i := 0 to BUCKET_SIZE
      invariant nSize == |Indexes(man.mapInfo, t, bucket, i)|
    {
      CellRead(man.vvNew, bucket, i);
      if man.vvNew[bucket, i] != -1 {
        OccupantPicked(man.Contents(), Slot(bucket, i));
        nSize := nSize + 1;
      }
    }
    indexes := [];
    for i := 0 to BUCKET_SIZE
      invariant indexes == Indexes(man.mapInfo, t, bucket, i)
    {
      CellRead(man.vvNew, bucket, i);
      if man.vvNew[bucket, i] != -1 {
        OccupantPicked(man.Contents(), Slot(bucket, i));
        var nIndex := mapUnkIds[man.vvNew[bucket, i]];
        indexes := indexes + [nIndex];
      }
    }
  }

  method WriteBuckets(man: Manager, mapUnkIds: map<int, int>) returns (buckets: seq<seq<int>>)
    requires man.Shape() && Consistent(man.Contents())
    requires forall id | id in man.mapInfo :: id >= 0 && id in mapUnkIds && mapUnkIds[id] == Position(man.mapInfo, false, id)
    ensures buckets == Buckets(man.mapInfo, TableOf(man.vvNew), NEW_BUCKET_COUNT)
  {
    hide Consistent, PlacementOf, TableOf, Indexes, Position;
    buckets := [];
    for bucket := 0 to NEW_BUCKET_COUNT
      invariant buckets == Buckets(man.mapInfo, TableOf(man.vvNew), bucket)
    {
      var nSize, indexes := WriteBucket(man, bucket, mapUnkIds);
      buckets := buckets + [indexes];
    }
  }

  /** The ids and counts that the loops over mapInfo rely on. */
  lemma IdsInside(s: State)
    requires Consistent(s)
    ensures s.nIdCount >= 0 && s.nNew == |Picked(s.mapInfo, false, s.nIdCount)| && s.nTried == |Picked(s.mapInfo, true, s.nIdCount)|
    ensures forall id | id in s.mapInfo :: 0 <= id < s.nIdCount
  {
    IdCount(s);
    PickedCounts(s);
  }

  method Serialize(man: Manager, serializeHash: seq<bool> -> nat) returns (file: File)
    requires man.Shape() && Consistent(man.Contents())
    ensures file == AddrManFile.Serialize(man.Contents(), man.nKey, AsmapVersion(serializeHash, man.m_asmap))
  {
    hide Consistent, PlacementOf, TableOf, Picked, Records, Position, Buckets;
    IdsInside(man.Contents());
    var news, mapUnkIds := WriteNews(man.mapInfo, man.nIdCount, man.nNew);
    var trieds := WriteTrieds(man.mapInfo, man.nIdCount, man.nTried);
    var buckets := WriteBuckets(man, mapUnkIds);
    file := File(2, 32, man.nKey, man.nNew, man.nTried, FlipBit30(NEW_BUCKET_COUNT), news, trieds, buckets,
                 AsmapVersion(serializeHash, man.m_asmap));
  }

  // ----- reading

  /** What the entering of records keeps, whatever the records are. */
  ghost predicate Numbered(s: State) {
    RandomLinked(s.mapInfo, s.vRandom) && forall id | id in s.mapInfo :: id < s.nIdCount
  }

  lemma EnterNumbered(s: State, rec: Record, tried: bool)
    requires Numbered(s)
    ensures Numbered(Enter(s, rec, tried))
  {
    var t := Enter(s, rec, tried);
    assert s.nIdCount !in s.mapInfo;
    forall i | 0 <= i < |t.vRandom| ensures var id := t.vRandom[i]; id in t.mapInfo && t.mapInfo[id].nRandomPos == i {}
  }

  lemma {:induction false} EnterNewsNumbered(s: State, recs: seq<Record>)
    requires Numbered(s)
    ensures var t := EnterNews(s, recs);
      && Numbered(t) && t.nIdCount == s.nIdCount + |recs| && forall n | s.nIdCount <= n < t.nIdCount :: n in t.mapInfo
  {
    hide Numbered;
    if recs != [] {
      EnterNewsNumbered(s, recs[..|recs| - 1]);
      EnterNumbered(EnterNews(s, recs[..|recs| - 1]), recs[|recs| - 1], false);
    }
  }

  lemma {:induction false} EnterTriedsNumbered(s: State, recs: seq<Record>)
    requires Numbered(s)
    ensures var t := EnterTrieds(s, recs); Numbered(t) && forall n | n in s.mapInfo :: n in t.mapInfo
  {
    hide Numbered, Placement.TriedSlot;
    if recs != [] {
      EnterTriedsNumbered(s, recs[..|recs| - 1]);
      EnterNumbered(EnterTrieds(s, recs[..|recs| - 1]), recs[|recs| - 1], true);
      TableIrrelevant(Enter(EnterTrieds(s, recs[..|recs| - 1]), recs[|recs| - 1], true));
    }
  }

  lemma TableIrrelevant(s: State)
    requires Numbered(s)
    ensures forall t :: Numbered(s.(vvTried := t))
  {
  }

  /** The first loop of Unserialize. */
  method ReadNews(man: Manager, recs: seq<Record>, nNew: int)
    requires man.Shape() && |recs| == NonNegative(nNew) && man.nIdCount == 0
    modifies man`mapInfo, man`mapAddr, man`vRandom, man`nIdCount
    ensures man.Contents() == EnterNews(old(man.Contents()), recs).(nIdCount := nNew)
  {
    hide PlacementOf, TableOf;
    ghost var s := man.Contents();
    assert recs[..0] == [];
    for n := 0 to NonNegative(nNew)
      invariant man.Contents() == EnterNews(s, recs[..n]).(nIdCount := 0)
      invariant EnterNews(s, recs[..n]).nIdCount == n
    {
      var info := InfoOf(recs[n], false, |man.vRandom|);
      man.mapInfo := man.mapInfo[n := info];
      man.mapAddr := man.mapAddr[info.service.addr := n];
      man.vRandom := man.vRandom + [n];
      assert recs[..n + 1][..n] == recs[..n];
    }
    assert recs[..|recs|] == recs;
    man.nIdCount := nNew;
  }

  /** Enter one tried record, unless its slot is taken. */
  method ReadTried(man: Manager, rec: Record) returns (lost: bool)
    requires man.Shape()
    modifies man`mapInfo, man`mapAddr, man`vRandom, man`nIdCount, man.vvTried
    ensures man.Contents() == EnterTried(old(man.Contents()), rec)
    ensures man.nIdCount == old(man.nIdCount) + if lost then 0 else 1
  {
    hide PlacementOf, TableOf;
    var info := InfoOf(rec, true, |man.vRandom|);
    var nKBucket := man.TriedBucket(info.service);
    var nKBucketPos := man.TriedPos(info.service, nKBucket);
    CellRead(man.vvTried, nKBucket, nKBucketPos);
    lost := man.vvTried[nKBucket, nKBucketPos] != -1;
    if !lost {
      man.vRandom := man.vRandom + [man.nIdCount];
      man.mapInfo := man.mapInfo[man.nIdCount := info];
      man.mapAddr := man.mapAddr[info.service.addr := man.nIdCount];
      man.SetTried(nKBucket, nKBucketPos, man.nIdCount);
      man.nIdCount := man.nIdCount + 1;
    }
  }

  /** The second loop. */
  method ReadTrieds(man: Manager, recs: seq<Record>)
    requires man.Shape()
    modifies man`mapInfo, man`mapAddr, man`vRandom, man`nIdCount, man`nTried, man.vvTried
    ensures var t := EnterTrieds(old(man.Contents()), recs);
      man.Contents() == t.(nTried := t.nTried - (|recs| - (t.nIdCount - old(man.nIdCount))))
  {
    hide PlacementOf, TableOf, EnterTried;
    ghost var s := man.Contents();
    var nLost := 0;
    assert recs[..0] == [];
    for n := 0 to |recs|
      modifies man`mapInfo, man`mapAddr, man`vRandom, man`nIdCount, man.vvTried
      invariant man.Contents() == EnterTrieds(s, recs[..n])
      invariant nLost == n - (man.nIdCount - s.nIdCount)
    {
      var lost := ReadTried(man, recs[n]);
      if lost { nLost := nLost + 1; }
      assert recs[..n + 1][..n] == recs[..n];
    }
    assert recs[..|recs|] == recs;
    man.nTried := man.nTried - nLost;
  }

  /** Note the entries of one bucket. */
  method ReadBucket(entryToBucket: map<int, nat>, indexes: seq<int>, bucket: nat, nNew: int) returns (noted: map<int, nat>)
    ensures noted == NoteIndexes(entryToBucket, indexes, bucket, nNew)
  {
    noted := entryToBucket;
    assert indexes[..0] == [];
    for n := 0 to |indexes|
      invariant noted == NoteIndexes(entryToBucket, indexes[..n], bucket, nNew)
    {
      var nIndex := indexes[n];
      if nIndex >= 0 && nIndex < nNew {
        noted := noted[nIndex := bucket];
      }
      assert indexes[..n + 1][..n] == indexes[..n];
    }
    assert indexes[..|indexes|] == indexes;
  }

  method ReadBuckets(buckets: seq<seq<int>>, nNew: int) returns (entryToBucket: map<int, nat>)
    ensures entryToBucket == EntryToBucket(buckets, nNew)
  {
    hide NoteIndexes;
    entryToBucket := map[];
    assert buckets[..0] == [];
    for bucket := 0 to |buckets|
      invariant entryToBucket == EntryToBucket(buckets[..bucket], nNew)
    {
      entryToBucket := ReadBucket(entryToBucket, buckets[bucket], bucket, nNew);
      assert buckets[..bucket + 1][..bucket] == buckets[..bucket];
    }
    assert buckets[..|buckets|] == buckets;
  }

  /** Every noted bucket is below a bound. */
  ghost predicate Below(e: map<int, nat>, n: nat) { forall k :: k in e ==> BucketOf(e, k) < n }

  lemma {:induction false} NotesBelow(e: map<int, nat>, x: seq<int>, bucket: nat, nNew: int, n: nat)
    requires bucket < n && Below(e, n)
    ensures Below(NoteIndexes(e, x, bucket, nNew), n)
  {
    if x != [] {
      NotesBelow(e, x[..|x| - 1], bucket, nNew, n);
      var e1 := NoteIndexes(e, x[..|x| - 1], bucket, nNew);
      var e2 := e1[x[|x| - 1] := bucket];
      forall k | k in e2 ensures BucketOf(e2, k) < n { if k in e1 { assert BucketOf(e1, k) < n; } }
    }
  }

  lemma BelowMore(e: map<int, nat>, n: nat, k: nat)
    requires Below(e, n) && n <= k
    ensures Below(e, k)
  {
    forall i | i in e ensures BucketOf(e, i) < k { assert BucketOf(e, i) < n; }
  }

  lemma {:induction false} BucketsBelow(buckets: seq<seq<int>>, nNew: int)
    ensures Below(EntryToBucket(buckets, nNew), |buckets|)
  {
    hide NoteIndexes, Below;
    if buckets == [] {
      NoneBelow();
    } else {
      var n := |buckets| - 1;
      BucketsBelow(buckets[..n], nNew);
      BelowMore(EntryToBucket(buckets[..n], nNew), n, |buckets|);
      NotesBelow(EntryToBucket(buckets[..n], nNew), buckets[n], n, nNew, |buckets|);
    }
  }

  lemma NoneBelow()
    ensures Below(map[], 0)
  {
  }

  /** Give one new entry a reference. */
  method PlaceRecord(man: Manager, n: int, bucket: nat, use: bool)
    requires man.Shape() && n in man.mapInfo && n != -1 && (use ==> bucket < NEW_BUCKET_COUNT)
    modifies man`mapInfo, man.vvNew
    ensures man.Contents() == PlaceEntry(old(man.Contents()), n, bucket, use)
  {
    hide PlacementOf, TableOf;
    var info := man.mapInfo[n];
    if use {
      var nUBucketPos := man.NewPos(info.service, bucket);
      CellRead(man.vvNew, bucket, nUBucketPos);
      if man.vvNew[bucket, nUBucketPos] == -1 && info.nRefCount < NEW_BUCKETS_PER_ADDRESS {
        man.SetNew(bucket, nUBucketPos, n);
        man.mapInfo := man.mapInfo[n := info.(nRefCount := info.nRefCount + 1)];
        return;
      }
    }
    var bucket' := man.NewBucket(info.service, info.source);
    var nUBucketPos := man.NewPos(info.service, bucket');
    CellRead(man.vvNew, bucket', nUBucketPos);
    if man.vvNew[bucket', nUBucketPos] == -1 {
      man.SetNew(bucket', nUBucketPos, n);
      man.mapInfo := man.mapInfo[n := info.(nRefCount := info.nRefCount + 1)];
    }
  }

  /** Placing changes reference counts only. */
  lemma {:induction false} PlacedSame(s: State, e: map<int, nat>, use: bool, n: nat)
    requires RandomLinked(s.mapInfo, s.vRandom)
    ensures var t := PlaceEntries(s, e, use, n);
      t.vRandom == s.vRandom && RandomLinked(t.mapInfo, t.vRandom) && forall id :: id in t.mapInfo <==> id in s.mapInfo
  {
    hide Placement.NewSlot, Placement.SourceSlot, RandomLinked;
    if n > 0 {
      PlacedSame(s, e, use, n - 1);
      PlacedOne(PlaceEntries(s, e, use, n - 1), n - 1, BucketOf(e, n - 1), use);
    }
  }

  lemma PlacedOne(s: State, n: int, bucket: nat, use: bool)
    requires RandomLinked(s.mapInfo, s.vRandom)
    ensures var t := PlaceEntry(s, n, bucket, use);
      t.vRandom == s.vRandom && RandomLinked(t.mapInfo, t.vRandom) && forall id :: id in t.mapInfo <==> id in s.mapInfo
  {
    hide Placement.NewSlot, Placement.SourceSlot;
  }

  /** The loop that places the new entries. */
  method PlaceRecords(man: Manager, entryToBucket: map<int, nat>, use: bool, nNew: nat)
    requires man.Shape() && RandomLinked(man.mapInfo, man.vRandom)
    requires (forall n | 0 <= n < nNew :: n in man.mapInfo) && (use ==> Below(entryToBucket, NEW_BUCKET_COUNT))
    modifies man`mapInfo, man.vvNew
    ensures man.Contents() == PlaceEntries(old(man.Contents()), entryToBucket, use, nNew)
  {
    hide PlacementOf, TableOf, PlaceEntry, RandomLinked;
    ghost var s := man.Contents();
    for n := 0 to nNew
      invariant man.Contents() == PlaceEntries(s, entryToBucket, use, n)
    {
      PlacedSame(s, entryToBucket, use, n);
      var bucket := if n in entryToBucket then entryToBucket[n] else 0;
      if use && n in entryToBucket { BelowAt(entryToBucket, NEW_BUCKET_COUNT, n); }
      PlaceRecord(man, n, bucket, use);
    }
  }

  lemma BelowAt(e: map<int, nat>, n: nat, k: int)
    requires Below(e, n) && k in e
    ensures e[k] < n
  {
    assert BucketOf(e, k) < n;
  }

  lemma PruneLinked(s: State, id: int)
    requires RandomLinked(s.mapInfo, s.vRandom)
    ensures RandomLinked(PruneOne(s, id).mapInfo, PruneOne(s, id).vRandom)
  {
    hide AddrManState.SwapRandom;
    if id in s.mapInfo && !s.mapInfo[id].fInTried && s.mapInfo[id].nRefCount == 0 {
      var i := s.mapInfo[id].nRandomPos;
      SwapKeepsRandom(s, i, |s.vRandom| - 1);
      var t := AddrManState.SwapRandom(s, i, |s.vRandom| - 1);
      PopKeeps(t.mapInfo, t.vRandom);
    }
  }

  /** The last loop: delete the new entries that have no slot. */
  method PruneRecords(man: Manager)
    requires man.Shape() && RandomLinked(man.mapInfo, man.vRandom)
    modifies man`mapInfo, man`mapAddr, man`vRandom, man`nNew
    ensures man.Contents() == Prune(old(man.Contents()), NonNegative(man.nIdCount))
  {
    hide PlacementOf, TableOf, RandomLinked, AddrManState.Delete;
    ghost var s := man.Contents();
    for id := 0 to NonNegative(man.nIdCount)
      invariant man.Contents() == Prune(s, id) && RandomLinked(man.mapInfo, man.vRandom)
    {
      PruneLinked(man.Contents(), id);
      if id in man.mapInfo && !man.mapInfo[id].fInTried && man.mapInfo[id].nRefCount == 0 {
        man.Delete(id);
      }
    }
  }

  /** The entries read have their ids, whatever was read. */
  lemma EnteredNumbered(place: Placement, file: File)
    requires |file.news| == NonNegative(file.nNew)
    ensures var t := Entered(place, file);
      RandomLinked(t.mapInfo, t.vRandom) && forall n | 0 <= n < file.nNew :: n in t.mapInfo
  {
    var s0 := Cleared(place).(nNew := file.nNew, nTried := file.nTried);
    EnterNewsNumbered(s0, file.news);
    var s1 := EnterNews(s0, file.news);
    if file.news == [] {
      assert s1.mapInfo == map[] && s1.vRandom == [];
    }
    EnterTriedsNumbered(s1.(nIdCount := file.nNew), file.trieds);
  }

  /** What a refused header leaves behind: an empty manager, with the key and the counts of the file if
      the size of the key was right. */
  function Refused(env: Env, randomKey: nat, asmap: seq<bool>, file: File): State {
    if file.nKeySize != 32 then Cleared(PlacementOf(env, randomKey, asmap))
    else Cleared(PlacementOf(env, file.nKey, asmap)).(nNew := file.nNew, nTried := file.nTried)
  }

  /** The conditions under which the header is refused. */
  predicate BadHeader(file: File) {
    file.nKeySize != 32 || file.nNew > NEW_BUCKET_COUNT * BUCKET_SIZE || file.nTried > TRIED_BUCKET_COUNT * BUCKET_SIZE
  }

  /** Read a manager: true if the stream was accepted. */
  method Unserialize(man: Manager, file: File, serializeHash: seq<bool> -> nat, randomKey: nat) returns (ok: bool)
    requires man.Shape()
    modifies man, man.vvTried, man.vvNew
    ensures man.m_asmap == old(man.m_asmap)
    ensures var r := Load(PlacementOf(man.env, file.nKey, man.m_asmap), AsmapVersion(serializeHash, man.m_asmap), file);
      (ok <==> r.Loaded?) && (ok ==> man.Contents() == r.state && man.nKey == file.nKey)
    ensures BadHeader(file) ==> !ok && man.Contents() == Refused(man.env, randomKey, man.m_asmap, file)
  {
    man.Clear(randomKey);
    hide PlacementOf, TableOf;
    if file.nKeySize != 32 {
      return false;
    }
    man.nKey, man.nNew, man.nTried := file.nKey, file.nNew, file.nTried;
    var nUBuckets := file.nUBuckets;
    if file.nVersion != 0 {
      nUBuckets := FlipBit30(nUBuckets);
    }
    if file.nNew > NEW_BUCKET_COUNT * BUCKET_SIZE || file.nTried > TRIED_BUCKET_COUNT * BUCKET_SIZE {
      return false;
    }
    if |file.news| != NonNegative(file.nNew) || |file.trieds| != NonNegative(file.nTried)
       || |file.buckets| != NonNegative(nUBuckets)
    {
      return false;
    }
    ReadAll(man, file, nUBuckets, AsmapVersion(serializeHash, man.m_asmap));
    return true;
  }

  /** A refused header leaves a manager behind that is consistent only if both counts are zero. */
  lemma RefusedConsistent(env: Env, randomKey: nat, asmap: seq<bool>, file: File)
    ensures Consistent(Refused(env, randomKey, asmap, file)) <==> file.nKeySize != 32 || (file.nNew == 0 && file.nTried == 0)
  {
    hide PlacementOf;
    assert News(map[]) == {} && Trieds(map[]) == {};
  }

  method ReadAll(man: Manager, file: File, nUBuckets: int, asmapVersion: nat)
    requires man.Shape() && man.nKey == file.nKey
    requires man.Contents() == Cleared(man.Contents().place).(nNew := file.nNew, nTried := file.nTried)
    requires |file.news| == NonNegative(file.nNew) && |file.trieds| == NonNegative(file.nTried)
    requires nUBuckets == StoredBuckets(file) && |file.buckets| == NonNegative(nUBuckets)
    modifies man, man.vvTried, man.vvNew
    ensures man.m_asmap == old(man.m_asmap) && man.nKey == file.nKey
    ensures var e := EntryToBucket(file.buckets, file.nNew);
      var use := file.nVersion == 2 && nUBuckets == NEW_BUCKET_COUNT && file.asmapVersion == asmapVersion;
      var s := PlaceEntries(Entered(PlacementOf(man.env, file.nKey, man.m_asmap), file), e, use, NonNegative(file.nNew));
      man.Contents() == Prune(s, NonNegative(s.nIdCount))
  {
    hide PlacementOf, TableOf, EnterNews, EnterTrieds, PlaceEntries, EntryToBucket, Prune, Below, RandomLinked;
    ghost var place := PlacementOf(man.env, file.nKey, man.m_asmap);
    ReadNews(man, file.news, file.nNew);
    ReadTrieds(man, file.trieds);
    assert man.Contents() == Entered(place, file);
    EnteredNumbered(place, file);
    var entryToBucket := ReadBuckets(file.buckets, file.nNew);
    BucketsBelow(file.buckets, file.nNew);
    var use := file.nVersion == 2 && nUBuckets == NEW_BUCKET_COUNT && file.asmapVersion == asmapVersion;
    PlaceRecords(man, entryToBucket, use, NonNegative(file.nNew));
    PlacedSame(Entered(place, file), entryToBucket, use, NonNegative(file.nNew));
    PruneRecords(man);
  }
}
