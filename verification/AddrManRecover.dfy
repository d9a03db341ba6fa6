/** Reading any file whose entries have different addresses, under any key and map of autonomous
    systems: entries may be lost to collisions, but what is left is a consistent manager. */
module AddrManRecover {
  import opened AddrManState
  import opened AddrManLemmas
  import opened AddrManOps
  import opened AddrManFile
  import opened AddrManReload
  import opened AddrManStream
  import opened AddrManRoundTrip

  ghost predicate Occurs(recs: seq<Record>, a: NetAddr) { exists i :: 0 <= i < |recs| && recs[i].service.addr == a }

  /** Only addresses of these records are known. */
  ghost predicate Known(s: State, news: seq<Record>, trieds: seq<Record>) {
    forall a :: a in s.mapAddr ==> Occurs(news, a) || Occurs(trieds, a)
  }

  /** The first n ids are the new entries, the others are tried ones. */
  ghost predicate Split(s: State, n: nat) {
    && n <= s.nIdCount && (forall id :: id in s.mapInfo <==> 0 <= id < s.nIdCount)
    && (forall id | id in s.mapInfo :: s.mapInfo[id].fInTried == (id >= n) && s.mapInfo[id].nRefCount == 0)
  }

  lemma EnterTriedClash(s: State, news: seq<Record>, trieds: seq<Record>, rec: Record)
    requires Prepared(s) && Known(s, news, trieds) && Split(s, |news|)
    requires rec.nLastSuccess > 0 && !Occurs(news, rec.service.addr) && !Occurs(trieds, rec.service.addr)
    ensures var t := EnterTried(s, rec); Prepared(t) && Known(t, news, trieds + [rec]) && Split(t, |news|)
  {
    EnterTriedKnown(s, news, trieds, rec);
    EnterTriedSplit(s, |news|, rec);
    hide Prepared, Known, Split, Occurs;
    if s.place.TriedSlot(rec.service) !in s.vvTried {
      AddressUnknown(s, news, trieds, rec.service.addr);
      EnterTriedPrepared(s, rec);
    }
  }

  lemma AddressUnknown(s: State, news: seq<Record>, trieds: seq<Record>, a: NetAddr)
    requires Known(s, news, trieds) && !Occurs(news, a) && !Occurs(trieds, a)
    ensures a !in s.mapAddr
  {
  }

  lemma EnterTriedSplit(s: State, n: nat, rec: Record)
    requires Split(s, n)
    ensures Split(EnterTried(s, rec), n)
  {
    hide Placement.TriedSlot;
  }

  lemma EnterTriedKnown(s: State, news: seq<Record>, trieds: seq<Record>, rec: Record)
    requires Known(s, news, trieds)
    ensures Known(EnterTried(s, rec), news, trieds + [rec])
  {
    hide Placement.TriedSlot, Occurs;
    var t := EnterTried(s, rec);
    forall a | a in t.mapAddr ensures Occurs(news, a) || Occurs(trieds + [rec], a) { OccursMore(trieds, rec, a); }
  }

  lemma OccursMore(recs: seq<Record>, rec: Record, a: NetAddr)
    ensures Occurs(recs, a) || a == rec.service.addr ==> Occurs(recs + [rec], a)
  {
    if Occurs(recs, a) {
      var i :| 0 <= i < |recs| && recs[i].service.addr == a;
      assert (recs + [rec])[i].service.addr == a;
    } else if a == rec.service.addr {
      assert (recs + [rec])[|recs|].service.addr == a;
    }
  }

  lemma FewerDistinct(news: seq<Record>, trieds: seq<Record>)
    requires trieds != [] && Distinct(news, trieds)
    ensures var before, rec := trieds[..|trieds| - 1], trieds[|trieds| - 1];
      Distinct(news, before) && rec.nLastSuccess > 0 && !Occurs(news, rec.service.addr) && !Occurs(before, rec.service.addr)
  {
  }

  lemma {:induction false} TriedsEnteredClash(s: State, news: seq<Record>, trieds: seq<Record>)
    requires Prepared(s) && Known(s, news, []) && Split(s, |news|) && Distinct(news, trieds)
    ensures var t := EnterTrieds(s, trieds);
      Prepared(t) && Known(t, news, trieds) && Split(t, |news|) && SameCounts(s, t)
  {
    hide Prepared, Known, Split, Distinct, EnterTried;
    if trieds != [] {
      var before, rec := trieds[..|trieds| - 1], trieds[|trieds| - 1];
      FewerDistinct(news, trieds);
      TriedsEnteredClash(s, news, before);
      EnterTriedClash(EnterTrieds(s, before), news, before, rec);
      SameAfterOne(EnterTrieds(s, before), rec);
      assert trieds == before + [rec];
    }
  }

  lemma SameAfterOne(s: State, rec: Record)
    ensures SameCounts(s, EnterTried(s, rec))
  {
  }

  lemma HeldSplit(s: State, news: seq<Record>)
    requires Prepared(s) && Holds(s, news, [])
    ensures Known(s, news, []) && Split(s, |news|)
  {
    forall a | a in s.mapAddr ensures Occurs(news, a) {
      var id := s.mapAddr[a];
      assert id in s.mapInfo;
      assert s.mapInfo[id] == InfoOf(news[id], false, id);
    }
  }

  /** The new entries that may still lack a slot are all of them. */
  lemma SplitPartial(s: State, n: nat)
    requires Prepared(s) && Split(s, n) && s.nNew == n && s.nTried == s.nIdCount - n
    ensures Partial(s, Waiting(0, n), 0)
  {
    SplitIds(s.mapInfo, n, s.nIdCount);
    hide Linked, Tabled, Waiting, Split;
  }

  // ----- placing under any buckets

  /** From the n-th on, the new entries have no slot yet, and those before have at most one. */
  ghost predicate Halfway(s: State, n: nat, total: nat) {
    && (forall id | id in s.mapInfo && !s.mapInfo[id].fInTried :: 0 <= id < total && 0 <= s.mapInfo[id].nRefCount <= if id < n then 1 else 0)
    && (forall id | 0 <= id < total :: id in s.mapInfo && !s.mapInfo[id].fInTried)
  }

  lemma MoreLimbo(s: State, id: int, limbo: set<int>)
    requires Partial(s, limbo - {id}, 0)
    ensures Partial(s, limbo, 0)
  {
    hide Linked, Tabled, News, Trieds;
  }

  lemma PlaceHalfway(s: State, n: nat, total: nat, bucket: nat, use: bool)
    requires n < total && Partial(s, Waiting(0, total), 0) && Halfway(s, n, total) && (use ==> bucket < NEW_BUCKET_COUNT)
    ensures var t := PlaceEntry(s, n, bucket, use);
      Partial(t, Waiting(0, total), 0) && Halfway(t, n + 1, total) && t.nIdCount == s.nIdCount
  {
    hide Partial, Waiting;
    var t := PlaceEntry(s, n, bucket, use);
    if t != s {
      var sl := PlacedWhere(s, n, bucket, use);
      PutNewKeeps(s, sl, n, Waiting(0, total), 0);
      MoreLimbo(t, n, Waiting(0, total));
    }
  }

  lemma PlacedWhere(s: State, n: int, bucket: nat, use: bool) returns (sl: Slot)
    requires n in s.mapInfo && (use ==> bucket < NEW_BUCKET_COUNT) && PlaceEntry(s, n, bucket, use) != s
    ensures PlaceEntry(s, n, bucket, use) == PutNew(s, sl, n, s.mapInfo[n].nRefCount + 1) && sl !in s.vvNew
    ensures sl.bucket < NEW_BUCKET_COUNT && sl == s.place.NewSlot(s.mapInfo[n].service, sl.bucket)
  {
    hide PutNew;
    var info := s.mapInfo[n];
    sl := s.place.NewSlot(info.service, bucket);
    if !(use && sl !in s.vvNew && info.nRefCount < NEW_BUCKETS_PER_ADDRESS) {
      sl := s.place.SourceSlot(info.service, info.source);
    }
  }

  lemma {:induction false} PlacedHalfway(s: State, e: map<int, nat>, use: bool, n: nat, total: nat)
    requires n <= total && Partial(s, Waiting(0, total), 0) && Halfway(s, 0, total) && (use ==> Below(e, NEW_BUCKET_COUNT))
    ensures var t := PlaceEntries(s, e, use, n);
      Partial(t, Waiting(0, total), 0) && Halfway(t, n, total) && t.nIdCount == s.nIdCount
  {
    hide Partial, Waiting, Halfway, PlaceEntry;
    if n > 0 {
      PlacedHalfway(s, e, use, n - 1, total);
      if use && n - 1 in e { BelowAt(e, NEW_BUCKET_COUNT, n - 1); }
      PlaceHalfway(PlaceEntries(s, e, use, n - 1), n - 1, total, BucketOf(e, n - 1), use);
    }
  }

  // ----- pruning

  /** The new entries below n have their slot. */
  ghost predicate PrunedTo(s: State, n: nat) {
    forall id | id in s.mapInfo && !s.mapInfo[id].fInTried :: (if 0 <= id < n then 1 else 0) <= s.mapInfo[id].nRefCount <= 1
  }

  lemma PruneStep(s: State, limbo: set<int>, n: nat)
    requires Partial(s, limbo, 0) && PrunedTo(s, n)
    ensures var t := PruneOne(s, n); Partial(t, limbo, 0) && PrunedTo(t, n + 1) && t.nIdCount == s.nIdCount
  {
    hide Partial, AddrManState.Delete;
    if n in s.mapInfo && !s.mapInfo[n].fInTried && s.mapInfo[n].nRefCount == 0 {
      DeleteKeeps(s, n, limbo, 0);
    }
  }

  lemma {:induction false} PrunedAll(s: State, limbo: set<int>, n: nat)
    requires Partial(s, limbo, 0) && PrunedTo(s, 0)
    ensures var t := Prune(s, n); Partial(t, limbo, 0) && PrunedTo(t, n) && t.nIdCount == s.nIdCount
  {
    hide Partial, PrunedTo, PruneOne;
    if n > 0 {
      PrunedAll(s, limbo, n - 1);
      PruneStep(Prune(s, n - 1), limbo, n - 1);
    }
  }

  lemma NobodyWaits(s: State, limbo: set<int>)
    requires Partial(s, limbo, 0) && PrunedTo(s, NonNegative(s.nIdCount))
    ensures Consistent(s)
  {
    IdsBelow(s, limbo);
    hide Linked, Tabled, News, Trieds;
  }

  lemma IdsBelow(s: State, limbo: set<int>)
    requires Partial(s, limbo, 0)
    ensures s.nIdCount >= 0 && forall id | id in s.mapInfo :: 0 <= id < s.nIdCount
  {
  }

  /** Records with different addresses, entered. */
  lemma EnteredDistinct(place: Placement, file: File)
    requires Distinct(file.news, file.trieds) && file.nNew == |file.news| && file.nTried == |file.trieds|
    ensures var t := Entered(place, file); Partial(t, Waiting(0, |file.news|), 0) && Halfway(t, 0, |file.news|)
  {
    hide EnterNews, EnterTrieds, Partial, Distinct, Prepared, Holds, Known, Split, Enterable, Halfway;
    var news, trieds := file.news, file.trieds;
    var s0 := Cleared(place).(nNew := file.nNew, nTried := file.nTried);
    ClearedPrepared(s0);
    DistinctEnterable(place, news, trieds);
    NewsEntered(s0, news);
    var s1 := EnterNews(s0, news);
    HeldCount(s1, news, []);
    assert s1.(nIdCount := file.nNew) == s1;
    HeldSplit(s1, news);
    TriedsEnteredClash(s1, news, trieds);
    var s2 := EnterTrieds(s1, trieds);
    CountLost(s2, |news|, Entered(place, file).nTried);
  }

  lemma DistinctEnterable(place: Placement, news: seq<Record>, trieds: seq<Record>)
    requires Distinct(news, trieds)
    ensures Enterable(place, news, [])
  {
  }

  lemma CountLost(s: State, n: nat, nTried: int)
    requires Prepared(s) && Split(s, n) && s.nNew == n && nTried == s.nIdCount - n
    ensures Partial(s.(nTried := nTried), Waiting(0, n), 0) && Halfway(s.(nTried := nTried), 0, n)
  {
    SplitPartial(s.(nTried := nTried), n);
    hide Partial, Waiting;
  }

  /** Whatever the key, the buckets and the map in use: a file whose counts are not negative and
      whose entries have different addresses and sound stamps is read into a consistent manager. */
  lemma ReadConsistent(place: Placement, asmapVersion: nat, file: File)
    requires Load(place, asmapVersion, file).Loaded? && file.nNew >= 0 && file.nTried >= 0 && Distinct(file.news, file.trieds)
    ensures Consistent(Load(place, asmapVersion, file).state)
  {
    hide Partial, Waiting, Halfway, Entered, EntryToBucket, PlaceEntries, Prune, Distinct, Below, PrunedTo;
    var e := EntryToBucket(file.buckets, file.nNew);
    var use := file.nVersion == 2 && StoredBuckets(file) == NEW_BUCKET_COUNT && file.asmapVersion == asmapVersion;
    var n := |file.news|;
    BucketsBelow(file.buckets, file.nNew);
    EnteredDistinct(place, file);
    PlacedHalfway(Entered(place, file), e, use, n, n);
    var t := PlaceEntries(Entered(place, file), e, use, n);
    HalfwayPruned(t, n);
    PrunedAll(t, Waiting(0, n), NonNegative(t.nIdCount));
    NobodyWaits(Prune(t, NonNegative(t.nIdCount)), Waiting(0, n));
  }

  lemma HalfwayPruned(s: State, n: nat)
    requires Halfway(s, n, n)
    ensures PrunedTo(s, 0)
  {
  }

  // ----- what is lost, is lost to a collision

  /** A manager that was written may be read under any other placement, as after a change of the
      map of autonomous systems, and is consistent again. */
  lemma RebucketKeeps(s: State, nKey: nat, asmapVersion: nat, place: Placement, newVersion: nat)
    requires Consistent(s)
    ensures var r := Load(place, newVersion, AddrManFile.Serialize(s, nKey, asmapVersion)); r.Loaded? && Consistent(r.state)
  {
    SerializeIsFile(s, nKey, asmapVersion);
    WrittenRecords(s);
    IdCount(s);
    hide Consistent, AddrManFile.Serialize, Picked, Records, Enterable;
    var file := AddrManFile.Serialize(s, nKey, asmapVersion);
    EnterableDistinct(s.place, file.news, file.trieds);
    ReadConsistent(place, newVersion, file);
  }

  lemma EnterableDistinct(place: Placement, news: seq<Record>, trieds: seq<Record>)
    requires Enterable(place, news, trieds)
    ensures Distinct(news, trieds)
  {
  }

  lemma {:induction false} SlotTaken(s: State, trieds: seq<Record>, j: nat)
    requires j < |trieds| && s.nIdCount >= 0
    ensures var t := EnterTrieds(s, trieds);
      t.nIdCount >= 0 && t.place == s.place && s.place.TriedSlot(trieds[j].service) in t.vvTried
  {
    hide Placement.TriedSlot;
    var n := |trieds| - 1;
    TriedsCounted(s, trieds[..n]);
    if j < n { SlotTaken(s, trieds[..n], j); }
  }

  /** The entry in a tried slot is the i-th record, and no earlier one has that slot. */
  ghost predicate FirstThere(t: State, trieds: seq<Record>, sl: Slot, i: nat)
    requires i < |trieds|
  {
    && sl in t.vvTried && t.vvTried[sl] in t.mapInfo && t.vvTried[sl] < t.nIdCount
    && t.mapInfo[t.vvTried[sl]].fInTried && RecordOf(t.mapInfo[t.vvTried[sl]]) == trieds[i]
    && t.place.TriedSlot(trieds[i].service) == sl
    && forall k | 0 <= k < i :: t.place.TriedSlot(trieds[k].service) != sl
  }

  lemma {:induction false} OccupantIsFirst(s: State, trieds: seq<Record>, sl: Slot) returns (i: nat)
    requires s.vvTried == map[] && s.nIdCount >= 0 && sl in EnterTrieds(s, trieds).vvTried
    ensures i < |trieds| && FirstThere(EnterTrieds(s, trieds), trieds, sl, i)
  {
    hide Placement.TriedSlot;
    var n := |trieds| - 1;
    var before, rec := trieds[..n], trieds[n];
    var t0 := EnterTrieds(s, before);
    TriedsCounted(s, before);
    if sl in t0.vvTried {
      i := OccupantIsFirst(s, before, sl);
      FirstStays(t0, before, rec, sl, i);
      assert trieds == before + [rec];
    } else {
      i := n;
      forall k | 0 <= k < n ensures s.place.TriedSlot(trieds[k].service) != sl { SlotTaken(s, before, k); }
    }
  }

  lemma FirstStays(t: State, trieds: seq<Record>, rec: Record, sl: Slot, i: nat)
    requires i < |trieds| && FirstThere(t, trieds, sl, i) && t.nIdCount >= 0
    ensures FirstThere(EnterTried(t, rec), trieds + [rec], sl, i)
  {
    hide Placement.TriedSlot;
  }

  /** The slot of every tried record is held by the first record that has it: a tried record is lost
      exactly to an earlier one with the same slot. */
  lemma TriedSlotsTaken(s: State, trieds: seq<Record>, j: nat) returns (i: nat)
    requires j < |trieds| && s.nIdCount >= 0 && s.vvTried == map[]
    ensures i <= j && FirstThere(EnterTrieds(s, trieds), trieds, s.place.TriedSlot(trieds[j].service), i)
  {
    hide Placement.TriedSlot;
    SlotTaken(s, trieds, j);
    i := OccupantIsFirst(s, trieds, s.place.TriedSlot(trieds[j].service));
  }

  lemma {:induction false} TriedsCounted(s: State, trieds: seq<Record>)
    ensures EnterTrieds(s, trieds).nIdCount >= s.nIdCount && EnterTrieds(s, trieds).place == s.place
  {
    if trieds != [] { TriedsCounted(s, trieds[..|trieds| - 1]); }
  }

  lemma PlaceEntryOthers(s: State, n: int, bucket: nat, use: bool, k: int)
    requires k in s.mapInfo
    ensures var t := PlaceEntry(s, n, bucket, use);
      && t.place == s.place && k in t.mapInfo && (k != n ==> t.mapInfo[k] == s.mapInfo[k])
      && t.mapInfo[k] == s.mapInfo[k].(nRefCount := t.mapInfo[k].nRefCount)
      && forall sl | sl in s.vvNew :: sl in t.vvNew
  {
    hide Placement.NewSlot, Placement.SourceSlot;
  }

  lemma PlaceEntryCollides(s: State, n: int, bucket: nat, use: bool)
    requires n in s.mapInfo && s.mapInfo[n].nRefCount == 0
    ensures var t := PlaceEntry(s, n, bucket, use); var i := s.mapInfo[n];
      n in t.mapInfo && (t.mapInfo[n].nRefCount > 0 || s.place.SourceSlot(i.service, i.source) in t.vvNew)
  {
    hide Placement.NewSlot, Placement.SourceSlot;
  }

  lemma {:induction false} PlacedOthers(s: State, e: map<int, nat>, use: bool, n: nat, k: nat)
    requires k in s.mapInfo
    ensures var t := PlaceEntries(s, e, use, n);
      && t.place == s.place && k in t.mapInfo && (k >= n ==> t.mapInfo[k] == s.mapInfo[k])
      && t.mapInfo[k] == s.mapInfo[k].(nRefCount := t.mapInfo[k].nRefCount)
  {
    hide PlaceEntry;
    if n > 0 {
      PlacedOthers(s, e, use, n - 1, k);
      PlaceEntryOthers(PlaceEntries(s, e, use, n - 1), n - 1, BucketOf(e, n - 1), use, k);
    }
  }

  /** A new entry without a slot is one whose slot for its source is taken. */
  lemma {:induction false} UnplacedCollides(s: State, e: map<int, nat>, use: bool, n: nat, k: nat)
    requires k < n && k in s.mapInfo && s.mapInfo[k].nRefCount == 0
    ensures var t := PlaceEntries(s, e, use, n); var i := s.mapInfo[k];
      k in t.mapInfo && (t.mapInfo[k].nRefCount > 0 || s.place.SourceSlot(i.service, i.source) in t.vvNew)
  {
    hide PlaceEntry, Placement.SourceSlot;
    var t := PlaceEntries(s, e, use, n - 1);
    PlacedOthers(s, e, use, n - 1, k);
    if k < n - 1 {
      UnplacedCollides(s, e, use, n - 1, k);
      PlaceEntryOthers(t, n - 1, BucketOf(e, n - 1), use, k);
    } else {
      PlaceEntryCollides(t, k, BucketOf(e, k), use);
    }
  }
}
