/** Writing a manager and reading it back: no entry is lost, every entry is the same under a new
    number, the tried table is the same, and every new entry is in one of the slots it had. */
module AddrManRoundTrip {
  import opened AddrManState
  import opened AddrManLemmas
  import opened AddrManOps
  import opened AddrManFile
  import opened AddrManReload

  /** The id an entry has after it was written and read. */
  ghost function NewId(s: State, id: int): int
    requires id in s.mapInfo && id >= 0
  {
    if s.mapInfo[id].fInTried then s.nNew + Position(s.mapInfo, true, id) else Position(s.mapInfo, false, id)
  }

  /** An entry is there under its new id, with one reference if it is a new one. */
  ghost predicate SameEntry(s: State, t: State, id: int)
    requires id in s.mapInfo && id >= 0
  {
    var k := NewId(s, id);
    && k in t.mapInfo
    && t.mapInfo[k] == s.mapInfo[id].(nLastTry := 0, nRefCount := if s.mapInfo[id].fInTried then 0 else 1,
                                      nRandomPos := t.mapInfo[k].nRandomPos)
  }

  /** The entries of a manager under new ids, with the counters. */
  ghost predicate EntriesKept(s: State, t: State)
    requires forall id | id in s.mapInfo :: id >= 0
  {
    && t.nNew == s.nNew && t.nTried == s.nTried && t.nIdCount == s.nNew + s.nTried
    && (forall id | id in s.mapInfo :: SameEntry(s, t, id))
    && (forall i, j | i in s.mapInfo && j in s.mapInfo && i != j :: NewId(s, i) != NewId(s, j))
    && (forall k | k in t.mapInfo :: exists id :: id in s.mapInfo && NewId(s, id) == k)
  }

  /** The same tried table, and some of the new table's slots with their occupants. */
  ghost predicate TablesKept(s: State, t: State)
    requires forall id | id in s.mapInfo :: id >= 0
  {
    && (forall sl :: sl in t.vvTried <==> sl in s.vvTried)
    && (forall sl | sl in s.vvTried :: s.vvTried[sl] in s.mapInfo && t.vvTried[sl] == NewId(s, s.vvTried[sl]))
    && (forall sl | sl in t.vvNew :: sl in s.vvNew && s.vvNew[sl] in s.mapInfo && t.vvNew[sl] == NewId(s, s.vvNew[sl]))
  }

  /** A manager is another one whose ids were changed by NewId, every new entry keeping one slot. */
  ghost predicate Renumbered(s: State, t: State)
    requires forall id | id in s.mapInfo :: id >= 0
  {
    t.place == s.place && EntriesKept(s, t) && TablesKept(s, t)
  }

  function NewIds(s: State): seq<int> { Picked(s.mapInfo, false, NonNegative(s.nIdCount)) }
  function TriedIds(s: State): seq<int> { Picked(s.mapInfo, true, NonNegative(s.nIdCount)) }

  /** What the file of a consistent manager holds. */
  ghost predicate IsFileOf(s: State, file: File)
    requires forall i | 0 <= i < |NewIds(s)| :: NewIds(s)[i] in s.mapInfo
    requires forall i | 0 <= i < |TriedIds(s)| :: TriedIds(s)[i] in s.mapInfo
  {
    && file.nVersion == 2 && file.nKeySize == 32 && StoredBuckets(file) == NEW_BUCKET_COUNT
    && file.nNew == s.nNew == |NewIds(s)| && file.nTried == s.nTried == |TriedIds(s)|
    && s.nNew <= NEW_BUCKET_COUNT * BUCKET_SIZE && s.nTried <= TRIED_BUCKET_COUNT * BUCKET_SIZE
    && file.news == Records(s.mapInfo, NewIds(s)) && file.trieds == Records(s.mapInfo, TriedIds(s))
    && file.buckets == Buckets(s.mapInfo, s.vvNew, NEW_BUCKET_COUNT) && |file.buckets| == NEW_BUCKET_COUNT
  }

  lemma SerializeIsFile(s: State, nKey: nat, ver: nat)
    requires Consistent(s)
    ensures var file := Serialize(s, nKey, ver); IsFileOf(s, file) && file.asmapVersion == ver
  {
    IdCount(s);
    PickedCounts(s);
    CountsFit(s);
    StoredCount();
    hide Consistent, Picked, Buckets, Records, FlipBit30;
  }

  lemma StoredCount()
    ensures FlipBit30(FlipBit30(NEW_BUCKET_COUNT)) == NEW_BUCKET_COUNT
  {
  }

  /** Records without a clash are all entered. */
  lemma RecordsEntered(place: Placement, file: File)
    requires Enterable(place, file.news, file.trieds)
    requires file.nNew == |file.news| && file.nTried == |file.trieds|
    ensures var t := Entered(place, file);
      && Prepared(t) && Holds(t, file.news, file.trieds) && Partial(t, Waiting(0, |file.news|), 0)
      && t.place == place && t.nNew == file.nNew && t.nTried == file.nTried
  {
    hide EnterNews, EnterTrieds, Partial, Enterable, Prepared, Holds;
    var news, trieds := file.news, file.trieds;
    var s0 := Cleared(place).(nNew := file.nNew, nTried := file.nTried);
    ClearedPrepared(s0);
    NoTrieds(place, news, trieds);
    NewsEntered(s0, news);
    var s1 := EnterNews(s0, news);
    HeldCount(s1, news, []);
    assert s1.(nIdCount := file.nNew) == s1;
    TriedsEntered(s1, news, trieds);
    var s2 := EnterTrieds(s1, trieds);
    HeldCount(s2, news, trieds);
    assert s2.(nTried := s2.nTried) == s2;
    HeldPartial(s2, news, trieds);
  }

  lemma WrittenEntered(s: State, file: File)
    requires Consistent(s) && IsFileOf(s, file)
    ensures var t := Entered(s.place, file);
      && Prepared(t) && Holds(t, file.news, file.trieds) && Partial(t, Waiting(0, |file.news|), 0)
      && t.place == s.place && t.nNew == s.nNew && t.nTried == s.nTried
  {
    IdCount(s);
    WrittenRecords(s);
    hide Consistent, Picked, Records, Partial, Enterable, Prepared, Holds, Entered, Buckets;
    RecordsEntered(s.place, file);
  }

  lemma HeldCount(s: State, news: seq<Record>, trieds: seq<Record>)
    requires Holds(s, news, trieds)
    ensures s.nIdCount == |news| + |trieds|
  {
  }

  lemma NoTrieds(place: Placement, news: seq<Record>, trieds: seq<Record>)
    requires Enterable(place, news, trieds)
    ensures Enterable(place, news, [])
  {
  }

  lemma ClearedPrepared(s: State)
    requires s == Cleared(s.place).(nNew := s.nNew, nTried := s.nTried)
    ensures Prepared(s) && Holds(s, [], [])
  {
  }

  /** The noted buckets name slots that the new entries have. */
  ghost predicate Aimed(s: State, e: map<int, nat>) {
    forall k | 0 <= k < |NewIds(s)| ::
      && k in e && NewIds(s)[k] in s.mapInfo
      && var sl := s.place.NewSlot(s.mapInfo[NewIds(s)[k]].service, e[k]); sl in s.vvNew && s.vvNew[sl] == NewIds(s)[k]
  }

  lemma WrittenAimed(s: State, file: File)
    requires Consistent(s) && IsFileOf(s, file)
    ensures var e := EntryToBucket(file.buckets, file.nNew); Targeted(s.place, file.news, e) && Aimed(s, e)
  {
    IdCount(s);
    WrittenTargets(s);
    hide Consistent, Picked, EntryToBucket, Buckets, Placement.NewSlot;
    var e := EntryToBucket(file.buckets, file.nNew);
    forall k | 0 <= k < |NewIds(s)| ensures k in e
      && var sl := s.place.NewSlot(s.mapInfo[NewIds(s)[k]].service, e[k]); sl in s.vvNew && s.vvNew[sl] == NewIds(s)[k]
    {
      assert Target(s.place, file.news, e, k) in s.vvNew;
    }
  }

  /** The entries placed in the slots that were written. */
  lemma WrittenPlaced(s: State, t: State, file: File)
    requires Consistent(s) && IsFileOf(s, file) && t == Entered(s.place, file)
    ensures var e := EntryToBucket(file.buckets, file.nNew);
      var u := PlaceEntries(t, e, true, |file.news|);
      Aimed(s, e) && Rebuilt(s, file, t, u, e) && Partial(u, {}, 0)
  {
    WrittenEntered(s, file);
    WrittenAimed(s, file);
    hide Consistent, Picked, Aimed, Partial, Entered, EntryToBucket, Buckets, Targeted, PlacedTo, PlaceEntries, Records;
    var e := EntryToBucket(file.buckets, file.nNew);
    AllPlaced(t, file.news, file.trieds, e, |file.news|);
    assert Waiting(|file.news|, |file.news|) == {};
  }

  /** No new entry is left without a slot. */
  lemma WrittenKept(t: State, u: State, news: seq<Record>, trieds: seq<Record>, e: map<int, nat>)
    requires Holds(t, news, trieds) && Targeted(t.place, news, e) && PlacedTo(t, u, news, e, |news|)
    ensures forall id | id in u.mapInfo :: u.mapInfo[id].fInTried || u.mapInfo[id].nRefCount != 0
  {
    forall id | id in u.mapInfo ensures u.mapInfo[id].fInTried || u.mapInfo[id].nRefCount != 0 { HeldRecord(t, news, trieds, id); }
  }

  /** The entries entered (t) and placed (u). */
  ghost predicate Rebuilt(s: State, file: File, t: State, u: State, e: map<int, nat>) {
    && Holds(t, file.news, file.trieds) && t.place == s.place && t.nNew == s.nNew && t.nTried == s.nTried
    && Targeted(t.place, file.news, e) && PlacedTo(t, u, file.news, e, |file.news|)
  }

  /** An entry of the manager read, by the number of its record. */
  lemma RebuiltAt(s: State, file: File, t: State, u: State, e: map<int, nat>, k: int)
    requires Rebuilt(s, file, t, u, e)
    ensures k in u.mapInfo <==> 0 <= k < |file.news| + |file.trieds|
    ensures k in u.mapInfo && k < |file.news| ==> u.mapInfo[k] == InfoOf(file.news[k], false, k).(nRefCount := 1)
    ensures k in u.mapInfo && k >= |file.news| ==> u.mapInfo[k] == InfoOf(file.trieds[k - |file.news|], true, k)
  {
    if k in u.mapInfo { HeldRecord(t, file.news, file.trieds, k); }
  }

  /** An entry is found under its new id. */
  lemma EntryKept(s: State, file: File, t: State, u: State, e: map<int, nat>, id: int)
    requires Consistent(s) && IsFileOf(s, file) && Rebuilt(s, file, t, u, e) && id in s.mapInfo
    ensures id >= 0
    ensures SameEntry(s, u, id)
    ensures var k := NewId(s, id);
      if s.mapInfo[id].fInTried then s.nNew <= k < s.nNew + s.nTried && TriedIds(s)[k - s.nNew] == id
      else 0 <= k < s.nNew && NewIds(s)[k] == id
  {
    PickedCounts(s);
    PickedAt(s.mapInfo, s.mapInfo[id].fInTried, id, s.nIdCount);
    hide Consistent, Picked, Wanted, Rebuilt, Buckets, InfoOf, RecordOf;
    var k := NewId(s, id);
    RebuiltAt(s, file, t, u, e, k);
    InfoReturns(s.mapInfo[id], k);
  }

  /** What is read of an entry's record. */
  lemma InfoReturns(info: Info, pos: int)
    ensures InfoOf(RecordOf(info), info.fInTried, pos) == info.(nLastTry := 0, nRefCount := 0, nRandomPos := pos)
  {
  }

  /** Every id of the manager read is the new id of an entry. */
  lemma NothingElse(s: State, file: File, t: State, u: State, e: map<int, nat>, k: int) returns (id: int)
    requires Consistent(s) && IsFileOf(s, file) && Rebuilt(s, file, t, u, e) && k in u.mapInfo
    ensures id in s.mapInfo && id >= 0 && NewId(s, id) == k
    ensures u.mapInfo[k].service == s.mapInfo[id].service && u.mapInfo[k].fInTried == s.mapInfo[id].fInTried
    ensures 0 <= k < s.nNew ==> id == NewIds(s)[k]
  {
    IdCount(s);
    PickedCounts(s);
    RebuiltAt(s, file, t, u, e, k);
    hide Consistent, Picked, Rebuilt, Buckets;
    if k < s.nNew {
      id := NewIds(s)[k];
      PositionOfPicked(s.mapInfo, false, s.nIdCount, k);
    } else {
      id := TriedIds(s)[k - s.nNew];
      PositionOfPicked(s.mapInfo, true, s.nIdCount, k - s.nNew);
    }
    EntryKept(s, file, t, u, e, id);
  }

  lemma NewIdsApart(s: State, file: File, t: State, u: State, e: map<int, nat>, i: int, j: int)
    requires Consistent(s) && IsFileOf(s, file) && Rebuilt(s, file, t, u, e) && i in s.mapInfo && j in s.mapInfo && i != j
    ensures i >= 0 && j >= 0 && NewId(s, i) != NewId(s, j)
  {
    hide Consistent, Rebuilt, NewId, Picked, Buckets;
    EntryKept(s, file, t, u, e, i);
    EntryKept(s, file, t, u, e, j);
  }

  lemma TriedKept(s: State, file: File, t: State, u: State, e: map<int, nat>, sl: Slot)
    requires Consistent(s) && Consistent(u) && IsFileOf(s, file) && Rebuilt(s, file, t, u, e)
    ensures sl in s.vvTried ==>
      sl in u.vvTried && s.vvTried[sl] in s.mapInfo && s.vvTried[sl] >= 0 && u.vvTried[sl] == NewId(s, s.vvTried[sl])
  {
    hide Consistent, IsFileOf, NewId;
    RebuiltIds(s, file, t, u, e);
    if sl in s.vvTried {
      TriedEntry(s, sl);
      EntryKept(s, file, t, u, e, s.vvTried[sl]);
      TriedPlace(u, NewId(s, s.vvTried[sl]));
    }
  }

  lemma TriedOnlyKept(s: State, file: File, t: State, u: State, e: map<int, nat>, sl: Slot)
    requires Consistent(s) && Consistent(u) && IsFileOf(s, file) && Rebuilt(s, file, t, u, e)
    ensures sl in u.vvTried ==> sl in s.vvTried
  {
    hide Consistent, IsFileOf, NewId;
    RebuiltIds(s, file, t, u, e);
    if sl in u.vvTried {
      TriedEntry(u, sl);
      var id := NothingElse(s, file, t, u, e, u.vvTried[sl]);
      TriedPlace(s, id);
    }
  }

  lemma TriedEntry(s: State, sl: Slot)
    requires Consistent(s) && sl in s.vvTried
    ensures var id := s.vvTried[sl]; id in s.mapInfo && s.mapInfo[id].fInTried && sl == s.place.TriedSlot(s.mapInfo[id].service)
  {
    hide Placement.TriedSlot, Linked, NewTabled, Referenced;
    TriedOccupant(s.place, s.mapInfo, s.vvTried, sl);
  }

  lemma TriedPlace(s: State, id: int)
    requires Consistent(s) && id in s.mapInfo && s.mapInfo[id].fInTried
    ensures var sl := s.place.TriedSlot(s.mapInfo[id].service); sl in s.vvTried && s.vvTried[sl] == id
  {
    hide Placement.TriedSlot, Linked, NewTabled, Referenced;
  }

  lemma NewKept(s: State, file: File, t: State, u: State, e: map<int, nat>, sl: Slot)
    requires Consistent(s) && IsFileOf(s, file) && Rebuilt(s, file, t, u, e) && Aimed(s, e) && sl in u.vvNew
    ensures sl in s.vvNew && s.vvNew[sl] in s.mapInfo && s.vvNew[sl] >= 0 && u.vvNew[sl] == NewId(s, s.vvNew[sl])
  {
    hide Consistent, NewId, Aimed, Picked, Buckets;
    var k := u.vvNew[sl];
    RebuiltSlot(s, file, t, u, e, sl);
    var id := NothingElse(s, file, t, u, e, k);
    AimedAt(s, e, k);
  }

  lemma AimedAt(s: State, e: map<int, nat>, k: int)
    requires Aimed(s, e) && 0 <= k < |NewIds(s)|
    ensures k in e && NewIds(s)[k] in s.mapInfo
    ensures var sl := s.place.NewSlot(s.mapInfo[NewIds(s)[k]].service, e[k]); sl in s.vvNew && s.vvNew[sl] == NewIds(s)[k]
  {
  }

  lemma RebuiltSlot(s: State, file: File, t: State, u: State, e: map<int, nat>, sl: Slot)
    requires Rebuilt(s, file, t, u, e) && sl in u.vvNew
    ensures var k := u.vvNew[sl]; 0 <= k < |file.news| && k in u.mapInfo && k in e && sl == s.place.NewSlot(file.news[k].service, e[k])
  {
  }

  lemma RebuiltIds(s: State, file: File, t: State, u: State, e: map<int, nat>)
    requires Rebuilt(s, file, t, u, e)
    ensures u.place == s.place && u.nNew == s.nNew && u.nTried == s.nTried && u.nIdCount == |file.news| + |file.trieds|
  {
  }

  /** Nothing is pruned. */
  lemma RebuiltUnpruned(s: State, file: File, t: State, u: State, e: map<int, nat>, n: nat)
    requires Rebuilt(s, file, t, u, e)
    ensures Prune(u, n) == u
  {
    hide Holds, PlacedTo, Targeted;
    WrittenKept(t, u, file.news, file.trieds, e);
    NothingPruned(u, n);
  }

  /** A file that fits is not refused. */
  lemma FileRead(place: Placement, file: File)
    requires file.nVersion == 2 && file.nKeySize == 32 && StoredBuckets(file) == NEW_BUCKET_COUNT == |file.buckets|
    requires file.nNew == |file.news| <= NEW_BUCKET_COUNT * BUCKET_SIZE && file.nTried == |file.trieds| <= TRIED_BUCKET_COUNT * BUCKET_SIZE
    ensures var u := PlaceEntries(Entered(place, file), EntryToBucket(file.buckets, file.nNew), true, |file.news|);
      Load(place, file.asmapVersion, file) == Loaded(Prune(u, NonNegative(u.nIdCount)))
  {
    hide Entered, EntryToBucket, PlaceEntries, Prune, Buckets, StoredBuckets, Picked;
  }

  /** What is read is the entries entered and placed: nothing is refused, lost or pruned. */
  lemma LoadsAs(s: State, file: File) returns (t: State, u: State, e: map<int, nat>)
    requires Consistent(s) && IsFileOf(s, file)
    ensures Load(s.place, file.asmapVersion, file) == Loaded(u) && Consistent(u) && Rebuilt(s, file, t, u, e) && Aimed(s, e)
  {
    FileRead(s.place, file);
    hide Partial, Picked, Aimed, Entered, EntryToBucket, PlaceEntries, Prune, IsFileOf, Load, Rebuilt;
    t := Entered(s.place, file);
    e := EntryToBucket(file.buckets, file.nNew);
    u := PlaceEntries(t, e, true, |file.news|);
    WrittenPlaced(s, t, file);
    RebuiltUnpruned(s, file, t, u, e, NonNegative(u.nIdCount));
  }

  /** Reading back what was written loses no entry and keeps every place. */
  lemma ReloadKeeps(s: State, nKey: nat, ver: nat)
    requires Consistent(s)
    ensures forall id | id in s.mapInfo :: id >= 0
    ensures var r := Load(s.place, ver, Serialize(s, nKey, ver));
      r.Loaded? && Consistent(r.state) && Renumbered(s, r.state)
  {
    forall id | id in s.mapInfo ensures id >= 0 {}
    SerializeIsFile(s, nKey, ver);
    hide Consistent, Rebuilt, NewId, Load, Serialize, Aimed;
    var file := Serialize(s, nKey, ver);
    var t, u, e := LoadsAs(s, file);
    RebuiltIds(s, file, t, u, e);
    RebuiltEntries(s, file, t, u, e);
    RebuiltTables(s, file, t, u, e);
  }

  lemma RebuiltEntries(s: State, file: File, t: State, u: State, e: map<int, nat>)
    requires Consistent(s) && IsFileOf(s, file) && Rebuilt(s, file, t, u, e)
    requires forall id | id in s.mapInfo :: id >= 0
    ensures EntriesKept(s, u)
  {
    RebuiltIds(s, file, t, u, e);
    assert u.nIdCount == s.nNew + s.nTried;
    hide Consistent, Rebuilt, NewId, IsFileOf, SameEntry;
    forall id | id in s.mapInfo ensures SameEntry(s, u, id) { EntryKept(s, file, t, u, e, id); }
    forall i, j | i in s.mapInfo && j in s.mapInfo && i != j ensures NewId(s, i) != NewId(s, j) { NewIdsApart(s, file, t, u, e, i, j); }
    forall k | k in u.mapInfo ensures exists id :: id in s.mapInfo && NewId(s, id) == k {
      var id := NothingElse(s, file, t, u, e, k);
    }
  }

  lemma RebuiltTables(s: State, file: File, t: State, u: State, e: map<int, nat>)
    requires Consistent(s) && Consistent(u) && IsFileOf(s, file) && Rebuilt(s, file, t, u, e) && Aimed(s, e)
    requires forall id | id in s.mapInfo :: id >= 0
    ensures TablesKept(s, u)
  {
    hide Consistent, Rebuilt, NewId, Aimed, IsFileOf;
    forall sl ensures sl in u.vvTried <==> sl in s.vvTried {
      TriedKept(s, file, t, u, e, sl);
      TriedOnlyKept(s, file, t, u, e, sl);
    }
    forall sl | sl in s.vvTried ensures s.vvTried[sl] in s.mapInfo && u.vvTried[sl] == NewId(s, s.vvTried[sl]) {
      TriedKept(s, file, t, u, e, sl);
    }
    forall sl | sl in u.vvNew { NewKept(s, file, t, u, e, sl); }
  }
}
