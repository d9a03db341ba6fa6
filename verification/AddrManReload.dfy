/** What a manager is after it was written and read again under the same placement: no entry is
    lost, the tried table is the same, and every new entry is in one of its slots. */
module AddrManReload {
  import opened AddrManState
  import opened AddrManLemmas
  import opened AddrManOps
  import opened AddrManEffects
  import opened AddrManFile
  import opened Sets

  // ----- the entries that are written

  lemma {:induction false} PickedPrefix(m: map<int, Info>, tried: bool, a: nat, b: nat)
    requires a <= b
    ensures |Picked(m, tried, a)| <= |Picked(m, tried, b)|
    ensures Picked(m, tried, b)[..|Picked(m, tried, a)|] == Picked(m, tried, a)
  {
    if a < b { PickedPrefix(m, tried, a, b - 1); }
  }

  /** An entry's number in the file is its place among the entries written. */
  lemma PickedAt(m: map<int, Info>, tried: bool, id: nat, n: nat)
    requires id < n && Wanted(m, tried, id)
    ensures var k := Position(m, tried, id); k < |Picked(m, tried, n)| && Picked(m, tried, n)[k] == id
  {
    PickedPrefix(m, tried, id + 1, n);
    var p := Picked(m, tried, id + 1);
    assert p[Position(m, tried, id)] == id;
    assert Picked(m, tried, n)[..|p|][Position(m, tried, id)] == id;
  }

  /** The ids of a consistent manager that are wanted, and how many they are. */
  lemma PickedCounts(s: State)
    requires Consistent(s)
    ensures |Picked(s.mapInfo, false, s.nIdCount)| == s.nNew && |Picked(s.mapInfo, true, s.nIdCount)| == s.nTried
    ensures forall id | id in s.mapInfo :: 0 <= id < s.nIdCount && Wanted(s.mapInfo, s.mapInfo[id].fInTried, id)
    ensures forall id | id in s.mapInfo && s.mapInfo[id].fInTried :: !Wanted(s.mapInfo, false, id)
  {
    var m := s.mapInfo;
    forall id | id in m ensures 0 <= id < s.nIdCount && Wanted(m, m[id].fInTried, id) {}
    forall id | id in m && m[id].fInTried ensures !Wanted(m, false, id) { TriedUnreferenced(s.place, m, s.vvNew, id); }
    hide NewTabled, TriedTabled, RandomLinked, Stamped, Referenced, Picked;
    AllPicked(s, false, News(m));
    AllPicked(s, true, Trieds(m));
  }

  lemma TriedUnreferenced(p: Placement, m: map<int, Info>, n: map<Slot, int>, id: int)
    requires NewTabled(p, m, n) && id in m && m[id].fInTried
    ensures m[id].nRefCount == 0
  {
    assert SlotsOf(n, id) == {};
  }

  lemma AllPicked(s: State, tried: bool, ids: set<int>)
    requires s.nIdCount >= 0
    requires forall id :: id in ids <==> 0 <= id < s.nIdCount && Wanted(s.mapInfo, tried, id)
    ensures |Picked(s.mapInfo, tried, s.nIdCount)| == |ids|
  {
    hide Wanted, Picked;
    var v := Picked(s.mapInfo, tried, s.nIdCount);
    forall id | id in ids ensures id in v {
      PickedAt(s.mapInfo, tried, id, s.nIdCount);
      assert v[Position(s.mapInfo, tried, id)] == id;
    }
    DistinctSize(v, ids);
  }

  // ----- entering the records

  /** No address twice, and sound stamps. Tried slots may clash. */
  ghost predicate Distinct(news: seq<Record>, trieds: seq<Record>) {
    && (forall i, j | 0 <= i < j < |news| :: news[i].service.addr != news[j].service.addr)
    && (forall i, j | 0 <= i < j < |trieds| :: trieds[i].service.addr != trieds[j].service.addr)
    && (forall i, j | 0 <= i < |news| && 0 <= j < |trieds| :: news[i].service.addr != trieds[j].service.addr)
    && (forall i | 0 <= i < |news| :: news[i].nLastSuccess >= 0)
    && (forall j | 0 <= j < |trieds| :: trieds[j].nLastSuccess > 0)
  }

  /** Records that may all be entered: no tried slot twice either. */
  ghost predicate Enterable(place: Placement, news: seq<Record>, trieds: seq<Record>) {
    && Distinct(news, trieds)
    && forall i, j | 0 <= i < j < |trieds| :: place.TriedSlot(trieds[i].service) != place.TriedSlot(trieds[j].service)
  }

  /** The manager holds exactly some records under ascending ids. */
  ghost predicate Holds(s: State, news: seq<Record>, trieds: seq<Record>) {
    && |s.vRandom| == s.nIdCount == |news| + |trieds|
    && (forall id :: id in s.mapInfo <==> 0 <= id < s.nIdCount)
    && (forall k | 0 <= k < |news| :: s.mapInfo[k] == InfoOf(news[k], false, k))
    && (forall j | 0 <= j < |trieds| :: s.mapInfo[|news| + j] == InfoOf(trieds[j], true, |news| + j))
  }

  ghost predicate Prepared(s: State) {
    Linked(s) && Tabled(s) && s.vvNew == map[]
  }

  lemma EnterTables(p: Placement, m: map<int, Info>, n: map<Slot, int>, t: map<Slot, int>, id: int, info: Info)
    requires NewTabled(p, m, n) && TriedTabled(p, m, t) && Stamped(m) && id !in m
    requires !info.fInTried && info.nRefCount == 0 && info.nLastTry >= 0 && info.nLastSuccess >= 0
    ensures NewTabled(p, m[id := info], n) && TriedTabled(p, m[id := info], t) && Stamped(m[id := info])
  {
    assert SlotsOf(n, id) == {};
  }

  lemma NextIdFree(s: State)
    requires Linked(s)
    ensures s.nIdCount !in s.mapInfo
  {
  }

  lemma EnterPrepared(s: State, rec: Record)
    requires Prepared(s) && rec.service.addr !in s.mapAddr && rec.nLastSuccess >= 0
    ensures Prepared(Enter(s, rec, false))
  {
    NextIdFree(s);
    hide NewTabled, TriedTabled, AddrLinked, RandomLinked, Stamped, News, Trieds;
    var info := InfoOf(rec, false, |s.vRandom|);
    CreateLinks(s.mapInfo, s.mapAddr, s.nIdCount, s.vRandom, info);
    EnterTables(s.place, s.mapInfo, s.vvNew, s.vvTried, s.nIdCount, info);
  }

  lemma EnterTriedPrepared(s: State, rec: Record)
    requires Prepared(s) && rec.service.addr !in s.mapAddr && rec.nLastSuccess > 0
    requires s.place.TriedSlot(rec.service) !in s.vvTried
    ensures Prepared(EnterTried(s, rec))
  {
    NextIdFree(s);
    EnterPrepared(s, rec);
    MarkPrepared(Enter(s, rec, false), s.nIdCount, s.place.TriedSlot(rec.service));
    EnterMarked(s, rec);
  }

  /** Entering a tried record is entering a new one and moving it to its tried slot. */
  lemma EnterMarked(s: State, rec: Record)
    requires s.place.TriedSlot(rec.service) !in s.vvTried && s.nIdCount >= 0
    ensures var t, id := Enter(s, rec, false), s.nIdCount;
      EnterTried(s, rec) == t.(mapInfo := t.mapInfo[id := t.mapInfo[id].(fInTried := true)],
                               vvTried := t.vvTried[s.place.TriedSlot(rec.service) := id])
  {
    var t, id := Enter(s, rec, false), s.nIdCount;
    assert t.mapInfo[id := t.mapInfo[id].(fInTried := true)] == s.mapInfo[id := InfoOf(rec, true, |s.vRandom|)];
  }

  lemma MarkPrepared(t: State, id: int, sl: Slot)
    requires Prepared(t) && sl !in t.vvTried && id in t.mapInfo && sl == t.place.TriedSlot(t.mapInfo[id].service)
    requires var i := t.mapInfo[id]; !i.fInTried && i.nRefCount == 0 && i.nLastSuccess > 0
    ensures Prepared(t.(mapInfo := t.mapInfo[id := t.mapInfo[id].(fInTried := true)], vvTried := t.vvTried[sl := id]))
  {
    hide NewTabled, TriedTabled, AddrLinked, RandomLinked, Stamped, News, Trieds;
    PutTriedTables(t.place, t.mapInfo, t.vvNew, t.vvTried, sl, id);
    FlagKeepsLinks(t.mapInfo, t.mapAddr, t.nIdCount, t.vRandom, id, true);
  }

  /** The record an id was entered with. */
  lemma HeldRecord(s: State, news: seq<Record>, trieds: seq<Record>, id: int)
    requires Holds(s, news, trieds) && id in s.mapInfo
    ensures 0 <= id < |news| + |trieds|
    ensures s.mapInfo[id] == if id < |news| then InfoOf(news[id], false, id) else InfoOf(trieds[id - |news|], true, id)
  {
    if id >= |news| { assert s.mapInfo[|news| + (id - |news|)] == InfoOf(trieds[id - |news|], true, |news| + (id - |news|)); }
  }

  /** An address that is not among the records is not known yet. */
  lemma AddressFree(s: State, news: seq<Record>, trieds: seq<Record>, a: NetAddr)
    requires Linked(s) && Holds(s, news, trieds)
    requires (forall i | 0 <= i < |news| :: news[i].service.addr != a) && forall j | 0 <= j < |trieds| :: trieds[j].service.addr != a
    ensures a !in s.mapAddr
  {
    if a in s.mapAddr {
      var id := s.mapAddr[a];
      assert id in s.mapInfo;
      HeldRecord(s, news, trieds, id);
    }
  }

  lemma SlotFree(s: State, news: seq<Record>, trieds: seq<Record>, sl: Slot)
    requires Prepared(s) && Holds(s, news, trieds)
    requires forall j | 0 <= j < |trieds| :: s.place.TriedSlot(trieds[j].service) != sl
    ensures sl !in s.vvTried
  {
    if sl in s.vvTried {
      var id := s.vvTried[sl];
      assert id in s.mapInfo;
      HeldRecord(s, news, trieds, id);
    }
  }

  lemma EnterHolds(s: State, news: seq<Record>, rec: Record)
    requires Holds(s, news, [])
    ensures Holds(Enter(s, rec, false), news + [rec], [])
  {
  }

  lemma EnterTriedHolds(s: State, news: seq<Record>, trieds: seq<Record>, rec: Record)
    requires Holds(s, news, trieds) && s.place.TriedSlot(rec.service) !in s.vvTried
    ensures Holds(EnterTried(s, rec), news, trieds + [rec])
  {
    var t := EnterTried(s, rec);
    var trieds' := trieds + [rec];
    forall j | 0 <= j < |trieds'| ensures t.mapInfo[|news| + j] == InfoOf(trieds'[j], true, |news| + j) {
      if j < |trieds| { assert s.mapInfo[|news| + j] == InfoOf(trieds[j], true, |news| + j); }
    }
  }

  ghost predicate SameCounts(s: State, t: State) { t.place == s.place && t.nNew == s.nNew && t.nTried == s.nTried }

  lemma {:induction false} NewsEntered(s: State, news: seq<Record>)
    requires Prepared(s) && Holds(s, [], []) && Enterable(s.place, news, [])
    ensures var t := EnterNews(s, news); Prepared(t) && Holds(t, news, []) && SameCounts(s, t)
  {
    hide Prepared, Holds, Enterable;
    if news != [] {
      var before, rec := news[..|news| - 1], news[|news| - 1];
      FewerNews(s.place, news);
      NewsEntered(s, before);
      var t := EnterNews(s, before);
      PreparedLinked(t);
      AddressFree(t, before, [], rec.service.addr);
      EnterPrepared(t, rec);
      EnterHolds(t, before, rec);
      assert news == before + [rec];
    }
  }

  lemma PreparedLinked(s: State)
    requires Prepared(s)
    ensures Linked(s)
  {
  }

  lemma FewerNews(place: Placement, news: seq<Record>)
    requires news != [] && Enterable(place, news, [])
    ensures var before, rec := news[..|news| - 1], news[|news| - 1];
      && Enterable(place, before, []) && rec.nLastSuccess >= 0
      && forall i | 0 <= i < |before| :: before[i].service.addr != rec.service.addr
  {
  }

  lemma FewerTrieds(place: Placement, news: seq<Record>, trieds: seq<Record>)
    requires trieds != [] && Enterable(place, news, trieds)
    ensures var before, rec := trieds[..|trieds| - 1], trieds[|trieds| - 1];
      && Enterable(place, news, before) && rec.nLastSuccess > 0
      && (forall i | 0 <= i < |news| :: news[i].service.addr != rec.service.addr)
      && (forall j | 0 <= j < |before| ::
            before[j].service.addr != rec.service.addr && place.TriedSlot(before[j].service) != place.TriedSlot(rec.service))
  {
  }

  lemma {:induction false} TriedsEntered(s: State, news: seq<Record>, trieds: seq<Record>)
    requires Prepared(s) && Holds(s, news, []) && Enterable(s.place, news, trieds)
    ensures var t := EnterTrieds(s, trieds); Prepared(t) && Holds(t, news, trieds) && SameCounts(s, t)
  {
    hide Prepared, Holds, Enterable;
    if trieds != [] {
      var before, rec := trieds[..|trieds| - 1], trieds[|trieds| - 1];
      FewerTrieds(s.place, news, trieds);
      TriedsEntered(s, news, before);
      var t := EnterTrieds(s, before);
      PreparedLinked(t);
      AddressFree(t, news, before, rec.service.addr);
      SlotFree(t, news, before, t.place.TriedSlot(rec.service));
      EnterTriedPrepared(t, rec);
      EnterTriedHolds(t, news, before, rec);
      assert trieds == before + [rec];
    }
  }

  // ----- the records of a manager may be entered

  lemma WrittenRecords(s: State)
    requires Consistent(s)
    ensures Enterable(s.place, Records(s.mapInfo, Picked(s.mapInfo, false, s.nIdCount)), Records(s.mapInfo, Picked(s.mapInfo, true, s.nIdCount)))
  {
    PickedKinds(s);
    hide Picked, AddrLinked, TriedTabled, NewTabled, RandomLinked, Stamped, Referenced, Enterable;
    WrittenFrom(s.place, s.mapInfo, s.mapAddr, s.nIdCount, s.vvTried,
                Picked(s.mapInfo, false, s.nIdCount), Picked(s.mapInfo, true, s.nIdCount));
  }

  lemma PickedKinds(s: State)
    requires Consistent(s)
    ensures s.nIdCount >= 0
    ensures var ids := Picked(s.mapInfo, false, s.nIdCount); forall i | 0 <= i < |ids| :: ids[i] in s.mapInfo && !s.mapInfo[ids[i]].fInTried
    ensures var ids := Picked(s.mapInfo, true, s.nIdCount); forall i | 0 <= i < |ids| :: ids[i] in s.mapInfo && s.mapInfo[ids[i]].fInTried
  {
    IdCount(s);
    PickedCounts(s);
    hide Consistent, Picked;
  }

  lemma WrittenFrom(p: Placement, m: map<int, Info>, mapAddr: map<NetAddr, int>, n: int, t: map<Slot, int>, news: seq<int>, trieds: seq<int>)
    requires AddrLinked(m, mapAddr, n) && TriedTabled(p, m, t) && Stamped(m)
    requires forall i | 0 <= i < |news| :: news[i] in m && !m[news[i]].fInTried
    requires forall i | 0 <= i < |trieds| :: trieds[i] in m && m[trieds[i]].fInTried
    requires forall i, j | 0 <= i < j < |news| :: news[i] != news[j]
    requires forall i, j | 0 <= i < j < |trieds| :: trieds[i] != trieds[j]
    ensures Enterable(p, Records(m, news), Records(m, trieds))
  {
    forall x, y | x in m && y in m && x != y ensures m[x].service.addr != m[y].service.addr { OneAddress(m, mapAddr, n, x, y); }
    forall i, j | 0 <= i < j < |trieds| ensures p.TriedSlot(m[trieds[i]].service) != p.TriedSlot(m[trieds[j]].service) {
      OneTriedSlot(p, m, t, trieds[i], trieds[j]);
    }
  }

  lemma OneAddress(m: map<int, Info>, mapAddr: map<NetAddr, int>, n: int, x: int, y: int)
    requires AddrLinked(m, mapAddr, n) && x in m && y in m && x != y
    ensures m[x].service.addr != m[y].service.addr
  {
  }

  lemma OneTriedSlot(p: Placement, m: map<int, Info>, t: map<Slot, int>, x: int, y: int)
    requires TriedTabled(p, m, t) && x in m && y in m && m[x].fInTried && m[y].fInTried && x != y
    ensures p.TriedSlot(m[x].service) != p.TriedSlot(m[y].service)
  {
  }

  // ----- the buckets the new entries were in

  /** Every bucket noted for an entry is one it was in. */
  ghost predicate Noted(p: Placement, m: map<int, Info>, vvNew: map<Slot, int>, ids: seq<int>, e: map<int, nat>) {
    && (forall i | 0 <= i < |ids| :: ids[i] in m)
    && (forall k | k in e :: 0 <= k < |ids| && e[k] < NEW_BUCKET_COUNT
          && var sl := p.NewSlot(m[ids[k]].service, e[k]); sl in vvNew && vvNew[sl] == ids[k])
  }

  /** The numbers written for a bucket stand for entries that are in it. */
  ghost predicate InBucket(p: Placement, m: map<int, Info>, vvNew: map<Slot, int>, ids: seq<int>, bucket: nat, x: seq<int>) {
    forall i | 0 <= i < |x| :: 0 <= x[i] < |ids| && ids[x[i]] in m
      && var sl := p.NewSlot(m[ids[x[i]]].service, bucket); sl in vvNew && vvNew[sl] == ids[x[i]]
  }

  lemma {:induction false} IndexesInBucket(s: State, bucket: nat, n: nat)
    requires Consistent(s) && bucket < NEW_BUCKET_COUNT
    ensures InBucket(s.place, s.mapInfo, s.vvNew, Picked(s.mapInfo, false, s.nIdCount), bucket, Indexes(s.mapInfo, s.vvNew, bucket, n))
  {
    hide Consistent, Picked, Position;
    if n > 0 {
      IndexesInBucket(s, bucket, n - 1);
      var sl := Slot(bucket, n - 1);
      if sl in s.vvNew { OccupantPicked(s, sl); }
    }
  }

  lemma OccupantPicked(s: State, sl: Slot)
    requires Consistent(s) && sl in s.vvNew
    ensures var id := s.vvNew[sl]; var ids := Picked(s.mapInfo, false, s.nIdCount);
      && id in s.mapInfo && 0 <= id < s.nIdCount && Position(s.mapInfo, false, id) < |ids| && ids[Position(s.mapInfo, false, id)] == id
      && sl == s.place.NewSlot(s.mapInfo[id].service, sl.bucket) && sl.bucket < NEW_BUCKET_COUNT
  {
    OccupantIsNew(s.place, s.mapInfo, s.vvNew, sl);
    PickedCounts(s);
    PickedAt(s.mapInfo, false, s.vvNew[sl], s.nIdCount);
  }

  lemma {:induction false} NotesKeep(p: Placement, m: map<int, Info>, vvNew: map<Slot, int>, ids: seq<int>, e: map<int, nat>, x: seq<int>, bucket: nat)
    requires Noted(p, m, vvNew, ids, e) && InBucket(p, m, vvNew, ids, bucket, x) && bucket < NEW_BUCKET_COUNT
    ensures var e' := NoteIndexes(e, x, bucket, |ids|);
      Noted(p, m, vvNew, ids, e') && (forall k | k in e :: k in e') && forall i | 0 <= i < |x| :: x[i] in e'
  {
    hide Placement.NewSlot;
    if x != [] {
      var before, i := x[..|x| - 1], x[|x| - 1];
      assert InBucket(p, m, vvNew, ids, bucket, before);
      NotesKeep(p, m, vvNew, ids, e, before, bucket);
      forall j | 0 <= j < |x| ensures x[j] in NoteIndexes(e, x, bucket, |ids|) { if j < |before| { assert before[j] == x[j]; } }
    }
  }

  /** Everything in the first n buckets is noted. */
  ghost predicate Complete(m: map<int, Info>, vvNew: map<Slot, int>, n: nat, e: map<int, nat>) {
    forall b, i | 0 <= b < n && 0 <= i < |Indexes(m, vvNew, b, BUCKET_SIZE)| :: Indexes(m, vvNew, b, BUCKET_SIZE)[i] in e
  }

  lemma CompleteMore(m: map<int, Info>, vvNew: map<Slot, int>, n: nat, e: map<int, nat>, e': map<int, nat>)
    requires Complete(m, vvNew, n, e) && forall k | k in e :: k in e'
    requires forall i | 0 <= i < |Indexes(m, vvNew, n, BUCKET_SIZE)| :: Indexes(m, vvNew, n, BUCKET_SIZE)[i] in e'
    ensures Complete(m, vvNew, n + 1, e')
  {
    hide Indexes;
    forall b, i | 0 <= b < n + 1 && 0 <= i < |Indexes(m, vvNew, b, BUCKET_SIZE)|
      ensures Indexes(m, vvNew, b, BUCKET_SIZE)[i] in e'
    {
      var k := Indexes(m, vvNew, b, BUCKET_SIZE)[i];
      if b < n { assert k in e; } else { assert k == Indexes(m, vvNew, n, BUCKET_SIZE)[i]; }
    }
  }

  /** The numbers written for the first n buckets stand for entries that are in them. */
  ghost predicate InBuckets(p: Placement, m: map<int, Info>, vvNew: map<Slot, int>, ids: seq<int>, n: nat) {
    forall b | 0 <= b < n :: InBucket(p, m, vvNew, ids, b, Indexes(m, vvNew, b, BUCKET_SIZE))
  }

  /** What is noted is true, and everything in a bucket is noted. */
  lemma {:induction false} BucketsNoted(p: Placement, m: map<int, Info>, vvNew: map<Slot, int>, ids: seq<int>, n: nat)
    requires InBuckets(p, m, vvNew, ids, n) && n <= NEW_BUCKET_COUNT && forall i | 0 <= i < |ids| :: ids[i] in m
    ensures var e := EntryToBucket(Buckets(m, vvNew, n), |ids|); Noted(p, m, vvNew, ids, e) && Complete(m, vvNew, n, e)
  {
    hide Noted, InBucket, Indexes, NoteIndexes, EntryToBucket, Buckets, Complete;
    if n == 0 {
      NothingNoted(p, m, vvNew, ids);
    } else {
      BucketsNoted(p, m, vvNew, ids, n - 1);
      assert InBucket(p, m, vvNew, ids, n - 1, Indexes(m, vvNew, n - 1, BUCKET_SIZE));
      BucketNoted(p, m, vvNew, ids, n - 1);
    }
  }

  /** The notes made of all the buckets of a manager. */
  lemma WrittenNotes(s: State)
    requires Consistent(s)
    ensures s.nIdCount >= 0
    ensures var ids := Picked(s.mapInfo, false, s.nIdCount);
      var e := EntryToBucket(Buckets(s.mapInfo, s.vvNew, NEW_BUCKET_COUNT), |ids|);
      Noted(s.place, s.mapInfo, s.vvNew, ids, e) && Complete(s.mapInfo, s.vvNew, NEW_BUCKET_COUNT, e)
  {
    IdCount(s);
    PickedCounts(s);
    hide Consistent, Picked, Noted, InBucket, Indexes, EntryToBucket, Buckets, Complete;
    forall b | 0 <= b < NEW_BUCKET_COUNT
      ensures InBucket(s.place, s.mapInfo, s.vvNew, Picked(s.mapInfo, false, s.nIdCount), b, Indexes(s.mapInfo, s.vvNew, b, BUCKET_SIZE))
    {
      IndexesInBucket(s, b, BUCKET_SIZE);
    }
    BucketsNoted(s.place, s.mapInfo, s.vvNew, Picked(s.mapInfo, false, s.nIdCount), NEW_BUCKET_COUNT);
  }

  lemma BucketNoted(p: Placement, m: map<int, Info>, vvNew: map<Slot, int>, ids: seq<int>, n: nat)
    requires InBucket(p, m, vvNew, ids, n, Indexes(m, vvNew, n, BUCKET_SIZE)) && n < NEW_BUCKET_COUNT
    requires var e := EntryToBucket(Buckets(m, vvNew, n), |ids|); Noted(p, m, vvNew, ids, e) && Complete(m, vvNew, n, e)
    ensures var e := EntryToBucket(Buckets(m, vvNew, n + 1), |ids|); Noted(p, m, vvNew, ids, e) && Complete(m, vvNew, n + 1, e)
  {
    hide Noted, InBucket, Indexes, NoteIndexes, EntryToBucket, Buckets, Complete;
    var e, x := EntryToBucket(Buckets(m, vvNew, n), |ids|), Indexes(m, vvNew, n, BUCKET_SIZE);
    NotesKeep(p, m, vvNew, ids, e, x, n);
    NextBucket(m, vvNew, n, |ids|);
    CompleteMore(m, vvNew, n, e, NoteIndexes(e, x, n, |ids|));
  }

  lemma NextBucket(m: map<int, Info>, vvNew: map<Slot, int>, n: nat, nNew: int)
    ensures EntryToBucket(Buckets(m, vvNew, n + 1), nNew)
            == NoteIndexes(EntryToBucket(Buckets(m, vvNew, n), nNew), Indexes(m, vvNew, n, BUCKET_SIZE), n, nNew)
  {
    hide Indexes, NoteIndexes;
    var bs := Buckets(m, vvNew, n + 1);
    assert bs[..n] == Buckets(m, vvNew, n) && bs[n] == Indexes(m, vvNew, n, BUCKET_SIZE);
  }

  lemma IdCount(s: State)
    requires Consistent(s)
    ensures s.nIdCount >= 0
  {
  }

  lemma NothingNoted(p: Placement, m: map<int, Info>, vvNew: map<Slot, int>, ids: seq<int>)
    requires forall i | 0 <= i < |ids| :: ids[i] in m
    ensures Noted(p, m, vvNew, ids, EntryToBucket(Buckets(m, vvNew, 0), |ids|))
    ensures Complete(m, vvNew, 0, EntryToBucket(Buckets(m, vvNew, 0), |ids|))
  {
  }

  lemma {:induction false} IndexOfSlot(m: map<int, Info>, vvNew: map<Slot, int>, bucket: nat, pos: nat, n: nat)
    requires pos < n && Slot(bucket, pos) in vvNew && vvNew[Slot(bucket, pos)] >= 0
    ensures Position(m, false, vvNew[Slot(bucket, pos)]) in Indexes(m, vvNew, bucket, n)
  {
    hide Position;
    if pos < n - 1 { IndexOfSlot(m, vvNew, bucket, pos, n - 1); }
  }

  /** Every new entry's number is noted. */
  lemma AllNoted(s: State, id: int)
    requires Consistent(s) && id in s.mapInfo && !s.mapInfo[id].fInTried
    ensures id >= 0
    ensures Position(s.mapInfo, false, id)
      in EntryToBucket(Buckets(s.mapInfo, s.vvNew, NEW_BUCKET_COUNT), |Picked(s.mapInfo, false, s.nIdCount)|)
  {
    PickedCounts(s);
    var sl := SomeSlot(s, id);
    hide Consistent, Picked, Position, Noted, EntryToBucket, Buckets;
    WrittenNotes(s);
    IndexOfSlot(s.mapInfo, s.vvNew, sl.bucket, sl.pos, BUCKET_SIZE);
    var x := Indexes(s.mapInfo, s.vvNew, sl.bucket, BUCKET_SIZE);
    var i :| 0 <= i < |x| && x[i] == Position(s.mapInfo, false, id);
  }

  lemma SomeSlot(s: State, id: int) returns (sl: Slot)
    requires Consistent(s) && id in s.mapInfo && !s.mapInfo[id].fInTried
    ensures sl in s.vvNew && s.vvNew[sl] == id && sl.bucket < NEW_BUCKET_COUNT && sl.pos < BUCKET_SIZE
  {
    assert SlotsOf(s.vvNew, id) != {};
    sl := Choose(SlotsOf(s.vvNew, id));
  }

  // ----- placing the new entries

  /** The slot a new entry is given: the one in its last bucket. */
  function Target(place: Placement, news: seq<Record>, e: map<int, nat>, k: int): Slot
    requires 0 <= k < |news| && k in e
  {
    place.NewSlot(news[k].service, e[k])
  }

  /** Every record has a bucket, and no two of them the same slot. */
  ghost predicate Targeted(place: Placement, news: seq<Record>, e: map<int, nat>) {
    && (forall k | 0 <= k < |news| :: k in e && e[k] < NEW_BUCKET_COUNT)
    && (forall j, k | 0 <= j < k < |news| :: Target(place, news, e, j) != Target(place, news, e, k))
  }

  /** The first n records are in their slots. */
  ghost predicate PlacedTo(s: State, t: State, news: seq<Record>, e: map<int, nat>, n: nat)
    requires n <= |news| && Targeted(s.place, news, e)
  {
    && t == s.(mapInfo := t.mapInfo, vvNew := t.vvNew)
    && (forall id :: id in t.mapInfo <==> id in s.mapInfo)
    && (forall id | id in s.mapInfo :: t.mapInfo[id] == if 0 <= id < n then s.mapInfo[id].(nRefCount := 1) else s.mapInfo[id])
    && (forall sl | sl in t.vvNew :: var k := t.vvNew[sl]; 0 <= k < n && sl == Target(s.place, news, e, k))
    && (forall k | 0 <= k < n :: var sl := Target(s.place, news, e, k); sl in t.vvNew && t.vvNew[sl] == k)
  }

  /** The new entries that have no slot yet. */
  ghost function Waiting(from: nat, n: nat): set<int> {
    if from >= n then {} else Waiting(from, n - 1) + {n - 1}
  }

  lemma {:induction false} WaitingIs(from: nat, n: nat)
    ensures forall id :: id in Waiting(from, n) <==> from <= id < n
    ensures |Waiting(from, n)| == if from < n then n - from else 0
  {
    if from < n { WaitingIs(from, n - 1); }
  }

  lemma PlaceOne(s: State, t: State, news: seq<Record>, trieds: seq<Record>, e: map<int, nat>, n: nat)
    requires n < |news| && Targeted(s.place, news, e) && Holds(s, news, trieds) && PlacedTo(s, t, news, e, n)
    ensures var sl := Target(s.place, news, e, n);
      && n in t.mapInfo && !t.mapInfo[n].fInTried && t.mapInfo[n].nRefCount == 0 && t.mapInfo[n].service == news[n].service
      && sl !in t.vvNew && PlaceEntry(t, n, BucketOf(e, n), true) == PutNew(t, sl, n, 1)
      && PlacedTo(s, PutNew(t, sl, n, 1), news, e, n + 1)
  {
    var sl := Target(s.place, news, e, n);
    HeldRecord(s, news, trieds, n);
    TargetFree(s, t, news, e, n);
    PlacedMore(s, t, news, e, n);
  }

  lemma TargetFree(s: State, t: State, news: seq<Record>, e: map<int, nat>, n: nat)
    requires n < |news| && Targeted(s.place, news, e) && PlacedTo(s, t, news, e, n)
    ensures Target(s.place, news, e, n) !in t.vvNew
  {
    forall k | 0 <= k < n ensures Target(s.place, news, e, k) != Target(s.place, news, e, n) {}
  }

  lemma PlacedMore(s: State, t: State, news: seq<Record>, e: map<int, nat>, n: nat)
    requires n < |news| && Targeted(s.place, news, e) && PlacedTo(s, t, news, e, n) && n in t.mapInfo
    requires Target(s.place, news, e, n) !in t.vvNew
    ensures PlacedTo(s, PutNew(t, Target(s.place, news, e, n), n, 1), news, e, n + 1)
  {
    hide Placement.NewSlot;
  }

  lemma {:induction false} AllPlaced(s: State, news: seq<Record>, trieds: seq<Record>, e: map<int, nat>, n: nat)
    requires n <= |news| && Targeted(s.place, news, e) && Holds(s, news, trieds) && s.vvNew == map[]
    requires Partial(s, Waiting(0, |news|), 0)
    ensures var t := PlaceEntries(s, e, true, n);
      PlacedTo(s, t, news, e, n) && Partial(t, Waiting(n, |news|), 0)
  {
    hide Partial, Holds, PlacedTo, Targeted, PlaceEntry, Waiting;
    if n == 0 {
      NothingPlaced(s, news, e);
    } else {
      AllPlaced(s, news, trieds, e, n - 1);
      PlaceStep(s, PlaceEntries(s, e, true, n - 1), news, trieds, e, n - 1);
    }
  }

  lemma PlaceStep(s: State, t: State, news: seq<Record>, trieds: seq<Record>, e: map<int, nat>, n: nat)
    requires n < |news| && Targeted(s.place, news, e) && Holds(s, news, trieds)
    requires PlacedTo(s, t, news, e, n) && Partial(t, Waiting(n, |news|), 0)
    ensures var t' := PlaceEntry(t, n, BucketOf(e, n), true);
      PlacedTo(s, t', news, e, n + 1) && Partial(t', Waiting(n + 1, |news|), 0)
  {
    hide Partial, Holds, PlacedTo, Targeted, PlaceEntry, PutNew, Target, Waiting;
    PlaceOne(s, t, news, trieds, e, n);
    PlacePartial(s, t, news, e, n);
    WaitingLess(n, |news|);
  }

  lemma WaitingLess(from: nat, n: nat)
    requires from < n
    ensures Waiting(from, n) - {from} == Waiting(from + 1, n)
  {
    WaitingIs(from, n);
    WaitingIs(from + 1, n);
    hide Waiting;
    forall id ensures id in Waiting(from, n) - {from} <==> id in Waiting(from + 1, n) {}
  }

  lemma NothingPlaced(s: State, news: seq<Record>, e: map<int, nat>)
    requires Targeted(s.place, news, e) && s.vvNew == map[]
    ensures PlacedTo(s, s, news, e, 0)
  {
  }

  lemma PlacePartial(s: State, t: State, news: seq<Record>, e: map<int, nat>, n: nat)
    requires n < |news| && Targeted(s.place, news, e) && PlacedTo(s, t, news, e, n)
    requires Partial(t, Waiting(n, |news|), 0)
    requires n in t.mapInfo && !t.mapInfo[n].fInTried && t.mapInfo[n].nRefCount == 0 && t.mapInfo[n].service == news[n].service
    requires Target(s.place, news, e, n) !in t.vvNew
    ensures Partial(PutNew(t, Target(s.place, news, e, n), n, 1), Waiting(n, |news|) - {n}, 0)
  {
    hide Partial;
    PutNewKeeps(t, Target(s.place, news, e, n), n, Waiting(n, |news|), 0);
  }

  lemma {:induction false} NothingPruned(s: State, n: nat)
    requires forall id | id in s.mapInfo :: s.mapInfo[id].fInTried || s.mapInfo[id].nRefCount != 0
    ensures Prune(s, n) == s
  {
    if n > 0 { NothingPruned(s, n - 1); }
  }

  // ----- counting slots and entries

  ghost function Row(bucket: nat, n: nat): (r: set<Slot>)
    ensures |r| == n && forall sl :: sl in r <==> sl.bucket == bucket && sl.pos < n
  {
    if n == 0 then {} else Row(bucket, n - 1) + {Slot(bucket, n - 1)}
  }

  ghost function Rows(n: nat): (r: set<Slot>)
    ensures |r| == n * BUCKET_SIZE && forall sl :: sl in r <==> sl.bucket < n && sl.pos < BUCKET_SIZE
  {
    if n == 0 then {}
    else
      var r, x := Rows(n - 1), Row(n - 1, BUCKET_SIZE);
      assert r * x == {};
      r + x
  }

  lemma {:induction false} AtMostSlots(ids: set<int>, table: map<Slot, int>, slots: set<Slot>)
    requires forall id | id in ids :: exists sl :: sl in slots && sl in table && table[sl] == id
    ensures |ids| <= |slots|
    decreases |ids|
  {
    if ids != {} {
      var id := Choose(ids);
      var sl :| sl in slots && sl in table && table[sl] == id;
      forall other | other in ids - {id} ensures exists x :: x in slots - {sl} && x in table && table[x] == other {
        var x :| x in slots && x in table && table[x] == other;
        assert x in slots - {sl};
      }
      AtMostSlots(ids - {id}, table, slots - {sl});
    }
  }

  lemma NewsFit(s: State)
    requires Consistent(s)
    ensures |News(s.mapInfo)| <= NEW_BUCKET_COUNT * BUCKET_SIZE
  {
    hide Consistent, Rows;
    forall id | id in News(s.mapInfo) ensures exists sl :: sl in Rows(NEW_BUCKET_COUNT) && sl in s.vvNew && s.vvNew[sl] == id {
      var sl := SomeSlot(s, id);
      assert sl in Rows(NEW_BUCKET_COUNT);
    }
    AtMostSlots(News(s.mapInfo), s.vvNew, Rows(NEW_BUCKET_COUNT));
  }

  lemma TriedsFit(p: Placement, m: map<int, Info>, t: map<Slot, int>)
    requires TriedTabled(p, m, t)
    ensures |Trieds(m)| <= TRIED_BUCKET_COUNT * BUCKET_SIZE
  {
    hide Rows, Placement.TriedSlot;
    forall id | id in Trieds(m) ensures exists sl :: sl in Rows(TRIED_BUCKET_COUNT) && sl in t && t[sl] == id {
      var sl := p.TriedSlot(m[id].service);
      TriedSlotInside(p, m[id].service);
      assert sl in Rows(TRIED_BUCKET_COUNT) && sl in t && t[sl] == id;
    }
    AtMostSlots(Trieds(m), t, Rows(TRIED_BUCKET_COUNT));
  }

  /** The counters do not exceed the sizes of the tables. */
  lemma CountsFit(s: State)
    requires Consistent(s)
    ensures 0 <= s.nNew <= NEW_BUCKET_COUNT * BUCKET_SIZE && 0 <= s.nTried <= TRIED_BUCKET_COUNT * BUCKET_SIZE
  {
    hide Linked, NewTabled, TriedTabled, Stamped, Referenced, News, Trieds;
    NewsFit(s);
    TriedsFit(s.place, s.mapInfo, s.vvTried);
  }

  lemma TriedSlotInside(p: Placement, svc: Service)
    ensures p.TriedSlot(svc).bucket < TRIED_BUCKET_COUNT && p.TriedSlot(svc).pos < BUCKET_SIZE
  {
  }

  /** The records entered, counted, are consistent but for the references. */
  lemma HeldPartial(s: State, news: seq<Record>, trieds: seq<Record>)
    requires Prepared(s) && Holds(s, news, trieds) && s.nNew == |news| && s.nTried == |trieds|
    ensures Partial(s, Waiting(0, |news|), 0)
  {
    var n, k := |news|, |news| + |trieds|;
    forall id | id in s.mapInfo ensures s.mapInfo[id].fInTried == (id >= n) && 0 <= id < k { HeldRecord(s, news, trieds, id); }
    hide Holds, Linked, Tabled, Waiting;
    CountHeld(s, news, trieds);
  }

  lemma CountHeld(s: State, news: seq<Record>, trieds: seq<Record>)
    requires Holds(s, news, trieds)
    requires forall id | id in s.mapInfo :: s.mapInfo[id].fInTried == (id >= |news|)
    ensures |News(s.mapInfo)| == |news| && |Trieds(s.mapInfo)| == |trieds|
    ensures Referenced(s.mapInfo, Waiting(0, |news|))
  {
    SplitIds(s.mapInfo, |news|, |news| + |trieds|);
  }

  lemma SplitIds(m: map<int, Info>, n: nat, k: nat)
    requires n <= k && (forall id :: id in m <==> 0 <= id < k) && forall id | id in m :: m[id].fInTried == (id >= n)
    ensures |News(m)| == n && |Trieds(m)| == k - n && Referenced(m, Waiting(0, n))
  {
    hide Waiting;
    WaitingIs(0, n);
    WaitingIs(n, k);
    forall id ensures id in News(m) <==> id in Waiting(0, n) {}
    forall id ensures id in Trieds(m) <==> id in Waiting(n, k) {}
    assert News(m) == Waiting(0, n) && Trieds(m) == Waiting(n, k);
  }

  // ----- the slots are apart

  lemma TargetsApart(p: Placement, m: map<int, Info>, vvNew: map<Slot, int>, ids: seq<int>, e: map<int, nat>)
    requires Noted(p, m, vvNew, ids, e)
    requires forall k | 0 <= k < |ids| :: k in e
    requires forall i, j | 0 <= i < j < |ids| :: ids[i] != ids[j]
    ensures Targeted(p, Records(m, ids), e)
    ensures forall k | 0 <= k < |ids| :: var sl := Target(p, Records(m, ids), e, k); sl in vvNew && vvNew[sl] == ids[k]
  {
    hide Placement.NewSlot;
    var recs := Records(m, ids);
    forall k | 0 <= k < |ids| ensures e[k] < NEW_BUCKET_COUNT && var sl := Target(p, recs, e, k); sl in vvNew && vvNew[sl] == ids[k] {
      assert k in e;
    }
  }

  /** The buckets written give every new entry one of its slots. */
  lemma WrittenTargets(s: State)
    requires Consistent(s)
    ensures s.nIdCount >= 0
    ensures var ids := Picked(s.mapInfo, false, s.nIdCount);
      var e := EntryToBucket(Buckets(s.mapInfo, s.vvNew, NEW_BUCKET_COUNT), |ids|);
      && Targeted(s.place, Records(s.mapInfo, ids), e)
      && forall k | 0 <= k < |ids| :: var sl := Target(s.place, Records(s.mapInfo, ids), e, k); sl in s.vvNew && s.vvNew[sl] == ids[k]
  {
    PickedCounts(s);
    WrittenNotes(s);
    hide Consistent, Noted, Complete, EntryToBucket, Buckets, Targeted;
    var ids := Picked(s.mapInfo, false, s.nIdCount);
    var e := EntryToBucket(Buckets(s.mapInfo, s.vvNew, NEW_BUCKET_COUNT), |ids|);
    forall k | 0 <= k < |ids| ensures k in e {
      AllNoted(s, ids[k]);
      PositionOfPicked(s.mapInfo, false, s.nIdCount, k);
    }
    TargetsApart(s.place, s.mapInfo, s.vvNew, ids, e);
  }

  lemma PositionOfPicked(m: map<int, Info>, tried: bool, n: nat, k: nat)
    requires k < |Picked(m, tried, n)|
    ensures var id := Picked(m, tried, n)[k]; id >= 0 && Position(m, tried, id) == k
  {
    hide Picked, Position, Wanted;
    var ids := Picked(m, tried, n);
    PickedAt(m, tried, ids[k], n);
    var j := Position(m, tried, ids[k]);
    assert ids[j] == ids[k];
  }
}
