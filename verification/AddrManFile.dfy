/** The address manager's file: what is written, and how the indexes are rebuilt from it. */
module AddrManFile {
  import opened AddrManState

  /** What is written of an entry. */
  datatype Record = Record(service: Service, nServices: nat, nTime: nat, source: NetAddr, nLastSuccess: int, nAttempts: int)

  /** The parts of the stream in their order. `nUBuckets` is the stored number of buckets. */
  datatype File = File(
    nVersion: nat, nKeySize: nat, nKey: nat, nNew: int, nTried: int, nUBuckets: int,
    news: seq<Record>, trieds: seq<Record>, buckets: seq<seq<int>>, asmapVersion: nat)

  function RecordOf(info: Info): Record {
    Record(info.service, info.nServices, info.nTime, info.source, info.nLastSuccess, info.nAttempts)
  }

  /** A record that was read, before it has a place in a table. */
  function InfoOf(rec: Record, tried: bool, pos: int): Info {
    Info(rec.service, rec.nServices, rec.nTime, rec.source, 0, rec.nLastSuccess, rec.nAttempts, 0, tried, pos)
  }

  /** `x ^ (1 << 30)`. */
  function FlipBit30(x: int): int {
    if x / 0x4000_0000 % 2 == 0 then x + 0x4000_0000 else x - 0x4000_0000
  }

  /** The version of a map of autonomous systems: none if the map is empty. */
  function AsmapVersion(serializeHash: seq<bool> -> nat, asmap: seq<bool>): nat {
    if asmap == [] then 0 else serializeHash(asmap)
  }

  // ----- writing

  predicate Wanted(m: map<int, Info>, tried: bool, id: int) {
    id in m && if tried then m[id].fInTried else m[id].nRefCount != 0
  }

  /** The wanted ids below a bound, in ascending order, as the map is iterated. */
  function Picked(m: map<int, Info>, tried: bool, n: nat): (ids: seq<int>)
    ensures forall i | 0 <= i < |ids| :: 0 <= ids[i] < n && Wanted(m, tried, ids[i])
    ensures forall i, j | 0 <= i < j < |ids| :: ids[i] != ids[j]
  {
    if n == 0 then [] else Picked(m, tried, n - 1) + if Wanted(m, tried, n - 1) then [n - 1] else []
  }

  /** The number an entry has in the file. */
  function Position(m: map<int, Info>, tried: bool, id: nat): nat { |Picked(m, tried, id)| }

  function Records(m: map<int, Info>, ids: seq<int>): (r: seq<Record>)
    requires forall i | 0 <= i < |ids| :: ids[i] in m
    ensures |r| == |ids| && forall i | 0 <= i < |ids| :: r[i] == RecordOf(m[ids[i]])
  {
    seq(|ids|, i requires 0 <= i < |ids| => RecordOf(m[ids[i]]))
  }

  /** The numbers of the entries in the first n slots of a bucket. */
  function Indexes(m: map<int, Info>, vvNew: map<Slot, int>, bucket: nat, n: nat): seq<int> {
    if n == 0 then []
    else
      var sl := Slot(bucket, n - 1);
      Indexes(m, vvNew, bucket, n - 1)
      + if sl in vvNew && vvNew[sl] >= 0 then [Position(m, false, vvNew[sl])] else []
  }

  function Buckets(m: map<int, Info>, vvNew: map<Slot, int>, n: nat): (b: seq<seq<int>>)
    ensures |b| == n
  {
    if n == 0 then [] else Buckets(m, vvNew, n - 1) + [Indexes(m, vvNew, n - 1, BUCKET_SIZE)]
  }

  function Serialize(s: State, nKey: nat, asmapVersion: nat): File {
    var n := if s.nIdCount < 0 then 0 else s.nIdCount;
    File(2, 32, nKey, s.nNew, s.nTried, FlipBit30(NEW_BUCKET_COUNT),
         Records(s.mapInfo, Picked(s.mapInfo, false, n)), Records(s.mapInfo, Picked(s.mapInfo, true, n)),
         Buckets(s.mapInfo, s.vvNew, NEW_BUCKET_COUNT), asmapVersion)
  }

  // ----- reading

  /** Enter a record under the next id. */
  function Enter(s: State, rec: Record, tried: bool): State {
    var id := s.nIdCount;
    s.(nIdCount := id + 1, mapInfo := s.mapInfo[id := InfoOf(rec, tried, |s.vRandom|)],
       mapAddr := s.mapAddr[rec.service.addr := id], vRandom := s.vRandom + [id])
  }

  function EnterNews(s: State, recs: seq<Record>): State {
    if recs == [] then s else Enter(EnterNews(s, recs[..|recs| - 1]), recs[|recs| - 1], false)
  }

  /** Enter a tried record unless its slot is taken. A slot that is given the id -1 stays empty. */
  function EnterTried(s: State, rec: Record): State {
    var sl := s.place.TriedSlot(rec.service);
    if sl in s.vvTried then s else Enter(s, rec, true).(vvTried := Written(s.vvTried, sl, s.nIdCount))
  }

  function EnterTrieds(s: State, recs: seq<Record>): State {
    if recs == [] then s else EnterTried(EnterTrieds(s, recs[..|recs| - 1]), recs[|recs| - 1])
  }

  /** The last bucket each entry was in. */
  function NoteIndexes(e: map<int, nat>, indexes: seq<int>, bucket: nat, nNew: int): map<int, nat> {
    if indexes == [] then e
    else
      var e1, i := NoteIndexes(e, indexes[..|indexes| - 1], bucket, nNew), indexes[|indexes| - 1];
      if 0 <= i < nNew then e1[i := bucket] else e1
  }

  function EntryToBucket(buckets: seq<seq<int>>, nNew: int): map<int, nat> {
    if buckets == [] then map[]
    else
      var n := |buckets| - 1;
      NoteIndexes(EntryToBucket(buckets[..n], nNew), buckets[n], n, nNew)
  }

  /** Give a new entry a reference: in the bucket it was in, or else in that of its source. */
  function PlaceEntry(s: State, n: int, bucket: nat, use: bool): State {
    if n !in s.mapInfo then s
    else
      var info := s.mapInfo[n];
      var sl := s.place.NewSlot(info.service, bucket);
      if use && sl !in s.vvNew && info.nRefCount < NEW_BUCKETS_PER_ADDRESS then PutNew(s, sl, n, info.nRefCount + 1)
      else
        var sl' := s.place.SourceSlot(info.service, info.source);
        if sl' !in s.vvNew then PutNew(s, sl', n, info.nRefCount + 1) else s
  }

  function BucketOf(e: map<int, nat>, n: int): nat { if n in e then e[n] else 0 }

  function PlaceEntries(s: State, e: map<int, nat>, use: bool, n: nat): State {
    if n == 0 then s else PlaceEntry(PlaceEntries(s, e, use, n - 1), n - 1, BucketOf(e, n - 1), use)
  }

  function PruneOne(s: State, id: int): State {
    if id in s.mapInfo && !s.mapInfo[id].fInTried && s.mapInfo[id].nRefCount == 0 then Delete(s, id) else s
  }

  /** Delete the new entries that have no slot. */
  function Prune(s: State, n: nat): State {
    if n == 0 then s else PruneOne(Prune(s, n - 1), n - 1)
  }

  /** The records read, under new ids, and the counters with the lost tried records taken off. */
  function Entered(place: Placement, file: File): State {
    var s1 := EnterNews(Cleared(place).(nNew := file.nNew, nTried := file.nTried), file.news).(nIdCount := file.nNew);
    var s2 := EnterTrieds(s1, file.trieds);
    var nLost := |file.trieds| - (s2.nIdCount - file.nNew);
    s2.(nTried := s2.nTried - nLost)
  }

  /** The number of buckets that a file announces. */
  function StoredBuckets(file: File): int {
    if file.nVersion != 0 then FlipBit30(file.nUBuckets) else file.nUBuckets
  }

  datatype Loaded = Corrupt | Loaded(state: State)

  /** Rebuild the manager under a placement; `asmapVersion` is that of the map in use. */
  function Load(place: Placement, asmapVersion: nat, file: File): Loaded {
    var nUBuckets := StoredBuckets(file);
    if file.nKeySize != 32 then Corrupt
    else if file.nNew > NEW_BUCKET_COUNT * BUCKET_SIZE then Corrupt
    else if file.nTried > TRIED_BUCKET_COUNT * BUCKET_SIZE then Corrupt
    else if |file.news| != NonNegative(file.nNew) || |file.trieds| != NonNegative(file.nTried)
            || |file.buckets| != NonNegative(nUBuckets) then Corrupt
    else
      var e := EntryToBucket(file.buckets, file.nNew);
      var use := file.nVersion == 2 && nUBuckets == NEW_BUCKET_COUNT && file.asmapVersion == asmapVersion;
      var s := PlaceEntries(Entered(place, file), e, use, NonNegative(file.nNew));
      Loaded(Prune(s, NonNegative(s.nIdCount)))
  }
}
