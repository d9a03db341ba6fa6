/** The address manager's state as a value, and each operation as a function on it.

    A table is a map from its occupied slots to ids; a slot that is not in the map holds -1.
    Hashes, address groups and routability are uninterpreted (the fields of `Env`), and
    every random number and clock reading is a parameter. */
module AddrManState {

  const TRIED_BUCKET_COUNT: nat := 256
  const NEW_BUCKET_COUNT: nat := 1024
  const BUCKET_SIZE: nat := 64
  const TRIED_BUCKETS_PER_GROUP: nat := 8
  const NEW_BUCKETS_PER_SOURCE_GROUP: nat := 64
  const NEW_BUCKETS_PER_ADDRESS: nat := 8
  const HORIZON_DAYS: int := 30
  const RETRIES: int := 3
  const MAX_FAILURES: int := 10
  const MIN_FAIL_DAYS: int := 7
  const GETADDR_MAX_PCT: nat := 23
  const GETADDR_MAX: nat := 2500

  /** Addresses and byte vectors, read as numbers. */
  type NetAddr = nat
  type Bytes = nat

  datatype Service = Service(addr: NetAddr, port: nat)
  datatype Address = Address(service: Service, nServices: nat, nTime: nat)

  /** One record of mapInfo. */
  datatype Info = Info(
    service: Service, nServices: nat, nTime: nat, source: NetAddr,
    nLastTry: int, nLastSuccess: int, nAttempts: int,
    nRefCount: int, fInTried: bool, nRandomPos: int)

  datatype Slot = Slot(bucket: nat, pos: nat)

  /** What is fed to the hash. */
  datatype Datum = Key(key: nat) | Vector(bytes: Bytes) | Number(n: nat) | Letter(c: char)

  datatype Env = Env(
    hash: seq<Datum> -> nat,
    group: (NetAddr, seq<bool>) -> Bytes,
    key: Service -> Bytes,
    routable: NetAddr -> bool,
    orBits: (nat, nat) -> nat)

  /** Where addresses belong, for one secret key and one map of autonomous systems: the
      bucket numbers and positions before they are reduced to a table's size. */
  datatype Placement = Placement(
    tried: Service -> nat,
    new_: (NetAddr, NetAddr) -> nat,
    position: (Service, bool, nat) -> nat)
  {
    function BucketPosition(svc: Service, fNew: bool, bucket: nat): nat {
      position(svc, fNew, bucket) % BUCKET_SIZE
    }

    function NewSlot(svc: Service, bucket: nat): Slot {
      Slot(bucket, BucketPosition(svc, true, bucket))
    }

    function TriedSlot(svc: Service): Slot {
      var bucket := tried(svc) % TRIED_BUCKET_COUNT;
      Slot(bucket, BucketPosition(svc, false, bucket))
    }

    function SourceSlot(svc: Service, src: NetAddr): Slot {
      NewSlot(svc, new_(svc.addr, src) % NEW_BUCKET_COUNT)
    }
  }

  function PlacementOf(env: Env, nKey: nat, asmap: seq<bool>): Placement {
    Placement(
      svc =>
        var hash1 := env.hash([Key(nKey), Vector(env.key(svc))]);
        env.hash([Key(nKey), Vector(env.group(svc.addr, asmap)), Number(hash1 % TRIED_BUCKETS_PER_GROUP)]),
      (addr, src) =>
        var sourceGroup := Vector(env.group(src, asmap));
        var hash1 := env.hash([Key(nKey), Vector(env.group(addr, asmap)), sourceGroup]);
        env.hash([Key(nKey), sourceGroup, Number(hash1 % NEW_BUCKETS_PER_SOURCE_GROUP)]),
      (svc, fNew, bucket) =>
        env.hash([Key(nKey), Letter(if fNew then 'N' else 'K'), Number(bucket), Vector(env.key(svc))]))
  }

  predicate IsTerrible(info: Info, now: int)
  {
    if info.nLastTry != 0 && info.nLastTry >= now - 60 then false
    else if info.nTime > now + 10 * 60 then true
    else if info.nTime == 0 || now - info.nTime > HORIZON_DAYS * 24 * 60 * 60 then true
    else if info.nLastSuccess == 0 && info.nAttempts >= RETRIES then true
    else now - info.nLastSuccess > MIN_FAIL_DAYS * 24 * 60 * 60 && info.nAttempts >= MAX_FAILURES
  }

  /** A value stored into a 32-bit unsigned field. */
  function ToUint32(x: int): nat { x % 0x1_0000_0000 }

  function NonNegative(x: int): int { if x < 0 then 0 else x }

  datatype State = State(
    place: Placement,
    nIdCount: int, mapInfo: map<int, Info>, mapAddr: map<NetAddr, int>, vRandom: seq<int>,
    nTried: int, vvTried: map<Slot, int>, nNew: int, vvNew: map<Slot, int>)

  function Cleared(place: Placement): State {
    State(place, 0, map[], map[], [], 0, map[], 0, map[])
  }

  /** A table after an id was written to a slot; -1 empties it. */
  function Written(table: map<Slot, int>, sl: Slot, id: int): map<Slot, int> {
    if id == -1 then table - {sl} else table[sl := id]
  }

  // ----- the consistency of a manager

  /** The slots of a table that hold an id. */
  ghost function SlotsOf(table: map<Slot, int>, id: int): set<Slot> {
    set sl | sl in table && table[sl] == id
  }

  ghost function News(m: map<int, Info>): set<int> { set id | id in m && !m[id].fInTried }
  ghost function Trieds(m: map<int, Info>): set<int> { set id | id in m && m[id].fInTried }

  /** mapInfo and mapAddr are inverse to each other. */
  ghost predicate AddrLinked(m: map<int, Info>, mapAddr: map<NetAddr, int>, nIdCount: int) {
    && 0 <= nIdCount
    && (forall id :: id in m ==>
          0 <= id < nIdCount && m[id].service.addr in mapAddr && mapAddr[m[id].service.addr] == id)
    && (forall a :: a in mapAddr ==> var id := mapAddr[a]; id in m && m[id].service.addr == a)
  }

  /** mapInfo's nRandomPos and vRandom are inverse to each other. */
  ghost predicate RandomLinked(m: map<int, Info>, vRandom: seq<int>) {
    && (forall id :: id in m ==> 0 <= m[id].nRandomPos < |vRandom| && vRandom[m[id].nRandomPos] == id)
    && (forall i :: 0 <= i < |vRandom| ==> var id := vRandom[i]; id in m && m[id].nRandomPos == i)
  }

  ghost predicate Linked(s: State) {
    AddrLinked(s.mapInfo, s.mapAddr, s.nIdCount) && RandomLinked(s.mapInfo, s.vRandom)
  }

  /** Every occupied new slot is one its entry hashes to, and an entry counts its slots. */
  ghost predicate NewTabled(place: Placement, m: map<int, Info>, vvNew: map<Slot, int>) {
    && (forall sl :: sl in vvNew ==>
          var id := vvNew[sl];
          && sl.bucket < NEW_BUCKET_COUNT
          && id in m && !m[id].fInTried && sl == place.NewSlot(m[id].service, sl.bucket))
    && (forall id :: id in m ==> m[id].nRefCount == |SlotsOf(vvNew, id)|)
  }

  /** The tried table holds exactly the tried entries, each in the one slot it hashes to. */
  ghost predicate TriedTabled(place: Placement, m: map<int, Info>, vvTried: map<Slot, int>) {
    && (forall sl :: sl in vvTried ==>
          var id := vvTried[sl];
          id in m && m[id].fInTried && sl == place.TriedSlot(m[id].service))
    && (forall id :: id in m && m[id].fInTried ==>
          var sl := place.TriedSlot(m[id].service); sl in vvTried && vvTried[sl] == id)
  }

  ghost predicate Stamped(m: map<int, Info>) {
    forall id :: id in m ==>
      m[id].nLastTry >= 0 && m[id].nLastSuccess >= 0 && (m[id].fInTried ==> m[id].nLastSuccess > 0)
  }

  /** Every new entry outside `limbo` has between one and the maximal number of references. */
  ghost predicate Referenced(m: map<int, Info>, limbo: set<int>) {
    forall id :: id in m && !m[id].fInTried && id !in limbo ==> 1 <= m[id].nRefCount <= NEW_BUCKETS_PER_ADDRESS
  }

  ghost predicate Tabled(s: State) {
    && NewTabled(s.place, s.mapInfo, s.vvNew) && TriedTabled(s.place, s.mapInfo, s.vvTried)
    && Stamped(s.mapInfo)
  }

  /** The consistency an operation may rely on half-way: the entries in `limbo` are not
      placed yet, and `uncounted` of the entries that are not tried are missing from nNew. */
  ghost predicate Partial(s: State, limbo: set<int>, uncounted: int) {
    && Linked(s) && Tabled(s) && Referenced(s.mapInfo, limbo)
    && s.nTried == |Trieds(s.mapInfo)|
    && s.nNew == |News(s.mapInfo)| - uncounted
  }

  ghost predicate Consistent(s: State) { Partial(s, {}, 0) }

  // ----- the operations

  function SwapPositions(m: map<int, Info>, id1: int, pos1: nat, id2: int, pos2: nat): map<int, Info>
    requires id1 in m && id2 in m
  {
    var m1 := m[id1 := m[id1].(nRandomPos := pos1)];
    m1[id2 := m1[id2].(nRandomPos := pos2)]
  }

  // Where the source asserts something about its indexes, the functions below change nothing
  // when the assertion fails; the methods of AddrMan prove that it holds.

  function SwapRandom(s: State, i: int, j: int): State {
    if i == j || !(0 <= i < |s.vRandom| && 0 <= j < |s.vRandom|) then s
    else if s.vRandom[i] !in s.mapInfo || s.vRandom[j] !in s.mapInfo then s
    else
      s.(mapInfo := SwapPositions(s.mapInfo, s.vRandom[i], j, s.vRandom[j], i),
         vRandom := s.vRandom[i := s.vRandom[j]][j := s.vRandom[i]])
  }

  /** Forget the last entry of vRandom. */
  function PopEntry(s: State, id: int): State {
    if id !in s.mapInfo || s.vRandom == [] then s
    else
      s.(vRandom := s.vRandom[..|s.vRandom| - 1],
         mapAddr := s.mapAddr - {s.mapInfo[id].service.addr},
         mapInfo := s.mapInfo - {id},
         nNew := s.nNew - 1)
  }

  function Delete(s: State, id: int): State {
    if id !in s.mapInfo then s
    else PopEntry(SwapRandom(s, s.mapInfo[id].nRandomPos, |s.vRandom| - 1), id)
  }

  /** Empty a new slot and take one reference off its occupant. */
  function DropReference(s: State, sl: Slot, id: int): State
    requires id in s.mapInfo
  {
    s.(mapInfo := s.mapInfo[id := s.mapInfo[id].(nRefCount := s.mapInfo[id].nRefCount - 1)],
       vvNew := s.vvNew - {sl})
  }

  function ClearNew(s: State, sl: Slot): State {
    if sl !in s.vvNew || s.vvNew[sl] !in s.mapInfo then s
    else
      var id := s.vvNew[sl];
      var s1 := DropReference(s, sl, id);
      if s1.mapInfo[id].nRefCount == 0 then Delete(s1, id) else s1
  }

  /** Put an entry into an empty new slot and set its reference count. */
  function PutNew(s: State, sl: Slot, id: int, count: int): State
    requires id in s.mapInfo
  {
    s.(mapInfo := s.mapInfo[id := s.mapInfo[id].(nRefCount := count)], vvNew := s.vvNew[sl := id])
  }

  /** A table without the slots of an id. */
  function OthersIn(table: map<Slot, int>, id: int): map<Slot, int> {
    map sl | sl in table && table[sl] != id :: table[sl]
  }

  /** Take an entry out of every new slot. */
  function LeaveNew(s: State, id: int): State
    requires id in s.mapInfo
  {
    s.(mapInfo := s.mapInfo[id := s.mapInfo[id].(nRefCount := 0)],
       vvNew := OthersIn(s.vvNew, id),
       nNew := s.nNew - 1)
  }

  /** Take the occupant of a tried slot out of the tried table. */
  function LeaveTried(s: State, sl: Slot, id: int): State
    requires id in s.mapInfo
  {
    s.(mapInfo := s.mapInfo[id := s.mapInfo[id].(fInTried := false)],
       vvTried := s.vvTried - {sl}, nTried := s.nTried - 1)
  }

  function PutTried(s: State, sl: Slot, id: int): State
    requires id in s.mapInfo
  {
    s.(mapInfo := s.mapInfo[id := s.mapInfo[id].(fInTried := true)],
       vvTried := s.vvTried[sl := id], nTried := s.nTried + 1)
  }
}
