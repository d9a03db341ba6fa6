/** The address manager as an object: its maps, vector, counters and bucket tables are
    changed in place, and every method computes the operation of AddrManOps on the state. */
module AddrMan {
  import opened AddrManState
  import opened AddrManLemmas
  import opened AddrManOps
  import opened Powers

  ghost function AllSlots(buckets: nat): set<Slot> {
    set b, p | 0 <= b < buckets && 0 <= p < BUCKET_SIZE :: Slot(b, p)
  }

  /** The occupied slots of a bucket table. */
  ghost function TableOf(table: array2<int>): map<Slot, int>
    requires table.Length1 == BUCKET_SIZE
    reads table
  {
    map sl | sl in AllSlots(table.Length0) && table[sl.bucket, sl.pos] != -1 :: table[sl.bucket, sl.pos]
  }

  lemma CellRead(table: array2<int>, bucket: nat, pos: nat)
    requires table.Length1 == BUCKET_SIZE && bucket < table.Length0 && pos < BUCKET_SIZE
    ensures var t := TableOf(table); var sl := Slot(bucket, pos);
      && (sl in t <==> table[bucket, pos] != -1)
      && (sl in t ==> t[sl] == table[bucket, pos])
  {
    assert Slot(bucket, pos) in AllSlots(table.Length0);
  }

  class Manager {
    const env: Env
    var nKey: nat
    var m_asmap: seq<bool>
    var nIdCount: int
    var mapInfo: map<int, Info>
    var mapAddr: map<NetAddr, int>
    var vRandom: seq<int>
    var nTried: int
    const vvTried: array2<int>
    var nNew: int
    const vvNew: array2<int>

    ghost predicate Shape() {
      && vvTried.Length0 == TRIED_BUCKET_COUNT && vvTried.Length1 == BUCKET_SIZE
      && vvNew.Length0 == NEW_BUCKET_COUNT && vvNew.Length1 == BUCKET_SIZE
      && vvTried != vvNew
    }

    ghost function Contents(): State
      requires Shape()
      reads this, vvTried, vvNew
    {
      State(PlacementOf(env, nKey, m_asmap), nIdCount, mapInfo, mapAddr, vRandom,
            nTried, TableOf(vvTried), nNew, TableOf(vvNew))
    }

    constructor (env: Env, nKey: nat, asmap: seq<bool>)
      ensures Shape() && fresh(vvTried) && fresh(vvNew)
      ensures Contents() == Cleared(PlacementOf(env, nKey, asmap))
      ensures this.env == env && this.nKey == nKey && m_asmap == asmap
    {
      this.env := env;
      this.m_asmap := asmap;
      this.nKey := nKey;
      vvTried := new int[TRIED_BUCKET_COUNT, BUCKET_SIZE];
      vvNew := new int[NEW_BUCKET_COUNT, BUCKET_SIZE];
      vRandom, nIdCount, nTried, nNew, mapInfo, mapAddr := [], 0, 0, 0, map[], map[];
      new;
      Clear(nKey);
    }

    /** Forget everything and take a new key. */
    method Clear(nKey: nat)
      requires Shape()
      modifies this, vvTried, vvNew
      ensures Contents() == Cleared(PlacementOf(env, nKey, m_asmap))
      ensures m_asmap == old(m_asmap) && this.nKey == nKey
    {
      vRandom := [];
      this.nKey := nKey;
      for bucket := 0 to NEW_BUCKET_COUNT
        modifies vvNew
        invariant forall b, p | 0 <= b < bucket && 0 <= p < BUCKET_SIZE :: vvNew[b, p] == -1
      {
        for entry := 0 to BUCKET_SIZE
          invariant forall b, p | 0 <= b < bucket && 0 <= p < BUCKET_SIZE :: vvNew[b, p] == -1
          invariant forall p | 0 <= p < entry :: vvNew[bucket, p] == -1
        {
          vvNew[bucket, entry] := -1;
        }
      }
      for bucket := 0 to TRIED_BUCKET_COUNT
        modifies vvTried
        invariant forall b, p | 0 <= b < bucket && 0 <= p < BUCKET_SIZE :: vvTried[b, p] == -1
      {
        for entry := 0 to BUCKET_SIZE
          invariant forall b, p | 0 <= b < bucket && 0 <= p < BUCKET_SIZE :: vvTried[b, p] == -1
          invariant forall p | 0 <= p < entry :: vvTried[bucket, p] == -1
        {
          vvTried[bucket, entry] := -1;
        }
      }
      nIdCount, nTried, nNew := 0, 0, 0;
      mapInfo, mapAddr := map[], map[];
      assert TableOf(vvNew) == map[] && TableOf(vvTried) == map[];
    }

    method SwapRandom(nRndPos1: nat, nRndPos2: nat)
      requires Shape() && RandomLinked(mapInfo, vRandom)
      requires nRndPos1 < |vRandom| && nRndPos2 < |vRandom|
      modifies this`mapInfo, this`vRandom
      ensures Contents() == AddrManState.SwapRandom(old(Contents()), nRndPos1, nRndPos2)
    {
      if nRndPos1 == nRndPos2 {
        return;
      }
      var nId1, nId2 := vRandom[nRndPos1], vRandom[nRndPos2];
      assert nId1 in mapInfo;
      assert nId2 in mapInfo;
      mapInfo := mapInfo[nId1 := mapInfo[nId1].(nRandomPos := nRndPos2)];
      mapInfo := mapInfo[nId2 := mapInfo[nId2].(nRandomPos := nRndPos1)];
      vRandom := vRandom[nRndPos1 := nId2];
      vRandom := vRandom[nRndPos2 := nId1];
    }

    method Delete(nId: int)
      requires Shape() && RandomLinked(mapInfo, vRandom)
      requires nId in mapInfo && !mapInfo[nId].fInTried && mapInfo[nId].nRefCount == 0
      modifies this`mapInfo, this`vRandom, this`mapAddr, this`nNew
      ensures Contents() == AddrManState.Delete(old(Contents()), nId)
    {
      hide PlacementOf, TableOf, AddrManState.SwapRandom, AddrLinked;
      var info := mapInfo[nId];
      assert 0 <= info.nRandomPos < |vRandom|;
      SwapKeepsRandom(Contents(), info.nRandomPos, |vRandom| - 1);
      SwapRandom(info.nRandomPos, |vRandom| - 1);
      vRandom := vRandom[..|vRandom| - 1];
      mapAddr := mapAddr - {info.service.addr};
      mapInfo := mapInfo - {nId};
      nNew := nNew - 1;
    }

    /** Write one cell of the new table. */
    method SetNew(bucket: nat, pos: nat, nId: int)
      requires Shape() && bucket < NEW_BUCKET_COUNT && pos < BUCKET_SIZE
      modifies vvNew
      ensures vvNew[bucket, pos] == nId && TableOf(vvTried) == old(TableOf(vvTried))
      ensures TableOf(vvNew) == Written(old(TableOf(vvNew)), Slot(bucket, pos), nId)
    {
      vvNew[bucket, pos] := nId;
    }

    /** Write one cell of the tried table. */
    method SetTried(bucket: nat, pos: nat, nId: int)
      requires Shape() && bucket < TRIED_BUCKET_COUNT && pos < BUCKET_SIZE
      modifies vvTried
      ensures vvTried[bucket, pos] == nId && TableOf(vvNew) == old(TableOf(vvNew))
      ensures TableOf(vvTried) == Written(old(TableOf(vvTried)), Slot(bucket, pos), nId)
    {
      vvTried[bucket, pos] := nId;
    }

    /** Take one reference off the occupant of a new slot and empty the slot. */
    method DropReference(nUBucket: nat, nUBucketPos: nat)
      requires Shape() && nUBucket < NEW_BUCKET_COUNT && nUBucketPos < BUCKET_SIZE
      requires vvNew[nUBucket, nUBucketPos] in mapInfo
      modifies this`mapInfo, vvNew
      ensures Contents() == AddrManState.DropReference(old(Contents()), Slot(nUBucket, nUBucketPos), old(vvNew[nUBucket, nUBucketPos]))
      ensures vvNew[nUBucket, nUBucketPos] == -1
    {
      hide PlacementOf, TableOf;
      var nIdDelete := vvNew[nUBucket, nUBucketPos];
      mapInfo := mapInfo[nIdDelete := mapInfo[nIdDelete].(nRefCount := mapInfo[nIdDelete].nRefCount - 1)];
      SetNew(nUBucket, nUBucketPos, -1);
    }

    method ClearNew(nUBucket: nat, nUBucketPos: nat, ghost limbo: set<int>, ghost uncounted: int)
      requires Shape() && Partial(Contents(), limbo, uncounted)
      requires nUBucket < NEW_BUCKET_COUNT && nUBucketPos < BUCKET_SIZE
      modifies this`mapInfo, this`vRandom, this`mapAddr, this`nNew, vvNew
      ensures Contents() == AddrManState.ClearNew(old(Contents()), Slot(nUBucket, nUBucketPos))
      ensures vvNew[nUBucket, nUBucketPos] == -1
    {
      hide NewTabled, TriedTabled, AddrLinked, RandomLinked, Stamped, Referenced, News, Trieds, PlacementOf, TableOf;
      ghost var s := Contents();
      CellRead(vvNew, nUBucket, nUBucketPos);
      if vvNew[nUBucket, nUBucketPos] != -1 {
        var nIdDelete := vvNew[nUBucket, nUBucketPos];
        OccupantIsNew(s.place, mapInfo, s.vvNew, Slot(nUBucket, nUBucketPos));
        assert mapInfo[nIdDelete].nRefCount > 0;
        DropReferenceLinks(s, Slot(nUBucket, nUBucketPos), nIdDelete, limbo, uncounted);
        DropReference(nUBucket, nUBucketPos);
        if mapInfo[nIdDelete].nRefCount == 0 {
          Delete(nIdDelete);
        }
      }
    }

    /** The place of an entry in a table, from the hashes. */
    function NewPos(svc: Service, bucket: nat): (p: nat)
      reads this
      ensures p < BUCKET_SIZE
    {
      PlacementOf(env, nKey, m_asmap).BucketPosition(svc, true, bucket)
    }

    function NewBucket(svc: Service, src: NetAddr): (b: nat)
      reads this
      ensures b < NEW_BUCKET_COUNT
    {
      PlacementOf(env, nKey, m_asmap).new_(svc.addr, src) % NEW_BUCKET_COUNT
    }

    function TriedBucket(svc: Service): (b: nat)
      reads this
      ensures b < TRIED_BUCKET_COUNT
    {
      PlacementOf(env, nKey, m_asmap).tried(svc) % TRIED_BUCKET_COUNT
    }

    function TriedPos(svc: Service, bucket: nat): (p: nat)
      reads this
      ensures p < BUCKET_SIZE
    {
      PlacementOf(env, nKey, m_asmap).BucketPosition(svc, false, bucket)
    }

    /** Take an entry out of one new bucket, if it is there. */
    method LeaveBucket(nId: int, bucket: nat, ghost t: map<Slot, int>, ghost m: map<int, Info>)
      requires Shape() && bucket < NEW_BUCKET_COUNT && nId in m && nId != -1
      requires NewTabled(Contents().place, m, t)
      requires TableOf(vvNew) == Left(t, nId, bucket)
      requires mapInfo == m[nId := m[nId].(nRefCount := |SlotsFrom(t, nId, bucket)|)]
      modifies this`mapInfo, vvNew
      ensures TableOf(vvNew) == Left(t, nId, bucket + 1)
      ensures mapInfo == m[nId := m[nId].(nRefCount := |SlotsFrom(t, nId, bucket + 1)|)]
    {
      hide PlacementOf, NewTabled, TableOf;
      var pos := NewPos(mapInfo[nId].service, bucket);
      OneSlotABucket(Contents().place, m, t, nId, bucket);
      LeftOne(t, nId, bucket, Slot(bucket, pos));
      CellRead(vvNew, bucket, pos);
      if vvNew[bucket, pos] == nId {
        SetNew(bucket, pos, -1);
        mapInfo := mapInfo[nId := mapInfo[nId].(nRefCount := mapInfo[nId].nRefCount - 1)];
      }
    }

    /** The first loop of MakeTried. */
    method LeaveBuckets(nId: int, ghost t: map<Slot, int>, ghost m: map<int, Info>)
      requires Shape() && nId in mapInfo && nId != -1
      requires t == TableOf(vvNew) && m == mapInfo && NewTabled(Contents().place, m, t)
      modifies this`mapInfo, vvNew
      ensures TableOf(vvNew) == Left(t, nId, NEW_BUCKET_COUNT)
      ensures mapInfo == m[nId := m[nId].(nRefCount := |SlotsFrom(t, nId, NEW_BUCKET_COUNT)|)]
    {
      hide PlacementOf, TableOf, SlotsFrom, SlotsOf, Left, OthersIn, NewTabled;
      AllSlotsLeft(Contents().place, m, t, nId);
      for bucket := 0 to NEW_BUCKET_COUNT
        modifies this`mapInfo, vvNew
        invariant TableOf(vvNew) == Left(t, nId, bucket)
        invariant mapInfo == m[nId := m[nId].(nRefCount := |SlotsFrom(t, nId, bucket)|)]
      {
        LeaveBucket(nId, bucket, t, m);
      }
    }

    /** Take an entry out of every new bucket. */
    method LeaveNewBuckets(nId: int)
      requires Shape() && Consistent(Contents())
      requires nId in mapInfo && !mapInfo[nId].fInTried
      modifies this`mapInfo, this`nNew, vvNew
      ensures Contents() == LeaveNew(old(Contents()), nId)
    {
      KnownId(Contents(), nId);
      hide PlacementOf, TableOf, SlotsFrom, SlotsOf, Left, OthersIn, RandomLinked, AddrLinked, Referenced, Stamped,
        TriedTabled, NewTabled, News, Trieds;
      ghost var m, t := mapInfo, TableOf(vvNew);
      LeaveBuckets(nId, t, m);
      NoSlotLeft(PlacementOf(env, nKey, m_asmap), m, t, nId);
      nNew := nNew - 1;
      assert mapInfo[nId].nRefCount == 0;
    }

    method MakeTried(nId: int)
      requires Shape() && Consistent(Contents())
      requires nId in mapInfo && !mapInfo[nId].fInTried && mapInfo[nId].nLastSuccess > 0
      modifies this`mapInfo, this`vRandom, this`mapAddr, this`nNew, this`nTried, vvNew, vvTried
      ensures Contents() == AddrManOps.MakeTried(old(Contents()), nId)
    {
      KnownId(Contents(), nId);
      hide PlacementOf, TableOf, RandomLinked, AddrLinked, Referenced, Stamped, TriedTabled, NewTabled, News, Trieds,
        AddrManState.ClearNew;
      LeaveNewKeeps(Contents(), nId);
      LeaveNewBuckets(nId);
      assert mapInfo[nId].nRefCount == 0;
      ghost var s1 := Contents();
      var nKBucket := TriedBucket(mapInfo[nId].service);
      var nKBucketPos := TriedPos(mapInfo[nId].service, nKBucket);
      EvictKeeps(s1, Slot(nKBucket, nKBucketPos), nId);
      EvictFrom(nKBucket, nKBucketPos, nId);
      assert vvTried[nKBucket, nKBucketPos] == -1;
      PutIntoTried(nId, nKBucket, nKBucketPos);
    }

    /** Take the occupant of a tried slot out of it and empty the new slot of its source. */
    method FreeSlots(nIdEvict: int, nKBucket: nat, nKBucketPos: nat, ghost id: int) returns (nUBucket: nat, nUBucketPos: nat)
      requires Shape() && Partial(Contents(), {id}, 1) && nIdEvict in mapInfo
      requires nKBucket < TRIED_BUCKET_COUNT && nKBucketPos < BUCKET_SIZE
      requires Slot(nKBucket, nKBucketPos) in TableOf(vvTried) && TableOf(vvTried)[Slot(nKBucket, nKBucketPos)] == nIdEvict
      modifies this`mapInfo, this`vRandom, this`mapAddr, this`nNew, this`nTried, vvNew, vvTried
      ensures Contents() == MakeRoom(old(Contents()), Slot(nKBucket, nKBucketPos), nIdEvict)
      ensures vvTried[nKBucket, nKBucketPos] == -1
      ensures nUBucket < NEW_BUCKET_COUNT && nUBucketPos < BUCKET_SIZE && vvNew[nUBucket, nUBucketPos] == -1
      ensures Slot(nUBucket, nUBucketPos)
              == PlacementOf(env, nKey, m_asmap).SourceSlot(old(mapInfo)[nIdEvict].service, old(mapInfo)[nIdEvict].source)
    {
      hide PlacementOf, TableOf, RandomLinked, AddrLinked, Referenced, Stamped, TriedTabled, NewTabled, News, Trieds,
        AddrManState.ClearNew;
      LeaveTriedKeeps(Contents(), Slot(nKBucket, nKBucketPos), nIdEvict, {id}, 1);
      TakeOut(nIdEvict, nKBucket, nKBucketPos);
      nUBucket := NewBucket(mapInfo[nIdEvict].service, mapInfo[nIdEvict].source);
      nUBucketPos := NewPos(mapInfo[nIdEvict].service, nUBucket);
      ClearNew(nUBucket, nUBucketPos, {id} + {nIdEvict}, 2);
    }

    /** Make space in a tried slot. */
    method EvictFrom(nKBucket: nat, nKBucketPos: nat, ghost id: int)
      requires Shape() && Partial(Contents(), {id}, 1) && id in mapInfo && !mapInfo[id].fInTried && mapInfo[id].nRefCount == 0
      requires nKBucket < TRIED_BUCKET_COUNT && nKBucketPos < BUCKET_SIZE
      modifies this`mapInfo, this`vRandom, this`mapAddr, this`nNew, this`nTried, vvNew, vvTried
      ensures Contents() == Evict(old(Contents()), Slot(nKBucket, nKBucketPos))
      ensures vvTried[nKBucket, nKBucketPos] == -1
    {
      hide PlacementOf, TableOf, RandomLinked, AddrLinked, Referenced, Stamped, TriedTabled, NewTabled, News, Trieds, MakeRoom;
      ghost var s, sl := Contents(), Slot(nKBucket, nKBucketPos);
      CellRead(vvTried, nKBucket, nKBucketPos);
      if vvTried[nKBucket, nKBucketPos] != -1 {
        var nIdEvict := vvTried[nKBucket, nKBucketPos];
        TriedOccupant(s.place, mapInfo, s.vvTried, sl);
        assert nIdEvict in mapInfo;
        MakeRoomKeeps(s, sl, nIdEvict, id);
        var nUBucket, nUBucketPos := FreeSlots(nIdEvict, nKBucket, nKBucketPos, id);
        assert vvNew[nUBucket, nUBucketPos] == -1;
        PutBack(nIdEvict, nUBucket, nUBucketPos, 1);
        nNew := nNew + 1;
      }
    }

    method TakeOut(nId: int, bucket: nat, pos: nat)
      requires Shape() && bucket < TRIED_BUCKET_COUNT && pos < BUCKET_SIZE && nId in mapInfo
      modifies this`mapInfo, this`nTried, vvTried
      ensures Contents() == LeaveTried(old(Contents()), Slot(bucket, pos), nId)
      ensures vvTried[bucket, pos] == -1
    {
      hide PlacementOf, TableOf;
      mapInfo := mapInfo[nId := mapInfo[nId].(fInTried := false)];
      SetTried(bucket, pos, -1);
      nTried := nTried - 1;
    }

    method PutBack(nId: int, bucket: nat, pos: nat, count: int)
      requires Shape() && bucket < NEW_BUCKET_COUNT && pos < BUCKET_SIZE && nId in mapInfo && nId != -1
      modifies this`mapInfo, vvNew
      ensures Contents() == PutNew(old(Contents()), Slot(bucket, pos), nId, count)
    {
      hide PlacementOf, TableOf;
      mapInfo := mapInfo[nId := mapInfo[nId].(nRefCount := count)];
      SetNew(bucket, pos, nId);
    }

    method PutIntoTried(nId: int, bucket: nat, pos: nat)
      requires Shape() && bucket < TRIED_BUCKET_COUNT && pos < BUCKET_SIZE && nId in mapInfo && nId != -1
      modifies this`mapInfo, this`nTried, vvTried
      ensures Contents() == PutTried(old(Contents()), Slot(bucket, pos), nId)
    {
      hide PlacementOf, TableOf;
      SetTried(bucket, pos, nId);
      nTried := nTried + 1;
      mapInfo := mapInfo[nId := mapInfo[nId].(fInTried := true)];
    }

    /** Look up the entry of exactly this address and port. */
    method Find(svc: Service) returns (found: bool, nId: int)
      requires Shape() && AddrLinked(mapInfo, mapAddr, nIdCount)
      ensures found <==> Knows(Contents(), svc)
      ensures found ==> nId == mapAddr[svc.addr] && nId in mapInfo
    {
      found, nId := false, -1;
      if svc.addr in mapAddr {
        nId := mapAddr[svc.addr];
        assert nId in mapInfo;
        found := mapInfo[nId].service == svc;
      }
    }

    /** Good_: `nRnd` is the random bucket where the search for the entry starts. */
    method Good(svc: Service, nTime: int, nRnd: nat)
      requires Shape() && Consistent(Contents()) && nTime > 0 && nRnd < NEW_BUCKET_COUNT
      modifies this`mapInfo, this`vRandom, this`mapAddr, this`nNew, this`nTried, vvNew, vvTried
      ensures Contents() == AddrManOps.Good(old(Contents()), svc, nTime) && Consistent(Contents())
    {
      hide PlacementOf, TableOf, RandomLinked, AddrLinked, Referenced, Stamped, TriedTabled, NewTabled, News, Trieds,
        AddrManOps.MakeTried;
      ghost var s := Contents();
      GoodKeeps(s, svc, nTime);
      var found, nId := Find(svc);
      if !found {
        return;
      }
      StampKeeps(s, nId, Succeeded(mapInfo[nId], nTime));
      mapInfo := mapInfo[nId := mapInfo[nId].(nLastSuccess := nTime, nLastTry := nTime, nAttempts := 0)];
      if mapInfo[nId].fInTried {
        return;
      }
      var nUBucket := FindBucket(nId, nRnd);
      // The search cannot fail, so the source's exit for that case is never taken.
      assert nUBucket != -1;
      MakeTried(nId);
    }

    /** The search for a new bucket that holds an entry: it always succeeds. */
    method FindBucket(nId: int, nRnd: nat) returns (nUBucket: int)
      requires Shape() && Consistent(Contents()) && nRnd < NEW_BUCKET_COUNT
      requires nId in mapInfo && !mapInfo[nId].fInTried
      ensures 0 <= nUBucket < NEW_BUCKET_COUNT && vvNew[nUBucket, NewPos(mapInfo[nId].service, nUBucket)] == nId
    {
      hide PlacementOf, RandomLinked, AddrLinked, TriedTabled, Stamped, News, Trieds;
      nUBucket := -1;
      var n := 0;
      while n < NEW_BUCKET_COUNT
        invariant 0 <= n <= NEW_BUCKET_COUNT && nUBucket == -1
        invariant forall b | 0 <= b < NEW_BUCKET_COUNT && (b - nRnd) % NEW_BUCKET_COUNT < n ::
                    vvNew[b, NewPos(mapInfo[nId].service, b)] != nId
      {
        var nB := (n + nRnd) % NEW_BUCKET_COUNT;
        var nBpos := NewPos(mapInfo[nId].service, nB);
        if vvNew[nB, nBpos] == nId {
          nUBucket := nB;
          return;
        }
        n := n + 1;
      }
      var b := HasBucket(Contents(), nId);
      CellRead(vvNew, b, NewPos(mapInfo[nId].service, b));
      assert false;
    }

    method Attempt(svc: Service, nTime: int)
      requires Shape() && Consistent(Contents()) && nTime >= 0
      modifies this`mapInfo
      ensures Contents() == AddrManOps.Attempt(old(Contents()), svc, nTime) && Consistent(Contents())
    {
      hide PlacementOf, TableOf, RandomLinked, AddrLinked, Referenced, Stamped, TriedTabled, NewTabled, News, Trieds;
      AttemptKeeps(Contents(), svc, nTime);
      var found, nId := Find(svc);
      if !found {
        return;
      }
      mapInfo := mapInfo[nId := mapInfo[nId].(nLastTry := nTime)];
      mapInfo := mapInfo[nId := mapInfo[nId].(nAttempts := mapInfo[nId].nAttempts + 1)];
    }

    method Connected(svc: Service, nTime: int)
      requires Shape() && Consistent(Contents())
      modifies this`mapInfo
      ensures Contents() == AddrManOps.Connected(old(Contents()), svc, nTime) && Consistent(Contents())
    {
      hide PlacementOf, TableOf, RandomLinked, AddrLinked, Referenced, Stamped, TriedTabled, NewTabled, News, Trieds;
      ConnectedKeeps(Contents(), svc, nTime);
      var found, nId := Find(svc);
      if !found {
        return;
      }
      var nUpdateInterval := 20 * 60;
      if nTime - mapInfo[nId].nTime > nUpdateInterval {
        mapInfo := mapInfo[nId := mapInfo[nId].(nTime := ToUint32(nTime))];
      }
    }

    /** Add_: `now` is the clock and `random` the random source. */
    method Add(addr: Address, source: NetAddr, nTimePenalty: int, now: int, random: nat) returns (fNew: bool)
      requires Shape() && Consistent(Contents())
      modifies this`nIdCount, this`mapInfo, this`vRandom, this`mapAddr, this`nNew, vvNew
      ensures Contents() == AddrManOps.Add(env, old(Contents()), addr, source, nTimePenalty, now, random)
      ensures Consistent(Contents()) && fNew == IsNewcomer(env, old(Contents()), addr)
    {
      hide PlacementOf, TableOf, RandomLinked, AddrLinked, Referenced, Stamped, TriedTabled, NewTabled, News, Trieds,
        AddrManOps.Place;
      ghost var s := Contents();
      AddKeeps(env, s, addr, source, nTimePenalty, now, random);
      if !env.routable(addr.service.addr) {
        return false;
      }
      if addr.service.addr in mapAddr {
        fNew := false;
        var nId := mapAddr[addr.service.addr];
        KnownEntry(s, addr.service.addr);
        var wants := Refresh(nId, addr, nTimePenalty, now, random);
        RefreshKeeps(env, s, nId, addr, nTimePenalty, now);
        if wants {
          Place(nId, source, now, {});
        }
      } else {
        CreateKeeps(s, addr, source, nTimePenalty);
        var nId := Create(addr, source, nTimePenalty);
        fNew := true;
        Place(nId, source, now, {nId});
      }
    }

    method Create(addr: Address, source: NetAddr, nTimePenalty: int) returns (nId: int)
      requires Shape()
      modifies this`nIdCount, this`mapInfo, this`vRandom, this`mapAddr, this`nNew
      ensures Contents() == AddrManOps.Create(old(Contents()), addr, source, nTimePenalty) && nId == old(nIdCount)
    {
      hide PlacementOf, TableOf;
      nId := nIdCount;
      nIdCount := nIdCount + 1;
      mapInfo := mapInfo[nId := Info(addr.service, addr.nServices, addr.nTime, source, 0, 0, 0, 0, false, -1)];
      mapAddr := mapAddr[addr.service.addr := nId];
      mapInfo := mapInfo[nId := mapInfo[nId].(nRandomPos := |vRandom|)];
      vRandom := vRandom + [nId];
      mapInfo := mapInfo[nId := mapInfo[nId].(nTime := ToUint32(NonNegative(mapInfo[nId].nTime - nTimePenalty)))];
      nNew := nNew + 1;
    }

    /** Update a known entry, and decide whether it gets another reference. */
    method Refresh(nId: int, addr: Address, nTimePenalty: int, now: int, random: nat) returns (wants: bool)
      requires Shape() && nId in mapInfo
      modifies this`mapInfo
      ensures var info := Refreshed(env, old(mapInfo)[nId], addr, nTimePenalty, now);
        && Contents() == old(Contents()).(mapInfo := old(mapInfo)[nId := info])
        && wants == WantsReference(info, addr, random)
    {
      hide PlacementOf, TableOf;
      var fCurrentlyOnline := now - addr.nTime < 24 * 60 * 60;
      var nUpdateInterval := if fCurrentlyOnline then 60 * 60 else 24 * 60 * 60;
      if addr.nTime != 0 && (mapInfo[nId].nTime == 0 || mapInfo[nId].nTime < addr.nTime - nUpdateInterval - nTimePenalty) {
        mapInfo := mapInfo[nId := mapInfo[nId].(nTime := ToUint32(NonNegative(addr.nTime - nTimePenalty)))];
      }
      mapInfo := mapInfo[nId := mapInfo[nId].(nServices := env.orBits(mapInfo[nId].nServices, addr.nServices))];
      var info := mapInfo[nId];
      if addr.nTime == 0 || (info.nTime != 0 && addr.nTime <= info.nTime) {
        return false;
      }
      if info.fInTried {
        return false;
      }
      if info.nRefCount == NEW_BUCKETS_PER_ADDRESS {
        return false;
      }
      var nFactor, n := 1, 0;
      while n < info.nRefCount
        invariant 0 <= n && (n <= info.nRefCount || n == 0) && nFactor == Pow(2, n)
      {
        nFactor := nFactor * 2;
        n := n + 1;
      }
      wants := !(nFactor > 1 && random % nFactor != 0);
    }

    /** Whether the occupant of a new slot, if any, gives way to an entry. */
    method MayInsert(nId: int, nUBucket: nat, nUBucketPos: nat, now: int) returns (fInsert: bool)
      requires Shape() && nUBucket < NEW_BUCKET_COUNT && nUBucketPos < BUCKET_SIZE && nId in mapInfo
      requires NewTabled(Contents().place, mapInfo, TableOf(vvNew))
      ensures fInsert == GivesWay(Contents(), Slot(nUBucket, nUBucketPos), nId, now)
    {
      hide PlacementOf, TableOf, NewTabled, IsTerrible;
      CellRead(vvNew, nUBucket, nUBucketPos);
      fInsert := vvNew[nUBucket, nUBucketPos] == -1;
      if !fInsert {
        OccupantIsNew(Contents().place, mapInfo, TableOf(vvNew), Slot(nUBucket, nUBucketPos));
        var infoExisting := mapInfo[vvNew[nUBucket, nUBucketPos]];
        if IsTerrible(infoExisting, now) || (infoExisting.nRefCount > 1 && mapInfo[nId].nRefCount == 0) {
          fInsert := true;
        }
      }
    }

    /** Put an entry into a new slot in place of whatever is there. */
    method Insert(nId: int, nUBucket: nat, nUBucketPos: nat, ghost limbo: set<int>)
      requires Shape() && Partial(Contents(), limbo, 0) && nUBucket < NEW_BUCKET_COUNT && nUBucketPos < BUCKET_SIZE
      requires nId in mapInfo && vvNew[nUBucket, nUBucketPos] != nId && nId != -1
      modifies this`mapInfo, this`vRandom, this`mapAddr, this`nNew, vvNew
      ensures var s1 := AddrManState.ClearNew(old(Contents()), Slot(nUBucket, nUBucketPos));
        && nId in s1.mapInfo
        && Contents() == PutNew(s1, Slot(nUBucket, nUBucketPos), nId, s1.mapInfo[nId].nRefCount + 1)
    {
      hide PlacementOf, TableOf, RandomLinked, AddrLinked, Referenced, Stamped, TriedTabled, NewTabled, News, Trieds,
        AddrManState.ClearNew;
      CellRead(vvNew, nUBucket, nUBucketPos);
      ClearNewKeeps(Contents(), Slot(nUBucket, nUBucketPos), limbo, 0);
      ClearNew(nUBucket, nUBucketPos, limbo, 0);
      PutBack(nId, nUBucket, nUBucketPos, mapInfo[nId].nRefCount + 1);
    }

    /** Give an entry the new slot its source hashes to, or drop it when it has none. */
    method Place(nId: int, source: NetAddr, now: int, ghost limbo: set<int>)
      requires Shape() && Partial(Contents(), limbo, 0) && nId in mapInfo && !mapInfo[nId].fInTried
      modifies this`mapInfo, this`vRandom, this`mapAddr, this`nNew, vvNew
      ensures var s := old(Contents());
        Contents() == AddrManOps.Place(s, nId, s.place.SourceSlot(s.mapInfo[nId].service, source), now)
    {
      KnownId(Contents(), nId);
      hide PlacementOf, TableOf, RandomLinked, AddrLinked, Referenced, Stamped, TriedTabled, NewTabled, News, Trieds,
        AddrManState.ClearNew, AddrManState.Delete, GivesWay;
      var nUBucket := NewBucket(mapInfo[nId].service, source);
      var nUBucketPos := NewPos(mapInfo[nId].service, nUBucket);
      CellRead(vvNew, nUBucket, nUBucketPos);
      if vvNew[nUBucket, nUBucketPos] != nId {
        var fInsert := MayInsert(nId, nUBucket, nUBucketPos, now);
        if fInsert {
          Insert(nId, nUBucket, nUBucketPos, limbo);
        } else if mapInfo[nId].nRefCount == 0 {
          Delete(nId);
        }
      }
    }

    /** Bring a random entry of the rest of vRandom to position n. */
    method Draw(n: nat, nRndPos: nat, ghost now: int) returns (ai: Info)
      requires Shape() && Consistent(Contents()) && n <= nRndPos < |vRandom|
      modifies this`mapInfo, this`vRandom
      ensures Contents() == AddrManState.SwapRandom(old(Contents()), n, nRndPos) && Consistent(Contents())
      ensures |vRandom| == |old(vRandom)| && vRandom[n] in mapInfo && ai == mapInfo[vRandom[n]]
      ensures SameRecords(old(mapInfo), mapInfo)
    {
      hide PlacementOf, TableOf, RandomLinked, AddrLinked, Referenced, Stamped, TriedTabled, NewTabled, News, Trieds,
        Same, Selected, AddrManState.SwapRandom, AddressOf;
      ghost var m := mapInfo;
      SwapPick(Contents(), n, nRndPos, now);
      SwapRandom(n, nRndPos);
      SameAddresses(m, mapInfo);
      AtPosition(mapInfo, vRandom, n);
      ai := mapInfo[vRandom[n]];
    }

    /** GetAddr_: `random(n)` is the random source of step n. */
    method GetAddr(now: int, random: nat -> nat) returns (vAddr: seq<Address>, ghost picked: seq<int>)
      requires Shape() && Consistent(Contents())
      modifies this`mapInfo, this`vRandom
      ensures var r := AddrManOps.GetAddr(old(Contents()), 0, GetAddrLimit(|old(vRandom)|), [], now, random);
        Contents() == r.state && picked == r.picked
      ensures Consistent(Contents()) && Copies(mapInfo, picked, vAddr)
    {
      hide PlacementOf, TableOf, Partial, Consistent, GetAddrLimit, IsTerrible, RandomInt, AddrManState.SwapRandom,
        AddressOf, AddrManOps.GetAddr, SameRecords;
      ghost var s := Contents();
      var nNodes := GetAddrLimit(|vRandom|);
      vAddr, picked := [], [];
      var n := 0;
      while n < |vRandom| && |vAddr| < nNodes
        invariant n <= |vRandom| && Consistent(Contents()) && Copies(mapInfo, picked, vAddr)
        invariant AddrManOps.GetAddr(Contents(), n, nNodes, picked, now, random)
                  == AddrManOps.GetAddr(s, 0, nNodes, [], now, random)
        decreases |vRandom| - n
      {
        ghost var s0 := Contents();
        var ai := Draw(n, n + RandomInt(random(n), |vRandom| - n), now);
        CopiesStay(s0.mapInfo, mapInfo, picked, vAddr);
        GetAddrStep(s0, n, nNodes, picked, now, random);
        if !IsTerrible(ai, now) {
          vAddr, picked := vAddr + [AddressOf(ai)], picked + [vRandom[n]];
        }
        n := n + 1;
      }
      GetAddrStop(Contents(), n, nNodes, picked, now, random);
    }
  }

  function AddressOf(info: Info): Address { Address(info.service, info.nServices, info.nTime) }

  lemma SameAddresses(m: map<int, Info>, m': map<int, Info>)
    requires Same(m, m')
    ensures SameRecords(m, m')
  {
  }

  ghost predicate SameRecords(m: map<int, Info>, m': map<int, Info>) {
    forall id | id in m :: id in m' && AddressOf(m'[id]) == AddressOf(m[id])
  }

  /** The addresses of a list of entries. */
  ghost predicate Copies(m: map<int, Info>, ids: seq<int>, addrs: seq<Address>) {
    |addrs| == |ids| && forall i | 0 <= i < |ids| :: var id := ids[i]; id in m && addrs[i] == AddressOf(m[id])
  }

  lemma CopiesStay(m: map<int, Info>, m': map<int, Info>, ids: seq<int>, addrs: seq<Address>)
    requires Copies(m, ids, addrs) && SameRecords(m, m')
    ensures Copies(m', ids, addrs)
  {
  }

  lemma GetAddrStep(s: State, n: nat, limit: nat, picked: seq<int>, now: int, random: nat -> nat)
    requires n < |s.vRandom| && |picked| < limit
    requires var t := SwapRandom(s, n, n + RandomInt(random(n), |s.vRandom| - n)); t.vRandom[n] in t.mapInfo
    ensures var t := SwapRandom(s, n, n + RandomInt(random(n), |s.vRandom| - n));
      var picked' := if IsTerrible(t.mapInfo[t.vRandom[n]], now) then picked else picked + [t.vRandom[n]];
      AddrManOps.GetAddr(s, n, limit, picked, now, random) == AddrManOps.GetAddr(t, n + 1, limit, picked', now, random)
  {
    hide SwapRandom, IsTerrible, RandomInt;
  }

  lemma GetAddrStop(s: State, n: nat, limit: nat, picked: seq<int>, now: int, random: nat -> nat)
    requires n >= |s.vRandom| || |picked| >= limit
    ensures AddrManOps.GetAddr(s, n, limit, picked, now, random) == Sample(s, picked, n)
  {
  }

  lemma AtPosition(m: map<int, Info>, v: seq<int>, i: nat)
    requires RandomLinked(m, v) && i < |v|
    ensures v[i] in m
  {
  }

  lemma KnownEntry(s: State, a: NetAddr)
    requires AddrLinked(s.mapInfo, s.mapAddr, s.nIdCount) && a in s.mapAddr
    ensures s.mapAddr[a] in s.mapInfo
  {
  }

  /** After the update of a known entry the manager is consistent, and an entry that wants
      another reference may have one. */
  lemma RefreshKeeps(env: Env, s: State, id: int, addr: Address, penalty: int, now: int)
    requires Consistent(s) && id in s.mapInfo
    ensures var info := Refreshed(env, s.mapInfo[id], addr, penalty, now);
      && Consistent(s.(mapInfo := s.mapInfo[id := info]))
      && (!info.fInTried ==> 1 <= info.nRefCount <= NEW_BUCKETS_PER_ADDRESS)
  {
    hide NewTabled, TriedTabled, AddrLinked, RandomLinked, News, Trieds;
    StampKeeps(s, id, Refreshed(env, s.mapInfo[id], addr, penalty, now));
  }

  /** A new entry is in one of its buckets. */
  lemma HasBucket(s: State, id: int) returns (b: nat)
    requires NewTabled(s.place, s.mapInfo, s.vvNew) && Referenced(s.mapInfo, {}) && id in s.mapInfo && !s.mapInfo[id].fInTried
    ensures b < NEW_BUCKET_COUNT
    ensures var sl := s.place.NewSlot(s.mapInfo[id].service, b); sl in s.vvNew && s.vvNew[sl] == id
  {
    assert SlotsOf(s.vvNew, id) != {};
    var sl :| sl in SlotsOf(s.vvNew, id);
    b := sl.bucket;
  }

  /** The table without the slots of an id in the buckets below one. */
  ghost function Left(t: map<Slot, int>, id: int, bucket: nat): map<Slot, int> {
    map sl | sl in t && !(t[sl] == id && sl.bucket < bucket) :: t[sl]
  }

  lemma AllSlotsLeft(p: Placement, m: map<int, Info>, t: map<Slot, int>, id: int)
    requires NewTabled(p, m, t) && id in m
    ensures Left(t, id, 0) == t && m[id := m[id].(nRefCount := |SlotsFrom(t, id, 0)|)] == m
  {
    assert SlotsFrom(t, id, 0) == SlotsOf(t, id);
  }

  lemma KnownId(s: State, id: int)
    requires AddrLinked(s.mapInfo, s.mapAddr, s.nIdCount) && id in s.mapInfo
    ensures 0 <= id
  {
  }

  lemma NoSlotLeft(p: Placement, m: map<int, Info>, t: map<Slot, int>, id: int)
    requires NewTabled(p, m, t)
    ensures Left(t, id, NEW_BUCKET_COUNT) == OthersIn(t, id) && |SlotsFrom(t, id, NEW_BUCKET_COUNT)| == 0
  {
    assert SlotsFrom(t, id, NEW_BUCKET_COUNT) == {};
  }

  lemma LeftOne(t: map<Slot, int>, id: int, bucket: nat, sl: Slot)
    requires sl.bucket == bucket
    requires forall sl' | sl' in t && t[sl'] == id && sl'.bucket == bucket :: sl' == sl
    ensures Left(t, id, bucket + 1) == if sl in t && t[sl] == id then Left(t, id, bucket) - {sl} else Left(t, id, bucket)
    ensures (sl in Left(t, id, bucket) <==> sl in t) && (sl in t ==> Left(t, id, bucket)[sl] == t[sl])
  {
  }

  /** The slots of an id in the buckets from one on. */
  ghost function SlotsFrom(table: map<Slot, int>, id: int, bucket: nat): set<Slot> {
    set sl | sl in table && table[sl] == id && sl.bucket >= bucket
  }

  /** An entry has at most one slot in a bucket: the one it hashes to. */
  lemma OneSlotABucket(p: Placement, m: map<int, Info>, t: map<Slot, int>, id: int, bucket: nat)
    requires NewTabled(p, m, t) && id in m
    ensures var sl := p.NewSlot(m[id].service, bucket);
      && SlotsFrom(t, id, bucket) == SlotsFrom(t, id, bucket + 1) + (if sl in t && t[sl] == id then {sl} else {})
      && |SlotsFrom(t, id, bucket)| == |SlotsFrom(t, id, bucket + 1)| + (if sl in t && t[sl] == id then 1 else 0)
      && (forall sl' | sl' in t && t[sl'] == id && sl'.bucket == bucket :: sl' == sl)
  {
    var sl := p.NewSlot(m[id].service, bucket);
    assert SlotsFrom(t, id, bucket) == SlotsFrom(t, id, bucket + 1) + (if sl in t && t[sl] == id then {sl} else {});
    assert sl !in SlotsFrom(t, id, bucket + 1);
  }

  lemma DropReferenceLinks(s: State, sl: Slot, id: int, limbo: set<int>, uncounted: int)
    requires Partial(s, limbo, uncounted) && sl in s.vvNew && s.vvNew[sl] == id && id in s.mapInfo
    ensures Linked(AddrManState.DropReference(s, sl, id))
  {
    hide NewTabled, TriedTabled, AddrLinked, RandomLinked, Stamped, Referenced, News, Trieds;
    RecountKeepsLinks(s.mapInfo, s.mapAddr, s.nIdCount, s.vRandom, id, s.mapInfo[id].nRefCount - 1);
  }
}
