/** The operations of the address manager as functions on its state, each shown to keep
    the state consistent, and what that means over whole runs. */
module AddrManOps {
  import opened AddrManState
  import opened AddrManLemmas
  import opened Powers

  // ----- Good_

  /** Take the occupant `e` of a tried slot out of the tried table and empty the new slot of
      its own source. */
  function MakeRoom(s: State, sl: Slot, e: int): State {
    if e !in s.mapInfo then s
    else ClearNew(LeaveTried(s, sl, e), s.place.SourceSlot(s.mapInfo[e].service, s.mapInfo[e].source))
  }

  /** Move the occupant of a tried slot back to the new slot of its own source. */
  function Evict(s: State, sl: Slot): State {
    if sl !in s.vvTried then s
    else
      var e := s.vvTried[sl];
      var s2 := MakeRoom(s, sl, e);
      if e !in s2.mapInfo then s2
      else
        var info := s2.mapInfo[e];
        PutNew(s2, s.place.SourceSlot(info.service, info.source), e, 1).(nNew := s2.nNew + 1)
  }

  function MakeTried(s: State, id: int): State {
    if id !in s.mapInfo then s
    else
      var s1 := LeaveNew(s, id);
      var sl := s.place.TriedSlot(s.mapInfo[id].service);
      var s2 := Evict(s1, sl);
      if id !in s2.mapInfo then s2 else PutTried(s2, sl, id)
  }

  /** Up to its position in vRandom, an entry is still the same. */
  ghost predicate Stays(m: map<int, Info>, m': map<int, Info>, id: int) {
    id in m && id in m' && m'[id] == m[id].(nRandomPos := m'[id].nRandomPos)
  }

  lemma MakeRoomKeeps(s: State, sl: Slot, e: int, id: int)
    requires Partial(s, {id}, 1) && sl in s.vvTried && s.vvTried[sl] == e && e in s.mapInfo && e != id
    requires id in s.mapInfo && s.mapInfo[id].nRefCount == 0
    ensures var t := MakeRoom(s, sl, e);
      var target := s.place.SourceSlot(s.mapInfo[e].service, s.mapInfo[e].source);
      && Partial(t, {id} + {e}, 2) && t.vvTried == s.vvTried - {sl} && t.place == s.place && target !in t.vvNew
      && Stays(s.mapInfo, t.mapInfo, id)
      && e in t.mapInfo && t.mapInfo[e] == s.mapInfo[e].(fInTried := false, nRandomPos := t.mapInfo[e].nRandomPos)
      && s.mapInfo[e].nRefCount == 0
  {
    hide NewTabled, TriedTabled, AddrLinked, RandomLinked, Stamped, Referenced, News, Trieds, ClearNew;
    LeaveTriedKeeps(s, sl, e, {id}, 1);
    var s1 := LeaveTried(s, sl, e);
    var target := s.place.SourceSlot(s.mapInfo[e].service, s.mapInfo[e].source);
    ClearNewKeeps(s1, target, {id} + {e}, 2);
    ClearNewSpares(s1, target, e, {id} + {e}, 2);
    ClearNewSpares(s1, target, id, {id} + {e}, 2);
  }

  lemma EvictKeeps(s: State, sl: Slot, id: int)
    requires Partial(s, {id}, 1) && id in s.mapInfo && !s.mapInfo[id].fInTried && s.mapInfo[id].nRefCount == 0
    ensures var t := Evict(s, sl);
      Partial(t, {id}, 1) && t.place == s.place && sl !in t.vvTried && Stays(s.mapInfo, t.mapInfo, id)
  {
    if sl in s.vvTried {
      TriedOccupant(s.place, s.mapInfo, s.vvTried, sl);
      EvictOccupant(s, sl, s.vvTried[sl], id);
    }
  }

  lemma EvictOccupant(s: State, sl: Slot, e: int, id: int)
    requires Partial(s, {id}, 1) && sl in s.vvTried && s.vvTried[sl] == e && e in s.mapInfo && e != id
    requires id in s.mapInfo && s.mapInfo[id].nRefCount == 0
    ensures var t := Evict(s, sl);
      Partial(t, {id}, 1) && t.place == s.place && sl !in t.vvTried && Stays(s.mapInfo, t.mapInfo, id)
  {
    hide NewTabled, TriedTabled, AddrLinked, RandomLinked, Stamped, Referenced, News, Trieds, MakeRoom;
    MakeRoomKeeps(s, sl, e, id);
    var s2 := MakeRoom(s, sl, e);
    var target := s.place.SourceSlot(s.mapInfo[e].service, s.mapInfo[e].source);
    PutNewKeeps(s2, target, e, {id} + {e}, 2);
    assert {id} + {e} - {e} == {id};
    CountOne(PutNew(s2, target, e, 1), {id}, 2);
  }

  lemma CountOne(s: State, limbo: set<int>, uncounted: int)
    requires Partial(s, limbo, uncounted)
    ensures Partial(s.(nNew := s.nNew + 1), limbo, uncounted - 1)
  {
    hide NewTabled, TriedTabled, AddrLinked, RandomLinked, Stamped, Referenced, News, Trieds;
  }

  lemma TriedOccupant(p: Placement, m: map<int, Info>, t: map<Slot, int>, sl: Slot)
    requires TriedTabled(p, m, t) && sl in t
    ensures t[sl] in m && m[t[sl]].fInTried
  {
  }

  lemma MakeTriedKeeps(s: State, id: int)
    requires Consistent(s)
    requires id in s.mapInfo && !s.mapInfo[id].fInTried && s.mapInfo[id].nLastSuccess > 0
    ensures Consistent(MakeTried(s, id))
  {
    hide NewTabled, TriedTabled, AddrLinked, RandomLinked, Stamped, Referenced, News, Trieds, Evict;
    LeaveNewKeeps(s, id);
    var s1 := LeaveNew(s, id);
    var sl := s.place.TriedSlot(s.mapInfo[id].service);
    EvictKeeps(s1, sl, id);
    PutTriedKeeps(Evict(s1, sl), sl, id);
  }

  /** The entry of exactly this address and port. */
  predicate Knows(s: State, svc: Service) {
    svc.addr in s.mapAddr && s.mapAddr[svc.addr] in s.mapInfo && s.mapInfo[s.mapAddr[svc.addr]].service == svc
  }

  function Succeeded(info: Info, nTime: int): Info {
    info.(nLastSuccess := nTime, nLastTry := nTime, nAttempts := 0)
  }

  function Good(s: State, svc: Service, nTime: int): State {
    if !Knows(s, svc) then s
    else
      var id := s.mapAddr[svc.addr];
      var s1 := s.(mapInfo := s.mapInfo[id := Succeeded(s.mapInfo[id], nTime)]);
      if s.mapInfo[id].fInTried then s1 else MakeTried(s1, id)
  }

  /** A new record for an entry that keeps its place everywhere. */
  ghost predicate Restamps(info: Info, info': Info) {
    && info'.service == info.service && info'.fInTried == info.fInTried
    && info'.nRefCount == info.nRefCount && info'.nRandomPos == info.nRandomPos
    && info'.nLastTry >= 0 && info'.nLastSuccess >= 0
    && (info.fInTried ==> info'.nLastSuccess > 0)
  }

  lemma RestampTables(p: Placement, m: map<int, Info>, n: map<Slot, int>, t: map<Slot, int>, id: int, info: Info)
    requires NewTabled(p, m, n) && TriedTabled(p, m, t) && Stamped(m) && id in m && Restamps(m[id], info)
    ensures NewTabled(p, m[id := info], n) && TriedTabled(p, m[id := info], t) && Stamped(m[id := info])
  {
  }

  lemma RestampLinks(m: map<int, Info>, mapAddr: map<NetAddr, int>, nIdCount: int, v: seq<int>, id: int, info: Info)
    requires AddrLinked(m, mapAddr, nIdCount) && RandomLinked(m, v) && id in m && Restamps(m[id], info)
    ensures var m' := m[id := info];
      && AddrLinked(m', mapAddr, nIdCount) && RandomLinked(m', v)
      && News(m') == News(m) && Trieds(m') == Trieds(m)
  {
  }

  lemma RestampCounts(m: map<int, Info>, limbo: set<int>, id: int, info: Info)
    requires Referenced(m, limbo) && id in m && Restamps(m[id], info)
    ensures Referenced(m[id := info], limbo)
  {
  }

  lemma StampKeeps(s: State, id: int, info: Info)
    requires Consistent(s) && id in s.mapInfo && Restamps(s.mapInfo[id], info)
    ensures Consistent(s.(mapInfo := s.mapInfo[id := info]))
  {
    hide NewTabled, TriedTabled, AddrLinked, RandomLinked, Stamped, Referenced, News, Trieds, Restamps;
    RestampTables(s.place, s.mapInfo, s.vvNew, s.vvTried, id, info);
    RestampLinks(s.mapInfo, s.mapAddr, s.nIdCount, s.vRandom, id, info);
    RestampCounts(s.mapInfo, {}, id, info);
  }

  lemma GoodKeeps(s: State, svc: Service, nTime: int)
    requires Consistent(s) && nTime > 0
    ensures Consistent(Good(s, svc, nTime))
  {
    hide NewTabled, TriedTabled, AddrLinked, RandomLinked, Stamped, Referenced, News, Trieds, MakeTried;
    if Knows(s, svc) {
      var id := s.mapAddr[svc.addr];
      StampKeeps(s, id, Succeeded(s.mapInfo[id], nTime));
      var s1 := s.(mapInfo := s.mapInfo[id := Succeeded(s.mapInfo[id], nTime)]);
      if !s.mapInfo[id].fInTried { MakeTriedKeeps(s1, id); }
    }
  }

  // ----- Attempt_ and Connected_

  function Attempt(s: State, svc: Service, nTime: int): State {
    if !Knows(s, svc) then s
    else
      var id := s.mapAddr[svc.addr];
      s.(mapInfo := s.mapInfo[id := s.mapInfo[id].(nLastTry := nTime, nAttempts := s.mapInfo[id].nAttempts + 1)])
  }

  function Connected(s: State, svc: Service, nTime: int): State {
    if !Knows(s, svc) then s
    else
      var id := s.mapAddr[svc.addr];
      if nTime - s.mapInfo[id].nTime > 20 * 60
      then s.(mapInfo := s.mapInfo[id := s.mapInfo[id].(nTime := ToUint32(nTime))])
      else s
  }

  lemma AttemptKeeps(s: State, svc: Service, nTime: int)
    requires Consistent(s) && nTime >= 0
    ensures Consistent(Attempt(s, svc, nTime))
  {
    hide NewTabled, TriedTabled, AddrLinked, RandomLinked, Referenced, News, Trieds;
    if Knows(s, svc) {
      var id := s.mapAddr[svc.addr];
      StampKeeps(s, id, s.mapInfo[id].(nLastTry := nTime, nAttempts := s.mapInfo[id].nAttempts + 1));
    }
  }

  lemma ConnectedKeeps(s: State, svc: Service, nTime: int)
    requires Consistent(s)
    ensures Consistent(Connected(s, svc, nTime))
  {
    hide NewTabled, TriedTabled, AddrLinked, RandomLinked, Referenced, News, Trieds;
    if Knows(s, svc) {
      var id := s.mapAddr[svc.addr];
      StampKeeps(s, id, s.mapInfo[id].(nTime := ToUint32(nTime)));
    }
  }

  // ----- Add_

  function FreshInfo(addr: Address, source: NetAddr, penalty: int, pos: int): Info {
    Info(addr.service, addr.nServices, ToUint32(NonNegative(addr.nTime - penalty)), source, 0, 0, 0, 0, false, pos)
  }

  /** Create an entry for an address that is not known yet; it has no slot so far. */
  function Create(s: State, addr: Address, source: NetAddr, penalty: int): State {
    var id := s.nIdCount;
    s.(nIdCount := id + 1,
       mapInfo := s.mapInfo[id := FreshInfo(addr, source, penalty, |s.vRandom|)],
       mapAddr := s.mapAddr[addr.service.addr := id],
       vRandom := s.vRandom + [id],
       nNew := s.nNew + 1)
  }

  /** The periodic update of the time and the services of a known entry. */
  function Refreshed(env: Env, info: Info, addr: Address, penalty: int, now: int): Info {
    var interval := if now - addr.nTime < 24 * 60 * 60 then 60 * 60 else 24 * 60 * 60;
    var nTime :=
      if addr.nTime != 0 && (info.nTime == 0 || info.nTime < addr.nTime - interval - penalty)
      then ToUint32(NonNegative(addr.nTime - penalty)) else info.nTime;
    info.(nTime := nTime, nServices := env.orBits(info.nServices, addr.nServices))
  }

  /** Whether a refreshed entry may get another reference; `random` is the random source. */
  predicate WantsReference(info: Info, addr: Address, random: nat) {
    && !(addr.nTime == 0 || (info.nTime != 0 && addr.nTime <= info.nTime))
    && !info.fInTried
    && info.nRefCount != NEW_BUCKETS_PER_ADDRESS
    && (info.nRefCount <= 0 || random % Pow(2, info.nRefCount) == 0)
  }

  /** Whether the occupant of a slot gives way to an entry. */
  predicate GivesWay(s: State, sl: Slot, id: int, now: int) {
    sl !in s.vvNew ||
    (s.vvNew[sl] in s.mapInfo && id in s.mapInfo &&
     (IsTerrible(s.mapInfo[s.vvNew[sl]], now) || (s.mapInfo[s.vvNew[sl]].nRefCount > 1 && s.mapInfo[id].nRefCount == 0)))
  }

  /** Give an entry the slot its source hashes to, or drop it when it has none at all. */
  function Place(s: State, id: int, sl: Slot, now: int): State {
    if id !in s.mapInfo || (sl in s.vvNew && s.vvNew[sl] == id) then s
    else if GivesWay(s, sl, id, now) then
      var s1 := ClearNew(s, sl);
      if id in s1.mapInfo then PutNew(s1, sl, id, s1.mapInfo[id].nRefCount + 1) else s1
    else if s.mapInfo[id].nRefCount == 0 then Delete(s, id)
    else s
  }

  function Add(env: Env, s: State, addr: Address, source: NetAddr, penalty: int, now: int, random: nat): State {
    var sl := s.place.SourceSlot(addr.service, source);
    if !env.routable(addr.service.addr) then s
    else if addr.service.addr in s.mapAddr && s.mapAddr[addr.service.addr] in s.mapInfo then
      var id := s.mapAddr[addr.service.addr];
      var info := Refreshed(env, s.mapInfo[id], addr, penalty, now);
      var s1 := s.(mapInfo := s.mapInfo[id := info]);
      if WantsReference(info, addr, random)
      then Place(s1, id, s.place.SourceSlot(info.service, source), now)
      else s1
    else Place(Create(s, addr, source, penalty), s.nIdCount, sl, now)
  }

  /** The value Add_ returns. */
  predicate IsNewcomer(env: Env, s: State, addr: Address) {
    env.routable(addr.service.addr) && addr.service.addr !in s.mapAddr
  }

  lemma PlaceKeeps(s: State, id: int, source: NetAddr, now: int, limbo: set<int>)
    requires Partial(s, limbo, 0) && limbo <= {id} && id in s.mapInfo && !s.mapInfo[id].fInTried
    requires 0 <= s.mapInfo[id].nRefCount < NEW_BUCKETS_PER_ADDRESS
    requires s.mapInfo[id].nRefCount == 0 || limbo == {}
    ensures Consistent(Place(s, id, s.place.SourceSlot(s.mapInfo[id].service, source), now))
  {
    hide NewTabled, TriedTabled, AddrLinked, RandomLinked, Stamped, News, Trieds, ClearNew, Delete, IsTerrible, Referenced;
    var sl := s.place.SourceSlot(s.mapInfo[id].service, source);
    if sl in s.vvNew && s.vvNew[sl] == id {
      OccupantIsNew(s.place, s.mapInfo, s.vvNew, sl);
    } else if GivesWay(s, sl, id, now) {
      ClearNewKeeps(s, sl, limbo, 0);
      PutNewKeeps(ClearNew(s, sl), sl, id, limbo, 0);
      assert limbo - {id} == {};
    } else if s.mapInfo[id].nRefCount == 0 {
      LimboGrows(s, limbo, {id});
      DeleteKeeps(s, id, {id}, 0);
      assert {} + {id} == {id};
      LimboGone(Delete(s, id).mapInfo, {}, id);
    }
  }

  lemma LimboGrows(s: State, limbo: set<int>, limbo': set<int>)
    requires Partial(s, limbo, 0) && limbo <= limbo'
    ensures Partial(s, limbo', 0)
  {
    hide NewTabled, TriedTabled, AddrLinked, RandomLinked, Stamped, News, Trieds;
  }

  lemma CreateLinks(m: map<int, Info>, mapAddr: map<NetAddr, int>, n: int, v: seq<int>, info: Info)
    requires AddrLinked(m, mapAddr, n) && RandomLinked(m, v)
    requires info.service.addr !in mapAddr && info.nRandomPos == |v| && !info.fInTried
    ensures var m' := m[n := info];
      && AddrLinked(m', mapAddr[info.service.addr := n], n + 1) && RandomLinked(m', v + [n])
      && News(m') == News(m) + {n} && n !in News(m) && Trieds(m') == Trieds(m)
  {
    var m', v' := m[n := info], v + [n];
    forall i | 0 <= i < |v'| ensures var id := v'[i]; id in m' && m'[id].nRandomPos == i {}
  }

  lemma CreateTables(p: Placement, m: map<int, Info>, n: map<Slot, int>, t: map<Slot, int>, id: int, info: Info)
    requires NewTabled(p, m, n) && TriedTabled(p, m, t) && Stamped(m) && id !in m
    requires !info.fInTried && info.nRefCount == 0 && info.nLastTry == 0 && info.nLastSuccess == 0
    ensures NewTabled(p, m[id := info], n) && TriedTabled(p, m[id := info], t) && Stamped(m[id := info])
  {
    assert SlotsOf(n, id) == {};
  }

  lemma CreateKeeps(s: State, addr: Address, source: NetAddr, penalty: int)
    requires Consistent(s) && addr.service.addr !in s.mapAddr
    ensures s.nIdCount !in s.mapInfo && Partial(Create(s, addr, source, penalty), {s.nIdCount}, 0)
  {
    var info := FreshInfo(addr, source, penalty, |s.vRandom|);
    assert s.nIdCount !in s.mapInfo;
    CreatePartial(s, addr.service.addr, s.nIdCount, info);
  }

  lemma CreatePartial(s: State, a: NetAddr, id: int, info: Info)
    requires Consistent(s) && a !in s.mapAddr && id == s.nIdCount && id !in s.mapInfo
    requires info.service.addr == a && info.nRandomPos == |s.vRandom|
    requires !info.fInTried && info.nRefCount == 0 && info.nLastTry == 0 && info.nLastSuccess == 0
    ensures Partial(s.(nIdCount := id + 1, mapInfo := s.mapInfo[id := info], mapAddr := s.mapAddr[a := id],
                       vRandom := s.vRandom + [id], nNew := s.nNew + 1), {id}, 0)
  {
    hide NewTabled, TriedTabled, AddrLinked, RandomLinked, Stamped, News, Trieds;
    CreateLinks(s.mapInfo, s.mapAddr, s.nIdCount, s.vRandom, info);
    CreateTables(s.place, s.mapInfo, s.vvNew, s.vvTried, id, info);
  }

  lemma AddKeeps(env: Env, s: State, addr: Address, source: NetAddr, penalty: int, now: int, random: nat)
    requires Consistent(s)
    ensures Consistent(Add(env, s, addr, source, penalty, now, random))
  {
    var a := addr.service.addr;
    if env.routable(a) {
      if a in s.mapAddr {
        AddKnown(env, s, addr, s.mapAddr[a], source, penalty, now, random);
      } else {
        hide NewTabled, TriedTabled, AddrLinked, RandomLinked, Stamped, Referenced, News, Trieds, Place;
        CreateKeeps(s, addr, source, penalty);
        PlaceKeeps(Create(s, addr, source, penalty), s.nIdCount, source, now, {s.nIdCount});
      }
    }
  }

  lemma AddKnown(env: Env, s: State, addr: Address, id: int, source: NetAddr, penalty: int, now: int, random: nat)
    requires Consistent(s) && env.routable(addr.service.addr)
    requires addr.service.addr in s.mapAddr && s.mapAddr[addr.service.addr] == id && id in s.mapInfo
    ensures Consistent(Add(env, s, addr, source, penalty, now, random))
  {
    var old_ := s.mapInfo[id];
    assert !old_.fInTried ==> 1 <= old_.nRefCount <= NEW_BUCKETS_PER_ADDRESS;
    assert old_.nLastTry >= 0 && old_.nLastSuccess >= 0 && (old_.fInTried ==> old_.nLastSuccess > 0);
    hide NewTabled, TriedTabled, AddrLinked, RandomLinked, Stamped, Referenced, News, Trieds, Place;
    var info := Refreshed(env, old_, addr, penalty, now);
    StampKeeps(s, id, info);
    if WantsReference(info, addr, random) {
      PlaceKeeps(s.(mapInfo := s.mapInfo[id := info]), id, source, now, {});
    }
  }

  // ----- GetAddr_

  function GetAddrLimit(size: nat): nat {
    if GETADDR_MAX_PCT * size / 100 > GETADDR_MAX then GETADDR_MAX else GETADDR_MAX_PCT * size / 100
  }

  /** The addresses of the entries listed in `ids`, without the terrible ones. */
  function Selected(m: map<int, Info>, ids: seq<int>, now: int): seq<int> {
    if ids == [] then []
    else
      Pick(m, Selected(m, ids[..|ids| - 1], now), ids[|ids| - 1], now)
  }

  /** What the loop of GetAddr_ has at its end: the state, the entries picked and the index. */
  datatype Sample = Sample(state: State, picked: seq<int>, n: nat)

  /** A random number below a bound, from a random source. */
  function RandomInt(dice: nat, max: nat): (r: nat)
    requires max > 0
    ensures r < max
  {
    dice % max
  }

  /** The loop of GetAddr_ from index n on, with `random(n)` as its n-th random number. */
  function GetAddr(s: State, n: nat, limit: nat, picked: seq<int>, now: int, random: nat -> nat): Sample
    decreases |s.vRandom| - n
  {
    if n >= |s.vRandom| || |picked| >= limit then Sample(s, picked, n)
    else
      var t := SwapRandom(s, n, n + RandomInt(random(n), |s.vRandom| - n));
      GetAddr(t, n + 1, limit, Pick(t.mapInfo, picked, t.vRandom[n], now), now, random)
  }

  function Pick(m: map<int, Info>, picked: seq<int>, id: int, now: int): seq<int> {
    if id in m && !IsTerrible(m[id], now) then picked + [id] else picked
  }

  lemma SelectedNone(m: map<int, Info>, ids: seq<int>, now: int)
    requires ids == []
    ensures Selected(m, ids, now) == []
  {
  }

  lemma SelectedSame(m: map<int, Info>, m': map<int, Info>, ids: seq<int>, now: int)
    requires Same(m, m')
    ensures Selected(m, ids, now) == Selected(m', ids, now)
  {
  }

  lemma {:induction false} SelectedFrom(m: map<int, Info>, ids: seq<int>, now: int)
    requires forall i, j | 0 <= i < j < |ids| :: ids[i] != ids[j]
    ensures var r := Selected(m, ids, now);
      && (forall id | id in r :: id in ids && id in m && !IsTerrible(m[id], now))
      && (forall i, j | 0 <= i < j < |r| :: r[i] != r[j])
  {
    hide IsTerrible;
    if ids != [] {
      var rest, id := ids[..|ids| - 1], ids[|ids| - 1];
      SelectedFrom(m, rest, now);
      forall k | k in Selected(m, rest, now) ensures k != id {
        assert k in rest;
      }
    }
  }

  lemma SwapPick(s: State, n: nat, j: nat, now: int)
    requires Consistent(s) && n <= j < |s.vRandom|
    ensures var t := SwapRandom(s, n, j);
      && Consistent(t) && Same(s.mapInfo, t.mapInfo) && |t.vRandom| == |s.vRandom|
      && Pick(t.mapInfo, Selected(s.mapInfo, s.vRandom[..n], now), t.vRandom[n], now)
         == Selected(t.mapInfo, t.vRandom[..n + 1], now)
  {
    hide NewTabled, TriedTabled, AddrLinked, RandomLinked, Referenced, News, Trieds, Stamped, IsTerrible, Same;
    var t := SwapRandom(s, n, j);
    SwapKeeps(s, n, j);
    PartialTransfer(s, t, {}, 0);
    SelectedSame(s.mapInfo, t.mapInfo, s.vRandom[..n], now);
    assert t.vRandom[..n] == s.vRandom[..n];
    assert t.vRandom[..n + 1][..n] == t.vRandom[..n];
  }

  lemma SameTransitive(m: map<int, Info>, m': map<int, Info>, m'': map<int, Info>)
    requires Same(m, m') && Same(m', m'')
    ensures Same(m, m'')
  {
  }

  lemma {:induction false} GetAddrKeeps(s: State, n: nat, limit: nat, picked: seq<int>, now: int, random: nat -> nat)
    requires Consistent(s) && n <= |s.vRandom| && picked == Selected(s.mapInfo, s.vRandom[..n], now)
    ensures var r := GetAddr(s, n, limit, picked, now, random);
      && Consistent(r.state) && Same(s.mapInfo, r.state.mapInfo) && r.n <= |r.state.vRandom| == |s.vRandom|
      && r.picked == Selected(r.state.mapInfo, r.state.vRandom[..r.n], now)
      && (r.n == |r.state.vRandom| || |r.picked| >= limit)
      && (|picked| <= limit ==> |r.picked| <= limit)
    decreases |s.vRandom| - n
  {
    hide Partial, Selected, Same, IsTerrible, SwapRandom, RandomInt;
    if n >= |s.vRandom| || |picked| >= limit {
      SameReflexive(s.mapInfo);
    } else {
      var j := n + RandomInt(random(n), |s.vRandom| - n);
      var t := SwapRandom(s, n, j);
      SwapPick(s, n, j, now);
      var picked' := Pick(t.mapInfo, picked, t.vRandom[n], now);
      GetAddrKeeps(t, n + 1, limit, picked', now, random);
      SameTransitive(s.mapInfo, t.mapInfo, GetAddr(t, n + 1, limit, picked', now, random).state.mapInfo);
    }
  }

  lemma SameReflexive(m: map<int, Info>)
    ensures Same(m, m)
  {
  }

  /** GetAddr_ returns entries that are distinct, known and not terrible, no more than its
      limit, and fewer than that only if there are no others. */
  lemma GetAddrReturns(s: State, limit: nat, now: int, random: nat -> nat)
    requires Consistent(s)
    ensures var r := GetAddr(s, 0, limit, [], now, random);
      && Consistent(r.state) && Same(s.mapInfo, r.state.mapInfo)
      && |r.picked| <= limit
      && (forall i, j | 0 <= i < j < |r.picked| :: r.picked[i] != r.picked[j])
      && (forall id | id in r.picked :: id in s.mapInfo && !IsTerrible(s.mapInfo[id], now))
      && (|r.picked| < limit ==>
            forall id | id in s.mapInfo && !IsTerrible(s.mapInfo[id], now) :: id in r.picked)
  {
    hide NewTabled, TriedTabled, AddrLinked, RandomLinked, Referenced, News, Trieds, Stamped, Selected, Same, IsTerrible, GetAddr;
    assert [] == Selected(s.mapInfo, s.vRandom[..0], now) by { SelectedNone(s.mapInfo, s.vRandom[..0], now); }
    GetAddrKeeps(s, 0, limit, [], now, random);
    var r := GetAddr(s, 0, limit, [], now, random);
    var m, v := r.state.mapInfo, r.state.vRandom;
    PositionsDiffer(m, v);
    SelectedFrom(m, v[..r.n], now);
    SameTerrible(s.mapInfo, m, now);
    if |r.picked| < limit {
      assert v[..r.n] == v;
      forall id | id in s.mapInfo && !IsTerrible(s.mapInfo[id], now) ensures id in r.picked {
        assert id in m && id in v;
        SelectedAll(m, v, id, now);
      }
    }
  }

  lemma SameTerrible(m: map<int, Info>, m': map<int, Info>, now: int)
    requires Same(m, m')
    ensures forall id | id in m :: id in m' && (IsTerrible(m[id], now) <==> IsTerrible(m'[id], now))
    ensures forall id | id in m' :: id in m
  {
  }

  lemma PositionsDiffer(m: map<int, Info>, v: seq<int>)
    requires RandomLinked(m, v)
    ensures forall i, j | 0 <= i < j < |v| :: v[i] != v[j]
    ensures forall id | id in m :: id in v
  {
  }

  lemma {:induction false} SelectedAll(m: map<int, Info>, ids: seq<int>, id: int, now: int)
    requires id in ids && id in m && !IsTerrible(m[id], now)
    ensures id in Selected(m, ids, now)
  {
    if ids[|ids| - 1] != id { SelectedAll(m, ids[..|ids| - 1], id, now); }
  }

  // ----- whole runs

  datatype Op =
    | AddOp(address: Address, source: NetAddr, penalty: int, now: int, dice: nat)
    | GoodOp(svc: Service, nTime: int)
    | AttemptOp(svc: Service, nTime: int)
    | ConnectedOp(svc: Service, nTime: int)
    | GetAddrOp(now: int, random: nat -> nat)

  /** Timestamps are positive. */
  predicate Timely(op: Op) { (op.GoodOp? || op.AttemptOp?) ==> op.nTime > 0 }

  function Step(env: Env, s: State, op: Op): State {
    match op
    case AddOp(a, source, penalty, now, dice) => Add(env, s, a, source, penalty, now, dice)
    case GoodOp(svc, nTime) => Good(s, svc, nTime)
    case AttemptOp(svc, nTime) => Attempt(s, svc, nTime)
    case ConnectedOp(svc, nTime) => Connected(s, svc, nTime)
    case GetAddrOp(now, random) => GetAddr(s, 0, GetAddrLimit(|s.vRandom|), [], now, random).state
  }

  function Run(env: Env, place: Placement, ops: seq<Op>): State {
    if ops == [] then Cleared(place) else Step(env, Run(env, place, ops[..|ops| - 1]), ops[|ops| - 1])
  }

  lemma StepKeeps(env: Env, s: State, op: Op)
    requires Consistent(s) && Timely(op)
    ensures Consistent(Step(env, s, op))
  {
    hide NewTabled, TriedTabled, AddrLinked, RandomLinked, Referenced, News, Trieds, Stamped, Add, Good, Attempt, Connected, GetAddr;
    match op
    case AddOp(a, source, penalty, now, dice) => AddKeeps(env, s, a, source, penalty, now, dice);
    case GoodOp(svc, nTime) => GoodKeeps(s, svc, nTime);
    case AttemptOp(svc, nTime) => AttemptKeeps(s, svc, nTime);
    case ConnectedOp(svc, nTime) => ConnectedKeeps(s, svc, nTime);
    case GetAddrOp(now, random) => GetAddrReturns(s, GetAddrLimit(|s.vRandom|), now, random);
  }

  /** Whatever is added, tried and asked for, in any order and with any random numbers, the
      manager is consistent. */
  lemma {:induction false} RunConsistent(env: Env, place: Placement, ops: seq<Op>)
    requires forall op | op in ops :: Timely(op)
    ensures Consistent(Run(env, place, ops))
  {
    if ops == [] {
      assert News(map[]) == {} && Trieds(map[]) == {};
    } else {
      RunConsistent(env, place, ops[..|ops| - 1]);
      StepKeeps(env, Run(env, place, ops[..|ops| - 1]), ops[|ops| - 1]);
    }
  }
}
