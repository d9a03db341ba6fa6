/** What one operation of the address manager does to the other entries: the counters are
    exact, and an operation forgets at most one entry. */
module AddrManEffects {
  import opened AddrManState
  import opened AddrManLemmas
  import opened AddrManOps
  import opened Sets

  // ----- what consistency says about the counters

  lemma NothingIn(v: seq<int>, ids: set<int>)
    requires v == [] && forall id | id in ids :: id in v
    ensures ids == {}
  {
    if ids != {} {
      var id := Choose(ids);
      assert false;
    }
  }

  lemma {:induction false} DistinctSize(v: seq<int>, ids: set<int>)
    requires forall i, j | 0 <= i < j < |v| :: v[i] != v[j]
    requires forall id | id in ids :: id in v
    requires forall i | 0 <= i < |v| :: v[i] in ids
    ensures |v| == |ids|
  {
    if v == [] {
      NothingIn(v, ids);
    } else {
      var last := v[|v| - 1];
      DistinctSize(v[..|v| - 1], ids - {last});
    }
  }

  /** The vector holds every entry once, so its size is the sum of the two counters. */
  lemma SizeIsSum(s: State)
    requires Consistent(s)
    ensures |s.vRandom| == s.nTried + s.nNew
  {
    hide NewTabled, TriedTabled, AddrLinked, Referenced, Stamped;
    PositionsDiffer(s.mapInfo, s.vRandom);
    var m := s.mapInfo;
    assert m.Keys == News(m) + Trieds(m) && News(m) * Trieds(m) == {};
    DistinctSize(s.vRandom, m.Keys);
  }

  /** The tried counter counts occupied slots: no two tried entries share one. */
  lemma TriedSlotsCounted(s: State)
    requires Consistent(s)
    ensures s.nTried == |s.vvTried|
  {
    hide NewTabled, AddrLinked, RandomLinked, Referenced, Stamped;
    var slots := s.vvTried.Keys;
    var m, p := s.mapInfo, s.place;
    SlotsOfTried(p, m, s.vvTried, Trieds(m));
    assert slots == set sl | sl in s.vvTried && s.vvTried[sl] in Trieds(m);
  }

  lemma {:induction false} SlotsOfTried(p: Placement, m: map<int, Info>, t: map<Slot, int>, ids: set<int>)
    requires TriedTabled(p, m, t) && ids <= Trieds(m)
    ensures |ids| == |set sl | sl in t && t[sl] in ids|
  {
    if ids == {} {
      assert (set sl | sl in t && t[sl] in ids) == {};
    } else {
      var id := Choose(ids);
      SlotsOfTried(p, m, t, ids - {id});
      var sl := p.TriedSlot(m[id].service);
      assert (set x | x in t && t[x] in ids) == (set x | x in t && t[x] in ids - {id}) + {sl};
    }
  }

  // ----- what clearing a slot does

  /** Every entry but one is untouched, up to its position in vRandom. */
  ghost predicate OthersStay(s: State, t: State, except: set<int>) {
    forall id | id in s.mapInfo && id !in except :: Stays(s.mapInfo, t.mapInfo, id)
  }

  /** The entry dislodged from a slot loses one reference and is forgotten with its last one. */
  ghost predicate LosesOne(m: map<int, Info>, m': map<int, Info>, id: int) {
    id in m && if m[id].nRefCount == 1 then id !in m' else id in m' && m'[id].nRefCount == m[id].nRefCount - 1
  }

  lemma ClearNewEffect(s: State, sl: Slot, limbo: set<int>, uncounted: int)
    requires Partial(s, limbo, uncounted)
    ensures var t := ClearNew(s, sl);
      && t.vvTried == s.vvTried && t.vvNew == s.vvNew - {sl} && t.place == s.place
      && (forall id | id in t.mapInfo :: id in s.mapInfo)
      && (sl in s.vvNew ==> OthersStay(s, t, {s.vvNew[sl]}) && LosesOne(s.mapInfo, t.mapInfo, s.vvNew[sl]))
      && (sl !in s.vvNew ==> OthersStay(s, t, {}))
  {
    hide NewTabled, TriedTabled, AddrLinked, RandomLinked, Stamped, Referenced, News, Trieds, ClearNew;
    ClearNewKeeps(s, sl, limbo, uncounted);
  }

  /** Entries that stay through a step stay through it together with changes to one entry
      before and after. */
  lemma StayAround(m: map<int, Info>, e: int, before: Info, m2: map<int, Info>, after: Info, except: set<int>, all: set<int>)
    requires forall id | id in m[e := before] && id !in except :: Stays(m[e := before], m2, id)
    requires all == except + {e}
    ensures forall id | id in m && id !in all :: Stays(m, m2[e := after], id)
  {
    forall id: int | id in m && id !in all ensures Stays(m, m2[e := after], id) {
      assert id !in except && id != e;
      assert Stays(m[e := before], m2, id);
    }
  }

  lemma WithoutStays(m: map<int, Info>, m': map<int, Info>, gone: int)
    requires Without(m, m', gone)
    ensures forall k: int | k in m && k != gone :: Stays(m, m', k)
  {
  }

  // ----- Add_

  /** Two new tables agree outside one slot. */
  ghost predicate SlotsStay(s: State, t: State, sl: Slot) {
    forall x | x != sl :: (x in s.vvNew <==> x in t.vvNew) && (x in s.vvNew ==> s.vvNew[x] == t.vvNew[x])
  }

  /** The occupant of a slot that is asked for stays as it is or loses one reference. */
  ghost predicate OccupantAfter(s: State, t: State, e: int) {
    Stays(s.mapInfo, t.mapInfo, e) || LosesOne(s.mapInfo, t.mapInfo, e)
  }

  /** Who is in a new slot. */
  ghost function Occupant(s: State, sl: Slot): set<int> { if sl in s.vvNew then {s.vvNew[sl]} else {} }

  /** Adding an address writes to one new slot at most and never touches the tried table; the
      only entries it changes are the address's own and the one that was in that slot, which
      loses one reference or nothing. An address that was known stays known. */
  lemma PlaceEffect(s: State, id: int, sl: Slot, now: int, limbo: set<int>)
    requires Partial(s, limbo, 0) && id in s.mapInfo && !s.mapInfo[id].fInTried
    ensures var t := Place(s, id, sl, now);
      && t.vvTried == s.vvTried
      && SlotsStay(s, t, sl)
      && OthersStay(s, t, {id} + Occupant(s, sl))
      && (sl in s.vvNew && s.vvNew[sl] != id ==> OccupantAfter(s, t, s.vvNew[sl]))
      && (if sl in s.vvNew && s.vvNew[sl] == id then t == s
          else if GivesWay(s, sl, id, now) then
            && sl in t.vvNew && t.vvNew[sl] == id && id in t.mapInfo
            && t.mapInfo[id] == s.mapInfo[id].(nRefCount := s.mapInfo[id].nRefCount + 1, nRandomPos := t.mapInfo[id].nRandomPos)
          else
            && (id in t.mapInfo <==> s.mapInfo[id].nRefCount != 0) && t.vvNew == s.vvNew)
  {
    hide NewTabled, TriedTabled, AddrLinked, RandomLinked, Stamped, Referenced, News, Trieds, ClearNew, Delete, GivesWay;
    if sl in s.vvNew { OccupantIsNew(s.place, s.mapInfo, s.vvNew, sl); }
    if sl in s.vvNew && s.vvNew[sl] == id {
    } else if GivesWay(s, sl, id, now) {
      ClearNewEffect(s, sl, limbo, 0);
    } else if s.mapInfo[id].nRefCount == 0 {
      DeleteKeeps(s, id, limbo, 0);
      WithoutStays(s.mapInfo, Delete(s, id).mapInfo, id);
    }
  }

  /** Placing an entry that has no slot yet: it gets the slot, or it is gone with its address. */
  lemma PlaceFirst(s: State, id: int, sl: Slot, now: int)
    requires Partial(s, {id}, 0) && id in s.mapInfo && !s.mapInfo[id].fInTried && s.mapInfo[id].nRefCount == 0
    ensures var t := Place(s, id, sl, now);
      && (sl in s.vvNew ==> s.vvNew[sl] != id)
      && t.vvTried == s.vvTried && SlotsStay(s, t, sl)
      && OthersStay(s, t, {id} + Occupant(s, sl))
      && (sl in s.vvNew ==> OccupantAfter(s, t, s.vvNew[sl]))
      && if id in t.mapInfo then
           && sl in t.vvNew && t.vvNew[sl] == id
           && t.mapInfo[id] == s.mapInfo[id].(nRefCount := 1, nRandomPos := t.mapInfo[id].nRandomPos)
         else
           t.vvNew == s.vvNew && t.mapAddr == s.mapAddr - {s.mapInfo[id].service.addr}
  {
    UnreferencedHasNoSlot(s.place, s.mapInfo, s.vvNew, id);
    hide NewTabled, TriedTabled, AddrLinked, RandomLinked, Stamped, Referenced, News, Trieds, ClearNew, Delete, GivesWay,
      OccupantAfter, SlotsStay, OthersStay, Occupant;
    PlaceEffect(s, id, sl, now, {id});
    if !GivesWay(s, sl, id, now) { DeleteKeeps(s, id, {id}, 0); }
  }

  /** A newcomer is entered with what was told about it and one reference, in the slot of its
      source, or it is not entered at all; the tried table and the other new slots stay. */
  lemma NewcomerEffect(env: Env, s: State, addr: Address, source: NetAddr, penalty: int, now: int, random: nat)
    requires Consistent(s) && IsNewcomer(env, s, addr)
    ensures var t := Add(env, s, addr, source, penalty, now, random); var id := s.nIdCount;
      var sl := s.place.SourceSlot(addr.service, source);
      && t.vvTried == s.vvTried && SlotsStay(s, t, sl)
      && OthersStay(s, t, Occupant(s, sl))
      && (sl in s.vvNew ==> OccupantAfter(s, t, s.vvNew[sl]))
      && if id in t.mapInfo then
           && sl in t.vvNew && t.vvNew[sl] == id && addr.service.addr in t.mapAddr && t.mapAddr[addr.service.addr] == id
           && t.mapInfo[id] == FreshInfo(addr, source, penalty, t.mapInfo[id].nRandomPos).(nRefCount := 1)
         else
           t.vvNew == s.vvNew && addr.service.addr !in t.mapAddr
  {
    CreateKeeps(s, addr, source, penalty);
    AddKeeps(env, s, addr, source, penalty, now, random);
    var s1, id, sl := Create(s, addr, source, penalty), s.nIdCount, s.place.SourceSlot(addr.service, source);
    var t := Place(s1, id, sl, now);
    hide Consistent, Partial, Place, OthersStay, SlotsStay, LosesOne, Stays, Placement.SourceSlot;
    PlaceFirst(s1, id, sl, now);
    if id in t.mapInfo { KnownHere(t, id); }
    SlotsSame(s, s1, t, sl);
    CreatedStay(s, t, addr, source, penalty, Occupant(s, sl));
    if sl in s.vvNew { OccupantKnown(s, sl); CreatedOccupant(s, t, addr, source, penalty, s.vvNew[sl]); }
  }

  lemma OccupantKnown(s: State, sl: Slot)
    requires Consistent(s) && sl in s.vvNew
    ensures s.vvNew[sl] in s.mapInfo
  {
    OccupantIsNew(s.place, s.mapInfo, s.vvNew, sl);
  }

  lemma CreatedOccupant(s: State, t: State, addr: Address, source: NetAddr, penalty: int, e: int)
    requires s.nIdCount !in s.mapInfo && e in s.mapInfo && OccupantAfter(Create(s, addr, source, penalty), t, e)
    ensures OccupantAfter(s, t, e)
  {
  }

  lemma KnownHere(t: State, id: int)
    requires Consistent(t) && id in t.mapInfo
    ensures t.mapInfo[id].service.addr in t.mapAddr && t.mapAddr[t.mapInfo[id].service.addr] == id
  {
  }

  lemma SlotsSame(s: State, s1: State, t: State, sl: Slot)
    requires SlotsStay(s1, t, sl) && s1.vvNew == s.vvNew
    ensures SlotsStay(s, t, sl)
  {
  }

  lemma CreatedStay(s: State, t: State, addr: Address, source: NetAddr, penalty: int, except: set<int>)
    requires s.nIdCount !in s.mapInfo && OthersStay(Create(s, addr, source, penalty), t, {s.nIdCount} + except)
    ensures OthersStay(s, t, except)
  {
    var s1 := Create(s, addr, source, penalty);
    forall id | id in s.mapInfo && id !in except ensures Stays(s.mapInfo, t.mapInfo, id) {
      assert id != s.nIdCount && id in s1.mapInfo && Stays(s1.mapInfo, t.mapInfo, id);
    }
  }

  /** A report about a known address never sets its time back. */
  lemma TimeForward(env: Env, info: Info, addr: Address, penalty: int, now: int)
    requires addr.nTime < 0x1_0000_0000 && penalty >= 0
    ensures info.nTime <= Refreshed(env, info, addr, penalty, now).nTime <= if addr.nTime > info.nTime then addr.nTime else info.nTime
  {
    assert forall x | 0 <= x < 0x1_0000_0000 :: ToUint32(x) == x;
  }

  // ----- Good_

  /** Making an entry tried: it is in its tried slot; whoever was there is a new entry again,
      with one reference, in the slot of its own source; every other tried slot is as before;
      and nobody is forgotten but the entry that was in that new slot, with its last
      reference. */
  lemma MakeTriedEffect(s: State, id: int)
    requires Consistent(s) && id in s.mapInfo && !s.mapInfo[id].fInTried && s.mapInfo[id].nLastSuccess > 0
    ensures var t := MakeTried(s, id); var sl := s.place.TriedSlot(s.mapInfo[id].service);
      && id in t.mapInfo && t.mapInfo[id] == s.mapInfo[id].(fInTried := true, nRefCount := 0, nRandomPos := t.mapInfo[id].nRandomPos)
      && t.vvTried == s.vvTried[sl := id]
      && (sl !in s.vvTried ==> t.vvNew == OthersIn(s.vvNew, id) && OthersStay(s, t, {id}))
      && (sl in s.vvTried ==>
            var e := s.vvTried[sl];
            && e in s.mapInfo && e in t.mapInfo && !t.mapInfo[e].fInTried && t.mapInfo[e].nRefCount == 1
            && var target := s.place.SourceSlot(s.mapInfo[e].service, s.mapInfo[e].source);
            && var others := OthersIn(s.vvNew, id);
            && t.vvNew == others[target := e]
            && (target !in others ==> OthersStay(s, t, {id, e}))
            && (target in others ==> OthersStay(s, t, {id, e, others[target]}) && LosesOne(s.mapInfo, t.mapInfo, others[target])))
  {
    hide NewTabled, TriedTabled, AddrLinked, RandomLinked, Stamped, Referenced, News, Trieds, ClearNew, OthersIn, Evict;
    LeaveNewKeeps(s, id);
    var s1 := LeaveNew(s, id);
    var sl := s.place.TriedSlot(s.mapInfo[id].service);
    EvictKeeps(s1, sl, id);
    EvictEffect(s1, sl, id);
    var others, s2 := OthersIn(s.vvNew, id), Evict(s1, sl);
    var t := MakeTried(s, id);
    if sl in s1.vvTried {
      var e := s1.vvTried[sl];
      var target := s.place.SourceSlot(s1.mapInfo[e].service, s1.mapInfo[e].source);
      var x := if target in others then others[target] else e;
      if target in others { NotIn(s.vvNew, id, target); }
      assert OthersStay(s1, s2, {e, x});
      StayAround(s.mapInfo, id, s1.mapInfo[id], s2.mapInfo, t.mapInfo[id], {e, x}, {id, e, x});
      assert OthersStay(s, t, {id, e, x});
    } else {
      StayAround(s.mapInfo, id, s1.mapInfo[id], s2.mapInfo, t.mapInfo[id], {}, {id});
    }
  }

  /** A known address that was marked good is tried, in its own tried slot, and a success. */
  lemma GoodEffect(s: State, svc: Service, nTime: int)
    requires Consistent(s) && Knows(s, svc) && nTime > 0
    ensures var t := Good(s, svc, nTime); var id := s.mapAddr[svc.addr]; var sl := s.place.TriedSlot(svc);
      && id in t.mapInfo && t.mapInfo[id].fInTried && t.mapInfo[id].service == svc
      && t.mapInfo[id].nLastSuccess == t.mapInfo[id].nLastTry == nTime && t.mapInfo[id].nAttempts == 0
      && t.mapInfo[id].nTime == s.mapInfo[id].nTime
      && t.vvTried == s.vvTried[sl := id]
  {
    var id := s.mapAddr[svc.addr];
    var info := Succeeded(s.mapInfo[id], nTime);
    hide Linked, NewTabled, Referenced, News, Trieds, MakeTried;
    if s.mapInfo[id].fInTried {
      assert s.vvTried[s.place.TriedSlot(svc) := id] == s.vvTried;
    } else {
      hide Tabled;
      StampKeeps(s, id, info);
      MakeTriedEffect(s.(mapInfo := s.mapInfo[id := info]), id);
    }
  }

  lemma NotIn(t: map<Slot, int>, id: int, sl: Slot)
    requires sl in OthersIn(t, id)
    ensures OthersIn(t, id)[sl] != id && sl in t && t[sl] == OthersIn(t, id)[sl]
  {
  }

  lemma EvictEffect(s: State, sl: Slot, id: int)
    requires Partial(s, {id}, 1) && id in s.mapInfo && !s.mapInfo[id].fInTried && s.mapInfo[id].nRefCount == 0
    ensures var t := Evict(s, sl);
      if sl !in s.vvTried then t == s
      else
        var e := s.vvTried[sl];
        && e in s.mapInfo && s.mapInfo[e].fInTried && e in t.mapInfo && !t.mapInfo[e].fInTried && t.mapInfo[e].nRefCount == 1
        && t.vvTried == s.vvTried - {sl}
        && var target := s.place.SourceSlot(s.mapInfo[e].service, s.mapInfo[e].source);
        && t.vvNew == s.vvNew[target := e]
        && (target !in s.vvNew ==> OthersStay(s, t, {e}))
        && (target in s.vvNew ==>
              s.vvNew[target] != e && OthersStay(s, t, {e, s.vvNew[target]}) && LosesOne(s.mapInfo, t.mapInfo, s.vvNew[target]))
  {
    if sl in s.vvTried {
      TriedOccupant(s.place, s.mapInfo, s.vvTried, sl);
      EvictOccupantEffect(s, sl, s.vvTried[sl], id);
    }
  }

  lemma EvictOccupantEffect(s: State, sl: Slot, e: int, id: int)
    requires Partial(s, {id}, 1) && sl in s.vvTried && s.vvTried[sl] == e && e in s.mapInfo && s.mapInfo[e].fInTried
    requires e != id && id in s.mapInfo && s.mapInfo[id].nRefCount == 0
    ensures var t := Evict(s, sl); var target := s.place.SourceSlot(s.mapInfo[e].service, s.mapInfo[e].source);
      && e in t.mapInfo && !t.mapInfo[e].fInTried && t.mapInfo[e].nRefCount == 1
      && t.vvTried == s.vvTried - {sl} && t.vvNew == s.vvNew[target := e]
      && (target !in s.vvNew ==> OthersStay(s, t, {e}))
      && (target in s.vvNew ==>
            s.vvNew[target] != e && OthersStay(s, t, {e, s.vvNew[target]}) && LosesOne(s.mapInfo, t.mapInfo, s.vvNew[target]))
  {
    hide NewTabled, TriedTabled, AddrLinked, RandomLinked, Stamped, Referenced, News, Trieds, ClearNew;
    MakeRoomKeeps(s, sl, e, id);
    LeaveTriedKeeps(s, sl, e, {id}, 1);
    var s1 := LeaveTried(s, sl, e);
    var target := s.place.SourceSlot(s.mapInfo[e].service, s.mapInfo[e].source);
    ClearNewEffect(s1, target, {id} + {e}, 2);
    UnreferencedHasNoSlot(s.place, s.mapInfo, s.vvNew, e);
    var s2 := ClearNew(s1, target);
    assert s2.vvNew[target := e] == s.vvNew[target := e];
    var t := Evict(s, sl);
    var x := if target in s.vvNew then s.vvNew[target] else e;
    StayAround(s.mapInfo, e, s1.mapInfo[e], s2.mapInfo, t.mapInfo[e], if target in s.vvNew then {x} else {}, {e, x});
    assert OthersStay(s, t, {e, x});
  }
}
