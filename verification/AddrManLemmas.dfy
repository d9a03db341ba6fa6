/** What the steps of the address manager keep. */
module AddrManLemmas {
  import opened AddrManState

  /** The same entries, up to their positions in vRandom. */
  ghost predicate Same(m: map<int, Info>, m': map<int, Info>) {
    && (forall id | id in m :: id in m')
    && (forall id | id in m' :: id in m && m'[id] == m[id].(nRandomPos := m'[id].nRandomPos))
  }

  /** `gone` is lost; the other entries are the same. */
  ghost predicate Without(m: map<int, Info>, m': map<int, Info>, gone: int) {
    && (forall id | id in m && id != gone :: id in m')
    && (forall id | id in m' :: id != gone && id in m && m'[id] == m[id].(nRandomPos := m'[id].nRandomPos))
  }

  /** What deleting an entry does not touch. */
  ghost predicate Framed(s: State, t: State) {
    && t.place == s.place && t.nIdCount == s.nIdCount
    && t.vvNew == s.vvNew && t.vvTried == s.vvTried && t.nTried == s.nTried
  }

  lemma SwapPositionsKeeps(m: map<int, Info>, v: seq<int>, i: nat, j: nat)
    requires RandomLinked(m, v) && i < |v| && j < |v| && i != j
    ensures var m' := SwapPositions(m, v[i], j, v[j], i);
      Same(m, m') && RandomLinked(m', v[i := v[j]][j := v[i]])
  {
    var m' := SwapPositions(m, v[i], j, v[j], i);
    var v' := v[i := v[j]][j := v[i]];
    assert m[v[i]].nRandomPos == i && m[v[j]].nRandomPos == j;
    forall id | id in m' ensures 0 <= m'[id].nRandomPos < |v'| && v'[m'[id].nRandomPos] == id {}
    forall k | 0 <= k < |v'| ensures v'[k] in m' && m'[v'[k]].nRandomPos == k {}
  }

  lemma AddrTransfer(m: map<int, Info>, m': map<int, Info>, mapAddr: map<NetAddr, int>, n: int)
    requires AddrLinked(m, mapAddr, n) && Same(m, m')
    ensures AddrLinked(m', mapAddr, n)
  {
  }

  lemma SwapKeepsRandom(s: State, i: nat, j: nat)
    requires RandomLinked(s.mapInfo, s.vRandom) && i < |s.vRandom| && j < |s.vRandom|
    ensures var t := SwapRandom(s, i, j);
      && RandomLinked(t.mapInfo, t.vRandom) && Same(s.mapInfo, t.mapInfo) && Framed(s, t) && t.nNew == s.nNew && t.mapAddr == s.mapAddr
      && |t.vRandom| == |s.vRandom| && t.vRandom[j] == s.vRandom[i] && t.vRandom[i] == s.vRandom[j]
  {
    if i != j { SwapPositionsKeeps(s.mapInfo, s.vRandom, i, j); }
  }

  lemma SwapKeeps(s: State, i: nat, j: nat)
    requires Linked(s) && i < |s.vRandom| && j < |s.vRandom|
    ensures var t := SwapRandom(s, i, j);
      && Linked(t) && Same(s.mapInfo, t.mapInfo) && Framed(s, t) && t.nNew == s.nNew
      && |t.vRandom| == |s.vRandom| && t.vRandom[j] == s.vRandom[i] && t.vRandom[i] == s.vRandom[j]
  {
    SwapKeepsRandom(s, i, j);
    AddrTransfer(s.mapInfo, SwapRandom(s, i, j).mapInfo, s.mapAddr, s.nIdCount);
  }

  lemma TablesTransfer(p: Placement, m: map<int, Info>, m': map<int, Info>, n: map<Slot, int>, t: map<Slot, int>)
    requires NewTabled(p, m, n) && TriedTabled(p, m, t) && Stamped(m) && Same(m, m')
    ensures NewTabled(p, m', n) && TriedTabled(p, m', t) && Stamped(m')
  {
  }

  lemma CountsTransfer(m: map<int, Info>, m': map<int, Info>, limbo: set<int>)
    requires Referenced(m, limbo) && Same(m, m')
    ensures Referenced(m', limbo) && News(m') == News(m) && Trieds(m') == Trieds(m)
  {
    forall id: int ensures (id in News(m') <==> id in News(m)) && (id in Trieds(m') <==> id in Trieds(m)) {
      if id in m { assert id in m'; }
    }
  }

  /** Consistency does not depend on the positions in vRandom beyond `Linked`. */
  lemma PartialTransfer(s: State, t: State, limbo: set<int>, uncounted: int)
    requires Partial(s, limbo, uncounted) && Linked(t) && Same(s.mapInfo, t.mapInfo)
    requires Framed(s, t) && t.nNew == s.nNew
    ensures Partial(t, limbo, uncounted)
  {
    TablesTransfer(s.place, s.mapInfo, t.mapInfo, s.vvNew, s.vvTried);
    CountsTransfer(s.mapInfo, t.mapInfo, limbo);
  }

  lemma PopKeeps(m: map<int, Info>, v: seq<int>)
    requires RandomLinked(m, v) && v != []
    ensures RandomLinked(m - {v[|v| - 1]}, v[..|v| - 1])
  {
  }

  lemma EraseKeeps(m: map<int, Info>, mapAddr: map<NetAddr, int>, n: int, id: int)
    requires AddrLinked(m, mapAddr, n) && id in m
    ensures AddrLinked(m - {id}, mapAddr - {m[id].service.addr}, n)
  {
  }

  lemma UnreferencedHasNoSlot(p: Placement, m: map<int, Info>, n: map<Slot, int>, id: int)
    requires NewTabled(p, m, n) && id in m && m[id].nRefCount == 0
    ensures forall sl | sl in n :: n[sl] != id
  {
    assert SlotsOf(n, id) == {};
    forall sl | sl in n ensures n[sl] != id { assert sl !in SlotsOf(n, id); }
  }

  /** Forgetting an entry without slots keeps the tables' consistency. */
  lemma UnreferencedGone(p: Placement, m: map<int, Info>, n: map<Slot, int>, t: map<Slot, int>, id: int)
    requires NewTabled(p, m, n) && TriedTabled(p, m, t)
    requires id in m && !m[id].fInTried && m[id].nRefCount == 0
    ensures NewTabled(p, m - {id}, n) && TriedTabled(p, m - {id}, t)
    ensures News(m - {id}) == News(m) - {id} && id in News(m) && Trieds(m - {id}) == Trieds(m)
  {
    UnreferencedHasNoSlot(p, m, n, id);
  }

  lemma WithoutOne(m: map<int, Info>, m': map<int, Info>, id: int)
    requires Same(m, m')
    ensures Without(m, m' - {id}, id)
  {
  }

  lemma PopEntryKeeps(s: State, id: int, limbo: set<int>, uncounted: int)
    requires Partial(s, limbo, uncounted)
    requires id in s.mapInfo && !s.mapInfo[id].fInTried && s.mapInfo[id].nRefCount == 0
    requires s.vRandom != [] && s.vRandom[|s.vRandom| - 1] == id
    ensures Partial(PopEntry(s, id), limbo, uncounted)
  {
    hide NewTabled, TriedTabled, AddrLinked, RandomLinked;
    PopKeeps(s.mapInfo, s.vRandom);
    EraseKeeps(s.mapInfo, s.mapAddr, s.nIdCount, id);
    UnreferencedGone(s.place, s.mapInfo, s.vvNew, s.vvTried, id);
  }

  lemma PositionOf(m: map<int, Info>, v: seq<int>, id: int)
    requires RandomLinked(m, v) && id in m
    ensures var i := m[id].nRandomPos; 0 <= i < |v| && v[i] == id && v[|v| - 1] in m
  {
  }

  /** Deleting an entry without references loses that entry and nothing else. */
  lemma DeleteKeeps(s: State, id: int, limbo: set<int>, uncounted: int)
    requires Partial(s, limbo, uncounted)
    requires id in s.mapInfo && !s.mapInfo[id].fInTried && s.mapInfo[id].nRefCount == 0
    ensures var t := Delete(s, id);
      && Partial(t, limbo, uncounted) && Without(s.mapInfo, t.mapInfo, id) && Framed(s, t)
      && t.mapAddr == s.mapAddr - {s.mapInfo[id].service.addr}
  {
    hide NewTabled, TriedTabled, AddrLinked, RandomLinked, Stamped, Referenced, News, Trieds, Without, SwapRandom;
    var i := s.mapInfo[id].nRandomPos;
    PositionOf(s.mapInfo, s.vRandom, id);
    DeleteSwapped(s, i, |s.vRandom| - 1, id, limbo, uncounted);
  }

  lemma DeleteSwapped(s: State, i: nat, last: nat, id: int, limbo: set<int>, uncounted: int)
    requires Partial(s, limbo, uncounted) && i < |s.vRandom| && last == |s.vRandom| - 1
    requires s.vRandom[i] == id && s.vRandom[last] in s.mapInfo
    requires id in s.mapInfo && !s.mapInfo[id].fInTried && s.mapInfo[id].nRefCount == 0
    ensures var s1 := SwapRandom(s, i, last);
      id in s1.mapInfo && s1.vRandom != [] &&
      var t := PopEntry(s1, id);
      && Partial(t, limbo, uncounted) && Without(s.mapInfo, t.mapInfo, id) && Framed(s, t)
      && t.mapAddr == s.mapAddr - {s.mapInfo[id].service.addr}
  {
    hide NewTabled, TriedTabled, AddrLinked, RandomLinked, Stamped, Referenced, News, Trieds, Without;
    var s1 := SwapRandom(s, i, last);
    SwapKeeps(s, i, last);
    PartialTransfer(s, s1, limbo, uncounted);
    WithoutOne(s.mapInfo, s1.mapInfo, id);
    PopEntryKeeps(s1, id, limbo, uncounted);
  }

  // ----- the new table

  lemma DropSlot(p: Placement, m: map<int, Info>, n: map<Slot, int>, sl: Slot, id: int)
    requires NewTabled(p, m, n) && sl in n && n[sl] == id && id in m
    ensures m[id].nRefCount >= 1
    ensures NewTabled(p, m[id := m[id].(nRefCount := m[id].nRefCount - 1)], n - {sl})
  {
    var n' := n - {sl};
    assert SlotsOf(n', id) == SlotsOf(n, id) - {sl} && sl in SlotsOf(n, id);
    forall k | k in m && k != id ensures SlotsOf(n', k) == SlotsOf(n, k) {}
  }

  /** Changing an entry's reference count does not disturb the links. */
  lemma RecountKeepsLinks(m: map<int, Info>, mapAddr: map<NetAddr, int>, nIdCount: int, v: seq<int>, id: int, count: int)
    requires AddrLinked(m, mapAddr, nIdCount) && RandomLinked(m, v) && id in m
    ensures var m' := m[id := m[id].(nRefCount := count)];
      && AddrLinked(m', mapAddr, nIdCount) && RandomLinked(m', v)
      && News(m') == News(m) && Trieds(m') == Trieds(m)
  {
  }

  lemma RecountKeepsTried(p: Placement, m: map<int, Info>, t: map<Slot, int>, id: int, count: int)
    requires TriedTabled(p, m, t) && Stamped(m) && id in m
    ensures var m' := m[id := m[id].(nRefCount := count)]; TriedTabled(p, m', t) && Stamped(m')
  {
  }

  /** One reference less: the slot is empty, and its occupant may be left without a slot. */
  lemma DropReferenceKeeps(s: State, sl: Slot, id: int, limbo: set<int>, limbo': set<int>, uncounted: int)
    requires Partial(s, limbo, uncounted) && sl in s.vvNew && s.vvNew[sl] == id && id in s.mapInfo
    requires limbo' == if s.mapInfo[id].nRefCount == 1 then limbo + {id} else limbo
    ensures Partial(DropReference(s, sl, id), limbo', uncounted) && 1 <= s.mapInfo[id].nRefCount
  {
    hide NewTabled, TriedTabled, AddrLinked, RandomLinked, Stamped;
    DropSlot(s.place, s.mapInfo, s.vvNew, sl, id);
    RecountKeepsLinks(s.mapInfo, s.mapAddr, s.nIdCount, s.vRandom, id, s.mapInfo[id].nRefCount - 1);
    RecountKeepsTried(s.place, s.mapInfo, s.vvTried, id, s.mapInfo[id].nRefCount - 1);
  }

  /** What clearing a slot does to the entries: its occupant loses one reference, and is
      forgotten if that was the last one. */
  ghost predicate Dislodged(s: State, t: State, sl: Slot) {
    && t.vvNew == s.vvNew - {sl} && t.vvTried == s.vvTried
    && t.place == s.place && t.nIdCount == s.nIdCount && t.nTried == s.nTried
    && (forall id | id in t.mapInfo :: id in s.mapInfo)
    && (forall id | id in s.mapInfo ::
          if sl in s.vvNew && s.vvNew[sl] == id then
            if s.mapInfo[id].nRefCount == 1 then id !in t.mapInfo
            else && id in t.mapInfo
                 && t.mapInfo[id] == s.mapInfo[id].(nRefCount := s.mapInfo[id].nRefCount - 1, nRandomPos := t.mapInfo[id].nRandomPos)
          else && id in t.mapInfo
               && t.mapInfo[id] == s.mapInfo[id].(nRandomPos := t.mapInfo[id].nRandomPos))
  }

  lemma LimboGone(m: map<int, Info>, limbo: set<int>, id: int)
    requires Referenced(m, limbo + {id}) && id !in m
    ensures Referenced(m, limbo)
  {
  }

  lemma ClearNewKeeps(s: State, sl: Slot, limbo: set<int>, uncounted: int)
    requires Partial(s, limbo, uncounted)
    ensures sl in s.vvNew ==> s.vvNew[sl] in s.mapInfo
    ensures Partial(ClearNew(s, sl), limbo, uncounted) && Dislodged(s, ClearNew(s, sl), sl)
  {
    if sl in s.vvNew {
      OccupantIsNew(s.place, s.mapInfo, s.vvNew, sl);
      ClearOccupied(s, sl, s.vvNew[sl], limbo, uncounted);
    }
  }

  lemma OccupantIsNew(p: Placement, m: map<int, Info>, n: map<Slot, int>, sl: Slot)
    requires NewTabled(p, m, n) && sl in n
    ensures n[sl] in m && !m[n[sl]].fInTried && m[n[sl]].nRefCount >= 1
  {
    DropSlot(p, m, n, sl, n[sl]);
  }

  lemma ClearOccupied(s: State, sl: Slot, id: int, limbo: set<int>, uncounted: int)
    requires Partial(s, limbo, uncounted) && sl in s.vvNew && s.vvNew[sl] == id
    requires id in s.mapInfo && !s.mapInfo[id].fInTried
    ensures Partial(ClearNew(s, sl), limbo, uncounted) && Dislodged(s, ClearNew(s, sl), sl)
  {
    hide NewTabled, TriedTabled, AddrLinked, RandomLinked, Stamped, Referenced, News, Trieds;
    var s1 := DropReference(s, sl, id);
    if s1.mapInfo[id].nRefCount == 0 {
      DropReferenceKeeps(s, sl, id, limbo, limbo + {id}, uncounted);
      DeleteKeeps(s1, id, limbo + {id}, uncounted);
      LimboGone(Delete(s1, id).mapInfo, limbo, id);
    } else {
      DropReferenceKeeps(s, sl, id, limbo, limbo, uncounted);
    }
  }

  /** An entry without references occupies no slot, so clearing one leaves it alone. */
  lemma ClearNewSpares(s: State, sl: Slot, id: int, limbo: set<int>, uncounted: int)
    requires Partial(s, limbo, uncounted) && id in s.mapInfo && s.mapInfo[id].nRefCount == 0
    ensures var t := ClearNew(s, sl);
      && id in t.mapInfo && t.mapInfo[id] == s.mapInfo[id].(nRandomPos := t.mapInfo[id].nRandomPos)
  {
    hide TriedTabled, AddrLinked, RandomLinked, Stamped, Referenced, News, Trieds;
    UnreferencedHasNoSlot(s.place, s.mapInfo, s.vvNew, id);
    ClearNewKeeps(s, sl, limbo, uncounted);
  }

  // ----- moves between the tables

  lemma LeaveNewTables(p: Placement, m: map<int, Info>, n: map<Slot, int>, id: int)
    requires NewTabled(p, m, n) && id in m
    ensures NewTabled(p, m[id := m[id].(nRefCount := 0)], OthersIn(n, id))
  {
    var n' := OthersIn(n, id);
    assert SlotsOf(n', id) == {};
    forall k | k in m && k != id ensures SlotsOf(n', k) == SlotsOf(n, k) {}
  }

  lemma LeaveNewKeeps(s: State, id: int)
    requires Consistent(s) && id in s.mapInfo && !s.mapInfo[id].fInTried
    ensures Partial(LeaveNew(s, id), {id}, 1)
  {
    hide NewTabled, TriedTabled, AddrLinked, RandomLinked, Stamped;
    LeaveNewTables(s.place, s.mapInfo, s.vvNew, id);
    RecountKeepsLinks(s.mapInfo, s.mapAddr, s.nIdCount, s.vRandom, id, 0);
    RecountKeepsTried(s.place, s.mapInfo, s.vvTried, id, 0);
  }

  lemma FlagKeepsLinks(m: map<int, Info>, mapAddr: map<NetAddr, int>, nIdCount: int, v: seq<int>, id: int, f: bool)
    requires AddrLinked(m, mapAddr, nIdCount) && RandomLinked(m, v) && id in m
    ensures var m' := m[id := m[id].(fInTried := f)];
      AddrLinked(m', mapAddr, nIdCount) && RandomLinked(m', v)
  {
  }

  lemma LeaveTriedTables(p: Placement, m: map<int, Info>, n: map<Slot, int>, t: map<Slot, int>, sl: Slot, id: int)
    requires NewTabled(p, m, n) && TriedTabled(p, m, t) && Stamped(m) && sl in t && t[sl] == id && id in m
    ensures m[id].fInTried && m[id].nRefCount == 0
    ensures var m' := m[id := m[id].(fInTried := false)];
      && NewTabled(p, m', n) && TriedTabled(p, m', t - {sl}) && Stamped(m')
      && News(m') == News(m) + {id} && id !in News(m) && Trieds(m') == Trieds(m) - {id} && id in Trieds(m)
  {
    assert SlotsOf(n, id) == {};
  }

  lemma LeaveTriedKeeps(s: State, sl: Slot, id: int, limbo: set<int>, uncounted: int)
    requires Partial(s, limbo, uncounted) && sl in s.vvTried && s.vvTried[sl] == id && id in s.mapInfo
    ensures s.mapInfo[id].fInTried && s.mapInfo[id].nRefCount == 0
    ensures Partial(LeaveTried(s, sl, id), limbo + {id}, uncounted + 1)
  {
    hide NewTabled, TriedTabled, AddrLinked, RandomLinked, Stamped, News, Trieds;
    LeaveTriedTables(s.place, s.mapInfo, s.vvNew, s.vvTried, sl, id);
    FlagKeepsLinks(s.mapInfo, s.mapAddr, s.nIdCount, s.vRandom, id, false);
  }

  lemma PutTriedTables(p: Placement, m: map<int, Info>, n: map<Slot, int>, t: map<Slot, int>, sl: Slot, id: int)
    requires NewTabled(p, m, n) && TriedTabled(p, m, t) && Stamped(m) && sl !in t && id in m
    requires !m[id].fInTried && m[id].nRefCount == 0 && m[id].nLastSuccess > 0 && sl == p.TriedSlot(m[id].service)
    ensures var m' := m[id := m[id].(fInTried := true)];
      && NewTabled(p, m', n) && TriedTabled(p, m', t[sl := id]) && Stamped(m')
      && News(m') == News(m) - {id} && id in News(m) && Trieds(m') == Trieds(m) + {id} && id !in Trieds(m)
  {
    UnreferencedHasNoSlot(p, m, n, id);
  }

  lemma PutTriedKeeps(s: State, sl: Slot, id: int)
    requires Partial(s, {id}, 1) && id in s.mapInfo && sl !in s.vvTried && sl == s.place.TriedSlot(s.mapInfo[id].service)
    requires var i := s.mapInfo[id]; !i.fInTried && i.nRefCount == 0 && i.nLastSuccess > 0
    ensures Consistent(PutTried(s, sl, id))
  {
    hide NewTabled, TriedTabled, AddrLinked, RandomLinked, Stamped, News, Trieds;
    PutTriedTables(s.place, s.mapInfo, s.vvNew, s.vvTried, sl, id);
    FlagKeepsLinks(s.mapInfo, s.mapAddr, s.nIdCount, s.vRandom, id, true);
  }

  lemma PutNewTables(p: Placement, m: map<int, Info>, n: map<Slot, int>, sl: Slot, id: int)
    requires NewTabled(p, m, n) && sl !in n && id in m && !m[id].fInTried
    requires sl.bucket < NEW_BUCKET_COUNT && sl == p.NewSlot(m[id].service, sl.bucket)
    ensures NewTabled(p, m[id := m[id].(nRefCount := m[id].nRefCount + 1)], n[sl := id])
  {
    var n' := n[sl := id];
    assert SlotsOf(n', id) == SlotsOf(n, id) + {sl} && sl !in SlotsOf(n, id);
    forall k | k in m && k != id ensures SlotsOf(n', k) == SlotsOf(n, k) {}
  }

  lemma PutNewKeeps(s: State, sl: Slot, id: int, limbo: set<int>, uncounted: int)
    requires Partial(s, limbo, uncounted) && id in s.mapInfo && !s.mapInfo[id].fInTried && sl !in s.vvNew
    requires sl.bucket < NEW_BUCKET_COUNT && sl == s.place.NewSlot(s.mapInfo[id].service, sl.bucket)
    requires 0 <= s.mapInfo[id].nRefCount < NEW_BUCKETS_PER_ADDRESS
    ensures Partial(PutNew(s, sl, id, s.mapInfo[id].nRefCount + 1), limbo - {id}, uncounted)
  {
    hide NewTabled, TriedTabled, AddrLinked, RandomLinked, Stamped;
    PutNewTables(s.place, s.mapInfo, s.vvNew, sl, id);
    RecountKeepsLinks(s.mapInfo, s.mapAddr, s.nIdCount, s.vRandom, id, s.mapInfo[id].nRefCount + 1);
    RecountKeepsTried(s.place, s.mapInfo, s.vvTried, id, s.mapInfo[id].nRefCount + 1);
  }
}
