/** The rules by which the address manager chooses: which buckets a group of addresses can reach, which
    entries are bad, who gives way to whom, and what is noted of an entry. */
module AddrManPolicy {
  import opened AddrManState
  import opened AddrManLemmas
  import opened AddrManOps
  import opened AddrManEffects
  import opened Powers
  import opened Sets

  // ----- groups and buckets

  /** The i-th bucket, of `count`, that a group selects. */
  function GroupBucket(env: Env, nKey: nat, g: Bytes, count: nat, i: nat): nat
    requires count > 0
  {
    env.hash([Key(nKey), Vector(g), Number(i)]) % count
  }

  function Selection(env: Env, nKey: nat, g: Bytes, count: nat, n: nat): (r: set<nat>)
    requires count > 0
    ensures |r| <= n
  {
    if n == 0 then {} else Selection(env, nKey, g, count, n - 1) + {GroupBucket(env, nKey, g, count, n - 1)}
  }

  lemma {:induction false} InSelection(env: Env, nKey: nat, g: Bytes, count: nat, n: nat, i: nat)
    requires count > 0 && i < n
    ensures GroupBucket(env, nKey, g, count, i) in Selection(env, nKey, g, count, n)
  {
    hide GroupBucket;
    if i < n - 1 { InSelection(env, nKey, g, count, n - 1, i); }
  }

  /** The buckets of the tried table that one group of addresses can reach. */
  function TriedBuckets(env: Env, nKey: nat, g: Bytes): (r: set<nat>)
    ensures |r| <= 8
  {
    Selection(env, nKey, g, 256, 8)
  }

  /** The buckets of the new table that are reached on the word of one group of sources. */
  function NewBuckets(env: Env, nKey: nat, g: Bytes): (r: set<nat>)
    ensures |r| <= 64
  {
    Selection(env, nKey, g, 1024, 64)
  }

  /** An address can be in one of eight tried buckets that its group selects, and in one of 64 new buckets
      that the group of its source selects; the position is one of 64. */
  lemma GroupBuckets(env: Env, nKey: nat, asmap: seq<bool>, svc: Service, source: NetAddr)
    ensures var p := PlacementOf(env, nKey, asmap);
      var tried, new_ := TriedBuckets(env, nKey, env.group(svc.addr, asmap)), NewBuckets(env, nKey, env.group(source, asmap));
      && |tried| <= 8 && p.TriedSlot(svc).bucket in tried && p.TriedSlot(svc).pos < 64
      && |new_| <= 64 && p.SourceSlot(svc, source).bucket in new_ && p.SourceSlot(svc, source).pos < 64
  {
    var g, h := env.group(svc.addr, asmap), env.group(source, asmap);
    InSelection(env, nKey, g, 256, 8, env.hash([Key(nKey), Vector(env.key(svc))]) % 8);
    InSelection(env, nKey, h, 1024, 64, env.hash([Key(nKey), Vector(g), Vector(h)]) % 64);
  }

  /** The slots of some buckets. */
  function Grid(buckets: set<nat>): set<Slot> {
    set b, i | b in buckets && 0 <= i < 64 :: Slot(b, i)
  }

  lemma {:induction false} GridSize(buckets: set<nat>)
    ensures |Grid(buckets)| == 64 * |buckets|
  {
    if buckets == {} {
      assert Grid(buckets) == {};
    } else {
      var b := Choose(buckets);
      GridSize(buckets - {b});
      RowSize(b, 64);
      var row := set i | 0 <= i < 64 :: Slot(b, i);
      assert Grid(buckets) == Grid(buckets - {b}) + row && Grid(buckets - {b}) !! row;
    }
  }

  lemma {:induction false} RowSize(b: nat, n: nat)
    ensures |set i | 0 <= i < n :: Slot(b, i)| == n
  {
    var row := set i | 0 <= i < n :: Slot(b, i);
    if n == 0 {
      assert row == {};
    } else {
      RowSize(b, n - 1);
      assert row == (set i | 0 <= i < n - 1 :: Slot(b, i)) + {Slot(b, n - 1)};
    }
  }

  lemma SubsetSize<T>(a: set<T>, b: set<T>)
    requires a <= b
    ensures |a| <= |b|
  {
    assert b == a + (b - a);
  }

  ghost function TriedOfGroup(env: Env, asmap: seq<bool>, s: State, g: Bytes): set<int> {
    set id | id in s.mapInfo && s.mapInfo[id].fInTried && env.group(s.mapInfo[id].service.addr, asmap) == g
  }

  /** In every consistent state, so in every run, no group of addresses has more than 512 tried entries,
      one in 32 of the table. */
  lemma TriedShare(env: Env, nKey: nat, asmap: seq<bool>, s: State, g: Bytes)
    requires Consistent(s) && s.place == PlacementOf(env, nKey, asmap)
    ensures |TriedOfGroup(env, asmap, s, g)| <= 512
  {
    hide AddrLinked, RandomLinked, NewTabled, Stamped, Referenced, PlacementOf, Grid, TriedBuckets, Placement.TriedSlot;
    var ids, buckets := TriedOfGroup(env, asmap, s, g), TriedBuckets(env, nKey, g);
    SlotsOfTried(s.place, s.mapInfo, s.vvTried, ids);
    var slots := set sl | sl in s.vvTried && s.vvTried[sl] in ids;
    forall sl | sl in slots ensures sl in Grid(buckets) {
      var info := s.mapInfo[s.vvTried[sl]];
      GroupBuckets(env, nKey, asmap, info.service, info.source);
      InGrid(buckets, sl);
    }
    SubsetSize(slots, Grid(buckets));
    GridSize(buckets);
  }

  lemma InGrid(buckets: set<nat>, sl: Slot)
    requires sl.bucket in buckets && sl.pos < 64
    ensures sl in Grid(buckets)
  {
    assert sl == Slot(sl.bucket, sl.pos);
  }

  /** Whatever is added on the word of one group of sources changes no slot outside that group's new
      buckets, which are at most 4096 of the 65536 slots. */
  lemma SourceShare(env: Env, nKey: nat, asmap: seq<bool>, s: State, addr: Address, source: NetAddr, penalty: int, now: int, random: nat, x: Slot)
    requires Consistent(s) && s.place == PlacementOf(env, nKey, asmap)
    requires x !in Grid(NewBuckets(env, nKey, env.group(source, asmap)))
    ensures var t := Add(env, s, addr, source, penalty, now, random);
      && t.vvTried == s.vvTried && (x in t.vvNew <==> x in s.vvNew) && (x in s.vvNew ==> t.vvNew[x] == s.vvNew[x])
    ensures |Grid(NewBuckets(env, nKey, env.group(source, asmap)))| <= 4096
  {
    var buckets := NewBuckets(env, nKey, env.group(source, asmap));
    GroupBuckets(env, nKey, asmap, addr.service, source);
    GridSize(buckets);
    hide Consistent, PlacementOf, Grid, NewBuckets, Placement.SourceSlot, Add;
    var svc := AddSlot(env, s, addr, source, penalty, now, random);
    GroupBuckets(env, nKey, asmap, svc, source);
    InGrid(buckets, s.place.SourceSlot(svc, source));
  }

  /** Adding touches one new slot at most: that of the entry's service and the source it came from. */
  lemma AddSlot(env: Env, s: State, addr: Address, source: NetAddr, penalty: int, now: int, random: nat) returns (svc: Service)
    requires Consistent(s)
    ensures var t := Add(env, s, addr, source, penalty, now, random);
      t.vvTried == s.vvTried && SlotsStay(s, t, s.place.SourceSlot(svc, source))
  {
    svc := addr.service;
    if IsNewcomer(env, s, addr) {
      hide Consistent, OccupantAfter, OthersStay, Add;
      NewcomerEffect(env, s, addr, source, penalty, now, random);
    } else if env.routable(svc.addr) {
      KnownId(s, svc.addr);
      svc := s.mapInfo[s.mapAddr[svc.addr]].service;
      hide Consistent, OthersStay, Add, Refreshed;
      KnownEffect(env, s, addr, source, penalty, now, random, s.mapAddr[addr.service.addr]);
    }
  }

  lemma KnownId(s: State, a: NetAddr)
    requires Consistent(s) && a in s.mapAddr
    ensures s.mapAddr[a] in s.mapInfo
    ensures var info := s.mapInfo[s.mapAddr[a]]; !info.fInTried ==> 1 <= info.nRefCount <= 8
    ensures var info := s.mapInfo[s.mapAddr[a]]; info.nLastTry >= 0 && info.nLastSuccess >= 0 && (info.fInTried ==> info.nLastSuccess > 0)
  {
    hide NewTabled, TriedTabled, RandomLinked;
  }

  // ----- Add_

  /** The occupant of a slot may be overwritten by another entry that has slots elsewhere. */
  predicate Overwritable(s: State, sl: Slot, id: int, now: int) {
    sl !in s.vvNew || (s.vvNew[sl] != id && s.vvNew[sl] in s.mapInfo && IsTerrible(s.mapInfo[s.vvNew[sl]], now))
  }

  /** A report about a known address refreshes its record and gives it the slot of the reporting source exactly
      if it is new, a further reference is drawn, and the slot is free or holds a bad entry. */
  lemma KnownEffect(env: Env, s: State, addr: Address, source: NetAddr, penalty: int, now: int, random: nat, id: int)
    requires Consistent(s) && env.routable(addr.service.addr)
    requires addr.service.addr in s.mapAddr && s.mapAddr[addr.service.addr] == id && id in s.mapInfo
    ensures var t, info := Add(env, s, addr, source, penalty, now, random), Refreshed(env, s.mapInfo[id], addr, penalty, now);
      var sl := s.place.SourceSlot(s.mapInfo[id].service, source);
      var more := WantsReference(info, addr, random) && Overwritable(s, sl, id, now);
      && t.vvTried == s.vvTried && SlotsStay(s, t, sl) && OthersStay(s, t, {id} + Occupant(s, sl))
      && id in t.mapInfo
      && t.mapInfo[id] == info.(nRefCount := info.nRefCount + if more then 1 else 0, nRandomPos := t.mapInfo[id].nRandomPos)
      && if more then sl in t.vvNew && t.vvNew[sl] == id else t.vvNew == s.vvNew
  {
    hide Consistent, Partial, Refreshed, Place, Placement.SourceSlot, IsTerrible, SlotsStay, OthersStay, Occupant, Overwritable;
    RefreshKeeps(env, s, id, addr, penalty, now);
    var info := Refreshed(env, s.mapInfo[id], addr, penalty, now);
    var s1, sl := s.(mapInfo := s.mapInfo[id := info]), s.place.SourceSlot(s.mapInfo[id].service, source);
    if sl in s.vvNew { SlotOccupant(s, sl); }
    if WantsReference(info, addr, random) {
      KnownPlaced(s, s1, id, info, sl, now);
    } else {
      OneChanged(s, id, info, sl, Occupant(s, sl));
    }
  }

  lemma RefreshKeeps(env: Env, s: State, id: int, addr: Address, penalty: int, now: int)
    requires Consistent(s) && id in s.mapInfo && addr.service.addr in s.mapAddr && s.mapAddr[addr.service.addr] == id
    ensures var info := Refreshed(env, s.mapInfo[id], addr, penalty, now);
      && Consistent(s.(mapInfo := s.mapInfo[id := info])) && info.service == s.mapInfo[id].service
      && (!info.fInTried ==> info.nRefCount >= 1)
  {
    KnownId(s, addr.service.addr);
    hide Consistent;
    StampKeeps(s, id, Refreshed(env, s.mapInfo[id], addr, penalty, now));
  }

  lemma OneChanged(s: State, id: int, info: Info, sl: Slot, except: set<int>)
    requires id in s.mapInfo
    ensures var s1 := s.(mapInfo := s.mapInfo[id := info]); SlotsStay(s, s1, sl) && OthersStay(s, s1, {id} + except)
  {
  }

  lemma KnownPlaced(s: State, s1: State, id: int, info: Info, sl: Slot, now: int)
    requires Consistent(s1) && s1 == s.(mapInfo := s.mapInfo[id := info]) && !info.fInTried && info.nRefCount >= 1
    requires sl in s.vvNew ==> s.vvNew[sl] in s.mapInfo
    ensures var t := Place(s1, id, sl, now);
      && t.vvTried == s.vvTried && SlotsStay(s, t, sl) && OthersStay(s, t, {id} + Occupant(s, sl))
      && id in t.mapInfo
      && t.mapInfo[id] == info.(nRefCount := info.nRefCount + if Overwritable(s, sl, id, now) then 1 else 0, nRandomPos := t.mapInfo[id].nRandomPos)
      && if Overwritable(s, sl, id, now) then sl in t.vvNew && t.vvNew[sl] == id else t.vvNew == s.vvNew
  {
    ConsistentIs(s1);
    KnownGivesWay(s, s1, id, info, sl, now);
    hide Consistent, Partial, Place, IsTerrible, OccupantAfter, SlotsStay, OthersStay, Overwritable, GivesWay, Stays;
    PlaceEffect(s1, id, sl, now, {});
    var t := Place(s1, id, sl, now);
    SlotsSame(s, s1, t, sl);
    KnownOthers(s, s1, t, id, info, Occupant(s, sl));
  }

  lemma KnownGivesWay(s: State, s1: State, id: int, info: Info, sl: Slot, now: int)
    requires s1 == s.(mapInfo := s.mapInfo[id := info]) && info.nRefCount >= 1 && (sl in s.vvNew ==> s.vvNew[sl] in s.mapInfo)
    ensures Overwritable(s, sl, id, now) <==> !(sl in s1.vvNew && s1.vvNew[sl] == id) && GivesWay(s1, sl, id, now)
  {
    hide IsTerrible;
  }

  lemma ConsistentIs(s: State)
    requires Consistent(s)
    ensures Partial(s, {}, 0)
  {
    hide Partial;
  }

  lemma SlotOccupant(s: State, sl: Slot)
    requires Consistent(s) && sl in s.vvNew
    ensures s.vvNew[sl] in s.mapInfo && !s.mapInfo[s.vvNew[sl]].fInTried
  {
    OccupantIsNew(s.place, s.mapInfo, s.vvNew, sl);
  }

  lemma KnownOthers(s: State, s1: State, t: State, id: int, info: Info, except: set<int>)
    requires s1 == s.(mapInfo := s.mapInfo[id := info]) && OthersStay(s1, t, {id} + except)
    ensures OthersStay(s, t, {id} + except)
  {
    forall k | k in s.mapInfo && k !in {id} + except ensures Stays(s.mapInfo, t.mapInfo, k) {
      assert k in s1.mapInfo && Stays(s1.mapInfo, t.mapInfo, k);
    }
  }

  /** A newcomer is entered exactly if the slot of its source is free, or its occupant is bad or has another
      slot as well; its record says what was told, the time less the penalty, and nothing else. */
  lemma NewcomerExact(env: Env, s: State, addr: Address, source: NetAddr, penalty: int, now: int, random: nat)
    requires Consistent(s) && IsNewcomer(env, s, addr) && addr.nTime < 0x1_0000_0000 && 0 <= penalty
    ensures var t, id, sl := Add(env, s, addr, source, penalty, now, random), s.nIdCount, s.place.SourceSlot(addr.service, source);
      && (sl in s.vvNew ==> s.vvNew[sl] in s.mapInfo)
      && (id in t.mapInfo <==>
            sl !in s.vvNew || IsTerrible(s.mapInfo[s.vvNew[sl]], now) || s.mapInfo[s.vvNew[sl]].nRefCount > 1)
      && (id in t.mapInfo ==>
            t.mapInfo[id] == Info(addr.service, addr.nServices, if addr.nTime > penalty then addr.nTime - penalty else 0, source,
                                  0, 0, 0, 1, false, t.mapInfo[id].nRandomPos))
  {
    var id, sl := s.nIdCount, s.place.SourceSlot(addr.service, source);
    if sl in s.vvNew { SlotOccupant(s, sl); }
    Fresh32(addr, penalty);
    CreateKeeps(s, addr, source, penalty);
    NewcomerGivesWay(s, addr, source, penalty, sl, now);
    var s1 := Create(s, addr, source, penalty);
    NewcomerPlaced(env, s, addr, source, penalty, now, random);
    hide Consistent, Partial, Place, OccupantAfter, SlotsStay, OthersStay, Placement.SourceSlot, GivesWay, IsTerrible, Create, Add;
    NewcomerEffect(env, s, addr, source, penalty, now, random);
    CreatedInfo(s, addr, source, penalty);
    PlaceEffect(s1, id, sl, now, {id});
    if sl in s1.vvNew { NoSlotYet(s1, id, sl); }
  }

  lemma NewcomerPlaced(env: Env, s: State, addr: Address, source: NetAddr, penalty: int, now: int, random: nat)
    requires IsNewcomer(env, s, addr)
    ensures Add(env, s, addr, source, penalty, now, random)
            == Place(Create(s, addr, source, penalty), s.nIdCount, s.place.SourceSlot(addr.service, source), now)
  {
    hide Place, Create, Placement.SourceSlot;
  }

  lemma CreatedInfo(s: State, addr: Address, source: NetAddr, penalty: int)
    ensures var t := Create(s, addr, source, penalty);
      && s.nIdCount in t.mapInfo && !t.mapInfo[s.nIdCount].fInTried && t.mapInfo[s.nIdCount].nRefCount == 0
      && t.place == s.place && t.vvNew == s.vvNew
  {
  }

  lemma NoSlotYet(s: State, id: int, sl: Slot)
    requires Partial(s, {id}, 0) && id in s.mapInfo && s.mapInfo[id].nRefCount == 0 && sl in s.vvNew
    ensures s.vvNew[sl] != id
  {
    UnreferencedHasNoSlot(s.place, s.mapInfo, s.vvNew, id);
  }

  lemma Fresh32(addr: Address, penalty: int)
    requires addr.nTime < 0x1_0000_0000 && 0 <= penalty
    ensures ToUint32(NonNegative(addr.nTime - penalty)) == if addr.nTime > penalty then addr.nTime - penalty else 0
  {
  }

  lemma NewcomerGivesWay(s: State, addr: Address, source: NetAddr, penalty: int, sl: Slot, now: int)
    requires s.nIdCount !in s.mapInfo && (sl in s.vvNew ==> s.vvNew[sl] in s.mapInfo)
    ensures GivesWay(Create(s, addr, source, penalty), sl, s.nIdCount, now)
            <==> sl !in s.vvNew || IsTerrible(s.mapInfo[s.vvNew[sl]], now) || s.mapInfo[s.vvNew[sl]].nRefCount > 1
  {
    hide IsTerrible;
  }

  /** The record of a known entry after a report: its time only moves when it is behind by more than an hour,
      or a day if the report is a day old, and the penalty; the services are joined; the rest stays. */
  lemma RefreshedExact(env: Env, info: Info, addr: Address, penalty: int, now: int)
    requires addr.nTime < 0x1_0000_0000 && 0 <= penalty
    ensures var r, lag := Refreshed(env, info, addr, penalty, now), if addr.nTime > now - 86400 then 3600 else 86400;
      && r == info.(nTime := r.nTime, nServices := env.orBits(info.nServices, addr.nServices))
      && r.nTime == if addr.nTime != 0 && (info.nTime == 0 || info.nTime + lag + penalty < addr.nTime)
                    then (if addr.nTime > penalty then addr.nTime - penalty else 0) else info.nTime
  {
    Fresh32(addr, penalty);
  }

  /** A further reference needs news about a new entry with fewer than eight; and with n references, one of
      every 2^n consecutive random numbers grants it. */
  lemma ReferenceChance(info: Info, addr: Address, base: nat) returns (k: nat)
    requires 0 <= info.nRefCount <= 8
    ensures var news := addr.nTime != 0 && (info.nTime == 0 || addr.nTime > info.nTime);
      var n := Pow(2, info.nRefCount);
      && base <= k < base + n
      && forall j | base <= j < base + n :: WantsReference(info, addr, j) <==> j == k && news && !info.fInTried && info.nRefCount < 8
  {
    var n := Pow(2, info.nRefCount);
    k := base + (n - base % n) % n;
    OneMultiple(base, n, k);
  }

  lemma OneMultiple(base: nat, n: nat, k: nat)
    requires n > 0 && k == base + (n - base % n) % n
    ensures base <= k < base + n && forall j | base <= j < base + n :: j % n == 0 <==> j == k
  {
    var q, r := base / n, base % n;
    if r == 0 {
      DivModUnique(n, n, 1, 0);
    } else {
      SmallMod(n - r, n);
      assert (q + 1) * n == q * n + n;
      DivModUnique(k, n, q + 1, 0);
    }
    forall j | base <= j < base + n ensures j % n == 0 <==> j == k {
      if j < k { DivModUnique(j, n, q, j - q * n); }
      if j > k { OneFurther(k, n, j); }
    }
  }

  lemma OneFurther(k: nat, n: nat, j: nat)
    requires n > 0 && k % n == 0 && k < j < k + n
    ensures j % n != 0
  {
    DivModUnique(j, n, k / n, j - k);
  }

  // ----- bad entries

  /** An entry is not bad if it was tried within a minute; or if it was heard of within 30 days, and not in the
      future, and has a success or fewer than three attempts, and a success within a week or fewer than ten. */
  lemma TerribleExact(info: Info, now: int)
    ensures !IsTerrible(info, now) <==>
      || (info.nLastTry != 0 && now - info.nLastTry <= 60)
      || (&& info.nTime != 0 && -600 <= now - info.nTime <= 2592000
          && (info.nLastSuccess != 0 || info.nAttempts < 3) && (now - info.nLastSuccess <= 604800 || info.nAttempts < 10))
  {
  }

  /** An entry that is bad stays bad until something is noted of it, unless its time was in the future. */
  lemma TerribleStays(info: Info, now: int, later: int)
    requires IsTerrible(info, now) && now <= later && info.nTime <= now + 600
    ensures IsTerrible(info, later)
  {
  }

  // ----- Attempt_ and Connected_

  /** A series of attempts. */
  function Attempts(s: State, svc: Service, times: seq<int>): State {
    if times == [] then s else Attempt(Attempts(s, svc, times[..|times| - 1]), svc, times[|times| - 1])
  }

  /** Attempts are counted for exactly the entry of the address and port, which keeps the time of the last;
      for an address or port that is not known they do nothing. */
  lemma {:induction false} AttemptsCounted(s: State, svc: Service, times: seq<int>)
    requires times != []
    ensures var t := Attempts(s, svc, times);
      if !Knows(s, svc) then t == s
      else
        var id := s.mapAddr[svc.addr];
        var info := s.mapInfo[id].(nLastTry := times[|times| - 1], nAttempts := s.mapInfo[id].nAttempts + |times|);
        t == s.(mapInfo := s.mapInfo[id := info])
  {
    var before, last := times[..|times| - 1], times[|times| - 1];
    if before == [] {
      assert Attempts(s, svc, before) == s;
    } else {
      AttemptsCounted(s, svc, before);
    }
  }

  /** After three attempts an entry that never had a success is bad as soon as a minute has passed; one that
      had, after ten attempts, a week after the success. */
  lemma GivenUp(s: State, svc: Service, times: seq<int>, now: int)
    requires Consistent(s) && Knows(s, svc) && times != [] && now > times[|times| - 1] + 60
    requires s.mapInfo[s.mapAddr[svc.addr]].nAttempts >= 0
    ensures var id := s.mapAddr[svc.addr]; var t, before := Attempts(s, svc, times), s.mapInfo[id];
      && id in t.mapInfo && t.mapInfo[id].nLastSuccess == before.nLastSuccess
      && (before.nLastSuccess == 0 && |times| >= 3 ==> IsTerrible(t.mapInfo[id], now))
      && (now > before.nLastSuccess + 604800 && |times| >= 10 ==> IsTerrible(t.mapInfo[id], now))
  {
    hide Consistent;
    AttemptsCounted(s, svc, times);
  }

  /** A connected peer's time is noted, in its own entry only, when the noted one is more than 20 minutes
      behind; so it is never further behind afterwards. */
  lemma ConnectedEffect(s: State, svc: Service, nTime: int)
    requires Knows(s, svc) && 0 <= nTime < 0x1_0000_0000
    ensures var t, id := Connected(s, svc, nTime), s.mapAddr[svc.addr];
      && t == s.(mapInfo := s.mapInfo[id := s.mapInfo[id].(nTime := t.mapInfo[id].nTime)])
      && t.mapInfo[id].nTime >= nTime - 1200
      && (t.mapInfo[id].nTime != s.mapInfo[id].nTime ==> t.mapInfo[id].nTime == nTime > s.mapInfo[id].nTime + 1200)
  {
    var id := s.mapAddr[svc.addr];
    assert s.mapInfo[id := s.mapInfo[id]] == s.mapInfo;
  }

  // ----- GetAddr_

  /** At most 23 in a hundred of the known addresses are handed out, and at most 2500. */
  lemma LimitExact(size: nat, n: nat)
    ensures n <= GetAddrLimit(size) <==> n <= 2500 && 100 * n <= 23 * size
  {
  }

  lemma GetAddrNext(s: State, n: nat, limit: nat, picked: seq<int>, now: int, random: nat -> nat)
    requires n < |s.vRandom| && |picked| < limit
    ensures var t := SwapRandom(s, n, n + RandomInt(random(n), |s.vRandom| - n));
      && |t.vRandom| == |s.vRandom|
      && GetAddr(s, n, limit, picked, now, random)
         == GetAddr(t, n + 1, limit, Pick(t.mapInfo, picked, t.vRandom[n], now), now, random)
  {
    hide SwapRandom, IsTerrible, RandomInt, Pick;
    SwapLength(s, n, n + RandomInt(random(n), |s.vRandom| - n));
  }

  lemma GetAddrEnds(s: State, n: nat, limit: nat, picked: seq<int>, now: int, random: nat -> nat)
    requires n >= |s.vRandom| || |picked| >= limit
    ensures GetAddr(s, n, limit, picked, now, random) == Sample(s, picked, n)
  {
  }

  lemma {:induction false} SameDice(s: State, n: nat, limit: nat, picked: seq<int>, now: int, random: nat -> nat, dice: nat -> nat)
    requires forall k | n <= k :: random(k) == dice(k)
    ensures GetAddr(s, n, limit, picked, now, random) == GetAddr(s, n, limit, picked, now, dice)
    decreases |s.vRandom| - n
  {
    hide SwapRandom, IsTerrible, GetAddr, RandomInt, Pick;
    if n < |s.vRandom| && |picked| < limit {
      GetAddrNext(s, n, limit, picked, now, random);
      GetAddrNext(s, n, limit, picked, now, dice);
      var t := SwapRandom(s, n, n + RandomInt(random(n), |s.vRandom| - n));
      SameDice(t, n + 1, limit, Pick(t.mapInfo, picked, t.vRandom[n], now), now, random, dice);
    } else {
      GetAddrEnds(s, n, limit, picked, now, random);
      GetAddrEnds(s, n, limit, picked, now, dice);
    }
  }

  lemma SwapLength(s: State, i: int, j: int)
    ensures |SwapRandom(s, i, j).vRandom| == |s.vRandom|
  {
  }

  /** Distinct entries that may be handed out and are not among the first n of vRandom. */
  ghost predicate Waiting(s: State, n: nat, ids: seq<int>, now: int) {
    && (forall id | id in ids :: id in s.mapInfo && !IsTerrible(s.mapInfo[id], now) && s.mapInfo[id].nRandomPos >= n)
    && forall i, j | 0 <= i < j < |ids| :: ids[i] != ids[j]
  }

  lemma SwapWaiting(s: State, n: nat, ids: seq<int>, now: int, id: int, j: int)
    requires RandomLinked(s.mapInfo, s.vRandom) && ids != [] && Waiting(s, n, ids, now) && id == ids[0]
    requires id in s.mapInfo && j == s.mapInfo[id].nRandomPos
    ensures var t := SwapRandom(s, n, j);
      && n <= j < |s.vRandom| == |t.vRandom| && RandomLinked(t.mapInfo, t.vRandom)
      && t.vRandom[n] == id && id in t.mapInfo && !IsTerrible(t.mapInfo[id], now)
      && Waiting(t, n + 1, ids[1..], now)
  {
    hide SwapRandom;
    assert id in ids;
    SwapKeepsRandom(s, n, j);
    SwapOthers(s, n, j);
    hide IsTerrible;
    var t := SwapRandom(s, n, j);
    SameTerrible(s.mapInfo, t.mapInfo, now);
    forall k | k in ids[1..] ensures k in t.mapInfo && !IsTerrible(t.mapInfo[k], now) && t.mapInfo[k].nRandomPos >= n + 1 {
      assert k in ids && k != id;
    }
  }

  /** A swap moves nobody else. */
  lemma SwapOthers(s: State, i: nat, j: nat)
    requires RandomLinked(s.mapInfo, s.vRandom) && i <= j < |s.vRandom|
    ensures var t := SwapRandom(s, i, j);
      forall k | k in s.mapInfo && k != s.vRandom[j] && s.mapInfo[k].nRandomPos >= i :: k in t.mapInfo && t.mapInfo[k].nRandomPos > i
  {
    var t := SwapRandom(s, i, j);
    SwapKeepsRandom(s, i, j);
  }

  /** Every selection can come out: for any distinct entries that are not bad, as many as the limit allows, there
      are random numbers with which exactly they are handed out, in this order. */
  lemma {:induction false} AnySample(s: State, n: nat, limit: nat, picked: seq<int>, ids: seq<int>, now: int) returns (random: nat -> nat)
    requires RandomLinked(s.mapInfo, s.vRandom) && n <= |s.vRandom| && |picked| + |ids| == limit && Waiting(s, n, ids, now)
    ensures GetAddr(s, n, limit, picked, now, random).picked == picked + ids
    decreases |ids|
  {
    hide RandomLinked, IsTerrible, SwapRandom, GetAddr;
    if ids == [] {
      random := _ => 0;
      assert picked + ids == picked;
      GetAddrEnds(s, n, limit, picked, now, random);
    } else {
      var id := ids[0];
      assert id in ids;
      var j := s.mapInfo[id].nRandomPos;
      SwapWaiting(s, n, ids, now, id, j);
      hide Waiting;
      var t, picked' := SwapRandom(s, n, j), picked + [id];
      var rest := AnySample(t, n + 1, limit, picked', ids[1..], now);
      random := k => if k == n then j - n else rest(k);
      SmallMod(j - n, |s.vRandom| - n);
      GetAddrNext(s, n, limit, picked, now, random);
      SameDice(t, n + 1, limit, picked', now, random, rest);
      assert picked + ids == picked' + ids[1..];
    }
  }
}
