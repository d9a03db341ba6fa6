/** Whom an insertion into the cuckoo cache throws out, one after the other, and when somebody is lost. */
module CuckooChain {
  import opened CuckooState
  import opened Powers
  import opened Sets

  predicate Distinct(locs: seq<nat>) { forall i, j | 0 <= i < j < |locs| :: locs[i] != locs[j] }

  predicate FirstAt(locs: seq<nat>, loc: int, k: nat) {
    k < |locs| && locs[k] == loc && forall j | 0 <= j < k :: locs[j] != loc
  }

  /** The location after the one looked at last: round from the eighth to the first, and the second of
      an element that does not have that one. */
  ghost predicate Follows(locs: seq<nat>, last: int, loc: nat)
    requires |locs| == LOCATIONS
  {
    if last in locs then exists k :: FirstAt(locs, last, k) && loc == locs[if k == LOCATIONS - 1 then 0 else k + 1]
    else loc == locs[1]
  }

  /** The next location follows the last one, nothing else does, and it is another one if the eight
      differ: the element just put in stays. */
  lemma NextLocFollows(locs: seq<nat>, last: int, loc: nat)
    requires |locs| == LOCATIONS
    ensures Follows(locs, last, loc) <==> loc == NextLoc(locs, last)
    ensures Distinct(locs) ==> NextLoc(locs, last) != last
  {
    var k := Find(locs, last);
    if last in locs { assert FirstAt(locs, last, k); }
  }

  /** An element is entered, and every live one stays. */
  ghost predicate NobodyLost(s: State, e: Element, epoch: bool, t: State)
    requires Shaped(s) && Placed(s)
  {
    Shaped(t) && |t.table| == |s.table| && Placed(t) && Live(t) == Live(s)[e := epoch]
  }

  // ----- a chain of elements in hand

  /** An element in hand and its epoch. */
  datatype Hand = Hand(e: Element, epoch: bool)

  /** None of an element's slots may be overwritten. */
  predicate Full(s: State, e: Element)
    requires 2 <= |s.table| == |s.collected|
  {
    forall k | 0 <= k < LOCATIONS :: !s.collected[LocsOf(s, e)[k]]
  }

  ghost predicate InRange(s: State, hs: seq<Hand>, ls: seq<nat>) {
    Shaped(s) && |hs| == |ls| + 1 && forall i | 0 <= i < |ls| :: ls[i] < |s.table|
  }

  /** The state once the first n elements in hand are in the slots of those they threw out. */
  ghost function After(s: State, hs: seq<Hand>, ls: seq<nat>, n: nat): (t: State)
    requires InRange(s, hs, ls) && n <= |ls|
    ensures |t.table| == |s.table| == |t.recent| && t == s.(table := t.table, recent := t.recent)
  {
    if n == 0 then s else Swap(After(s, hs, ls, n - 1), ls[n - 1], hs[n - 1].e, hs[n - 1].epoch)
  }

  /** The i-th element in hand has no room and goes where the one before it was looked for, one further;
      who was there is in hand next. */
  ghost predicate Throws(s: State, hs: seq<Hand>, ls: seq<nat>, last: int, i: nat)
    requires InRange(s, hs, ls) && i < |ls|
  {
    var u := After(s, hs, ls, i);
    && Full(s, hs[i].e) && Follows(LocsOf(s, hs[i].e), if i == 0 then last else ls[i - 1], ls[i])
    && hs[i + 1] == Hand(u.table[ls[i]], u.recent[ls[i]])
  }

  /** A chain of elements in hand, begun with the last location looked at. */
  ghost predicate Chain(s: State, hs: seq<Hand>, ls: seq<nat>, last: int) {
    InRange(s, hs, ls) && forall i | 0 <= i < |ls| :: Throws(s, hs, ls, last, i)
  }

  /** The slots of a chain that goes nowhere twice hold, until it gets there, what they held before. */
  lemma {:induction false} AfterAt(s: State, hs: seq<Hand>, ls: seq<nat>, n: nat, loc: nat)
    requires InRange(s, hs, ls) && n <= |ls| && loc < |s.table| && forall i | 0 <= i < n :: ls[i] != loc
    ensures After(s, hs, ls, n).table[loc] == s.table[loc] && After(s, hs, ls, n).recent[loc] == s.recent[loc]
  {
    if n > 0 { AfterAt(s, hs, ls, n - 1, loc); }
  }

  /** What holds after n moves: the n-th element in hand is the only one missing. */
  ghost predicate Missing(s: State, hs: seq<Hand>, ls: seq<nat>, n: nat)
    requires InRange(s, hs, ls) && n <= |ls| && Placed(s)
  {
    var u := After(s, hs, ls, n);
    && Placed(u) && hs[n].e != Default && hs[n].e !in u.table
    && Live(u)[hs[n].e := hs[n].epoch] == Live(s)[hs[0].e := hs[0].epoch]
  }

  lemma OneMissing(s: State, hs: seq<Hand>, ls: seq<nat>, last: int, n: nat)
    requires InRange(s, hs, ls) && Placed(s) && n < |ls| && Throws(s, hs, ls, last, n) && Missing(s, hs, ls, n)
    ensures Missing(s, hs, ls, n + 1)
  {
    var u := After(s, hs, ls, n);
    SlotOf(s, hs, ls, last, n);
    SwapEffect(u, ls[n], hs[n].e, hs[n].epoch);
  }

  lemma SlotOf(s: State, hs: seq<Hand>, ls: seq<nat>, last: int, n: nat)
    requires InRange(s, hs, ls) && n < |ls| && Throws(s, hs, ls, last, n)
    ensures var u, locs := After(s, hs, ls, n), LocsOf(s, hs[n].e);
      && LocsOf(u, hs[n].e) == locs && ls[n] in locs && !u.collected[ls[n]]
      && NextLoc(locs, if n == 0 then last else ls[n - 1]) == ls[n] && FindFree(u.collected, locs, 0) == LOCATIONS
  {
    var locs := LocsOf(s, hs[n].e);
    NextLocFollows(locs, if n == 0 then last else ls[n - 1], ls[n]);
    hide Locations, FindFree, NextLoc;
    var k :| 0 <= k < |locs| && locs[k] == ls[n];
    assert !s.collected[locs[k]];
  }

  lemma KickOne(s: State, hs: seq<Hand>, ls: seq<nat>, last: int, depth: nat, n: nat)
    requires InRange(s, hs, ls) && n < |ls| && n < depth && Throws(s, hs, ls, last, n)
    ensures Kick(After(s, hs, ls, n), hs[n].e, hs[n].epoch, if n == 0 then last else ls[n - 1], depth - n)
            == Kick(After(s, hs, ls, n + 1), hs[n + 1].e, hs[n + 1].epoch, ls[n], depth - (n + 1))
  {
    SlotOf(s, hs, ls, last, n);
    hide NextLoc, FindFree, Locations, Follows, Full;
  }

  /** Insertion goes on with the n-th element in hand. */
  ghost predicate GoesOn(s: State, hs: seq<Hand>, ls: seq<nat>, last: int, depth: nat, n: nat)
    requires InRange(s, hs, ls) && n <= |ls| && n <= depth
  {
    Kick(s, hs[0].e, hs[0].epoch, last, depth)
    == Kick(After(s, hs, ls, n), hs[n].e, hs[n].epoch, if n == 0 then last else ls[n - 1], depth - n)
  }

  /** Insertion goes along the chain. */
  lemma {:induction false} AlongChain(s: State, hs: seq<Hand>, ls: seq<nat>, last: int, depth: nat, n: nat)
    requires Chain(s, hs, ls, last) && Placed(s) && hs[0].e != Default && hs[0].e !in s.table && n <= |ls| && n <= depth
    ensures Missing(s, hs, ls, n) && GoesOn(s, hs, ls, last, depth, n)
  {
    hide Missing, GoesOn, Placed, Throws, After;
    if n == 0 {
      AtStart(s, hs, ls, last, depth);
    } else {
      AlongChain(s, hs, ls, last, depth, n - 1);
      assert Throws(s, hs, ls, last, n - 1);
      OneMissing(s, hs, ls, last, n - 1);
      AlongOne(s, hs, ls, last, depth, n - 1);
    }
  }

  lemma AtStart(s: State, hs: seq<Hand>, ls: seq<nat>, last: int, depth: nat)
    requires InRange(s, hs, ls) && Placed(s) && hs[0].e != Default && hs[0].e !in s.table
    ensures Missing(s, hs, ls, 0) && GoesOn(s, hs, ls, last, depth, 0)
  {
    hide Placed, Live;
  }

  lemma AlongOne(s: State, hs: seq<Hand>, ls: seq<nat>, last: int, depth: nat, n: nat)
    requires InRange(s, hs, ls) && n < |ls| && n < depth && Throws(s, hs, ls, last, n) && GoesOn(s, hs, ls, last, depth, n)
    ensures GoesOn(s, hs, ls, last, depth, n + 1)
  {
    hide Kick, After, Throws;
    KickOne(s, hs, ls, last, depth, n);
  }

  lemma LastPlaced(s: State, hs: seq<Hand>, ls: seq<nat>, n: nat, loc: nat)
    requires InRange(s, hs, ls) && Placed(s) && n <= |ls| && Missing(s, hs, ls, n)
    requires loc in LocsOf(s, hs[n].e) && s.collected[loc]
    ensures NobodyLost(s, hs[0].e, hs[0].epoch, Put(After(s, hs, ls, n), loc, hs[n].e, hs[n].epoch))
  {
    hide Placed, Live, Locations;
    var u := After(s, hs, ls, n);
    assert LocsOf(u, hs[n].e) == LocsOf(s, hs[n].e);
    PutEffect(u, loc, hs[n].e, hs[n].epoch);
  }

  lemma KickLast(u: State, h: Hand, last: int, depth: nat, k: nat)
    requires 2 <= |u.table| == |u.collected| == |u.recent| && depth > 0
    requires var locs := LocsOf(u, h.e); k < LOCATIONS && u.collected[locs[k]] && forall j | 0 <= j < k :: !u.collected[locs[j]]
    ensures Kick(u, h.e, h.epoch, last, depth) == Put(u, LocsOf(u, h.e)[k], h.e, h.epoch)
  {
    hide Locations;
    assert FindFree(u.collected, LocsOf(u, h.e), 0) == k;
  }

  /** If the last element of a chain shorter than the depth has room, it gets the first room it has, all
      others take the slots of those they threw out, with their epochs, and nobody is lost. */
  lemma ChainPlaced(s: State, hs: seq<Hand>, ls: seq<nat>, last: int, depth: nat, k: nat)
    requires Chain(s, hs, ls, last) && Placed(s) && hs[0].e != Default && hs[0].e !in s.table && |ls| < depth
    requires var locs := LocsOf(s, hs[|ls|].e); k < LOCATIONS && s.collected[locs[k]] && forall j | 0 <= j < k :: !s.collected[locs[j]]
    ensures var t, n := Kick(s, hs[0].e, hs[0].epoch, last, depth), |ls|;
      && t == Put(After(s, hs, ls, n), LocsOf(s, hs[n].e)[k], hs[n].e, hs[n].epoch)
      && NobodyLost(s, hs[0].e, hs[0].epoch, t)
  {
    hide Throws, NobodyLost, Missing, Placed, Live, Locations, Kick, Put, After;
    var n := |ls|;
    AlongChain(s, hs, ls, last, depth, n);
    var u, locs := After(s, hs, ls, n), LocsOf(s, hs[n].e);
    assert LocsOf(u, hs[n].e) == locs;
    KickLast(u, hs[n], if n == 0 then last else ls[n - 1], depth - n, k);
    LastPlaced(s, hs, ls, n, locs[k]);
  }

  lemma Lost(s: State, hs: seq<Hand>, ls: seq<nat>, n: nat)
    requires InRange(s, hs, ls) && Placed(s) && n <= |ls| && Missing(s, hs, ls, n)
    ensures var t := After(s, hs, ls, n); Placed(t) && Live(t) == Live(s)[hs[0].e := hs[0].epoch] - {hs[n].e}
  {
    hide Placed, Live, After;
    var t := After(s, hs, ls, n);
    NotLive(t, hs[n].e);
    var m := Live(t);
    assert m == m[hs[n].e := hs[n].epoch] - {hs[n].e};
  }

  /** If a chain is as long as the depth, exactly its last element is lost. */
  lemma ChainLost(s: State, hs: seq<Hand>, ls: seq<nat>, last: int)
    requires Chain(s, hs, ls, last) && Placed(s) && hs[0].e != Default && hs[0].e !in s.table
    ensures var t, n := Kick(s, hs[0].e, hs[0].epoch, last, |ls|), |ls|;
      t == After(s, hs, ls, n) && Placed(t) && Live(t) == Live(s)[hs[0].e := hs[0].epoch] - {hs[n].e}
  {
    AlongChain(s, hs, ls, last, |ls|, |ls|);
    hide Chain, Missing, Placed, Live, Locations, FindFree, After;
    Lost(s, hs, ls, |ls|);
  }

  /** There is always a chain that comes to room or is as long as the depth. */
  lemma {:induction false} ChainExists(s: State, h: Hand, last: int, depth: nat) returns (hs: seq<Hand>, ls: seq<nat>)
    requires Shaped(s)
    ensures Chain(s, hs, ls, last) && hs[0] == h && |ls| <= depth && (|ls| < depth ==> !Full(s, hs[|ls|].e))
  {
    hs, ls := [h], [];
    if depth > 0 {
      hs, ls := ChainExists(s, h, last, depth - 1);
      if |ls| == depth - 1 && Full(s, hs[|ls|].e) { hs, ls := Longer(s, hs, ls, last); }
    }
  }

  lemma Longer(s: State, hs0: seq<Hand>, ls0: seq<nat>, last: int) returns (hs: seq<Hand>, ls: seq<nat>)
    requires Chain(s, hs0, ls0, last) && Full(s, hs0[|ls0|].e)
    ensures Chain(s, hs, ls, last) && |ls| == |ls0| + 1 && hs[0] == hs0[0]
  {
    hide Follows, Full, NextLoc, Locations, After, Throws;
    var n := |ls0|;
    var last', u := if n == 0 then last else ls0[n - 1], After(s, hs0, ls0, n);
    var locs := LocsOf(s, hs0[n].e);
    var loc := NextLoc(locs, last');
    NextLocFollows(locs, last', loc);
    hs, ls := hs0 + [Hand(u.table[loc], u.recent[loc])], ls0 + [loc];
    LongerThrows(s, hs0, ls0, hs, ls, last);
    forall i | 0 <= i < n ensures Throws(s, hs, ls, last, i) {
      assert Throws(s, hs0, ls0, last, i);
      SameThrows(s, hs0, ls0, hs, ls, last, i);
    }
  }

  lemma LongerThrows(s: State, hs0: seq<Hand>, ls0: seq<nat>, hs: seq<Hand>, ls: seq<nat>, last: int)
    requires InRange(s, hs0, ls0) && InRange(s, hs, ls) && hs0 <= hs && ls0 <= ls && |ls| == |ls0| + 1
    requires var n := |ls0|; var u := After(s, hs0, ls0, n);
      && Full(s, hs0[n].e) && Follows(LocsOf(s, hs0[n].e), if n == 0 then last else ls0[n - 1], ls[n])
      && hs[n + 1] == Hand(u.table[ls[n]], u.recent[ls[n]])
    ensures Throws(s, hs, ls, last, |ls0|)
  {
    hide Follows, Full, Locations;
    SameAfter(s, hs0, ls0, hs, ls, |ls0|);
  }

  lemma SameThrows(s: State, hs0: seq<Hand>, ls0: seq<nat>, hs: seq<Hand>, ls: seq<nat>, last: int, i: nat)
    requires InRange(s, hs0, ls0) && InRange(s, hs, ls) && hs0 <= hs && ls0 <= ls && i < |ls0|
    requires Throws(s, hs0, ls0, last, i)
    ensures Throws(s, hs, ls, last, i)
  {
    hide Follows, Full, Locations;
    SameAfter(s, hs0, ls0, hs, ls, i);
  }

  lemma {:induction false} SameAfter(s: State, hs0: seq<Hand>, ls0: seq<nat>, hs: seq<Hand>, ls: seq<nat>, n: nat)
    requires InRange(s, hs0, ls0) && InRange(s, hs, ls) && hs0 <= hs && ls0 <= ls && n <= |ls0|
    ensures After(s, hs0, ls0, n) == After(s, hs, ls, n)
  {
    if n > 0 { SameAfter(s, hs0, ls0, hs, ls, n - 1); }
  }

  /** Slots that follow each other and differ, with who was in them at first, are a chain; and whoever is
      moved along it is then where the one after him was. */
  lemma ApartChain(s: State, hs: seq<Hand>, ls: seq<nat>, last: int)
    requires InRange(s, hs, ls) && Distinct(ls)
    requires forall i | 0 <= i < |ls| :: Full(s, hs[i].e) && Follows(LocsOf(s, hs[i].e), if i == 0 then last else ls[i - 1], ls[i])
    requires forall i | 0 <= i < |ls| :: hs[i + 1] == Hand(s.table[ls[i]], s.recent[ls[i]])
    ensures Chain(s, hs, ls, last)
    ensures forall i | 0 <= i < |ls| :: After(s, hs, ls, |ls|).table[ls[i]] == hs[i].e
  {
    hide Follows, Full, Locations, After;
    forall i | 0 <= i < |ls| ensures Throws(s, hs, ls, last, i) { AfterAt(s, hs, ls, i, ls[i]); }
    forall i | 0 <= i < |ls| ensures After(s, hs, ls, |ls|).table[ls[i]] == hs[i].e { AfterIn(s, hs, ls, |ls|, i); }
  }

  lemma {:induction false} AfterIn(s: State, hs: seq<Hand>, ls: seq<nat>, n: nat, i: nat)
    requires InRange(s, hs, ls) && Distinct(ls) && i < n <= |ls|
    ensures After(s, hs, ls, n).table[ls[i]] == hs[i].e
  {
    if i < n - 1 { AfterIn(s, hs, ls, n - 1, i); }
  }

  // ----- insertion

  /** A new element without room goes to its second location, and nobody is lost if whoever is there has
      room, and the depth is two at least. */
  lemma SecondMakesRoom(s: State, e: Element, epoch: bool, depth: nat)
    requires Shaped(s) && Placed(s) && e != Default && e !in s.table && s.Size() < TWO32 && depth >= 2
    requires Full(s, e) && !Full(s, s.table[LocsOf(s, e)[1]])
    ensures var t := Kick(s, e, epoch, TWO32 - 1, depth);
      NobodyLost(s, e, epoch, t) && t.table[LocsOf(s, e)[1]] == e
  {
    hide Placed, Live, Kick, Locations;
    var loc := LocsOf(s, e)[1];
    var hs, ls := [Hand(e, epoch), Hand(s.table[loc], s.recent[loc])], [loc];
    SecondChain(s, hs, ls, loc);
    var locs := LocsOf(s, hs[1].e);
    var k := FindFree(s.collected, locs, 0);
    ChainPlaced(s, hs, ls, TWO32 - 1, depth, k);
    assert !s.collected[loc] && s.collected[locs[k]];
  }

  lemma SecondChain(s: State, hs: seq<Hand>, ls: seq<nat>, loc: nat)
    requires Shaped(s) && |hs| == 2 && ls == [loc] && s.Size() < TWO32
    requires Full(s, hs[0].e) && loc == LocsOf(s, hs[0].e)[1] && hs[1] == Hand(s.table[loc], s.recent[loc])
    ensures Chain(s, hs, ls, TWO32 - 1) && After(s, hs, ls, 1).table[loc] == hs[0].e
  {
    hide Locations, Full;
    var locs := LocsOf(s, hs[0].e);
    assert forall k | 0 <= k < |locs| :: locs[k] < s.Size();
    assert TWO32 - 1 !in locs;
    assert Follows(locs, TWO32 - 1, ls[0]);
    ApartChain(s, hs, ls, TWO32 - 1);
    assert ls[0] == loc;
  }

  /** An insertion of a new element loses nobody if a chain shorter than the depth limit ends with an
      element that has room, and exactly the last of the chain if it is as long as the limit. */
  lemma InsertExact(s: State, e: Element) returns (hs: seq<Hand>, ls: seq<nat>)
    requires Valid(s) && e != Default && e !in s.table
    ensures var s1, t, n := EpochCheck(s), Insert(s, e), |ls|;
      && Chain(s1, hs, ls, TWO32 - 1) && hs[0] == Hand(e, true) && n <= s.depthLimit && Placed(s1) && Valid(t)
      && if n < s.depthLimit then !Full(s1, hs[n].e) && Live(t) == Live(s1)[e := true]
         else Live(t) == Live(s1)[e := true] - {hs[n].e}
  {
    hide Placed, Live, Current, Kick, Throws;
    EpochCheckEffect(s);
    var gone := InsertEffect(s, e);
    var s1 := EpochCheck(s);
    NotFound(s1, e);
    hs, ls := ChainExists(s1, Hand(e, true), TWO32 - 1, s.depthLimit);
    var n := |ls|;
    if n < s.depthLimit {
      var locs := LocsOf(s1, hs[n].e);
      assert !Full(s1, hs[n].e);
      var k := FindFree(s1.collected, locs, 0);
      ChainPlaced(s1, hs, ls, TWO32 - 1, s.depthLimit, k);
    } else {
      ChainLost(s1, hs, ls, TWO32 - 1);
    }
  }
}
