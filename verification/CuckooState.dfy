/** The cuckoo cache's state as a value: a set of elements with lazily collected garbage and
    two epochs. What its operations do to the elements that are still live. */
module CuckooState {
  import opened Powers
  import opened Sets

  const LOCATIONS: nat := 8
  const TWO32: nat := 0x1_0000_0000

  /** `Default` is the default-constructed element, which fills a new table. */
  datatype Element = Default | Key(id: nat)

  datatype State = State(
    hash: (nat, Element) -> nat,
    table: seq<Element>, collected: seq<bool>, recent: seq<bool>,
    counter: nat, epochSize: nat, depthLimit: nat)
  {
    function Size(): nat { |table| }
  }

  /** The location of a 32-bit hash in a table: its fixed-point product with the size. */
  function At(h: nat, size: nat): (loc: nat)
    requires size > 0
    ensures loc < size
  {
    Below(h % TWO32, TWO32, size);
    h % TWO32 * size / TWO32
  }

  lemma Below(x: nat, m: nat, size: nat)
    requires x < m && size > 0
    ensures x * size / m < size
  {
    assert (m - x) * size > 0;
    assert (m - x) * size == m * size - x * size;
    QuotientBelow(x * size, m, size);
  }

  lemma QuotientBelow(x: nat, m: nat, n: nat)
    requires m > 0 && x < n * m
    ensures x / m < n
  {
    var q := x / m;
    assert q * m <= x;
    assert (n - q) * m > 0;
  }

  /** The eight locations of an element. */
  function Locations(hash: (nat, Element) -> nat, size: nat, e: Element): (locs: seq<nat>)
    requires size > 0
    ensures |locs| == LOCATIONS && forall k | 0 <= k < LOCATIONS :: locs[k] < size
  {
    [At(hash(0, e), size), At(hash(1, e), size), At(hash(2, e), size), At(hash(3, e), size),
     At(hash(4, e), size), At(hash(5, e), size), At(hash(6, e), size), At(hash(7, e), size)]
  }

  /** The k-th location is the k-th hash, as a 32-bit fraction of one, times the size, rounded down. */
  lemma LocationsExact(hash: (nat, Element) -> nat, size: nat, e: Element, k: nat, loc: nat)
    requires size > 0 && k < LOCATIONS
    ensures Locations(hash, size, e)[k] == loc <==> loc * TWO32 <= hash(k, e) % TWO32 * size < (loc + 1) * TWO32
  {
    QuotientExact(hash(k, e) % TWO32 * size, loc);
  }

  lemma QuotientExact(x: nat, q: nat)
    ensures x / TWO32 == q <==> q * TWO32 <= x < (q + 1) * TWO32
  {
  }

  function LocsOf(s: State, e: Element): (locs: seq<nat>)
    requires s.Size() > 0
    ensures |locs| == LOCATIONS && forall k | 0 <= k < LOCATIONS :: locs[k] < s.Size()
  {
    Locations(s.hash, s.Size(), e)
  }

  // ----- what is kept

  ghost predicate Shaped(s: State) {
    2 <= |s.table| == |s.collected| == |s.recent|
  }

  /** Every element is at one of its locations, and at no other slot besides. */
  ghost predicate Placed(s: State)
    requires Shaped(s)
  {
    && (forall i | 0 <= i < |s.table| :: s.table[i] != Default ==> i in LocsOf(s, s.table[i]))
    && (forall i, j | 0 <= i < j < |s.table| :: s.table[i] != Default ==> s.table[i] != s.table[j])
    && (forall i | 0 <= i < |s.table| :: !s.collected[i] ==> s.table[i] != Default)
  }

  function B(b: bool): nat { if b then 1 else 0 }

  /** The number of slots among the first n that are live and of the current epoch. */
  ghost function Counted(recent: seq<bool>, collected: seq<bool>, n: nat): nat
    requires n <= |recent| == |collected|
  {
    if n == 0 then 0 else Counted(recent, collected, n - 1) + B(recent[n - 1] && !collected[n - 1])
  }

  ghost function Current(s: State): nat
    requires Shaped(s)
  {
    Counted(s.recent, s.collected, |s.table|)
  }

  /** The current epoch cannot outgrow its size by more than a sixteenth before it is aged. */
  ghost predicate EpochBounded(s: State)
    requires Shaped(s)
  {
    1 <= s.epochSize && Current(s) + s.counter <= s.epochSize + Max(1, s.epochSize / 16)
  }

  ghost predicate Valid(s: State) { Shaped(s) && Placed(s) && EpochBounded(s) }

  /** The live elements, each with whether it belongs to the current epoch. */
  ghost function Live(s: State): map<Element, bool>
    requires Shaped(s) && Placed(s)
  {
    map i | 0 <= i < |s.table| && !s.collected[i] :: s.table[i] := s.recent[i]
  }

  // ----- the operations

  function Setup(hash: (nat, Element) -> nat, newSize: nat, depthLimit: nat): State {
    var size := Max(2, newSize);
    var epochSize := Max(1, 45 * size % TWO32 / 100);
    State(hash, seq(size, _ => Default), seq(size, _ => true), seq(size, _ => false), epochSize, epochSize, depthLimit)
  }

  function AllowErase(s: State, i: nat): State
    requires i < |s.collected|
  {
    s.(collected := s.collected[i := true])
  }

  /** Start a new epoch: the elements of the old one may be erased, those of the current one
      become old. */
  function Aged(s: State): State
    requires |s.table| == |s.collected| == |s.recent|
  {
    s.(collected := seq(|s.table|, i requires 0 <= i < |s.table| => if s.recent[i] then s.collected[i] else true),
       recent := seq(|s.table|, _ => false),
       counter := s.epochSize)
  }

  ghost function EpochCheck(s: State): State
    requires Shaped(s)
  {
    if s.counter != 0 then s.(counter := s.counter - 1)
    else if Current(s) >= s.epochSize then Aged(s)
    else s.(counter := Max(1, Max(s.epochSize / 16, s.epochSize - Current(s))))
  }

  /** Write an element into a slot, which is kept from then on. */
  function Put(s: State, loc: nat, e: Element, epoch: bool): State
    requires loc < |s.table| == |s.collected| == |s.recent|
  {
    s.(table := s.table[loc := e], collected := s.collected[loc := false], recent := s.recent[loc := epoch])
  }

  /** Exchange the element in a slot and its epoch for another one. */
  function Swap(s: State, loc: nat, e: Element, epoch: bool): State
    requires loc < |s.table| == |s.recent|
  {
    s.(table := s.table[loc := e], recent := s.recent[loc := epoch])
  }

  /** The first index of a value, or the length. */
  function Find(locs: seq<nat>, loc: int): (k: nat)
    ensures k <= |locs| && (k < |locs| ==> locs[k] == loc) && forall j | 0 <= j < k :: locs[j] != loc
  {
    FindFrom(locs, loc, 0)
  }

  function FindFrom(locs: seq<nat>, loc: int, i: nat): (k: nat)
    requires i <= |locs|
    ensures i <= k <= |locs| && (k < |locs| ==> locs[k] == loc) && forall j | i <= j < k :: locs[j] != loc
    decreases |locs| - i
  {
    if i == |locs| || locs[i] == loc then i else FindFrom(locs, loc, i + 1)
  }

  /** The first of some locations whose slot may be overwritten, or their number. */
  function FindFree(collected: seq<bool>, locs: seq<nat>, i: nat): (k: nat)
    requires i <= |locs| && forall j | 0 <= j < |locs| :: locs[j] < |collected|
    ensures i <= k <= |locs| && (k < |locs| ==> collected[locs[k]]) && forall j | i <= j < k :: !collected[locs[j]]
    decreases |locs| - i
  {
    if i == |locs| || collected[locs[i]] then i else FindFree(collected, locs, i + 1)
  }

  /** The first of some locations that holds an element, or their number. */
  function FindElement(table: seq<Element>, locs: seq<nat>, e: Element, i: nat): (k: nat)
    requires i <= |locs| && forall j | 0 <= j < |locs| :: locs[j] < |table|
    ensures i <= k <= |locs| && (k < |locs| ==> table[locs[k]] == e) && forall j | i <= j < k :: table[locs[j]] != e
    decreases |locs| - i
  {
    if i == |locs| || table[locs[i]] == e then i else FindElement(table, locs, e, i + 1)
  }

  /** The location to throw an element out of: the one after the location looked at last. */
  function NextLoc(locs: seq<nat>, last: int): (loc: nat)
    requires |locs| == LOCATIONS
    ensures loc in locs
  {
    locs[(1 + Find(locs, last)) % LOCATIONS]
  }

  /** Find room for an element, throwing others out; the last one in hand is lost. */
  function Kick(s: State, e: Element, epoch: bool, last: int, depth: nat): State
    requires 2 <= |s.table| == |s.collected| == |s.recent|
    decreases depth
  {
    var locs := LocsOf(s, e);
    var k := FindFree(s.collected, locs, 0);
    if depth == 0 then s
    else if k < LOCATIONS then Put(s, locs[k], e, epoch)
    else
      var loc := NextLoc(locs, last);
      Kick(Swap(s, loc, e, epoch), s.table[loc], s.recent[loc], loc, depth - 1)
  }

  ghost function Insert(s: State, e: Element): State
    requires Shaped(s)
  {
    var s1 := EpochCheck(s);
    var locs := LocsOf(s1, e);
    var k := FindElement(s1.table, locs, e, 0);
    if k < LOCATIONS then Put(s1, locs[k], e, true)
    else Kick(s1, e, true, TWO32 - 1, s1.depthLimit)
  }

  /** Whether an element is found in the table, and the state after it was looked for. */
  predicate Found(s: State, e: Element)
    requires 2 <= |s.table|
  {
    FindElement(s.table, LocsOf(s, e), e, 0) < LOCATIONS
  }

  function Contains(s: State, e: Element, erase: bool): State
    requires 2 <= |s.table| == |s.collected|
  {
    var locs := LocsOf(s, e);
    var k := FindElement(s.table, locs, e, 0);
    if k < LOCATIONS && erase then AllowErase(s, locs[k]) else s
  }

  // ----- counting

  lemma {:induction false} CountedUpdate(recent: seq<bool>, collected: seq<bool>, n: nat, i: nat, r: bool, c: bool)
    requires n <= |recent| == |collected| && i < |recent|
    ensures Counted(recent[i := r], collected[i := c], n) + (if i < n then B(recent[i] && !collected[i]) else 0)
            == Counted(recent, collected, n) + (if i < n then B(r && !c) else 0)
  {
    if n > 0 { CountedUpdate(recent, collected, n - 1, i, r, c); }
  }

  lemma {:induction false} CountedNone(recent: seq<bool>, collected: seq<bool>, n: nat)
    requires n <= |recent| == |collected| && forall i | 0 <= i < n :: !(recent[i] && !collected[i])
    ensures Counted(recent, collected, n) == 0
  {
    if n > 0 { CountedNone(recent, collected, n - 1); }
  }

  lemma SlotUpdate(s: State, i: nat, r: bool, c: bool)
    requires Shaped(s) && i < |s.table|
    ensures Counted(s.recent[i := r], s.collected[i := c], |s.table|) + B(s.recent[i] && !s.collected[i])
            == Current(s) + B(r && !c)
  {
    CountedUpdate(s.recent, s.collected, |s.table|, i, r, c);
  }

  // ----- one step at a time

  lemma LiveAt(s: State, i: nat)
    requires Shaped(s) && Placed(s) && i < |s.table| && !s.collected[i]
    ensures s.table[i] in Live(s) && Live(s)[s.table[i]] == s.recent[i]
  {
    assert s.table[i] in Live(s);
    var j :| 0 <= j < |s.table| && !s.collected[j] && s.table[j] == s.table[i] && Live(s)[s.table[i]] == s.recent[j];
    assert j == i;
  }

  lemma LiveFrom(s: State, x: Element) returns (i: nat)
    requires Shaped(s) && Placed(s) && x in Live(s)
    ensures i < |s.table| && !s.collected[i] && s.table[i] == x && Live(s)[x] == s.recent[i]
  {
    i :| 0 <= i < |s.table| && !s.collected[i] && s.table[i] == x;
    LiveAt(s, i);
  }

  lemma AgedPlaced(s: State)
    requires Shaped(s) && Placed(s)
    ensures Shaped(Aged(s)) && Placed(Aged(s)) && Current(Aged(s)) == 0
  {
    var t := Aged(s);
    CountedNone(t.recent, t.collected, |t.table|);
  }

  /** A new epoch leaves exactly the elements of the current one, as old ones. */
  lemma AgedEffect(s: State)
    requires Shaped(s) && Placed(s)
    ensures var t := Aged(s); var live := Live(s);
      && Shaped(t) && Placed(t) && Current(t) == 0
      && Live(t) == map x | x in live && live[x] :: false
  {
    AgedPlaced(s);
    hide Placed, Live, Current;
    var t := Aged(s);
    forall x | x in Live(t) ensures x in Live(s) && Live(s)[x] && !Live(t)[x] {
      var i := LiveFrom(t, x);
      LiveAt(s, i);
    }
    forall x | x in Live(s) && Live(s)[x] ensures x in Live(t) {
      var i := LiveFrom(s, x);
      LiveAt(t, i);
    }
  }

  /** The check before an insertion changes no element; it only starts a new epoch, when the
      counter has run out and the current epoch is full. */
  lemma EpochCheckEffect(s: State)
    requires Valid(s)
    ensures var t := EpochCheck(s); var live := Live(s);
      && Shaped(t) && Placed(t) && t.table == s.table
      && Current(t) + 1 + t.counter <= s.epochSize + Max(1, s.epochSize / 16)
      && Live(t) == if s.counter == 0 && Current(s) >= s.epochSize then map x | x in live && live[x] :: false else live
  {
    if s.counter == 0 && Current(s) >= s.epochSize { AgedEffect(s); }
  }

  lemma PutPlaced(s: State, loc: nat, e: Element, epoch: bool)
    requires Shaped(s) && Placed(s) && loc < |s.table| && e != Default && loc in LocsOf(s, e)
    requires (s.collected[loc] && e !in s.table) || s.table[loc] == e
    ensures var t := Put(s, loc, e, epoch); Shaped(t) && Placed(t)
  {
    hide Locations;
    var t := Put(s, loc, e, epoch);
    assert forall x :: LocsOf(t, x) == LocsOf(s, x);
    forall i, j | 0 <= i < j < |t.table| && t.table[i] != Default ensures t.table[i] != t.table[j] {
      if i == loc || j == loc { assert s.table[i] in s.table && s.table[j] in s.table; }
    }
  }

  lemma PutAt(s: State, loc: nat, e: Element, epoch: bool, x: Element)
    requires Shaped(s) && Placed(s) && loc < |s.table| && (s.collected[loc] || s.table[loc] == e)
    requires Placed(Put(s, loc, e, epoch))
    ensures var m, m' := Live(Put(s, loc, e, epoch)), Live(s)[e := epoch];
      (x in m <==> x in m') && (x in m ==> m[x] == m'[x])
  {
    hide Placed, Live;
    var t := Put(s, loc, e, epoch);
    LiveAt(t, loc);
    if x in Live(t) && x != e {
      var i := LiveFrom(t, x);
      LiveAt(s, i);
    } else if x in Live(s) && x != e {
      var i := LiveFrom(s, x);
      LiveAt(t, i);
    }
  }

  /** An element is written over garbage, or into its own slot. */
  lemma PutEffect(s: State, loc: nat, e: Element, epoch: bool)
    requires Shaped(s) && Placed(s) && loc < |s.table| && e != Default && loc in LocsOf(s, e)
    requires (s.collected[loc] && e !in s.table) || s.table[loc] == e
    ensures var t := Put(s, loc, e, epoch);
      Shaped(t) && Placed(t) && Live(t) == Live(s)[e := epoch] && Current(t) <= Current(s) + B(epoch)
  {
    PutPlaced(s, loc, e, epoch);
    SlotUpdate(s, loc, epoch, false);
    hide Placed, Live, Counted, LocsOf;
    var m, m' := Live(Put(s, loc, e, epoch)), Live(s)[e := epoch];
    forall x | x in m ensures x in m' && m[x] == m'[x] { PutAt(s, loc, e, epoch, x); }
    forall x | x in m' ensures x in m { PutAt(s, loc, e, epoch, x); }
    MapsEqual(m, m');
  }

  lemma SwapPlaced(s: State, loc: nat, e: Element, epoch: bool)
    requires Shaped(s) && Placed(s) && loc < |s.table| && e != Default && loc in LocsOf(s, e)
    requires e !in s.table && !s.collected[loc]
    ensures var t := Swap(s, loc, e, epoch); var x := s.table[loc];
      Shaped(t) && Placed(t) && x != Default && x !in t.table && x != e
  {
    hide Locations;
    var t := Swap(s, loc, e, epoch);
    assert forall x :: LocsOf(t, x) == LocsOf(s, x);
    assert s.table[loc] in s.table;
    forall i, j | 0 <= i < j < |t.table| && t.table[i] != Default ensures t.table[i] != t.table[j] {
      if i == loc || j == loc { assert s.table[i] in s.table && s.table[j] in s.table; }
    }
  }

  lemma SwapAt(s: State, loc: nat, e: Element, epoch: bool, y: Element)
    requires Shaped(s) && Placed(s) && loc < |s.table| && !s.collected[loc] && e != s.table[loc]
    requires Placed(Swap(s, loc, e, epoch))
    ensures var m, m' := Live(Swap(s, loc, e, epoch))[s.table[loc] := s.recent[loc]], Live(s)[e := epoch];
      (y in m <==> y in m') && (y in m ==> m[y] == m'[y])
  {
    hide Placed, Live;
    var t, x := Swap(s, loc, e, epoch), s.table[loc];
    LiveAt(t, loc);
    LiveAt(s, loc);
    if y in Live(t) && y != e && y != x {
      var i := LiveFrom(t, y);
      LiveAt(s, i);
    } else if y in Live(s) && y != e && y != x {
      var i := LiveFrom(s, y);
      LiveAt(t, i);
    }
  }

  /** Exchanging a live element for one that is nowhere in the table. */
  lemma SwapEffect(s: State, loc: nat, e: Element, epoch: bool)
    requires Shaped(s) && Placed(s) && loc < |s.table| && e != Default && loc in LocsOf(s, e)
    requires e !in s.table && !s.collected[loc]
    ensures var t := Swap(s, loc, e, epoch); var x := s.table[loc];
      && Shaped(t) && Placed(t) && x != Default && x !in t.table && x != e
      && Live(t)[x := s.recent[loc]] == Live(s)[e := epoch]
      && Current(t) + B(s.recent[loc]) == Current(s) + B(epoch)
  {
    SwapPlaced(s, loc, e, epoch);
    SlotUpdate(s, loc, epoch, false);
    hide Placed, Live, Counted, LocsOf;
    assert s.collected[loc := false] == s.collected;
    var m, m' := Live(Swap(s, loc, e, epoch))[s.table[loc] := s.recent[loc]], Live(s)[e := epoch];
    forall y | y in m ensures y in m' && m[y] == m'[y] { SwapAt(s, loc, e, epoch, y); }
    forall y | y in m' ensures y in m { SwapAt(s, loc, e, epoch, y); }
    MapsEqual(m, m');
  }

  /** Whatever the hashes and the depth, the elements thrown out find a place again, and take
      their epochs with them, but for at most one: the last in hand when the depth runs out. */
  lemma {:induction false} KickEffect(s: State, e: Element, epoch: bool, last: int, depth: nat) returns (gone: set<Element>)
    requires Shaped(s) && Placed(s) && e != Default && e !in s.table
    ensures var t := Kick(s, e, epoch, last, depth);
      && Shaped(t) && Placed(t) && |gone| <= 1 && Live(t) == Live(s)[e := epoch] - gone
      && Current(t) <= Current(s) + B(epoch)
      && t.counter == s.counter && t.epochSize == s.epochSize && t.hash == s.hash && |t.table| == |s.table|
    ensures depth > 0 && (exists k | 0 <= k < LOCATIONS :: s.collected[LocsOf(s, e)[k]]) ==> gone == {}
    decreases depth
  {
    hide Placed, Live, Current;
    var locs := LocsOf(s, e);
    var k := FindFree(s.collected, locs, 0);
    if depth == 0 {
      NotLive(s, e);
      gone := {e};
      assert Live(s)[e := epoch] - gone == Live(s);
    } else if k < LOCATIONS {
      PutEffect(s, locs[k], e, epoch);
      gone := {};
    } else {
      var loc := NextLoc(locs, last);
      SwapEffect(s, loc, e, epoch);
      gone := KickEffect(Swap(s, loc, e, epoch), s.table[loc], s.recent[loc], loc, depth - 1);
    }
  }

  lemma NotLive(s: State, e: Element)
    requires Shaped(s) && Placed(s) && e !in s.table
    ensures e !in Live(s)
  {
  }

  lemma NotFound(s: State, e: Element)
    requires Shaped(s) && Placed(s) && e != Default
    ensures Found(s, e) <==> e in s.table
  {
    if e in s.table {
      var i :| 0 <= i < |s.table| && s.table[i] == e;
      assert i in LocsOf(s, e);
    }
  }

  // ----- the operations' contracts

  /** The next scan comes when the current epoch could be full, were nothing erased until then; but after a
      sixteenth of an epoch at the earliest, and after one insertion. */
  lemma NextScan(s: State, n: nat)
    requires Valid(s) && s.counter == 0
    ensures var t := EpochCheck(s);
      && (Current(s) < s.epochSize ==> t.recent == s.recent && t.collected == s.collected && (n < t.counter <==> n < 1 || n < s.epochSize / 16 || Current(t) + n < s.epochSize))
      && (Current(s) >= s.epochSize ==> t.counter == s.epochSize && Current(t) == 0)
  {
    hide Placed, Counted;
    if Current(s) >= s.epochSize { AgedPlaced(s); }
  }

  /** An epoch is 45 hundredths of the table, at least one; the first scan comes after a whole one; and the
      product is of 32 bits, so this fails for tables of 95443718 slots and more. */
  lemma SetupEpoch(hash: (nat, Element) -> nat, newSize: nat, depthLimit: nat)
    ensures var s := Setup(hash, newSize, depthLimit);
      && s.counter == s.epochSize && s.depthLimit == depthLimit && s.hash == hash
      && s.Size() == (if newSize < 2 then 2 else newSize)
      && (s.Size() == 2 ==> s.epochSize == 1)
      && (s.Size() > 2 ==> (100 * s.epochSize <= 45 * s.Size() < 100 * s.epochSize + 100 <==> s.Size() < 95443718))
  {
  }

  /** The live elements after an insertion are those the epoch check left, and the new one,
      which belongs to the current epoch, but for at most one; and none is lost if the element
      is in the table already or one of its slots may be overwritten. */
  lemma InsertEffect(s: State, e: Element) returns (gone: set<Element>)
    requires Valid(s) && e != Default
    ensures var s1 := EpochCheck(s); var t := Insert(s, e);
      && Shaped(s1) && Placed(s1) && Valid(t) && |gone| <= 1 && Live(t) == Live(s1)[e := true] - gone
      && (e in s.table || (s.depthLimit > 0 && exists k | 0 <= k < LOCATIONS :: s1.collected[LocsOf(s1, e)[k]]) ==> gone == {})
      && t.hash == s.hash && |t.table| == |s.table|
  {
    hide Placed, Live, Current, Kick;
    EpochCheckEffect(s);
    var s1 := EpochCheck(s);
    var locs := LocsOf(s1, e);
    var k := FindElement(s1.table, locs, e, 0);
    NotFound(s1, e);
    if k < LOCATIONS {
      PutEffect(s1, locs[k], e, true);
      gone := {};
    } else {
      gone := KickEffect(s1, e, true, TWO32 - 1, s1.depthLimit);
    }
  }

  /** Looking for an element finds it exactly if it is in the table, collected or not; with
      `erase` it is not live any more; and nothing else changes. */
  lemma ContainsEffect(s: State, e: Element, erase: bool)
    requires Valid(s)
    ensures var t := Contains(s, e, erase);
      && Valid(t) && t.table == s.table
      && (e != Default ==> (Found(s, e) <==> e in s.table) && (e in Live(s) ==> Found(s, e)))
      && Live(t) == if erase then Live(s) - {e} else Live(s)
  {
    hide Placed, Live, Counted;
    var locs := LocsOf(s, e);
    var k := FindElement(s.table, locs, e, 0);
    if e != Default {
      NotFound(s, e);
      if e !in s.table { NotLive(s, e); }
    } else {
      DefaultNotLive(s);
    }
    if erase {
      if k < LOCATIONS { EraseEffect(s, locs[k], e); } else { assert Live(s) - {e} == Live(s); }
    }
  }

  lemma DefaultNotLive(s: State)
    requires Shaped(s) && Placed(s)
    ensures Default !in Live(s)
  {
  }

  lemma EraseAt(s: State, i: nat, x: Element)
    requires Shaped(s) && Placed(s) && i < |s.table| && Placed(AllowErase(s, i))
    ensures var m, m' := Live(AllowErase(s, i)), Live(s) - {s.table[i]};
      (x in m <==> x in m') && (x in m ==> m[x] == m'[x])
  {
    hide Placed, Live;
    var t := AllowErase(s, i);
    if x in Live(t) {
      var j := LiveFrom(t, x);
      LiveAt(s, j);
      if x == s.table[i] { SameSlot(s, i, j); }
    } else if x in Live(s) && x != s.table[i] {
      var j := LiveFrom(s, x);
      LiveAt(t, j);
    }
  }

  lemma EraseEffect(s: State, i: nat, e: Element)
    requires Shaped(s) && Placed(s) && i < |s.table| && s.table[i] == e
    ensures var t := AllowErase(s, i); Placed(t) && Live(t) == Live(s) - {e} && Current(t) <= Current(s)
  {
    ErasePlaced(s, i);
    SlotUpdate(s, i, s.recent[i], true);
    hide Placed, Live, Counted;
    assert s.recent[i := s.recent[i]] == s.recent;
    var m, m' := Live(AllowErase(s, i)), Live(s) - {e};
    forall x | x in m ensures x in m' && m[x] == m'[x] { EraseAt(s, i, x); }
    forall x | x in m' ensures x in m { EraseAt(s, i, x); }
    MapsEqual(m, m');
  }

  lemma ErasePlaced(s: State, i: nat)
    requires Shaped(s) && Placed(s) && i < |s.table|
    ensures Placed(AllowErase(s, i))
  {
  }

  lemma SameSlot(s: State, i: nat, j: nat)
    requires Shaped(s) && Placed(s) && i < |s.table| && j < |s.table| && s.table[i] == s.table[j] && !s.collected[j]
    ensures i == j
  {
  }

  lemma SetupValid(hash: (nat, Element) -> nat, newSize: nat, depthLimit: nat)
    ensures var s := Setup(hash, newSize, depthLimit); Valid(s) && Live(s) == map[]
  {
    var s := Setup(hash, newSize, depthLimit);
    CountedNone(s.recent, s.collected, |s.table|);
  }

  // ----- whole runs

  datatype Op = InsertOp(e: Element) | ContainsOp(e: Element, erase: bool)

  ghost function Step(s: State, op: Op): State
    requires Shaped(s)
  {
    match op
    case InsertOp(e) => Insert(s, e)
    case ContainsOp(e, erase) => Contains(s, e, erase)
  }

  ghost predicate Reaches(hash: (nat, Element) -> nat, newSize: nat, depthLimit: nat, ops: seq<Op>, s: State) {
    if ops == [] then s == Setup(hash, newSize, depthLimit)
    else exists s0 :: Shaped(s0) && Reaches(hash, newSize, depthLimit, ops[..|ops| - 1], s0) && s == Step(s0, ops[|ops| - 1])
  }

  lemma StepValid(s: State, op: Op)
    requires Valid(s) && (op.InsertOp? ==> op.e != Default)
    ensures Valid(Step(s, op))
  {
    match op
    case InsertOp(e) => var gone := InsertEffect(s, e);
    case ContainsOp(e, erase) => ContainsEffect(s, e, erase);
  }

  /** In every run of insertions and lookups from the set-up cache the elements are at their
      locations, no element is there twice, the epoch bound holds, and the live elements are
      among those inserted. */
  lemma {:induction false} RunValid(hash: (nat, Element) -> nat, newSize: nat, depthLimit: nat, ops: seq<Op>, s: State)
    requires Reaches(hash, newSize, depthLimit, ops, s)
    requires forall op | op in ops && op.InsertOp? :: op.e != Default
    ensures Valid(s) && forall x | x in Live(s) :: InsertOp(x) in ops
  {
    if ops == [] {
      SetupValid(hash, newSize, depthLimit);
    } else {
      var before, op := ops[..|ops| - 1], ops[|ops| - 1];
      var s0 :| Shaped(s0) && Reaches(hash, newSize, depthLimit, before, s0) && s == Step(s0, op);
      RunValid(hash, newSize, depthLimit, before, s0);
      StepValid(s0, op);
      StepLive(s0, op);
    }
  }

  lemma StepLive(s: State, op: Op)
    requires Valid(s) && Valid(Step(s, op)) && (op.InsertOp? ==> op.e != Default)
    ensures forall x | x in Live(Step(s, op)) :: x in Live(s) || op == InsertOp(x)
  {
    match op
    case InsertOp(e) =>
      EpochCheckEffect(s);
      var gone := InsertEffect(s, e);
    case ContainsOp(e, erase) => ContainsEffect(s, e, erase);
  }
}
