/** The cuckoo cache as an object: a table with two kinds of flags, changed in place, each
    method computing the operation of CuckooState. */
module CuckooCache {
  import opened CuckooState
  import opened Powers
  import opened CuckooFlags

  class Cache {
    const hash: (nat, Element) -> nat
    const flags: BitFlags
    var table: array<Element>
    var size: nat
    var epochFlags: array<bool>
    var counter: nat
    var epochSize: nat
    var depthLimit: nat

    ghost predicate Shape()
      reads this, flags
    {
      && 2 <= size == table.Length == epochFlags.Length && size <= flags.Capacity()
      && table as object != flags.mem as object && epochFlags as object != flags.mem as object
      && table as object != epochFlags as object
    }

    ghost function Collected(): (c: seq<bool>)
      requires Shape()
      reads this, flags, flags.mem
      ensures |c| == size
    {
      seq(size, i requires 0 <= i < size && Shape() reads this, flags, flags.mem => flags.IsSet(i))
    }

    ghost function Contents(): State
      requires Shape()
      reads this, flags, flags.mem, table, epochFlags
    {
      State(hash, table[..], Collected(), epochFlags[..], counter, epochSize, depthLimit)
    }

    /** An empty cache, which has to be set up before it is used. */
    constructor (hash: (nat, Element) -> nat)
      ensures this.hash == hash && fresh(flags) && fresh(flags.mem)
    {
      this.hash := hash;
      flags := new BitFlags(0);
      table := new Element[0];
      epochFlags := new bool[0];
      size, counter, epochSize, depthLimit := 0, 0, 0, 0;
    }

    /** `depth` is the logarithm of the size, which the code takes in floating point. */
    method Setup(newSize: nat, depth: nat) returns (r: nat)
      requires newSize < TWO32
      modifies this, flags
      ensures fresh(table) && fresh(epochFlags) && fresh(flags.mem)
      ensures Shape() && Contents() == CuckooState.Setup(hash, newSize, depth) && Valid(Contents()) && r == size
    {
      hide Valid, Placed, EpochBounded, Counted, Live, Max;
      SetupValid(hash, newSize, depth);
      MaxAtLeast(2, newSize);
      depthLimit := depth;
      size := Max(2, newSize);
      table := new Element[size](_ => Default);
      flags.Setup(size);
      epochFlags := new bool[size](_ => false);
      epochSize := Max(1, 45 * size % TWO32 / 100);
      counter := epochSize;
      r := size;
      assert Contents().collected == CuckooState.Setup(hash, newSize, depth).collected;
    }

    method AllowErase(n: nat)
      requires Shape() && n < size
      modifies flags.mem
      ensures Contents() == CuckooState.AllowErase(old(Contents()), n)
    {
      flags.Set(n);
      assert Collected() == old(Collected())[n := true];
    }

    method PleaseKeep(n: nat)
      requires Shape() && n < size
      modifies flags.mem
      ensures Contents() == old(Contents()).(collected := old(Collected())[n := false])
    {
      flags.Unset(n);
      assert Collected() == old(Collected())[n := false];
    }

    /** Write an element into a slot. */
    method Put(loc: nat, e: Element, epoch: bool)
      requires Shape() && loc < size
      modifies table, flags.mem, epochFlags
      ensures Contents() == CuckooState.Put(old(Contents()), loc, e, epoch)
    {
      table[loc] := e;
      PleaseKeep(loc);
      epochFlags[loc] := epoch;
    }

    /** Count the entries of the current epoch that have not been erased. */
    method CountCurrent() returns (n: nat)
      requires Shape()
      ensures n == Current(Contents())
    {
      n := 0;
      for i := 0 to size
        invariant n == Counted(epochFlags[..], Collected(), i)
      {
        n := n + B(epochFlags[i] && !flags.IsSet(i));
      }
    }

    /** Demote the current epoch and give up the old one. */
    method Age()
      requires Shape()
      modifies flags.mem, epochFlags, this`counter
      ensures Contents() == Aged(old(Contents()))
    {
      ghost var s := Contents();
      for i := 0 to size
        invariant forall j | 0 <= j < i :: !epochFlags[j] && Collected()[j] == (if s.recent[j] then s.collected[j] else true)
        invariant forall j | i <= j < size :: epochFlags[j] == s.recent[j] && Collected()[j] == s.collected[j]
      {
        if epochFlags[i] {
          epochFlags[i] := false;
        } else {
          AllowErase(i);
        }
      }
      counter := epochSize;
    }

    method EpochCheck()
      requires Shape()
      modifies flags.mem, epochFlags, this`counter
      ensures Contents() == CuckooState.EpochCheck(old(Contents()))
    {
      hide Counted;
      if counter != 0 {
        counter := counter - 1;
        return;
      }
      var unused := CountCurrent();
      if unused >= epochSize {
        Age();
      } else {
        counter := Max(1, Max(epochSize / 16, epochSize - unused));
      }
    }

    /** The first of an element's locations that holds it, or the number of locations. */
    method Lookup(e: Element, locs: seq<nat>) returns (k: nat)
      requires Shape() && locs == LocsOf(Contents(), e)
      ensures k == FindElement(table[..], locs, e, 0)
    {
      k := 0;
      while k < LOCATIONS
        invariant k <= LOCATIONS && FindElement(table[..], locs, e, k) == FindElement(table[..], locs, e, 0)
      {
        if table[locs[k]] == e {
          return;
        }
        k := k + 1;
      }
    }

    /** The first of an element's locations that may be overwritten. */
    method FirstFree(locs: seq<nat>, ghost e: Element) returns (k: nat)
      requires Shape() && locs == LocsOf(Contents(), e)
      ensures k == FindFree(Collected(), locs, 0)
    {
      k := 0;
      while k < LOCATIONS
        invariant k <= LOCATIONS && FindFree(Collected(), locs, k) == FindFree(Collected(), locs, 0)
      {
        if flags.IsSet(locs[k]) {
          return;
        }
        k := k + 1;
      }
    }

    /** Exchange an element in hand with the one in a slot. */
    method SwapIn(loc: nat, e: Element, epoch: bool) returns (e': Element, epoch': bool)
      requires Shape() && loc < size
      modifies table, epochFlags
      ensures Contents() == Swap(old(Contents()), loc, e, epoch)
      ensures e' == old(table[loc]) && epoch' == old(epochFlags[loc])
    {
      e', epoch' := table[loc], epochFlags[loc];
      table[loc] := e;
      epochFlags[loc] := epoch;
    }

    /** Put an element into one of its slots if one may be overwritten, or throw one out. */
    method DisplaceOne(e: Element, epoch: bool, locs: seq<nat>, last: nat, ghost depth: nat)
      returns (placed: bool, e': Element, epoch': bool, locs': seq<nat>, last': nat)
      requires Shape() && depth > 0 && locs == LocsOf(Contents(), e)
      modifies table, flags.mem, epochFlags
      ensures Kick(old(Contents()), e, epoch, last, depth)
              == if placed then Contents() else Kick(Contents(), e', epoch', last', depth - 1)
      ensures locs' == LocsOf(Contents(), e')
    {
      hide Locations, Collected;
      e', epoch', locs', last' := e, epoch, locs, last;
      var k := FirstFree(locs, e);
      placed := k < LOCATIONS;
      if placed {
        Put(locs[k], e, epoch);
      } else {
        last' := NextLoc(locs, last);
        e', epoch' := SwapIn(last', e, epoch);
        locs' := Locations(hash, size, e');
      }
    }

    /** Find room for an element, at most depthLimit times throwing another one out. */
    method Displace(e: Element, locs: seq<nat>)
      requires Shape() && locs == LocsOf(Contents(), e)
      modifies table, flags.mem, epochFlags
      ensures Contents() == Kick(old(Contents()), e, true, TWO32 - 1, depthLimit)
    {
      hide Locations, Collected, Kick;
      ghost var s1 := Contents();
      var e1, locs1, lastLoc, lastEpoch := e, locs, TWO32 - 1, true;
      for depth := 0 to depthLimit
        invariant locs1 == LocsOf(Contents(), e1) && lastLoc >= 0
        invariant Kick(Contents(), e1, lastEpoch, lastLoc, depthLimit - depth) == Kick(s1, e, true, TWO32 - 1, depthLimit)
      {
        var placed;
        placed, e1, lastEpoch, locs1, lastLoc := DisplaceOne(e1, lastEpoch, locs1, lastLoc, depthLimit - depth);
        if placed {
          return;
        }
      }
      KickEnd(Contents(), e1, lastEpoch, lastLoc);
    }

    /** Insert an element; one element may be lost for it. */
    method Insert(e: Element) returns (ghost gone: set<Element>)
      requires Shape() && Valid(Contents()) && e != Default
      modifies this`counter, table, flags.mem, epochFlags
      ensures Shape() && Contents() == CuckooState.Insert(old(Contents()), e) && Valid(Contents())
      ensures var s1 := CuckooState.EpochCheck(old(Contents()));
        && Shaped(s1) && Placed(s1) && |gone| <= 1 && Live(Contents()) == Live(s1)[e := true] - gone
    {
      hide Placed, EpochBounded, Live, Locations, CuckooState.EpochCheck, Kick, Collected;
      gone := InsertEffect(Contents(), e);
      EpochCheck();
      ghost var s1 := Contents();
      var locs := Locations(hash, size, e);
      var k := Lookup(e, locs);
      if k < LOCATIONS {
        PleaseKeep(locs[k]);
        epochFlags[locs[k]] := true;
        assert table[..] == s1.table[locs[k] := e];
        return;
      }
      Displace(e, locs);
    }

    /** Look for an element, and with `erase` mark it as discardable. */
    method Contains(e: Element, erase: bool) returns (r: bool)
      requires Shape() && Valid(Contents())
      modifies flags.mem
      ensures Contents() == CuckooState.Contains(old(Contents()), e, erase) && Valid(Contents())
      ensures r == Found(old(Contents()), e) && (e != Default ==> (r <==> e in table[..]))
      ensures Live(Contents()) == if erase then old(Live(Contents())) - {e} else old(Live(Contents()))
    {
      hide Placed, EpochBounded, Live, Locations, Collected;
      ContainsEffect(Contents(), e, erase);
      var locs := Locations(hash, size, e);
      var k := Lookup(e, locs);
      if k < LOCATIONS {
        if erase {
          AllowErase(locs[k]);
        }
        return true;
      }
      return false;
    }
  }

  lemma MaxAtLeast(x: nat, y: nat)
    ensures Max(x, y) >= x
  {
  }

  lemma KickEnd(s: State, e: Element, epoch: bool, last: int)
    requires 2 <= |s.table| == |s.collected| == |s.recent|
    ensures Kick(s, e, epoch, last, 0) == s
  {
  }
}
