/** Whole runs on a stack of coins caches over a database, and the stack of flat maps they
    refine. Caches are opened, used at the top, and flushed into the one below or thrown
    away. */
module CoinsStack {
  import C = CoinsMap
  import A = AnchorsMap
  import N = NullifiersMap

  datatype Store = Store(coins: C.View, anchors: A.View, nulls: N.View)

  /** What one level of the stack shows. */
  datatype Flat = Flat(coins: C.Txid -> C.Option<C.Coins>, anchors: A.Key -> bool, nulls: N.Key -> bool)

  datatype Op =
    | Open
    | Discard
    | Flush
    | ReadCoins(txid: C.Txid)
    | ModifyCoins(txid: C.Txid, change: C.Coins -> C.Coins)
    | ReadAnchor(key: A.Key)
    | PushAnchor(key: A.Key, tree: A.Tree)
    | PopAnchor(key: A.Key)
    | ReadNullifier(key: N.Key)
    | SetNullifier(key: N.Key, spent: bool)

  /** What a caller can observe after a modification that starts from some coins. */
  function Result(c: C.Coins, change: C.Coins -> C.Coins): C.Option<C.Coins> {
    C.Unpruned(C.Some(C.Cleanup(change(c))))
  }

  /** The change does to a record that is found pruned what it does to an absent one, as far as a
      caller can observe. Nothing is asked of it where the record is not pruned. */
  predicate ReadsAbsent(s: Store, txid: C.Txid, change: C.Coins -> C.Coins) {
    var c := C.Current(s.coins, txid);
    C.IsPruned(c) ==> Result(c, change) == Result(C.EmptyCoins(), change)
  }

  ghost predicate Enabled(e: A.Trees, s: Store, op: Op) {
    match op
    case Open => true
    case ReadCoins(_) => true
    case ReadAnchor(_) => true
    case ReadNullifier(_) => true
    case Discard => s.coins.Cached?
    case Flush => s.coins.Cached? && s.anchors.Cached? && forall k :: !A.Forgets(e, s.anchors, k)
    case ModifyCoins(txid, change) => s.coins.Cached? && ReadsAbsent(s, txid, change)
    case PushAnchor(k, tree) => s.coins.Cached? && tree == e.treeOf(k)
    case PopAnchor(k) => s.coins.Cached? && A.Has(e, s.anchors, k)
    case SetNullifier(_, _) => s.coins.Cached?
  }

  /** The three parts have the same levels. */
  predicate Level(s: Store)
    decreases s.coins
  {
    s.coins.Cached? == s.anchors.Cached? == s.nulls.Cached? && (s.coins.Cached? ==> Level(Below(s)))
  }

  function Below(s: Store): Store
    requires s.coins.Cached? && s.anchors.Cached? && s.nulls.Cached?
  {
    Store(s.coins.base, s.anchors.base, s.nulls.base)
  }

  ghost predicate Valid(e: A.Trees, s: Store) { Level(s) && C.Valid(s.coins) && A.Valid(e, s.anchors) && N.Valid(s.nulls) }

  ghost function Next(e: A.Trees, s: Store, op: Op): Store
    requires Level(s) && Enabled(e, s, op)
  {
    match op
    case Open => Store(C.Cached(map[], s.coins), A.Cached(map[], s.anchors), N.Cached(map[], s.nulls))
    case Discard => Below(s)
    case Flush => Store(C.Flush(s.coins), A.Flush(e, s.anchors), N.Flush(s.nulls))
    case ReadCoins(txid) => s.(coins := C.Fetch(s.coins, txid))
    case ModifyCoins(txid, change) => s.(coins := C.Modify(s.coins, txid, change))
    case ReadAnchor(k) => s.(anchors := A.Fetch(e, s.anchors, k))
    case PushAnchor(k, tree) => s.(anchors := A.Push(s.anchors, k, tree))
    case PopAnchor(k) => s.(anchors := A.Pop(e, s.anchors, k))
    case ReadNullifier(k) => s.(nulls := N.Fetch(s.nulls, k))
    case SetNullifier(k, spent) => s.(nulls := N.Set(s.nulls, k, spent))
  }

  // ----- the flat maps

  function Changed(o: C.Option<C.Coins>, change: C.Coins -> C.Coins): C.Option<C.Coins> {
    Result(if o.Some? then o.value else C.EmptyCoins(), change)
  }

  function FlatTop(f: Flat, op: Op): Flat {
    match op
    case ModifyCoins(txid, change) => f.(coins := (t: C.Txid) => if t == txid then Changed(f.coins(t), change) else f.coins(t))
    case PushAnchor(k, _) => f.(anchors := (j: A.Key) => j == k || f.anchors(j))
    case PopAnchor(k) => f.(anchors := (j: A.Key) => j != k && f.anchors(j))
    case SetNullifier(k, spent) => f.(nulls := (j: N.Key) => if j == k then spent else f.nulls(j))
    case _ => f
  }

  /** The same operation on a stack of flat maps: a flush overwrites the map below. */
  function FlatNext(fs: seq<Flat>, op: Op): seq<Flat>
    requires fs != [] && ((op.Flush? || op.Discard?) ==> |fs| >= 2)
  {
    var top := |fs| - 1;
    match op
    case Open => fs + [fs[top]]
    case Discard => fs[..top]
    case Flush => fs[top - 1 := fs[top]]
    case _ => fs[top := FlatTop(fs[top], op)]
  }

  ghost predicate ShowsTop(e: A.Trees, s: Store, f: Flat) {
    && (forall t :: C.Seen(s.coins, t) == f.coins(t))
    && (forall k :: A.Has(e, s.anchors, k) == f.anchors(k))
    && (forall k :: N.Has(s.nulls, k) == f.nulls(k))
  }

  /** Every level of the store shows its flat map. */
  ghost predicate Shows(e: A.Trees, s: Store, fs: seq<Flat>)
    requires Level(s)
    decreases s.coins
  {
    && fs != [] && ShowsTop(e, s, fs[|fs| - 1])
    && if s.coins.Cached? then Shows(e, Below(s), fs[..|fs| - 1]) else |fs| == 1
  }

  // ----- fetches do not show

  ghost predicate Alike(e: A.Trees, s: Store, t: Store) {
    && (forall x :: C.Seen(s.coins, x) == C.Seen(t.coins, x))
    && (forall k :: A.Has(e, s.anchors, k) == A.Has(e, t.anchors, k))
    && (forall k :: N.Has(s.nulls, k) == N.Has(t.nulls, k))
  }

  ghost predicate DeepAlike(e: A.Trees, s: Store, t: Store)
    requires Level(s)
    decreases s.coins
  {
    && Level(t) && s.coins.Cached? == t.coins.Cached? && Alike(e, s, t)
    && (s.coins.Cached? ==> DeepAlike(e, Below(s), Below(t)))
  }

  lemma {:induction false} DeepAlikeShows(e: A.Trees, s: Store, t: Store, fs: seq<Flat>)
    requires Level(s) && DeepAlike(e, s, t) && Shows(e, s, fs)
    ensures Shows(e, t, fs)
    decreases s.coins
  {
    if s.coins.Cached? { DeepAlikeShows(e, Below(s), Below(t), fs[..|fs| - 1]); }
  }

  lemma {:induction false} DeepAlikeRefl(e: A.Trees, s: Store)
    requires Level(s)
    ensures DeepAlike(e, s, s)
    decreases s.coins
  {
    if s.coins.Cached? { DeepAlikeRefl(e, Below(s)); }
  }

  lemma {:induction false} ReadCoinsAlike(e: A.Trees, s: Store, txid: C.Txid)
    requires Level(s) && C.Valid(s.coins)
    ensures Level(s.(coins := C.Fetch(s.coins, txid))) && DeepAlike(e, s, s.(coins := C.Fetch(s.coins, txid)))
    decreases s.coins
  {
    C.FetchKeeps(s.coins, txid);
    if s.coins.Cached? {
      if txid in s.coins.cache { DeepAlikeRefl(e, Below(s)); } else { ReadCoinsAlike(e, Below(s), txid); }
    }
  }

  lemma {:induction false} ReadAnchorAlike(e: A.Trees, s: Store, k: A.Key)
    requires Level(s) && A.Valid(e, s.anchors)
    ensures Level(s.(anchors := A.Fetch(e, s.anchors, k))) && DeepAlike(e, s, s.(anchors := A.Fetch(e, s.anchors, k)))
    decreases s.coins
  {
    A.FetchKeeps(e, s.anchors, k);
    if s.coins.Cached? {
      if k in s.anchors.cache { DeepAlikeRefl(e, Below(s)); } else { ReadAnchorAlike(e, Below(s), k); }
    }
  }

  lemma {:induction false} ReadNullifierAlike(e: A.Trees, s: Store, k: N.Key)
    requires Level(s) && N.Valid(s.nulls)
    ensures Level(s.(nulls := N.Fetch(s.nulls, k))) && DeepAlike(e, s, s.(nulls := N.Fetch(s.nulls, k)))
    decreases s.coins
  {
    N.FetchKeeps(s.nulls, k);
    if s.coins.Cached? {
      if k in s.nulls.cache { DeepAlikeRefl(e, Below(s)); } else { ReadNullifierAlike(e, Below(s), k); }
    }
  }

  // ----- one step

  /** A change at the top: the top map changes, the levels below show what they showed. */
  lemma TopChange(e: A.Trees, s: Store, t: Store, fs: seq<Flat>, f: Flat)
    requires Level(s) && Level(t) && s.coins.Cached? && t.coins.Cached? && Shows(e, s, fs)
    requires DeepAlike(e, Below(s), Below(t)) && ShowsTop(e, t, f)
    ensures Shows(e, t, fs[|fs| - 1 := f])
  {
    assert fs[|fs| - 1 := f][..|fs| - 1] == fs[..|fs| - 1];
    DeepAlikeShows(e, Below(s), Below(t), fs[..|fs| - 1]);
  }

  lemma ModifyStep(e: A.Trees, s: Store, txid: C.Txid, change: C.Coins -> C.Coins, fs: seq<Flat>)
    requires Valid(e, s) && s.coins.Cached? && ReadsAbsent(s, txid, change) && Shows(e, s, fs)
    ensures var t := s.(coins := C.Modify(s.coins, txid, change));
      Valid(e, t) && Shows(e, t, fs[|fs| - 1 := FlatTop(fs[|fs| - 1], ModifyCoins(txid, change))])
  {
    C.ModifyRefines(s.coins, txid, change);
    var t := s.(coins := C.Modify(s.coins, txid, change));
    if txid in s.coins.cache { DeepAlikeRefl(e, Below(s)); } else { ReadCoinsAlike(e, Below(s), txid); }
    var f := fs[|fs| - 1];
    assert C.Seen(s.coins, txid) == f.coins(txid);
    ModifyTop(e, s, t, txid, change, f);
    TopChange(e, s, t, fs, FlatTop(f, ModifyCoins(txid, change)));
  }

  lemma ModifyTop(e: A.Trees, s: Store, t: Store, txid: C.Txid, change: C.Coins -> C.Coins, f: Flat)
    requires ReadsAbsent(s, txid, change) && ShowsTop(e, s, f) && t == s.(coins := t.coins)
    requires C.Seen(t.coins, txid) == C.Unpruned(C.Some(C.Cleanup(change(C.Current(s.coins, txid)))))
    requires forall x | x != txid :: C.Seen(t.coins, x) == C.Seen(s.coins, x)
    ensures ShowsTop(e, t, FlatTop(f, ModifyCoins(txid, change)))
  {
    hide C.Cleanup, C.Raw, A.Has, N.Has;
    var g := FlatTop(f, ModifyCoins(txid, change));
    var c := C.Current(s.coins, txid);
    assert C.Seen(s.coins, txid) == f.coins(txid);
    forall x: C.Txid ensures C.Seen(t.coins, x) == g.coins(x) {}
  }

  /** The condition on a modification is exact: where it fails, the top of the stack does not show
      what the flat map has. */
  lemma ModifyExact(e: A.Trees, s: Store, txid: C.Txid, change: C.Coins -> C.Coins, fs: seq<Flat>)
    requires Valid(e, s) && s.coins.Cached? && Shows(e, s, fs)
    ensures var t := s.(coins := C.Modify(s.coins, txid, change));
      && Valid(e, t)
      && (Shows(e, t, fs[|fs| - 1 := FlatTop(fs[|fs| - 1], ModifyCoins(txid, change))]) <==> ReadsAbsent(s, txid, change))
  {
    ModifyValid(e, s, txid, change);
    hide C.Valid, A.Valid, N.Valid, C.Modify, C.Seen, ReadsAbsent, ShowsTop;
    if ReadsAbsent(s, txid, change) {
      ModifyStep(e, s, txid, change, fs);
    } else {
      ModifyFails(e, s, s.(coins := C.Modify(s.coins, txid, change)), txid, change, fs[|fs| - 1]);
    }
  }

  lemma ModifyValid(e: A.Trees, s: Store, txid: C.Txid, change: C.Coins -> C.Coins)
    requires Valid(e, s) && s.coins.Cached?
    ensures var t := s.(coins := C.Modify(s.coins, txid, change));
      Valid(e, t) && t.coins.Cached? && C.Seen(t.coins, txid) == Result(C.Current(s.coins, txid), change)
  {
    C.ModifyRefines(s.coins, txid, change);
    if txid !in s.coins.cache { ReadCoinsAlike(e, Below(s), txid); }
  }

  lemma ModifyFails(e: A.Trees, s: Store, t: Store, txid: C.Txid, change: C.Coins -> C.Coins, f: Flat)
    requires !ReadsAbsent(s, txid, change) && ShowsTop(e, s, f)
    requires C.Seen(t.coins, txid) == Result(C.Current(s.coins, txid), change)
    ensures !ShowsTop(e, t, FlatTop(f, ModifyCoins(txid, change)))
  {
    hide C.Cleanup, C.Raw, A.Has, N.Has;
    assert C.Seen(s.coins, txid) == f.coins(txid) == C.None;
    assert C.Seen(t.coins, txid) != FlatTop(f, ModifyCoins(txid, change)).coins(txid);
  }

  // ----- the changes that are made to coins

  /** CCoins::Spend: an output that is not there leaves the coins as they are. */
  function Spend(c: C.Coins, n: nat): C.Coins {
    if n >= |c.vout| || C.IsNull(c.vout[n]) then c
    else C.Cleanup(c.(vout := c.vout[n := C.TxOut(-1, [])]))
  }

  /** Outputs added until a place is there. */
  function Resized(vout: seq<C.TxOut>, n: nat): (r: seq<C.TxOut>)
    ensures |r| == if |vout| < n then n else |vout|
  {
    if |vout| < n then vout + seq(n - |vout|, _ => C.TxOut(-1, [])) else vout
  }

  /** ApplyTxInUndo with undo data that contains no height: only the output is put back. */
  function PutBack(c: C.Coins, n: nat, out: C.TxOut): C.Coins {
    c.(vout := Resized(c.vout, n + 1)[n := out])
  }

  /** AddImportTombstone. */
  function Tombstone(c: C.Coins, nHeight: int): C.Coins {
    c.(nHeight := nHeight, nVersion := 4, vout := c.vout + [C.TxOut(0, [0])])
  }

  /** Spending is admitted in every state, on whatever record: it never brings a pruned one back. */
  lemma SpendReadsAbsent(e: A.Trees, s: Store, txid: C.Txid, n: nat)
    ensures ReadsAbsent(s, txid, c => Spend(c, n))
    ensures s.coins.Cached? ==> Enabled(e, s, ModifyCoins(txid, c => Spend(c, n)))
  {
    var change: C.Coins -> C.Coins := c => Spend(c, n);
    SpentStaysPruned(C.Current(s.coins, txid), n);
    SpentStaysPruned(C.EmptyCoins(), n);
    assert change(C.EmptyCoins()) == Spend(C.EmptyCoins(), n);
  }

  lemma SpentStaysPruned(c: C.Coins, n: nat)
    ensures C.IsPruned(c) ==> C.IsPruned(Spend(c, n))
  {
  }

  predicate IsAvailable(c: C.Coins, n: nat) { n < |c.vout| && !C.IsNull(c.vout[n]) }

  /** Spending takes away exactly one output; the record goes with the last one. */
  lemma SpendSeen(v: C.View, txid: C.Txid, n: nat)
    requires v.Cached? && C.Valid(v) && C.Seen(v, txid).Some?
    ensures var before := C.Seen(v, txid).value;
      var after := C.Seen(C.Modify(v, txid, c => Spend(c, n)), txid);
      && (after.Some? <==> exists i: nat :: IsAvailable(before, i) && i != n)
      && (after.Some? ==> OneSpent(before, after.value, n))
  {
    var change: C.Coins -> C.Coins := c => Spend(c, n);
    C.ModifyRefines(v, txid, change);
    hide C.Valid, C.Modify, C.Raw, Spend, C.Cleanup;
    var before := C.Seen(v, txid).value;
    assert C.Current(v, txid) == before;
    SpendIs(before, n);
    assert C.Seen(C.Modify(v, txid, change), txid) == C.Unpruned(C.Some(C.Cleanup(change(before))));
    SomeLeft(C.Cleanup(Spend(before, n)), before, n);
  }

  ghost predicate OneSpent(before: C.Coins, after: C.Coins, n: nat) {
    && after.(vout := before.vout) == before
    && (forall i: nat :: IsAvailable(after, i) <==> IsAvailable(before, i) && i != n)
    && (forall i: nat :: IsAvailable(after, i) ==> i < |before.vout| && after.vout[i] == before.vout[i])
  }

  lemma SpendIs(c: C.Coins, n: nat)
    ensures OneSpent(c, C.Cleanup(Spend(c, n)), n)
  {
    CleanupAvailable(c);
    if IsAvailable(c, n) {
      var d := c.(vout := c.vout[n := C.TxOut(-1, [])]);
      CleanupAvailable(d);
      CleanupAvailable(C.Cleanup(d));
    }
  }

  lemma CleanupAvailable(c: C.Coins)
    ensures C.Cleanup(c).(vout := c.vout) == c && forall i: nat :: IsAvailable(C.Cleanup(c), i) == IsAvailable(c, i)
    ensures forall i: nat :: IsAvailable(c, i) ==> C.Cleanup(c).vout[i] == c.vout[i]
  {
  }

  lemma SomeLeft(after: C.Coins, before: C.Coins, n: nat)
    requires OneSpent(before, after, n)
    ensures C.IsPruned(after) <==> !exists i: nat :: IsAvailable(before, i) && i != n
  {
    if i: nat :| IsAvailable(before, i) && i != n { assert IsAvailable(after, i); }
    if !C.IsPruned(after) {
      var i :| 0 <= i < |after.vout| && !C.IsNull(after.vout[i]);
      assert IsAvailable(after, i);
    }
  }

  /** Putting an output back into a record that is found pruned shows what was left of that
      record; it is admitted exactly where nothing is left, or nothing is put back. */
  lemma PutBackReadsAbsent(s: Store, txid: C.Txid, n: nat, out: C.TxOut)
    requires var c := C.Current(s.coins, txid); C.IsPruned(c) ==> c.vout == []
    ensures var c := C.Current(s.coins, txid);
      ReadsAbsent(s, txid, c => PutBack(c, n, out)) <==> !C.IsPruned(c) || C.IsNull(out) || c == C.EmptyCoins()
  {
    var c, d := C.Current(s.coins, txid), C.EmptyCoins();
    if C.IsPruned(c) {
      var x, y := PutBack(c, n, out), PutBack(d, n, out);
      assert x.vout == y.vout;
      assert x.vout[n] == out && forall i | 0 <= i < n :: C.IsNull(x.vout[i]);
      assert C.IsPruned(x) <==> C.IsNull(out);
      assert C.Cleanup(x) == x.(vout := C.Trimmed(x.vout)) && C.Cleanup(y) == y.(vout := C.Trimmed(x.vout));
    }
  }

  /** A tombstone keeps the coinbase flag of the record that is found. */
  lemma TombstoneReadsAbsent(s: Store, txid: C.Txid, nHeight: int)
    requires var c := C.Current(s.coins, txid); C.IsPruned(c) ==> c.vout == []
    ensures var c := C.Current(s.coins, txid);
      ReadsAbsent(s, txid, c => Tombstone(c, nHeight)) <==> !C.IsPruned(c) || !c.fCoinBase
  {
    var c, d := C.Current(s.coins, txid), C.EmptyCoins();
    var x, y := Tombstone(c, nHeight), Tombstone(d, nHeight);
    assert x.vout[|c.vout|] == C.TxOut(0, [0]) && y.vout[0] == C.TxOut(0, [0]);
  }

  /** Coins over a database that holds one coinbase output. */
  function OneCoinbase(t: C.Txid): Store {
    Store(C.Cached(map[], C.Database(map[t := C.Coins(true, [C.TxOut(5, [])], 7, 1)])),
          A.Cached(map[], A.Database(map[])), N.Cached(map[], N.Database({})))
  }

  /** The condition can fail: once the only output of that record was spent, the cache keeps the
      pruned record with its coinbase flag, height and version, and putting an output back, or
      adding a tombstone, brings them into view again, which a flat map would have forgotten. */
  lemma PrunedRecordShows(e: A.Trees, t: C.Txid, out: C.TxOut, nHeight: int)
    requires !C.IsNull(out)
    ensures var spend := ModifyCoins(t, c => Spend(c, 0));
      && Valid(e, OneCoinbase(t)) && Enabled(e, OneCoinbase(t), spend)
      && var s := Next(e, OneCoinbase(t), spend);
         && C.Seen(s.coins, t).None?
         && !ReadsAbsent(s, t, c => PutBack(c, 0, out)) && !ReadsAbsent(s, t, c => Tombstone(c, nHeight))
  {
    SpentReached(e, t);
    hide Valid, Enabled, Next, C.Raw, C.Cleanup, Spend, PutBack, Tombstone, ReadsAbsent;
    var s := Next(e, OneCoinbase(t), ModifyCoins(t, c => Spend(c, 0)));
    PutBackReadsAbsent(s, t, 0, out);
    TombstoneReadsAbsent(s, t, nHeight);
  }

  lemma SpentReached(e: A.Trees, t: C.Txid)
    ensures var spend := ModifyCoins(t, c => Spend(c, 0));
      && Valid(e, OneCoinbase(t)) && Enabled(e, OneCoinbase(t), spend)
      && C.Current(Next(e, OneCoinbase(t), spend).coins, t) == C.Coins(true, [], 7, 1)
      && C.Seen(Next(e, OneCoinbase(t), spend).coins, t).None?
  {
    var s0 := OneCoinbase(t);
    var spend := ModifyCoins(t, c => Spend(c, 0));
    SpendReadsAbsent(e, s0, t, 0);
    SpentAll(s0.coins.base.db[t]);
    assert Next(e, s0, spend).coins.cache[t] == C.Entry(C.Coins(true, [], 7, 1), true, false);
  }

  lemma SpentAll(c: C.Coins)
    requires |c.vout| == 1 && !C.IsNull(c.vout[0])
    ensures Spend(c, 0) == c.(vout := []) && C.Cleanup(c.(vout := [])) == c.(vout := [])
  {
  }

  lemma PopStep(e: A.Trees, s: Store, k: A.Key, fs: seq<Flat>)
    requires Valid(e, s) && s.coins.Cached? && A.Has(e, s.anchors, k) && Shows(e, s, fs)
    ensures var t := s.(anchors := A.Pop(e, s.anchors, k));
      Valid(e, t) && Shows(e, t, fs[|fs| - 1 := FlatTop(fs[|fs| - 1], PopAnchor(k))])
  {
    A.PopRefines(e, s.anchors, k);
    var t := s.(anchors := A.Pop(e, s.anchors, k));
    if k in s.anchors.cache { DeepAlikeRefl(e, Below(s)); } else { ReadAnchorAlike(e, Below(s), k); }
    TopChange(e, s, t, fs, FlatTop(fs[|fs| - 1], PopAnchor(k)));
  }

  lemma PushStep(e: A.Trees, s: Store, k: A.Key, tree: A.Tree, fs: seq<Flat>)
    requires Valid(e, s) && s.coins.Cached? && tree == e.treeOf(k) && Shows(e, s, fs)
    ensures var t := s.(anchors := A.Push(s.anchors, k, tree));
      Valid(e, t) && Shows(e, t, fs[|fs| - 1 := FlatTop(fs[|fs| - 1], PushAnchor(k, tree))])
  {
    A.PushRefines(e, s.anchors, k, tree);
    var t := s.(anchors := A.Push(s.anchors, k, tree));
    DeepAlikeRefl(e, Below(s));
    TopChange(e, s, t, fs, FlatTop(fs[|fs| - 1], PushAnchor(k, tree)));
  }

  lemma SetStep(e: A.Trees, s: Store, k: N.Key, spent: bool, fs: seq<Flat>)
    requires Valid(e, s) && s.coins.Cached? && Shows(e, s, fs)
    ensures var t := s.(nulls := N.Set(s.nulls, k, spent));
      Valid(e, t) && Shows(e, t, fs[|fs| - 1 := FlatTop(fs[|fs| - 1], SetNullifier(k, spent))])
  {
    N.SetRefines(s.nulls, k, spent);
    var t := s.(nulls := N.Set(s.nulls, k, spent));
    DeepAlikeRefl(e, Below(s));
    TopChange(e, s, t, fs, FlatTop(fs[|fs| - 1], SetNullifier(k, spent)));
  }

  lemma FlushStep(e: A.Trees, s: Store, fs: seq<Flat>)
    requires Valid(e, s) && s.coins.Cached? && Shows(e, s, fs) && forall k :: !A.Forgets(e, s.anchors, k)
    ensures var t := Store(C.Flush(s.coins), A.Flush(e, s.anchors), N.Flush(s.nulls));
      |fs| >= 2 && Valid(e, t) && Shows(e, t, fs[|fs| - 2 := fs[|fs| - 1]])
  {
    C.FlushRefines(s.coins);
    A.FlushRefines(e, s.anchors);
    N.FlushRefines(s.nulls);
    var t := Store(C.Flush(s.coins), A.Flush(e, s.anchors), N.Flush(s.nulls));
    assert Shows(e, Below(s), fs[..|fs| - 1]);
    var gs := fs[|fs| - 2 := fs[|fs| - 1]];
    assert gs[..|gs| - 1][|gs| - 2] == fs[|fs| - 1];
    assert Level(Below(t));
    assert ShowsTop(e, t, fs[|fs| - 1]) && ShowsTop(e, Below(t), fs[|fs| - 1]);
    if Below(s).coins.Cached? {
      assert Below(Below(t)) == Below(Below(s));
      assert gs[..|gs| - 1][..|gs| - 2] == fs[..|fs| - 1][..|fs| - 2];
    }
  }

  lemma OpenStep(e: A.Trees, s: Store, fs: seq<Flat>)
    requires Valid(e, s) && Shows(e, s, fs)
    ensures var t := Store(C.Cached(map[], s.coins), A.Cached(map[], s.anchors), N.Cached(map[], s.nulls));
      Valid(e, t) && Shows(e, t, fs + [fs[|fs| - 1]])
  {
    assert (fs + [fs[|fs| - 1]])[..|fs|] == fs;
  }

  /** Every operation keeps the stack valid and does to what it shows what it does to a stack
      of flat maps. */
  lemma StepRefines(e: A.Trees, s: Store, op: Op, fs: seq<Flat>)
    requires Valid(e, s) && Enabled(e, s, op) && Shows(e, s, fs)
    ensures s.coins.Cached? ==> |fs| >= 2
    ensures Valid(e, Next(e, s, op)) && Shows(e, Next(e, s, op), FlatNext(fs, op))
  {
    hide C.Valid, A.Valid, N.Valid, ShowsTop, ReadsAbsent;
    var top := |fs| - 1;
    match op
    case Open => OpenStep(e, s, fs);
    case Discard => BelowValid(e, s);
    case Flush => FlushStep(e, s, fs);
    case ReadCoins(txid) =>
      C.FetchKeeps(s.coins, txid);
      ReadCoinsAlike(e, s, txid);
      DeepAlikeShows(e, s, Next(e, s, op), fs);
      assert fs[top := fs[top]] == fs;
    case ModifyCoins(txid, change) => ModifyStep(e, s, txid, change, fs);
    case ReadAnchor(k) =>
      A.FetchKeeps(e, s.anchors, k);
      ReadAnchorAlike(e, s, k);
      DeepAlikeShows(e, s, Next(e, s, op), fs);
      assert fs[top := fs[top]] == fs;
    case PushAnchor(k, tree) => PushStep(e, s, k, tree, fs);
    case PopAnchor(k) => PopStep(e, s, k, fs);
    case ReadNullifier(k) =>
      N.FetchKeeps(s.nulls, k);
      ReadNullifierAlike(e, s, k);
      DeepAlikeShows(e, s, Next(e, s, op), fs);
      assert fs[top := fs[top]] == fs;
    case SetNullifier(k, spent) => SetStep(e, s, k, spent, fs);
  }

  lemma BelowValid(e: A.Trees, s: Store)
    requires Valid(e, s) && s.coins.Cached?
    ensures Valid(e, Below(s))
  {
  }

  // ----- whole runs

  ghost predicate IsRun(e: A.Trees, run: seq<Store>, ops: seq<Op>) {
    && |run| == |ops| + 1 && Valid(e, run[0])
    && forall i | 0 <= i < |ops| :: Level(run[i]) && Enabled(e, run[i], ops[i]) && run[i + 1] == Next(e, run[i], ops[i])
  }

  ghost predicate IsFlatRun(fruns: seq<seq<Flat>>, ops: seq<Op>) {
    && |fruns| == |ops| + 1
    && forall i | 0 <= i < |ops| ::
         && fruns[i] != [] && ((ops[i].Flush? || ops[i].Discard?) ==> |fruns[i]| >= 2)
         && fruns[i + 1] == FlatNext(fruns[i], ops[i])
  }

  /** A whole run of a stack of caches shows, at every level and after every operation, what
      the same operations make of plain maps. */
  lemma {:induction false} RunRefines(e: A.Trees, run: seq<Store>, fruns: seq<seq<Flat>>, ops: seq<Op>, i: nat)
    requires IsRun(e, run, ops) && IsFlatRun(fruns, ops) && Shows(e, run[0], fruns[0]) && i < |run|
    ensures Valid(e, run[i]) && Shows(e, run[i], fruns[i])
  {
    hide Valid, Shows, Enabled, Next, FlatNext;
    if i > 0 {
      RunRefines(e, run, fruns, ops, i - 1);
      StepRefines(e, run[i - 1], ops[i - 1], fruns[i - 1]);
      assert run[i] == Next(e, run[i - 1], ops[i - 1]) && fruns[i] == FlatNext(fruns[i - 1], ops[i - 1]);
    }
  }
}
