/** The coins part of a stack of write-back caches: entries flagged DIRTY and FRESH over
    another view, which is another cache or the database. The stack refines a flat map from
    transactions to coins, with a pruned record read as an absent one. */
module CoinsMap {
  import opened Octets
  import opened Sets

  datatype Txid = Txid(hash: nat)

  datatype Option<T> = None | Some(value: T)

  /** An output is null (spent) when its value is -1. */
  datatype TxOut = TxOut(nValue: int, script: seq<Byte>)

  datatype Coins = Coins(fCoinBase: bool, vout: seq<TxOut>, nHeight: int, nVersion: int)

  predicate IsNull(out: TxOut) { out.nValue == -1 }

  predicate IsPruned(c: Coins) { forall i | 0 <= i < |c.vout| :: IsNull(c.vout[i]) }

  function EmptyCoins(): Coins { Coins(false, [], 0, 0) }

  /** Without the spent outputs at the end. */
  function Trimmed(vout: seq<TxOut>): (r: seq<TxOut>)
    ensures |r| <= |vout| && r == vout[..|r|] && (r != [] ==> !IsNull(r[|r| - 1]))
    ensures forall i | |r| <= i < |vout| :: IsNull(vout[i])
  {
    if vout != [] && IsNull(vout[|vout| - 1]) then Trimmed(vout[..|vout| - 1]) else vout
  }

  function Cleanup(c: Coins): (r: Coins)
    ensures IsPruned(r) == IsPruned(c) && (IsPruned(c) <==> r.vout == [])
  {
    var vout := Trimmed(c.vout);
    assert forall i | 0 <= i < |vout| :: vout[i] == c.vout[i];
    c.(vout := vout)
  }

  datatype Entry = Entry(coins: Coins, isDirty: bool, isFresh: bool)

  type Cache = map<Txid, Entry>

  datatype View = Database(db: map<Txid, Coins>) | Cached(cache: Cache, base: View)

  /** The record a view finds for a transaction. */
  function Raw(v: View, txid: Txid): Option<Coins> {
    match v
    case Database(db) => if txid in db then Some(db[txid]) else None
    case Cached(cache, base) => if txid in cache then Some(cache[txid].coins) else Raw(base, txid)
  }

  function Unpruned(o: Option<Coins>): Option<Coins> {
    if o.Some? && !IsPruned(o.value) then o else None
  }

  /** What a caller can observe: the flat map the stack stands for. */
  function Seen(v: View, txid: Txid): Option<Coins> { Unpruned(Raw(v, txid)) }

  // ----- reading

  /** GetCoins of a view; a cache keeps what it fetches from its base. */
  function Fetch(v: View, txid: Txid): View {
    match v
    case Database(_) => v
    case Cached(cache, base) =>
      if txid in cache then v
      else
        var base' := Fetch(base, txid);
        match Raw(base, txid)
        case None => Cached(cache, base')
        case Some(c) => Cached(cache[txid := Entry(c, false, IsPruned(c))], base')
  }

  // ----- what the flags mean

  /** A clean entry equals what the base has; a fresh one is absent from it or pruned there;
      and one that is not fresh has been pulled into the base's own cache. */
  ghost predicate Backed(e: Entry, base: View, txid: Txid) {
    && (!e.isDirty ==> Raw(base, txid) == Some(e.coins))
    && (e.isFresh ==> Seen(base, txid) == None)
    && (!e.isFresh && base.Cached? ==> txid in base.cache)
  }

  ghost predicate Valid(v: View) {
    v.Cached? ==> Valid(v.base) && forall txid | txid in v.cache :: Backed(v.cache[txid], v.base, txid)
  }

  lemma {:induction false} FetchKeeps(v: View, txid: Txid)
    requires Valid(v)
    ensures Valid(Fetch(v, txid))
    ensures forall t :: Raw(Fetch(v, txid), t) == Raw(v, t)
    ensures v.Cached? ==>
      && Fetch(v, txid).Cached?
      && (forall t | t in v.cache :: t in Fetch(v, txid).cache)
      && (Raw(v, txid).Some? ==> txid in Fetch(v, txid).cache)
  {
    if v.Cached? && txid !in v.cache {
      FetchKeeps(v.base, txid);
      var w := Fetch(v, txid);
      forall t | t in w.cache ensures Backed(w.cache[t], w.base, t) {
        if t != txid { assert Backed(v.cache[t], v.base, t); }
      }
    }
  }

  // ----- writing

  /** The entry a modification starts with. */
  function Started(v: View, txid: Txid): Entry
    requires v.Cached?
  {
    if txid in v.cache then v.cache[txid].(isDirty := true)
    else match Raw(v.base, txid)
      case None => Entry(EmptyCoins(), true, true)
      case Some(c) => Entry(c, true, IsPruned(c))
  }

  /** ModifyCoins and the end of the modification it allows: `change` is what the caller does
      to the coins. */
  function Modify(v: View, txid: Txid, change: Coins -> Coins): View
    requires v.Cached?
  {
    var base' := if txid in v.cache then v.base else Fetch(v.base, txid);
    var entry := Started(v, txid);
    var coins := Cleanup(change(entry.coins));
    Cached(if entry.isFresh && IsPruned(coins) then v.cache - {txid} else v.cache[txid := entry.(coins := coins)], base')
  }

  /** The coins a modification starts from. */
  function Current(v: View, txid: Txid): Coins {
    match Raw(v, txid)
    case None => EmptyCoins()
    case Some(c) => c
  }

  /** A modification changes one record of the flat map and keeps the stack valid. */
  lemma ModifyRefines(v: View, txid: Txid, change: Coins -> Coins)
    requires v.Cached? && Valid(v)
    ensures var w := Modify(v, txid, change);
      && Valid(w)
      && Seen(w, txid) == Unpruned(Some(Cleanup(change(Current(v, txid)))))
      && (forall t | t != txid :: Seen(w, t) == Seen(v, t))
      && (forall t :: Seen(w.base, t) == Seen(v.base, t))
  {
    FetchKeeps(v.base, txid);
    var w := Modify(v, txid, change);
    if txid in v.cache { assert Backed(v.cache[txid], v.base, txid); }
    forall t: Txid | t != txid ensures Seen(w, t) == Seen(v, t) {
      assert t in w.cache <==> t in v.cache;
      assert Raw(w.base, t) == Raw(v.base, t);
    }
    assert txid in w.cache ==> Backed(w.cache[txid], w.base, txid);
    forall t | t in w.cache ensures Backed(w.cache[t], w.base, t) {
      if t != txid { assert Backed(v.cache[t], v.base, t); }
    }
  }

  // ----- flushing

  /** What BatchWrite of a cache makes of a child's entry and its own. */
  function Merge(child: Option<Entry>, own: Option<Entry>): Option<Entry> {
    if child.None? || !child.value.isDirty then own
    else if own.None? then
      if IsPruned(child.value.coins) then None else Some(Entry(child.value.coins, true, true))
    else if own.value.isFresh && IsPruned(child.value.coins) then None
    else Some(Entry(child.value.coins, true, own.value.isFresh))
  }

  function Find(cache: Cache, txid: Txid): Option<Entry> {
    if txid in cache then Some(cache[txid]) else None
  }

  /** The source's assertion: what moves up without an entry above is fresh. */
  predicate MayMerge(child: Option<Entry>, own: Option<Entry>) {
    child.Some? && child.value.isDirty && own.None? && !IsPruned(child.value.coins) ==> child.value.isFresh
  }

  function Merged(child: Cache, own: Cache): Cache {
    map txid | txid in child.Keys + own.Keys && Merge(Find(child, txid), Find(own, txid)).Some? ::
      Merge(Find(child, txid), Find(own, txid)).value
  }

  function Written(child: Cache, db: map<Txid, Coins>): map<Txid, Coins> {
    map txid | txid in child.Keys + db.Keys && (txid in child && child[txid].isDirty ==> !IsPruned(child[txid].coins)) && (txid in db || child[txid].isDirty) ::
      if txid in child && child[txid].isDirty then child[txid].coins else db[txid]
  }

  function BatchWrite(v: View, child: Cache): View {
    match v
    case Database(db) => Database(Written(child, db))
    case Cached(cache, base) => Cached(Merged(child, cache), base)
  }

  function Flush(v: View): View
    requires v.Cached?
  {
    Cached(map[], BatchWrite(v.base, v.cache))
  }

  /** The assertion about fresh entries in BatchWrite never fires. */
  lemma MergeAllowed(v: View, txid: Txid)
    requires v.Cached? && Valid(v) && v.base.Cached?
    ensures MayMerge(Find(v.cache, txid), Find(v.base.cache, txid))
  {
    if txid in v.cache { assert Backed(v.cache[txid], v.base, txid); }
  }

  /** Flushing moves every change down: afterwards the base shows what the cache showed, the
      cache still shows it, everything below the base shows what it did, and the flags mean
      what they should. */
  lemma FlushRefines(v: View)
    requires v.Cached? && Valid(v)
    ensures Valid(Flush(v))
    ensures forall t :: Seen(Flush(v), t) == Seen(v, t) && Seen(Flush(v).base, t) == Seen(v, t)
    ensures v.base.Cached? ==> Flush(v).base.base == v.base.base
  {
    forall t ensures Seen(Flush(v).base, t) == Seen(v, t) { FlushOne(v, t); }
    if v.base.Cached? {
      var w := Flush(v).base;
      forall t | t in w.cache ensures Backed(w.cache[t], w.base, t) { MergeBacked(v, t); }
    }
  }

  lemma FlushOne(v: View, t: Txid)
    requires v.Cached? && Valid(v)
    ensures Seen(BatchWrite(v.base, v.cache), t) == Seen(v, t)
  {
    if t in v.cache { assert Backed(v.cache[t], v.base, t); }
    match v.base {
      case Database(db) =>
        WrittenOne(v.cache, db, t);
        hide IsPruned, Written;
        assert Raw(v.base, t) == if t in db then Some(db[t]) else None;
        assert Raw(BatchWrite(v.base, v.cache), t) == Raw(Database(Written(v.cache, db)), t);
      case Cached(own, base) =>
        MergedOne(v.cache, own, t);
        if t in own { assert Backed(own[t], base, t); }
        hide IsPruned;
        assert Raw(v, t) == if t in v.cache then Some(v.cache[t].coins) else Raw(v.base, t);
        if t in v.cache && v.cache[t].isDirty && t !in Merged(v.cache, own) {
          assert Seen(base, t) == None;
        }
    }
  }

  lemma WrittenOne(child: Cache, db: map<Txid, Coins>, t: Txid)
    ensures var w := Written(child, db);
      if t in child && child[t].isDirty then
        if IsPruned(child[t].coins) then t !in w else t in w && w[t] == child[t].coins
      else (t in w <==> t in db) && (t in db ==> w[t] == db[t])
  {
    hide IsPruned;
  }

  lemma MergedOne(child: Cache, own: Cache, t: Txid)
    ensures Find(Merged(child, own), t) == Merge(Find(child, t), Find(own, t))
  {
    hide IsPruned;
  }

  lemma MergeBacked(v: View, t: Txid)
    requires v.Cached? && Valid(v) && v.base.Cached? && t in Merged(v.cache, v.base.cache)
    ensures Backed(Merged(v.cache, v.base.cache)[t], v.base.base, t)
  {
    if t in v.cache { assert Backed(v.cache[t], v.base, t); }
    if t in v.base.cache { assert Backed(v.base.cache[t], v.base.base, t); }
  }
}
