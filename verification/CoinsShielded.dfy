/** The anchors, the nullifiers and the best hashes of a stack of coins caches. The two
    shielded pools are treated alike, so a pool is part of the key. */
module AnchorsMap {

  datatype Pool = Sprout | Sapling
  type Hash = nat
  datatype Key = Key(pool: Pool, root: Hash)
  type Tree = nat

  /** An anchor root determines its tree; the database knows the empty roots without storing
      them. */
  datatype Trees = Trees(treeOf: Key -> Tree, emptyRoot: Pool -> Hash) {
    predicate IsEmpty(k: Key) { k.root == emptyRoot(k.pool) }
  }

  datatype Entry = Entry(entered: bool, tree: Tree, isDirty: bool)
  type Cache = map<Key, Entry>
  datatype View = Database(db: map<Key, Tree>) | Cached(cache: Cache, base: View)

  /** Whether a view has an anchor, and the tree it gives for it. */
  predicate Has(e: Trees, v: View, k: Key) {
    match v
    case Database(db) => e.IsEmpty(k) || k in db
    case Cached(cache, base) => if k in cache then cache[k].entered else Has(e, base, k)
  }

  function TreeAt(e: Trees, v: View, k: Key): Tree {
    match v
    case Database(db) => if e.IsEmpty(k) || k !in db then e.treeOf(k) else db[k]
    case Cached(cache, base) => if k in cache then cache[k].tree else TreeAt(e, base, k)
  }

  /** GetAnchorAt of a view; a cache keeps what it fetches. */
  function Fetch(e: Trees, v: View, k: Key): View {
    match v
    case Database(_) => v
    case Cached(cache, base) =>
      if k in cache then v
      else Cached(if Has(e, base, k) then cache[k := Entry(true, TreeAt(e, base, k), false)] else cache, Fetch(e, base, k))
  }

  ghost predicate Backed(e: Trees, entry: Entry, base: View, k: Key) {
    entry.tree == e.treeOf(k) && (!entry.isDirty ==> entry.entered && Has(e, base, k))
  }

  ghost predicate Valid(e: Trees, v: View) {
    match v
    case Database(db) => forall k | k in db :: db[k] == e.treeOf(k)
    case Cached(cache, base) => Valid(e, base) && forall k | k in cache :: Backed(e, cache[k], base, k)
  }

  /** A fetch changes nothing that can be seen, at any level, and what is seen is the tree of
      the root. */
  lemma {:induction false} FetchKeeps(e: Trees, v: View, k: Key)
    requires Valid(e, v)
    ensures Valid(e, Fetch(e, v, k)) && TreeAt(e, v, k) == e.treeOf(k)
    ensures forall j :: Has(e, Fetch(e, v, k), j) == Has(e, v, j)
    ensures v.Cached? ==> Fetch(e, v, k).Cached? && (Has(e, v, k) ==> k in Fetch(e, v, k).cache)
  {
    if v.Cached? {
      FetchKeeps(e, v.base, k);
      if k in v.cache { assert Backed(e, v.cache[k], v.base, k); }
      var w := Fetch(e, v, k);
      forall j | j in w.cache ensures Backed(e, w.cache[j], w.base, j) {
        if j != k { assert Backed(e, v.cache[j], v.base, j); }
      }
    }
  }

  /** PushAnchor: enter a tree that is not the best anchor yet. */
  function Push(v: View, k: Key, tree: Tree): View
    requires v.Cached?
  {
    v.(cache := v.cache[k := Entry(true, tree, true)])
  }

  /** PopAnchor: the current best anchor is brought into the cache and marked as removed. */
  function Pop(e: Trees, v: View, current: Key): View
    requires v.Cached?
  {
    var w := Fetch(e, v, current);
    if w.Cached? && current in w.cache
    then w.(cache := w.cache[current := w.cache[current].(entered := false, isDirty := true)])
    else w
  }

  lemma PushRefines(e: Trees, v: View, k: Key, tree: Tree)
    requires v.Cached? && Valid(e, v) && tree == e.treeOf(k)
    ensures var w := Push(v, k, tree);
      Valid(e, w) && Has(e, w, k) && forall j | j != k :: Has(e, w, j) == Has(e, v, j)
  {
    var w := Push(v, k, tree);
    forall j | j in w.cache ensures Backed(e, w.cache[j], w.base, j) {
      if j != k { assert Backed(e, v.cache[j], v.base, j); }
    }
  }

  lemma PopRefines(e: Trees, v: View, current: Key)
    requires v.Cached? && Valid(e, v) && Has(e, v, current)
    ensures var w := Pop(e, v, current);
      && w.Cached? && Valid(e, w) && !Has(e, w, current) && (forall j | j != current :: Has(e, w, j) == Has(e, v, j))
      && forall j :: Has(e, w.base, j) == Has(e, v.base, j)
  {
    FetchKeeps(e, v, current);
    FetchKeeps(e, v.base, current);
    var u := Fetch(e, v, current);
    var w := Pop(e, v, current);
    forall j | j in w.cache ensures Backed(e, w.cache[j], w.base, j) {
      assert Backed(e, u.cache[j], u.base, j);
    }
    forall j: Key | j != current ensures Has(e, w, j) == Has(e, v, j) {
      assert Has(e, w, j) == Has(e, u, j);
    }
  }

  // ----- flushing

  function Merge(child: Entry, cache: Cache, k: Key): Entry {
    if k !in cache then Entry(child.entered, child.tree, true)
    else if cache[k].entered != child.entered then cache[k].(entered := child.entered, isDirty := true)
    else cache[k]
  }

  function Merged(child: Cache, own: Cache): Cache {
    map k | k in child.Keys + own.Keys && (k in own || child[k].isDirty) ::
      if k in child && child[k].isDirty then Merge(child[k], own, k) else own[k]
  }

  function Written(e: Trees, child: Cache, db: map<Key, Tree>): map<Key, Tree> {
    map k | k in child.Keys + db.Keys
          && (if k in child && child[k].isDirty then child[k].entered && (!e.IsEmpty(k) || k in db) else k in db) ::
      if k in child && child[k].isDirty && !e.IsEmpty(k) then child[k].tree else db[k]
  }

  function BatchWrite(e: Trees, v: View, child: Cache): View {
    match v
    case Database(db) => Database(Written(e, child, db))
    case Cached(cache, base) => Cached(Merged(child, cache), base)
  }

  function Flush(e: Trees, v: View): View
    requires v.Cached?
  {
    Cached(map[], BatchWrite(e, v.base, v.cache))
  }

  /** The database cannot forget an empty root. */
  predicate Forgets(e: Trees, v: View, k: Key)
    requires v.Cached?
  {
    v.base.Database? && e.IsEmpty(k) && k in v.cache && !v.cache[k].entered
  }

  /** Flushing keeps the stack valid, and an anchor is seen afterwards exactly if it was seen
      before, unless it is an empty root that was removed from a cache right above the
      database. */
  lemma FlushRefines(e: Trees, v: View)
    requires v.Cached? && Valid(e, v)
    ensures Valid(e, Flush(e, v))
    ensures forall k :: Has(e, Flush(e, v), k) == Has(e, Flush(e, v).base, k)
    ensures forall k :: Has(e, Flush(e, v), k) == Has(e, v, k) <==> !Forgets(e, v, k)
  {
    var w := Flush(e, v).base;
    forall k ensures Has(e, w, k) == Has(e, v, k) <==> !Forgets(e, v, k) { FlushOne(e, v, k); }
    match w {
      case Database(db) =>
        forall k | k in db ensures db[k] == e.treeOf(k) {
          if k in v.cache { assert Backed(e, v.cache[k], v.base, k); }
        }
      case Cached(cache, base) =>
        forall k | k in cache ensures Backed(e, cache[k], base, k) {
          if k in v.cache { assert Backed(e, v.cache[k], v.base, k); }
          if k in v.base.cache { assert Backed(e, v.base.cache[k], v.base.base, k); }
        }
    }
  }

  /** The exception is reached by popping the empty root over a fresh database: the cache hides it,
      and the flush shows it again. */
  lemma FlushCanForget(e: Trees, pool: Pool)
    ensures var k := Key(pool, e.emptyRoot(pool)); var v := Pop(e, Cached(map[], Database(map[])), k);
      v.Cached? && Valid(e, v) && Forgets(e, v, k) && !Has(e, v, k) && Has(e, Flush(e, v), k)
  {
    var k, v := Key(pool, e.emptyRoot(pool)), Cached(map[], Database(map[]));
    PopRefines(e, v, k);
    var w := Pop(e, v, k);
    assert k in Fetch(e, v, k).cache;
    assert w.base == v.base && !w.cache[k].entered;
    FlushRefines(e, w);
  }

  lemma FlushOne(e: Trees, v: View, k: Key)
    requires v.Cached? && Valid(e, v)
    ensures Has(e, Flush(e, v).base, k) == Has(e, v, k) <==> !Forgets(e, v, k)
  {
    if k in v.cache { assert Backed(e, v.cache[k], v.base, k); }
    if v.base.Cached? && k in v.base.cache { assert Backed(e, v.base.cache[k], v.base.base, k); }
  }
}

module NullifiersMap {
  import AnchorsMap

  type Key = AnchorsMap.Key

  datatype Entry = Entry(entered: bool, isDirty: bool)
  type Cache = map<Key, Entry>
  datatype View = Database(db: set<Key>) | Cached(cache: Cache, base: View)

  predicate Has(v: View, k: Key) {
    match v
    case Database(db) => k in db
    case Cached(cache, base) => if k in cache then cache[k].entered else Has(base, k)
  }

  /** GetNullifier of a view; a cache keeps the answer, whatever it is. */
  function Fetch(v: View, k: Key): View {
    match v
    case Database(_) => v
    case Cached(cache, base) =>
      if k in cache then v else Cached(cache[k := Entry(Has(base, k), false)], Fetch(base, k))
  }

  /** SetNullifiers for one nullifier. */
  function Set(v: View, k: Key, spent: bool): View
    requires v.Cached?
  {
    v.(cache := v.cache[k := Entry(spent, true)])
  }

  ghost predicate Backed(entry: Entry, base: View, k: Key) { !entry.isDirty ==> entry.entered == Has(base, k) }

  ghost predicate Valid(v: View) {
    v.Cached? ==> Valid(v.base) && forall k | k in v.cache :: Backed(v.cache[k], v.base, k)
  }

  lemma {:induction false} FetchKeeps(v: View, k: Key)
    requires Valid(v)
    ensures Valid(Fetch(v, k))
    ensures forall j :: Has(Fetch(v, k), j) == Has(v, j)
  {
    if v.Cached? && k !in v.cache {
      FetchKeeps(v.base, k);
      var w := Fetch(v, k);
      forall j | j in w.cache ensures Backed(w.cache[j], w.base, j) {
        if j != k { assert Backed(v.cache[j], v.base, j); }
      }
    }
  }

  lemma SetRefines(v: View, k: Key, spent: bool)
    requires v.Cached? && Valid(v)
    ensures var w := Set(v, k, spent);
      Valid(w) && Has(w, k) == spent && forall j | j != k :: Has(w, j) == Has(v, j)
  {
    var w := Set(v, k, spent);
    forall j | j in w.cache ensures Backed(w.cache[j], w.base, j) {
      if j != k { assert Backed(v.cache[j], v.base, j); }
    }
  }

  function Merge(child: Entry, cache: Cache, k: Key): Entry {
    if k !in cache then Entry(child.entered, true)
    else if cache[k].entered != child.entered then Entry(child.entered, true)
    else cache[k]
  }

  function Merged(child: Cache, own: Cache): Cache {
    map k | k in child.Keys + own.Keys && (k in own || child[k].isDirty) ::
      if k in child && child[k].isDirty then Merge(child[k], own, k) else own[k]
  }

  function Written(child: Cache, db: set<Key>): set<Key> {
    set k | k in child.Keys + db && (if k in child && child[k].isDirty then child[k].entered else k in db)
  }

  function BatchWrite(v: View, child: Cache): View {
    match v
    case Database(db) => Database(Written(child, db))
    case Cached(cache, base) => Cached(Merged(child, cache), base)
  }

  function Flush(v: View): View
    requires v.Cached?
  {
    Cached(map[], BatchWrite(v.base, v.cache))
  }

  /** Flushing keeps the stack valid and the set of spent nullifiers that is seen. */
  lemma FlushRefines(v: View)
    requires v.Cached? && Valid(v)
    ensures Valid(Flush(v))
    ensures forall k :: Has(Flush(v), k) == Has(v, k) && Has(Flush(v).base, k) == Has(v, k)
  {
    forall k ensures Has(Flush(v).base, k) == Has(v, k) { FlushOne(v, k); }
    var w := Flush(v).base;
    if w.Cached? {
      forall k | k in w.cache ensures Backed(w.cache[k], w.base, k) {
        if k in v.cache { assert Backed(v.cache[k], v.base, k); }
        if k in v.base.cache { assert Backed(v.base.cache[k], v.base.base, k); }
      }
    }
  }

  lemma FlushOne(v: View, k: Key)
    requires v.Cached? && Valid(v)
    ensures Has(Flush(v).base, k) == Has(v, k)
  {
    if k in v.cache { assert Backed(v.cache[k], v.base, k); }
    if v.base.Cached? && k in v.base.cache { assert Backed(v.base.cache[k], v.base.base, k); }
  }
}

/** A best hash (of the tip block, or of a pool's anchor) through a stack of caches; zero is
    the null hash, which a cache takes for "not read yet". */
module BestHash {
  type Hash = nat

  datatype View = Database(hash: Hash) | Cached(hash: Hash, base: View)

  function Best(v: View): Hash {
    match v
    case Database(hash) => hash
    case Cached(hash, base) => if hash != 0 then hash else Best(base)
  }

  /** GetBestBlock or GetBestAnchor: every cache on the way keeps the answer. */
  function Fetch(v: View): View {
    match v
    case Database(_) => v
    case Cached(hash, base) => if hash != 0 then v else Cached(Best(base), Fetch(base))
  }

  lemma {:induction false} FetchKeeps(v: View)
    ensures Best(Fetch(v)) == Best(v)
    ensures v.Cached? ==> Fetch(v).Cached? && Best(Fetch(v).base) == Best(v.base)
    ensures Fetch(v).hash == Best(v)
  {
    if v.Cached? { FetchKeeps(v.base); }
  }

  /** BatchWrite hands the child's hash down even if it is null; the database ignores a null
      hash, a cache does not. */
  function Flush(v: View): View
    requires v.Cached?
  {
    v.(base := match v.base
               case Database(hash) => Database(if v.hash != 0 then v.hash else hash)
               case Cached(_, base) => Cached(v.hash, base))
  }

  /** The best hash survives a flush exactly if the cache has read or set it, or the base has
      nothing of its own to lose. */
  lemma FlushRefines(v: View)
    requires v.Cached?
    ensures Best(Flush(v)) == Best(Flush(v).base)
    ensures Best(Flush(v)) == Best(v) <==>
      v.hash != 0 || v.base.Database? || v.base.hash == 0 || v.base.hash == Best(v.base.base)
  {
  }

  /** Reading the hash first makes a flush safe. */
  lemma FlushAfterFetch(v: View)
    requires v.Cached? && Best(v) != 0
    ensures Best(Flush(Fetch(v))) == Best(v)
  {
    FetchKeeps(v);
    FlushRefines(Fetch(v));
  }

  /** A null hash handed down makes the base forget its own. */
  lemma FlushCanForget()
    ensures var v := Cached(0, Cached(7, Database(5))); Best(v) == 7 && Best(Flush(v)) == 5
  {
  }
}
