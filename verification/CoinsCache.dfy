/** One write-back cache as an object over another view: its maps, best hashes and usage
    counter are updated in place, also by the readers. */
module CoinsCache {
  import C = CoinsMap
  import A = AnchorsMap
  import N = NullifiersMap
  import B = BestHash
  import opened MapSums

  /** The tree of a root, and the memory that coins and trees take. */
  datatype Env = Env(trees: A.Trees, rootOf: A.Tree -> A.Hash, usage: C.Coins -> nat, treeUsage: A.Tree -> nat)

  /** The view a cache is put over. */
  datatype Base = Base(coins: C.View, anchors: A.View, nulls: N.View, block: B.View, sprout: B.View, sapling: B.View)

  ghost function CoinsWeight(env: Env): C.Entry -> nat { (e: C.Entry) => env.usage(e.coins) }
  ghost function TreeWeight(env: Env): A.Entry -> nat { (e: A.Entry) => env.treeUsage(e.tree) }

  ghost function Usage(env: Env, coins: C.Cache, anchors: A.Cache): nat {
    Sum(coins, CoinsWeight(env)) + Sum(anchors, TreeWeight(env))
  }

  lemma CoinsUsageUpdate(env: Env, coins: C.Cache, anchors: A.Cache, t: C.Txid, e: C.Entry)
    ensures Usage(env, coins[t := e], anchors) == Usage(env, coins - {t}, anchors) + env.usage(e.coins)
    ensures t in coins ==> Usage(env, coins, anchors) == Usage(env, coins - {t}, anchors) + env.usage(coins[t].coins)
    ensures t !in coins ==> Usage(env, coins, anchors) == Usage(env, coins - {t}, anchors)
  {
    SumUpdate(coins, CoinsWeight(env), t, e);
  }

  lemma TreeUsageUpdate(env: Env, coins: C.Cache, anchors: A.Cache, k: A.Key, e: A.Entry)
    ensures k in anchors && anchors[k].tree == e.tree ==> Usage(env, coins, anchors[k := e]) == Usage(env, coins, anchors)
    ensures k !in anchors ==> Usage(env, coins, anchors[k := e]) == Usage(env, coins, anchors) + env.treeUsage(e.tree)
  {
    SumUpdate(anchors, TreeWeight(env), k, e);
  }

  class Cache {
    const env: Env
    var base: Base
    var hashBlock: B.Hash
    var hashSproutAnchor: B.Hash
    var hashSaplingAnchor: B.Hash
    var cacheCoins: C.Cache
    var cacheAnchors: A.Cache
    var cacheNullifiers: N.Cache
    var cachedCoinsUsage: int

    ghost function CoinsView(): C.View reads this { C.Cached(cacheCoins, base.coins) }
    ghost function AnchorsView(): A.View reads this { A.Cached(cacheAnchors, base.anchors) }
    ghost function NullsView(): N.View reads this { N.Cached(cacheNullifiers, base.nulls) }
    ghost function BlockView(): B.View reads this { B.Cached(hashBlock, base.block) }

    ghost function AnchorHashView(pool: A.Pool): B.View
      reads this
    {
      match pool
      case Sprout => B.Cached(hashSproutAnchor, base.sprout)
      case Sapling => B.Cached(hashSaplingAnchor, base.sapling)
    }

    ghost predicate Valid()
      reads this
    {
      C.Valid(CoinsView()) && A.Valid(env.trees, AnchorsView()) && N.Valid(NullsView())
    }

    /** The counter is the exact sum of what is cached. */
    ghost predicate UsageExact() reads this { cachedCoinsUsage == Usage(env, cacheCoins, cacheAnchors) }

    constructor (env: Env, base: Base)
      requires C.Valid(base.coins) && A.Valid(env.trees, base.anchors) && N.Valid(base.nulls)
      ensures Valid() && UsageExact() && this.env == env && this.base == base
      ensures cacheCoins == map[] && cacheAnchors == map[] && cacheNullifiers == map[]
      ensures hashBlock == hashSproutAnchor == hashSaplingAnchor == 0
    {
      this.env, this.base := env, base;
      hashBlock, hashSproutAnchor, hashSaplingAnchor := 0, 0, 0;
      cacheCoins, cacheAnchors, cacheNullifiers, cachedCoinsUsage := map[], map[], map[], 0;
    }

    // ----- reading

    method FetchCoins(txid: C.Txid) returns (found: bool)
      requires Valid() && UsageExact()
      modifies this`base, this`cacheCoins, this`cachedCoinsUsage
      ensures CoinsView() == C.Fetch(old(CoinsView()), txid) && base == old(base).(coins := base.coins)
      ensures found == C.Raw(old(CoinsView()), txid).Some? && (found ==> txid in cacheCoins)
      ensures Valid() && UsageExact()
    {
      C.FetchKeeps(CoinsView(), txid);
      if txid in cacheCoins {
        return true;
      }
      var tmp := C.Raw(base.coins, txid);
      base := base.(coins := C.Fetch(base.coins, txid));
      if tmp.None? {
        return false;
      }
      CoinsUsageUpdate(env, cacheCoins, cacheAnchors, txid, C.Entry(tmp.value, false, C.IsPruned(tmp.value)));
      cacheCoins := cacheCoins[txid := C.Entry(tmp.value, false, false)];
      if C.IsPruned(cacheCoins[txid].coins) {
        cacheCoins := cacheCoins[txid := cacheCoins[txid].(isFresh := true)];
      }
      cachedCoinsUsage := cachedCoinsUsage + env.usage(cacheCoins[txid].coins);
      return true;
    }

    method GetCoins(txid: C.Txid) returns (coins: C.Option<C.Coins>)
      requires Valid() && UsageExact()
      modifies this`base, this`cacheCoins, this`cachedCoinsUsage
      ensures coins == C.Raw(old(CoinsView()), txid) && CoinsView() == C.Fetch(old(CoinsView()), txid)
      ensures Valid() && UsageExact()
    {
      C.FetchKeeps(CoinsView(), txid);
      ghost var v := CoinsView();
      var found := FetchCoins(txid);
      assert C.Raw(CoinsView(), txid) == C.Raw(v, txid);
      coins := if found then C.Some(cacheCoins[txid].coins) else C.None;
    }

    method GetAnchorAt(k: A.Key) returns (found: bool, tree: A.Tree)
      requires Valid() && UsageExact()
      modifies this`base, this`cacheAnchors, this`cachedCoinsUsage
      ensures AnchorsView() == A.Fetch(env.trees, old(AnchorsView()), k) && base == old(base).(anchors := base.anchors)
      ensures found == A.Has(env.trees, old(AnchorsView()), k) && (found ==> tree == env.trees.treeOf(k) && k in cacheAnchors)
      ensures Valid() && UsageExact()
    {
      A.FetchKeeps(env.trees, AnchorsView(), k);
      A.FetchKeeps(env.trees, base.anchors, k);
      if k in cacheAnchors {
        return cacheAnchors[k].entered, cacheAnchors[k].tree;
      }
      found, tree := A.Has(env.trees, base.anchors, k), A.TreeAt(env.trees, base.anchors, k);
      base := base.(anchors := A.Fetch(env.trees, base.anchors, k));
      if !found {
        return;
      }
      TreeUsageUpdate(env, cacheCoins, cacheAnchors, k, A.Entry(true, tree, false));
      cacheAnchors := cacheAnchors[k := A.Entry(true, tree, false)];
      cachedCoinsUsage := cachedCoinsUsage + env.treeUsage(cacheAnchors[k].tree);
    }

    method GetNullifier(k: N.Key) returns (spent: bool)
      requires Valid()
      modifies this`base, this`cacheNullifiers
      ensures NullsView() == N.Fetch(old(NullsView()), k) && base == old(base).(nulls := base.nulls)
      ensures spent == N.Has(old(NullsView()), k) && Valid()
    {
      N.FetchKeeps(NullsView(), k);
      if k in cacheNullifiers {
        return cacheNullifiers[k].entered;
      }
      spent := N.Has(base.nulls, k);
      base := base.(nulls := N.Fetch(base.nulls, k));
      cacheNullifiers := cacheNullifiers[k := N.Entry(spent, false)];
    }

    method GetBestBlock() returns (hash: B.Hash)
      modifies this`base, this`hashBlock
      ensures BlockView() == B.Fetch(old(BlockView())) && base == old(base).(block := base.block)
      ensures hash == B.Best(old(BlockView()))
    {
      if hashBlock == 0 {
        hashBlock := B.Best(base.block);
        base := base.(block := B.Fetch(base.block));
      }
      hash := hashBlock;
    }

    method GetBestAnchor(pool: A.Pool) returns (hash: B.Hash)
      modifies this`base, this`hashSproutAnchor, this`hashSaplingAnchor
      ensures AnchorHashView(pool) == B.Fetch(old(AnchorHashView(pool)))
      ensures forall p :: p != pool ==> AnchorHashView(p) == old(AnchorHashView(p))
      ensures base == old(base).(sprout := base.sprout, sapling := base.sapling)
      ensures hash == B.Best(old(AnchorHashView(pool))) && AnchorHashView(pool).hash == hash
    {
      match pool {
        case Sprout =>
          if hashSproutAnchor == 0 {
            hashSproutAnchor := B.Best(base.sprout);
            base := base.(sprout := B.Fetch(base.sprout));
          }
          hash := hashSproutAnchor;
        case Sapling =>
          if hashSaplingAnchor == 0 {
            hashSaplingAnchor := B.Best(base.sapling);
            base := base.(sapling := B.Fetch(base.sapling));
          }
          hash := hashSaplingAnchor;
      }
    }

    // ----- writing

    /** ModifyCoins: make sure there is an entry, and mark it as changed. */
    method StartModification(txid: C.Txid) returns (cachedCoinUsage: nat)
      requires Valid()
      modifies this`base, this`cacheCoins
      ensures cacheCoins == old(cacheCoins)[txid := C.Started(old(CoinsView()), txid)]
      ensures base == old(base).(coins := if txid in old(cacheCoins) then old(base).coins else C.Fetch(old(base).coins, txid))
      ensures cachedCoinUsage == if txid in old(cacheCoins) then env.usage(old(cacheCoins)[txid].coins) else 0
    {
      cachedCoinUsage := 0;
      if txid !in cacheCoins {
        var tmp := C.Raw(base.coins, txid);
        base := base.(coins := C.Fetch(base.coins, txid));
        if tmp.None? {
          cacheCoins := cacheCoins[txid := C.Entry(C.EmptyCoins(), false, true)];
        } else {
          cacheCoins := cacheCoins[txid := C.Entry(tmp.value, false, C.IsPruned(tmp.value))];
        }
      } else {
        cachedCoinUsage := env.usage(cacheCoins[txid].coins);
      }
      cacheCoins := cacheCoins[txid := cacheCoins[txid].(isDirty := true)];
    }

    /** The end of a modification: clean up, account for the memory, and forget the entry if
        nobody below needs to hear of it. */
    method EndModification(txid: C.Txid, cachedCoinUsage: nat, ghost cache: C.Cache)
      requires txid in cacheCoins && cacheCoins == cache[txid := cacheCoins[txid]]
      requires cachedCoinsUsage == Usage(env, cache, cacheAnchors)
      requires cachedCoinUsage == if txid in cache then env.usage(cache[txid].coins) else 0
      modifies this`cacheCoins, this`cachedCoinsUsage
      ensures UsageExact()
      ensures var e := old(cacheCoins)[txid]; var coins := C.Cleanup(e.coins);
        cacheCoins == if e.isFresh && C.IsPruned(coins) then cache - {txid} else cache[txid := e.(coins := coins)]
    {
      hide C.IsPruned, Usage, C.Cleanup;
      cacheCoins := cacheCoins[txid := cacheCoins[txid].(coins := C.Cleanup(cacheCoins[txid].coins))];
      CoinsUsageUpdate(env, cache, cacheAnchors, txid, cacheCoins[txid]);
      assert cachedCoinUsage <= cachedCoinsUsage;
      cachedCoinsUsage := cachedCoinsUsage - cachedCoinUsage;
      if cacheCoins[txid].isFresh && C.IsPruned(cacheCoins[txid].coins) {
        cacheCoins := cacheCoins - {txid};
        assert cacheCoins == cache - {txid};
      } else {
        assert cacheCoins == cache[txid := cacheCoins[txid]];
        cachedCoinsUsage := cachedCoinsUsage + env.usage(cacheCoins[txid].coins);
      }
    }

    /** ModifyCoins, the change its caller makes, and the end of the modification. */
    method ModifyCoins(txid: C.Txid, change: C.Coins -> C.Coins)
      requires Valid() && UsageExact()
      modifies this`base, this`cacheCoins, this`cachedCoinsUsage
      ensures CoinsView() == C.Modify(old(CoinsView()), txid, change) && base == old(base).(coins := base.coins)
      ensures Valid() && UsageExact()
    {
      C.ModifyRefines(CoinsView(), txid, change);
      hide C.Valid, A.Valid, N.Valid, C.IsPruned, C.Raw, C.Started, Usage, C.Cleanup;
      ghost var cache := cacheCoins;
      var cachedCoinUsage := StartModification(txid);
      cacheCoins := cacheCoins[txid := cacheCoins[txid].(coins := change(cacheCoins[txid].coins))];
      assert cacheCoins == cache[txid := cacheCoins[txid]];
      EndModification(txid, cachedCoinUsage, cache);
    }

    method SetNullifier(k: N.Key, spent: bool)
      requires Valid()
      modifies this`cacheNullifiers
      ensures NullsView() == N.Set(old(NullsView()), k, spent) && Valid()
    {
      N.SetRefines(NullsView(), k, spent);
      if k !in cacheNullifiers {
        cacheNullifiers := cacheNullifiers[k := N.Entry(false, false)];
      }
      cacheNullifiers := cacheNullifiers[k := cacheNullifiers[k].(entered := spent)];
      cacheNullifiers := cacheNullifiers[k := cacheNullifiers[k].(isDirty := true)];
    }

    method SetBestAnchor(pool: A.Pool, hash: B.Hash)
      modifies this`hashSproutAnchor, this`hashSaplingAnchor
      ensures AnchorHashView(pool) == old(AnchorHashView(pool)).(hash := hash)
      ensures forall p :: p != pool ==> AnchorHashView(p) == old(AnchorHashView(p))
    {
      match pool {
        case Sprout => hashSproutAnchor := hash;
        case Sapling => hashSaplingAnchor := hash;
      }
    }

    method PushAnchor(pool: A.Pool, tree: A.Tree)
      requires Valid() && UsageExact() && tree == env.trees.treeOf(A.Key(pool, env.rootOf(tree)))
      modifies this
      ensures Valid() && UsageExact()
      ensures var newrt := env.rootOf(tree);
        if B.Best(old(AnchorHashView(pool))) == newrt then AnchorsView() == old(AnchorsView())
        else AnchorsView() == A.Push(old(AnchorsView()), A.Key(pool, newrt), tree) && AnchorHashView(pool).hash == newrt
      ensures CoinsView() == old(CoinsView()) && NullsView() == old(NullsView()) && BlockView() == old(BlockView())
    {
      var newrt := env.rootOf(tree);
      var currentRoot := GetBestAnchor(pool);
      if currentRoot != newrt {
        EnterAnchor(A.Key(pool, newrt), tree);
        SetBestAnchor(pool, newrt);
      }
    }

    method EnterAnchor(k: A.Key, tree: A.Tree)
      requires Valid() && UsageExact() && tree == env.trees.treeOf(k)
      modifies this`cacheAnchors, this`cachedCoinsUsage
      ensures AnchorsView() == A.Push(old(AnchorsView()), k, tree) && Valid() && UsageExact()
    {
      A.PushRefines(env.trees, AnchorsView(), k, tree);
      if k in cacheAnchors { assert A.Backed(env.trees, cacheAnchors[k], base.anchors, k); }
      TreeUsageUpdate(env, cacheCoins, cacheAnchors, k, A.Entry(true, tree, true));
      var inserted := k !in cacheAnchors;
      cacheAnchors := cacheAnchors[k := A.Entry(true, tree, true)];
      if inserted {
        cachedCoinsUsage := cachedCoinsUsage + env.treeUsage(cacheAnchors[k].tree);
      }
    }

    /** The source asserts that the current best anchor can be found. */
    method PopAnchor(pool: A.Pool, newrt: A.Hash)
      requires Valid() && UsageExact()
      requires A.Has(env.trees, AnchorsView(), A.Key(pool, B.Best(AnchorHashView(pool))))
      modifies this
      ensures Valid() && UsageExact()
      ensures var currentRoot := B.Best(old(AnchorHashView(pool)));
        if currentRoot == newrt then AnchorsView() == old(AnchorsView())
        else AnchorsView() == A.Pop(env.trees, old(AnchorsView()), A.Key(pool, currentRoot)) && AnchorHashView(pool).hash == newrt
      ensures CoinsView() == old(CoinsView()) && NullsView() == old(NullsView()) && BlockView() == old(BlockView())
    {
      hide C.Valid, A.Valid, N.Valid, A.Has, Usage, A.Pop;
      var currentRoot := GetBestAnchor(pool);
      if currentRoot != newrt {
        RemoveAnchor(A.Key(pool, currentRoot));
        SetBestAnchor(pool, newrt);
      }
    }

    /** Mark an anchor as removed. */
    method RemoveAnchor(k: A.Key)
      requires Valid() && UsageExact() && A.Has(env.trees, AnchorsView(), k)
      modifies this`base, this`cacheAnchors, this`cachedCoinsUsage
      ensures AnchorsView() == A.Pop(env.trees, old(AnchorsView()), k) && base == old(base).(anchors := base.anchors)
      ensures Valid() && UsageExact()
    {
      hide C.Valid, A.Valid, N.Valid, A.Has, Usage, A.Fetch;
      A.PopRefines(env.trees, AnchorsView(), k);
      var found, _ := GetAnchorAt(k);
      assert found;
      TreeUsageUpdate(env, cacheCoins, cacheAnchors, k, cacheAnchors[k].(entered := false, isDirty := true));
      cacheAnchors := cacheAnchors[k := cacheAnchors[k].(entered := false)];
      cacheAnchors := cacheAnchors[k := cacheAnchors[k].(isDirty := true)];
    }

    // ----- flushing

    /** One entry of a child's coins map. */
    method TakeOver(txid: C.Txid, e: C.Entry)
      requires UsageExact() && C.MayMerge(C.Some(e), C.Find(cacheCoins, txid))
      modifies this`cacheCoins, this`cachedCoinsUsage
      ensures UsageExact()
      ensures C.Find(cacheCoins, txid) == C.Merge(C.Some(e), C.Find(old(cacheCoins), txid))
      ensures forall t | t != txid :: C.Find(cacheCoins, t) == C.Find(old(cacheCoins), t)
    {
      hide C.IsPruned, Usage;
      if e.isDirty {
        ghost var cache := cacheCoins;
        if txid !in cacheCoins {
          if !C.IsPruned(e.coins) {
            assert e.isFresh;
            CoinsUsageUpdate(env, cacheCoins, cacheAnchors, txid, C.Entry(e.coins, true, true));
            cacheCoins := cacheCoins[txid := C.Entry(e.coins, true, true)];
            cachedCoinsUsage := cachedCoinsUsage + env.usage(cacheCoins[txid].coins);
          }
        } else {
          CoinsUsageUpdate(env, cacheCoins, cacheAnchors, txid, C.Entry(e.coins, true, cacheCoins[txid].isFresh));
          assert env.usage(cacheCoins[txid].coins) <= cachedCoinsUsage;
          cachedCoinsUsage := cachedCoinsUsage - env.usage(cacheCoins[txid].coins);
          if cacheCoins[txid].isFresh && C.IsPruned(e.coins) {
            cacheCoins := cacheCoins - {txid};
          } else {
            cacheCoins := cacheCoins[txid := C.Entry(e.coins, true, cacheCoins[txid].isFresh)];
            cachedCoinsUsage := cachedCoinsUsage + env.usage(cacheCoins[txid].coins);
          }
        }
      }
    }

    method BatchWriteCoins(mapCoins: C.Cache)
      requires UsageExact() && forall t :: C.MayMerge(C.Find(mapCoins, t), C.Find(cacheCoins, t))
      modifies this`cacheCoins, this`cachedCoinsUsage
      ensures UsageExact() && cacheCoins == C.Merged(mapCoins, old(cacheCoins))
    {
      hide C.IsPruned, C.MayMerge, Usage, C.Merged;
      ghost var own := cacheCoins;
      var rest := mapCoins;
      while rest != map[]
        invariant UsageExact()
        invariant forall t :: C.Find(rest, t) == C.None || C.Find(rest, t) == C.Find(mapCoins, t)
        invariant forall t :: C.Find(cacheCoins, t) == if t in rest then C.Find(own, t) else C.Merge(C.Find(mapCoins, t), C.Find(own, t))
        decreases |rest|
      {
        var txid :| txid in rest;
        assert C.Find(rest, txid) == C.Find(mapCoins, txid);
        assert C.Find(cacheCoins, txid) == C.Find(own, txid);
        TakeOver(txid, rest[txid]);
        rest := rest - {txid};
      }
      AllMerged(mapCoins, own, cacheCoins);
    }

    method TakeOverAnchor(k: A.Key, child: A.Entry)
      requires UsageExact()
      modifies this`cacheAnchors, this`cachedCoinsUsage
      ensures UsageExact()
      ensures cacheAnchors == if child.isDirty then old(cacheAnchors)[k := A.Merge(child, old(cacheAnchors), k)] else old(cacheAnchors)
    {
      hide Usage;
      if child.isDirty {
        ghost var cache := cacheAnchors;
        TreeUsageUpdate(env, cacheCoins, cacheAnchors, k, A.Merge(child, cacheAnchors, k));
        if k !in cacheAnchors {
          cacheAnchors := cacheAnchors[k := A.Entry(child.entered, child.tree, true)];
          cachedCoinsUsage := cachedCoinsUsage + env.treeUsage(cacheAnchors[k].tree);
        } else if cacheAnchors[k].entered != child.entered {
          cacheAnchors := cacheAnchors[k := cacheAnchors[k].(entered := child.entered)];
          cacheAnchors := cacheAnchors[k := cacheAnchors[k].(isDirty := true)];
        }
        assert cacheAnchors == cache[k := A.Merge(child, cache, k)];
      }
    }

    method BatchWriteAnchors(mapAnchors: A.Cache)
      requires UsageExact()
      modifies this`cacheAnchors, this`cachedCoinsUsage
      ensures UsageExact() && cacheAnchors == A.Merged(mapAnchors, old(cacheAnchors))
    {
      hide Usage, A.Merged;
      ghost var own := cacheAnchors;
      var rest := mapAnchors;
      while rest != map[]
        invariant UsageExact()
        invariant forall k | k in rest :: k in mapAnchors && rest[k] == mapAnchors[k]
        invariant forall k | k in rest :: (k in cacheAnchors <==> k in own) && (k in own ==> cacheAnchors[k] == own[k])
        invariant forall k | k !in rest :: AnchorMerged(mapAnchors, own, cacheAnchors, k)
        decreases |rest|
      {
        var k :| k in rest;
        TakeOverAnchor(k, rest[k]);
        rest := rest - {k};
      }
      AllAnchorsMerged(mapAnchors, own, cacheAnchors);
    }

    method TakeOverNullifier(k: N.Key, child: N.Entry)
      modifies this`cacheNullifiers
      ensures cacheNullifiers ==
        if child.isDirty then old(cacheNullifiers)[k := N.Merge(child, old(cacheNullifiers), k)] else old(cacheNullifiers)
    {
      if child.isDirty {
        ghost var cache := cacheNullifiers;
        if k !in cacheNullifiers {
          cacheNullifiers := cacheNullifiers[k := N.Entry(child.entered, true)];
        } else if cacheNullifiers[k].entered != child.entered {
          cacheNullifiers := cacheNullifiers[k := cacheNullifiers[k].(entered := child.entered)];
          cacheNullifiers := cacheNullifiers[k := cacheNullifiers[k].(isDirty := true)];
        }
        assert cacheNullifiers == cache[k := N.Merge(child, cache, k)];
      }
    }

    method BatchWriteNullifiers(mapNullifiers: N.Cache)
      modifies this`cacheNullifiers
      ensures cacheNullifiers == N.Merged(mapNullifiers, old(cacheNullifiers))
    {
      hide N.Merged;
      ghost var own := cacheNullifiers;
      var rest := mapNullifiers;
      while rest != map[]
        invariant forall k | k in rest :: k in mapNullifiers && rest[k] == mapNullifiers[k]
        invariant forall k | k in rest :: (k in cacheNullifiers <==> k in own) && (k in own ==> cacheNullifiers[k] == own[k])
        invariant forall k | k !in rest :: NullifierMerged(mapNullifiers, own, cacheNullifiers, k)
        decreases |rest|
      {
        var k :| k in rest;
        TakeOverNullifier(k, rest[k]);
        rest := rest - {k};
      }
      AllNullifiersMerged(mapNullifiers, own, cacheNullifiers);
    }

    /** A child cache writes its maps and hashes into this one. */
    method BatchWrite(mapCoins: C.Cache, hashBlockIn: B.Hash, hashSproutAnchorIn: B.Hash, hashSaplingAnchorIn: B.Hash,
                      mapAnchors: A.Cache, mapNullifiers: N.Cache)
      requires UsageExact() && Valid()
      requires C.Valid(C.Cached(mapCoins, CoinsView())) && A.Valid(env.trees, A.Cached(mapAnchors, AnchorsView()))
      requires N.Valid(N.Cached(mapNullifiers, NullsView()))
      modifies this
      ensures Valid() && UsageExact() && base == old(base)
      ensures CoinsView() == C.BatchWrite(old(CoinsView()), mapCoins)
      ensures AnchorsView() == A.BatchWrite(env.trees, old(AnchorsView()), mapAnchors)
      ensures NullsView() == N.BatchWrite(old(NullsView()), mapNullifiers)
      ensures hashBlock == hashBlockIn && hashSproutAnchor == hashSproutAnchorIn && hashSaplingAnchor == hashSaplingAnchorIn
    {
      C.FlushRefines(C.Cached(mapCoins, CoinsView()));
      A.FlushRefines(env.trees, A.Cached(mapAnchors, AnchorsView()));
      N.FlushRefines(N.Cached(mapNullifiers, NullsView()));
      forall t ensures C.MayMerge(C.Find(mapCoins, t), C.Find(cacheCoins, t)) {
        C.MergeAllowed(C.Cached(mapCoins, CoinsView()), t);
      }
      hide C.MayMerge, Usage, C.Merged, A.Merged, N.Merged, C.Seen, A.Has, N.Has, A.Forgets;
      BatchWriteCoins(mapCoins);
      BatchWriteAnchors(mapAnchors);
      BatchWriteNullifiers(mapNullifiers);
      hashSproutAnchor, hashSaplingAnchor, hashBlock := hashSproutAnchorIn, hashSaplingAnchorIn, hashBlockIn;
    }

    /** Flush: hand everything down to the base and forget it here, except the hashes. */
    method Flush()
      requires Valid() && UsageExact()
      modifies this
      ensures Valid() && UsageExact() && cachedCoinsUsage == 0
      ensures CoinsView() == C.Flush(old(CoinsView())) && NullsView() == N.Flush(old(NullsView()))
      ensures AnchorsView() == A.Flush(env.trees, old(AnchorsView()))
      ensures BlockView() == B.Flush(old(BlockView()))
      ensures forall pool :: AnchorHashView(pool) == B.Flush(old(AnchorHashView(pool)))
    {
      C.FlushRefines(CoinsView());
      A.FlushRefines(env.trees, AnchorsView());
      N.FlushRefines(NullsView());
      hide C.Valid, A.Valid, N.Valid, C.Seen, A.Has, N.Has, A.Forgets;
      base := Base(C.BatchWrite(base.coins, cacheCoins), A.BatchWrite(env.trees, base.anchors, cacheAnchors),
                   N.BatchWrite(base.nulls, cacheNullifiers), B.Flush(B.Cached(hashBlock, base.block)).base,
                   B.Flush(B.Cached(hashSproutAnchor, base.sprout)).base, B.Flush(B.Cached(hashSaplingAnchor, base.sapling)).base);
      cacheCoins, cacheAnchors, cacheNullifiers := map[], map[], map[];
      cachedCoinsUsage := 0;
    }
  }

  ghost predicate AnchorMerged(child: A.Cache, own: A.Cache, merged: A.Cache, k: A.Key) {
    if k in child && child[k].isDirty then k in merged && merged[k] == A.Merge(child[k], own, k)
    else (k in merged <==> k in own) && (k in own ==> merged[k] == own[k])
  }

  lemma AllAnchorsMerged(child: A.Cache, own: A.Cache, merged: A.Cache)
    requires forall k :: AnchorMerged(child, own, merged, k)
    ensures merged == A.Merged(child, own)
  {
    var whole := A.Merged(child, own);
    forall k ensures (k in merged <==> k in whole) && (k in merged ==> merged[k] == whole[k]) {
      assert AnchorMerged(child, own, merged, k);
    }
  }

  ghost predicate NullifierMerged(child: N.Cache, own: N.Cache, merged: N.Cache, k: N.Key) {
    if k in child && child[k].isDirty then k in merged && merged[k] == N.Merge(child[k], own, k)
    else (k in merged <==> k in own) && (k in own ==> merged[k] == own[k])
  }

  lemma AllNullifiersMerged(child: N.Cache, own: N.Cache, merged: N.Cache)
    requires forall k :: NullifierMerged(child, own, merged, k)
    ensures merged == N.Merged(child, own)
  {
    var whole := N.Merged(child, own);
    forall k ensures (k in merged <==> k in whole) && (k in merged ==> merged[k] == whole[k]) {
      assert NullifierMerged(child, own, merged, k);
    }
  }

  lemma AllMerged(child: C.Cache, own: C.Cache, merged: C.Cache)
    requires forall t :: C.Find(merged, t) == C.Merge(C.Find(child, t), C.Find(own, t))
    ensures merged == C.Merged(child, own)
  {
    hide C.Merge;
    var whole := C.Merged(child, own);
    forall t ensures (t in merged <==> t in whole) && (t in merged ==> merged[t] == whole[t]) {
      C.MergedOne(child, own, t);
      assert C.Find(merged, t) == C.Find(whole, t);
    }
  }
}
