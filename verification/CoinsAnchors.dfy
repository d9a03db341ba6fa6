/** Runs of anchors and best-anchor hashes together on a stack of coins caches: as long as pops
    undo pushes and no hash is lost in a flush, the best anchor of each pool can be seen at every
    level, so that the lookup of the best anchor in a pop succeeds. */
module CoinsAnchors {
  import A = AnchorsMap
  import B = BestHash

  /** The anchors of both pools and each pool's best hash, level by level. */
  datatype Shield = Shield(anchors: A.View, best: A.Pool -> B.View)

  /** The roots of a pool from the empty tree to the best anchor. */
  type History = A.Pool -> seq<A.Hash>

  datatype Op =
    | Open
    | Discard
    | Flush
    | ReadAnchor(key: A.Key)
    | ReadBest(pool: A.Pool)
    | Push(pool: A.Pool, root: A.Hash, tree: A.Tree)
    | Pop(pool: A.Pool, root: A.Hash)

  function Last(h: seq<A.Hash>): A.Hash
    requires h != []
  {
    h[|h| - 1]
  }

  function BaseOf(v: B.View): B.View { if v.Cached? then v.base else v }

  function Below(s: Shield): Shield
    requires s.anchors.Cached?
  {
    Shield(s.anchors.base, p => BaseOf(s.best(p)))
  }

  /** The anchors and both best hashes have the same levels. */
  ghost predicate Level(s: Shield)
    decreases s.anchors
  {
    (forall p :: s.best(p).Cached? == s.anchors.Cached?) && (s.anchors.Cached? ==> Level(Below(s)))
  }

  // ----- the operations

  function With(best: A.Pool -> B.View, pool: A.Pool, v: B.View): A.Pool -> B.View {
    p => if p == pool then v else best(p)
  }

  /** PushAnchor: nothing but the reading of the best hash happens if the tree is the best one. */
  function PushAnchor(s: Shield, pool: A.Pool, root: A.Hash, tree: A.Tree): Shield
    requires s.anchors.Cached?
  {
    var v := B.Fetch(s.best(pool));
    if B.Best(s.best(pool)) == root then s.(best := With(s.best, pool, v))
    else Shield(A.Push(s.anchors, A.Key(pool, root), tree), With(s.best, pool, v.(hash := root)))
  }

  /** PopAnchor to a given root. */
  function PopAnchor(e: A.Trees, s: Shield, pool: A.Pool, root: A.Hash): Shield
    requires s.anchors.Cached?
  {
    var v, current := B.Fetch(s.best(pool)), B.Best(s.best(pool));
    if current == root then s.(best := With(s.best, pool, v))
    else Shield(A.Pop(e, s.anchors, A.Key(pool, current)), With(s.best, pool, v.(hash := root)))
  }

  ghost function Next(e: A.Trees, s: Shield, op: Op): Shield
    requires Level(s) && (op.Discard? || op.Flush? || op.Push? || op.Pop? ==> s.anchors.Cached?)
  {
    match op
    case Open => Shield(A.Cached(map[], s.anchors), p => B.Cached(0, s.best(p)))
    case Discard => Below(s)
    case Flush => Shield(A.Flush(e, s.anchors), p => if s.best(p).Cached? then B.Flush(s.best(p)) else s.best(p))
    case ReadAnchor(k) => s.(anchors := A.Fetch(e, s.anchors, k))
    case ReadBest(pool) => s.(best := With(s.best, pool, B.Fetch(s.best(pool))))
    case Push(pool, root, tree) => PushAnchor(s, pool, root, tree)
    case Pop(pool, root) => PopAnchor(e, s, pool, root)
  }

  /** What the operation makes of the histories. */
  function Extended(h: History, pool: A.Pool, roots: seq<A.Hash>): History { p => if p == pool then roots else h(p) }

  function NextTop(h: History, op: Op): History {
    match op
    case Push(pool, root, _) => if h(pool) != [] && Last(h(pool)) == root then h else Extended(h, pool, h(pool) + [root])
    case Pop(pool, root) =>
      if h(pool) == [] || Last(h(pool)) == root then h else Extended(h, pool, h(pool)[..|h(pool)| - 1])
    case _ => h
  }

  function NextHistories(hs: seq<History>, op: Op): seq<History>
    requires hs != [] && ((op.Flush? || op.Discard?) ==> |hs| >= 2)
  {
    var top := |hs| - 1;
    match op
    case Open => hs + [hs[top]]
    case Discard => hs[..top]
    case Flush => hs[top - 1 := hs[top]]
    case _ => hs[top := NextTop(hs[top], op)]
  }

  /** A flush does not lose the best hash: the condition of BestHash.FlushRefines. */
  predicate KeepsHash(v: B.View) {
    v.Cached? ==> v.hash != 0 || v.base.Database? || v.base.hash == 0 || v.base.hash == B.Best(v.base.base)
  }

  /** A root that is pushed is the best one or not an anchor yet; a pop goes back to the root before
      the best one, or has no effect; and no hash is lost in a flush. */
  ghost predicate Enabled(e: A.Trees, s: Shield, h: History, op: Op) {
    match op
    case Discard => s.anchors.Cached?
    case Flush => s.anchors.Cached? && forall p :: KeepsHash(s.best(p))
    case Push(pool, root, tree) =>
      && s.anchors.Cached? && root != 0 && tree == e.treeOf(A.Key(pool, root))
      && (root == B.Best(s.best(pool)) || !A.Has(e, s.anchors, A.Key(pool, root)))
    case Pop(pool, root) =>
      && s.anchors.Cached?
      && (root == B.Best(s.best(pool)) || (|h(pool)| >= 2 && root == h(pool)[|h(pool)| - 2]))
    case _ => true
  }

  // ----- what a level shows

  ghost predicate IsHistory(e: A.Trees, pool: A.Pool, h: seq<A.Hash>) {
    && h != [] && h[0] == e.emptyRoot(pool)
    && (forall i | 0 <= i < |h| :: h[i] != 0)
    && (forall i, j | 0 <= i < j < |h| :: h[i] != h[j])
  }

  /** The anchors that are seen in a pool are its history, and the best one is the last of it. */
  ghost predicate ShowsPool(e: A.Trees, anchors: A.View, best: B.View, pool: A.Pool, h: seq<A.Hash>) {
    && IsHistory(e, pool, h) && B.Best(best) == Last(h)
    && (forall root :: A.Has(e, anchors, A.Key(pool, root)) <==> root in h)
  }

  ghost predicate ShowsTop(e: A.Trees, s: Shield, h: History) {
    forall p :: ShowsPool(e, s.anchors, s.best(p), p, h(p))
  }

  ghost predicate Shows(e: A.Trees, s: Shield, hs: seq<History>)
    requires Level(s)
    decreases s.anchors
  {
    && hs != [] && ShowsTop(e, s, hs[|hs| - 1])
    && if s.anchors.Cached? then Shows(e, Below(s), hs[..|hs| - 1]) else |hs| == 1
  }

  ghost predicate Valid(e: A.Trees, s: Shield) { Level(s) && A.Valid(e, s.anchors) }

  // ----- reading does not show

  ghost predicate Alike(e: A.Trees, s: Shield, t: Shield) {
    (forall k :: A.Has(e, s.anchors, k) == A.Has(e, t.anchors, k)) && forall p :: B.Best(s.best(p)) == B.Best(t.best(p))
  }

  ghost predicate DeepAlike(e: A.Trees, s: Shield, t: Shield)
    requires Level(s)
    decreases s.anchors
  {
    && Level(t) && s.anchors.Cached? == t.anchors.Cached? && Alike(e, s, t)
    && (s.anchors.Cached? ==> DeepAlike(e, Below(s), Below(t)))
  }

  lemma {:induction false} DeepAlikeShows(e: A.Trees, s: Shield, t: Shield, hs: seq<History>)
    requires Level(s) && DeepAlike(e, s, t) && Shows(e, s, hs)
    ensures Shows(e, t, hs)
    decreases s.anchors
  {
    AlikeShows(e, s, t, hs[|hs| - 1]);
    if s.anchors.Cached? { DeepAlikeShows(e, Below(s), Below(t), hs[..|hs| - 1]); }
  }

  lemma AlikeShows(e: A.Trees, s: Shield, t: Shield, h: History)
    requires Alike(e, s, t) && ShowsTop(e, s, h)
    ensures ShowsTop(e, t, h)
  {
    forall p ensures ShowsPool(e, t.anchors, t.best(p), p, h(p)) { assert ShowsPool(e, s.anchors, s.best(p), p, h(p)); }
  }

  /** Any reading of one anchor and of best hashes. */
  ghost predicate Reads(e: A.Trees, s: Shield, t: Shield, k: A.Key) {
    && (t.anchors == s.anchors || t.anchors == A.Fetch(e, s.anchors, k))
    && forall p :: t.best(p) == s.best(p) || t.best(p) == B.Fetch(s.best(p))
  }

  lemma {:induction false} ReadsAlike(e: A.Trees, s: Shield, t: Shield, k: A.Key)
    requires Valid(e, s) && Reads(e, s, t, k)
    ensures Valid(e, t) && DeepAlike(e, s, t)
    decreases s.anchors
  {
    A.FetchKeeps(e, s.anchors, k);
    forall p ensures B.Best(t.best(p)) == B.Best(s.best(p)) && t.best(p).Cached? == s.best(p).Cached? { B.FetchKeeps(s.best(p)); }
    if s.anchors.Cached? {
      assert A.Valid(e, s.anchors.base) && Level(Below(s));
      ReadsAlike(e, Below(s), Below(t), k);
    }
  }

  // ----- one step

  /** A change at the top: the levels below show what they showed. */
  lemma TopChange(e: A.Trees, s: Shield, t: Shield, hs: seq<History>, h: History)
    requires Level(s) && Level(t) && s.anchors.Cached? && t.anchors.Cached? && Shows(e, s, hs)
    requires DeepAlike(e, Below(s), Below(t)) && ShowsTop(e, t, h)
    ensures Shows(e, t, hs[|hs| - 1 := h])
  {
    assert hs[|hs| - 1 := h][..|hs| - 1] == hs[..|hs| - 1];
    DeepAlikeShows(e, Below(s), Below(t), hs[..|hs| - 1]);
  }

  lemma PushShows(e: A.Trees, s: Shield, op: Op, h: History)
    requires op.Push? && Valid(e, s) && ShowsTop(e, s, h) && Enabled(e, s, h, op)
    ensures ShowsTop(e, Next(e, s, op), NextTop(h, op))
  {
    var pool, root, t, g := op.pool, op.root, Next(e, s, op), NextTop(h, op);
    assert ShowsPool(e, s.anchors, s.best(pool), pool, h(pool));
    B.FetchKeeps(s.best(pool));
    A.PushRefines(e, s.anchors, A.Key(pool, root), op.tree);
    forall p ensures ShowsPool(e, t.anchors, t.best(p), p, g(p)) {
      assert ShowsPool(e, s.anchors, s.best(p), p, h(p));
    }
  }

  lemma PopShows(e: A.Trees, s: Shield, op: Op, h: History)
    requires op.Pop? && Valid(e, s) && ShowsTop(e, s, h) && Enabled(e, s, h, op)
    ensures A.Has(e, s.anchors, A.Key(op.pool, B.Best(s.best(op.pool))))
    ensures ShowsTop(e, Next(e, s, op), NextTop(h, op))
  {
    var pool, root, t, g := op.pool, op.root, Next(e, s, op), NextTop(h, op);
    var current := B.Best(s.best(pool));
    assert ShowsPool(e, s.anchors, s.best(pool), pool, h(pool));
    B.FetchKeeps(s.best(pool));
    A.PopRefines(e, s.anchors, A.Key(pool, current));
    forall p ensures ShowsPool(e, t.anchors, t.best(p), p, g(p)) {
      assert ShowsPool(e, s.anchors, s.best(p), p, h(p));
    }
  }

  lemma PushStep(e: A.Trees, s: Shield, op: Op, hs: seq<History>)
    requires (op.Push? || op.Pop?) && Valid(e, s) && Shows(e, s, hs) && Enabled(e, s, hs[|hs| - 1], op)
    ensures Valid(e, Next(e, s, op)) && Shows(e, Next(e, s, op), NextHistories(hs, op))
  {
    var h, t := hs[|hs| - 1], Next(e, s, op);
    if op.Push? { PushShows(e, s, op, h); } else { PopShows(e, s, op, h); }
    ChangedBelow(e, s, op, h);
    TopChange(e, s, t, hs, NextTop(h, op));
  }

  /** Pushing and popping only read below the top. */
  lemma ChangedBelow(e: A.Trees, s: Shield, op: Op, h: History)
    requires (op.Push? || op.Pop?) && Valid(e, s) && ShowsTop(e, s, h) && Enabled(e, s, h, op)
    ensures var t := Next(e, s, op); Valid(e, t) && t.anchors.Cached? && DeepAlike(e, Below(s), Below(t))
  {
    var t, current := Next(e, s, op), B.Best(s.best(op.pool));
    var k := A.Key(op.pool, current);
    assert ShowsPool(e, s.anchors, s.best(op.pool), op.pool, h(op.pool));
    B.FetchKeeps(s.best(op.pool));
    if op.Push? { A.PushRefines(e, s.anchors, A.Key(op.pool, op.root), op.tree); } else { A.PopRefines(e, s.anchors, k); }
    assert Valid(e, Below(s));
    forall p ensures Below(t).best(p) == Below(s).best(p) || Below(t).best(p) == B.Fetch(Below(s).best(p)) {
      assert t.best(p) == s.best(p) || p == op.pool;
    }
    ReadsAlike(e, Below(s), Below(t), k);
  }

  lemma FlushShows(e: A.Trees, s: Shield, h: History)
    requires Valid(e, s) && s.anchors.Cached? && ShowsTop(e, s, h) && forall p :: KeepsHash(s.best(p))
    ensures var t := Next(e, s, Flush); A.Valid(e, t.anchors) && ShowsTop(e, t, h) && ShowsTop(e, Below(t), h)
  {
    A.FlushRefines(e, s.anchors);
    var t := Next(e, s, Flush);
    forall p ensures ShowsPool(e, t.anchors, t.best(p), p, h(p)) && ShowsPool(e, Below(t).anchors, Below(t).best(p), p, h(p)) {
      assert ShowsPool(e, s.anchors, s.best(p), p, h(p));
      B.FlushRefines(s.best(p));
      forall root ensures !A.Forgets(e, s.anchors, A.Key(p, root)) {
        if root == e.emptyRoot(p) { assert h(p)[0] in h(p); }
      }
    }
  }

  /** Below the level that is flushed into, nothing changes. */
  lemma FlushBelow(e: A.Trees, s: Shield, t: Shield)
    requires Valid(e, s) && s.anchors.Cached? && t == Next(e, s, Flush)
    ensures Level(t) && t.anchors.Cached? && t.anchors.base.Cached? == s.anchors.base.Cached?
    ensures Level(Below(s)) && Level(Below(t))
    ensures s.anchors.base.Cached? ==>
      Level(Below(Below(s))) && Level(Below(Below(t))) && DeepAlike(e, Below(Below(s)), Below(Below(t)))
  {
    assert Level(Below(s)) && A.Valid(e, s.anchors.base);
    forall p ensures s.best(p).Cached? && t.best(p) == B.Flush(s.best(p)) && Below(s).best(p) == s.best(p).base {}
    if s.anchors.base.Cached? {
      assert Level(Below(Below(s))) && A.Valid(e, s.anchors.base.base);
      forall p ensures Below(s).best(p).Cached? && Below(Below(t)).best(p) == Below(Below(s)).best(p) {
        assert Below(s).best(p) == s.best(p).base && Below(s).best(p).Cached?;
        assert t.best(p) == B.Flush(s.best(p)) && Below(t).best(p) == t.best(p).base;
      }
      ReadsAlike(e, Below(Below(s)), Below(Below(t)), A.Key(A.Sprout, 0));
    }
  }

  lemma FlushStep(e: A.Trees, s: Shield, hs: seq<History>)
    requires Valid(e, s) && Shows(e, s, hs) && Enabled(e, s, hs[|hs| - 1], Flush)
    ensures |hs| >= 2 && Valid(e, Next(e, s, Flush)) && Shows(e, Next(e, s, Flush), NextHistories(hs, Flush))
  {
    var t, h := Next(e, s, Flush), hs[|hs| - 1];
    FlushShows(e, s, h);
    FlushBelow(e, s, t);
    hide ShowsTop, A.Valid, DeepAlike, KeepsHash;
    assert Shows(e, Below(s), hs[..|hs| - 1]);
    var gs := hs[|hs| - 2 := h];
    assert gs[..|gs| - 1][|gs| - 2] == h;
    if s.anchors.base.Cached? {
      assert gs[..|gs| - 1][..|gs| - 2] == hs[..|hs| - 1][..|hs| - 2];
      DeepAlikeShows(e, Below(Below(s)), Below(Below(t)), hs[..|hs| - 1][..|hs| - 2]);
    }
    assert Shows(e, Below(t), gs[..|gs| - 1]);
  }

  lemma OpenStep(e: A.Trees, s: Shield, hs: seq<History>)
    requires Valid(e, s) && Shows(e, s, hs)
    ensures Valid(e, Next(e, s, Open)) && Shows(e, Next(e, s, Open), hs + [hs[|hs| - 1]])
  {
    var t, h := Next(e, s, Open), hs[|hs| - 1];
    assert (hs + [h])[..|hs|] == hs;
    var k := A.Key(A.Sprout, 0);
    forall p ensures Below(t).best(p) == s.best(p) { assert t.best(p) == B.Cached(0, s.best(p)); }
    ReadsAlike(e, s, Below(t), k);
    DeepAlikeShows(e, s, Below(t), hs);
    AlikeShows(e, s, t, h);
  }

  lemma ReadStep(e: A.Trees, s: Shield, op: Op, hs: seq<History>)
    requires (op.ReadAnchor? || op.ReadBest?) && Valid(e, s) && Shows(e, s, hs)
    ensures Valid(e, Next(e, s, op)) && Shows(e, Next(e, s, op), NextHistories(hs, op))
  {
    var k := if op.ReadAnchor? then op.key else A.Key(A.Sprout, 0);
    ReadsAlike(e, s, Next(e, s, op), k);
    DeepAlikeShows(e, s, Next(e, s, op), hs);
    assert hs[|hs| - 1 := hs[|hs| - 1]] == hs;
  }

  /** Each operation keeps what every level shows in step with its history. */
  lemma StepShows(e: A.Trees, s: Shield, op: Op, hs: seq<History>)
    requires Valid(e, s) && Shows(e, s, hs) && Enabled(e, s, hs[|hs| - 1], op)
    ensures s.anchors.Cached? ==> |hs| >= 2
    ensures Valid(e, Next(e, s, op)) && Shows(e, Next(e, s, op), NextHistories(hs, op))
  {
    hide ShowsTop, A.Valid;
    match op
    case Open => OpenStep(e, s, hs);
    case Discard => BelowValid(e, s);
    case Flush => FlushStep(e, s, hs);
    case ReadAnchor(_) => ReadStep(e, s, op, hs);
    case ReadBest(_) => ReadStep(e, s, op, hs);
    case Push(_, _, _) => PushStep(e, s, op, hs);
    case Pop(_, _) => PushStep(e, s, op, hs);
  }

  lemma BelowValid(e: A.Trees, s: Shield)
    requires Valid(e, s) && s.anchors.Cached?
    ensures Valid(e, Below(s))
  {
  }

  // ----- whole runs

  ghost predicate IsRun(e: A.Trees, run: seq<Shield>, hs: seq<seq<History>>, ops: seq<Op>) {
    && |run| == |hs| == |ops| + 1 && Valid(e, run[0]) && Shows(e, run[0], hs[0])
    && forall i | 0 <= i < |ops| ::
         && hs[i] != [] && Level(run[i]) && Enabled(e, run[i], hs[i][|hs[i]| - 1], ops[i])
         && run[i + 1] == Next(e, run[i], ops[i])
         && ((ops[i].Flush? || ops[i].Discard?) ==> |hs[i]| >= 2) && hs[i + 1] == NextHistories(hs[i], ops[i])
  }

  lemma {:induction false} RunShows(e: A.Trees, run: seq<Shield>, hs: seq<seq<History>>, ops: seq<Op>, i: nat)
    requires IsRun(e, run, hs, ops) && i < |run|
    ensures Valid(e, run[i]) && Shows(e, run[i], hs[i])
  {
    hide Valid, Shows, Next, NextHistories;
    if i > 0 {
      RunShows(e, run, hs, ops, i - 1);
      StepShows(e, run[i - 1], ops[i - 1], hs[i - 1]);
      assert run[i] == Next(e, run[i - 1], ops[i - 1]) && hs[i] == NextHistories(hs[i - 1], ops[i - 1]);
    }
  }

  /** After any run of opening, reading, pushing, popping and flushing, the best anchor of each pool
      can be seen, it is the last root of the pool's history, and nothing but the history is seen. */
  lemma BestAnchorVisible(e: A.Trees, run: seq<Shield>, hs: seq<seq<History>>, ops: seq<Op>, i: nat, pool: A.Pool)
    requires IsRun(e, run, hs, ops) && i < |run|
    ensures hs[i] != [] && hs[i][|hs[i]| - 1](pool) != []
    ensures var h, best := hs[i][|hs[i]| - 1](pool), B.Best(run[i].best(pool));
      && best == Last(h) && best != 0 && A.Has(e, run[i].anchors, A.Key(pool, best))
      && forall root :: A.Has(e, run[i].anchors, A.Key(pool, root)) <==> root in h
  {
    RunShows(e, run, hs, ops, i);
    hide A.Has, B.Best;
    assert ShowsPool(e, run[i].anchors, run[i].best(pool), pool, hs[i][|hs[i]| - 1](pool));
  }

  /** The histories of a run start from a database without anchors, for instance. */
  lemma StartShows(e: A.Trees)
    requires forall p :: e.emptyRoot(p) != 0
    ensures var s := Shield(A.Database(map[]), p => B.Database(e.emptyRoot(p)));
      Valid(e, s) && Shows(e, s, [p => [e.emptyRoot(p)]])
  {
  }

  /** Why a pushed root must be new or the best one: when an older root is pushed again, undoing
      both pushes takes the best anchor out of view. */
  lemma OldRootHides(e: A.Trees, pool: A.Pool, x: A.Hash)
    requires e.emptyRoot(pool) != 0 && x != 0 && x != e.emptyRoot(pool)
    ensures var empty := e.emptyRoot(pool); var tree := root => e.treeOf(A.Key(pool, root));
      var s0 := Shield(A.Cached(map[], A.Database(map[])), p => B.Cached(0, B.Database(e.emptyRoot(p))));
      var s1 := PushAnchor(s0, pool, x, tree(x));
      s1.anchors.Cached? &&
      var s2 := PushAnchor(s1, pool, empty, tree(empty));
      s2.anchors.Cached? &&
      var s3 := PopAnchor(e, s2, pool, x);
      s3.anchors.Cached? &&
      var s4 := PopAnchor(e, s3, pool, empty);
      B.Best(s4.best(pool)) == empty && !A.Has(e, s4.anchors, A.Key(pool, empty))
  {
  }
}
