/** The block index: ancestors found over skip links, the active chain, its forks and its
    locators. */
module BlockChain {
  import opened Powers
  import opened BlockSkips

  // ----- the block tree

  /** A block of height zero has no predecessor, and every other block's predecessor is one
      lower. */
  ghost predicate Tree(tree: set<BlockIndex>) {
    forall b | b in tree ::
      && b.nHeight >= 0 && (b.pprev == null <==> b.nHeight == 0)
      && (b.pprev != null ==> b.pprev in tree && b.pprev.nHeight == b.nHeight - 1)
  }

  /** Walking back one block at a time. */
  ghost function Ancestor(tree: set<BlockIndex>, b: BlockIndex, height: int): (a: BlockIndex)
    requires Tree(tree) && b in tree && 0 <= height <= b.nHeight
    ensures a in tree && a.nHeight == height
    decreases b.nHeight
  {
    if b.nHeight == height then b else Ancestor(tree, b.pprev, height)
  }

  ghost predicate SkipRight(tree: set<BlockIndex>, b: BlockIndex, skip: BlockIndex)
    requires Tree(tree) && b in tree
  {
    b.nHeight > 0 && 0 <= SkipHeight(b.nHeight) < b.nHeight && skip == Ancestor(tree, b, SkipHeight(b.nHeight))
  }

  /** Every skip link that is set goes where BuildSkip lets it go. */
  ghost predicate Skips(tree: set<BlockIndex>)
    requires Tree(tree)
    reads tree
  {
    forall b | b in tree && b.pskip != null :: SkipRight(tree, b, b.pskip)
  }

  /** Every block but the first one has its skip link. */
  ghost predicate Linked(tree: set<BlockIndex>)
    reads tree
  {
    forall b | b in tree && b.nHeight > 0 :: b.pskip != null
  }

  lemma {:induction false} AncestorOfAncestor(tree: set<BlockIndex>, b: BlockIndex, middle: int, height: int)
    requires Tree(tree) && b in tree && 0 <= height <= middle <= b.nHeight
    ensures Ancestor(tree, Ancestor(tree, b, middle), height) == Ancestor(tree, b, height)
    decreases b.nHeight
  {
    if b.nHeight > middle { AncestorOfAncestor(tree, b.pprev, middle, height); }
  }

  /** Ancestors stay what they are when blocks are added. */
  lemma {:induction false} AncestorGrows(tree: set<BlockIndex>, more: set<BlockIndex>, b: BlockIndex, height: int)
    requires Tree(tree) && Tree(more) && tree <= more && b in tree && 0 <= height <= b.nHeight
    ensures Ancestor(more, b, height) == Ancestor(tree, b, height)
    decreases b.nHeight
  {
    if b.nHeight > height { AncestorGrows(tree, more, b.pprev, height); }
  }

  /** Where the links of a block lead on the way to an ancestor. */
  lemma Links(tree: set<BlockIndex>, b: BlockIndex, height: int)
    requires Tree(tree) && Skips(tree) && b in tree && 0 <= height < b.nHeight
    ensures b.pprev != null && b.pprev in tree && b.pprev.nHeight == b.nHeight - 1
    ensures Ancestor(tree, b.pprev, height) == Ancestor(tree, b, height)
    ensures b.pskip != null && height <= SkipHeight(b.nHeight) ==>
      && b.pskip in tree && b.pskip.nHeight == SkipHeight(b.nHeight) < b.nHeight
      && Ancestor(tree, b.pskip, height) == Ancestor(tree, b, height)
    ensures Linked(tree) ==> b.pskip != null
  {
    hide SkipHeight;
    if b.pskip != null && height <= SkipHeight(b.nHeight) {
      assert SkipRight(tree, b, b.pskip);
      AncestorOfAncestor(tree, b, SkipHeight(b.nHeight), height);
    }
  }

  class BlockIndex {
    const pprev: BlockIndex?
    const nHeight: int
    var pskip: BlockIndex?

    /** A block that is not linked yet: its predecessor is known, its skip link is not. */
    constructor (pprev: BlockIndex?)
      ensures this.pprev == pprev && nHeight == (if pprev == null then 0 else pprev.nHeight + 1) && pskip == null
    {
      this.pprev := pprev;
      this.nHeight := if pprev == null then 0 else pprev.nHeight + 1;
      this.pskip := null;
    }

    /** The ancestor at a height, over the skip links: the block that walking back one block at
        a time arrives at, or null if the height is out of range. With all skip links set, the number
        of steps is in the order of the square of the height's number of bits. */
    method GetAncestor(height: int, ghost tree: set<BlockIndex>) returns (r: BlockIndex?, ghost steps: nat)
      requires Tree(tree) && Skips(tree) && this in tree
      ensures r == if height > nHeight || height < 0 then null else Ancestor(tree, this, height)
      ensures 0 <= height <= nHeight ==> steps <= nHeight - height && (Linked(tree) ==> steps == Turns(nHeight, height))
      ensures 0 <= height <= nHeight && Linked(tree) ==> Few(nHeight, steps)
    {
      hide SkipHeight, Turns, Few, Tree, Skips, Linked, Ancestor;
      steps := 0;
      if height > nHeight || height < 0 {
        return null, steps;
      }
      var walk: BlockIndex := this;
      var heightWalk := nHeight;
      while heightWalk > height
        invariant walk in tree && walk.nHeight == heightWalk >= height
        invariant Ancestor(tree, walk, height) == Ancestor(tree, this, height)
        invariant steps <= nHeight - heightWalk
        invariant Linked(tree) ==> steps + Turns(heightWalk, height) == Turns(nHeight, height)
      {
        TurnsNext(heightWalk, height);
        var heightSkip := SkipHeight(heightWalk);
        var heightSkipPrev := SkipHeight(heightWalk - 1);
        Links(tree, walk, height);
        if walk.pskip != null &&
           (heightSkip == height ||
            (heightSkip > height && !(heightSkipPrev < heightSkip - 2 && heightSkipPrev >= height))) {
          walk := walk.pskip;
          heightWalk := heightSkip;
        } else {
          walk := walk.pprev;
          heightWalk := heightWalk - 1;
        }
        steps := steps + 1;
      }
      TurnsNone(height);
      TurnsFew(nHeight, height);
      AncestorTop(tree, walk);
      return walk, steps;
    }

    /** Set the skip link, which keeps all skip links right. */
    method BuildSkip(ghost tree: set<BlockIndex>)
      requires Tree(tree) && Skips(tree) && this in tree
      modifies this`pskip
      ensures Skips(tree)
      ensures if pprev == null then pskip == old(pskip) else pskip != null && SkipRight(tree, this, pskip)
    {
      hide SkipHeight;
      if pprev != null {
        SkipHeightBelow(nHeight);
        ghost var steps;
        pskip, steps := pprev.GetAncestor(SkipHeight(nHeight), tree);
      }
    }
  }

  /** Add a block to the block index: the tree grows by it, with its skip link built. */
  method AddBlock(prev: BlockIndex?, ghost tree: set<BlockIndex>) returns (b: BlockIndex)
    requires Tree(tree) && Skips(tree) && (prev != null ==> prev in tree)
    ensures fresh(b) && b.pprev == prev && Tree(tree + {b}) && Skips(tree + {b})
    ensures prev != null ==> b.pskip != null && SkipRight(tree + {b}, b, b.pskip)
    ensures old(Linked(tree)) ==> Linked(tree + {b})
  {
    hide SkipHeight;
    b := new BlockIndex(prev);
    ghost var more := tree + {b};
    forall x | x in tree && x.pskip != null ensures SkipRight(more, x, x.pskip) {
      AncestorGrows(tree, more, x, SkipHeight(x.nHeight));
    }
    if prev != null {
      b.BuildSkip(more);
    }
  }

  // ----- the active chain

  /** The blocks from the first one to a tip. */
  ghost predicate Chained(tree: set<BlockIndex>, v: seq<BlockIndex?>)
    requires Tree(tree)
  {
    && (forall i | 0 <= i < |v| :: v[i] != null && v[i] in tree && v[i].nHeight == i)
    && (forall i | 0 < i < |v| :: v[i].pprev == v[i - 1])
  }

  /** A chain holds exactly the ancestors of its blocks. */
  lemma {:induction false} ChainAncestor(tree: set<BlockIndex>, v: seq<BlockIndex?>, k: nat, i: nat)
    requires Tree(tree) && Chained(tree, v) && i <= k < |v|
    ensures v[k] != null && v[k] in tree && v[k].nHeight == k && v[i] == Ancestor(tree, v[k], i)
    decreases k
  {
    if i < k { ChainAncestor(tree, v, k - 1, i); }
  }

  /** The heights of a locator: eleven single steps back, then steps that double. */
  function LocatorHeights(height: nat, step: nat, count: nat): (r: seq<nat>)
    requires step > 0
    ensures |r| > 0 && r[0] == height
    decreases height
  {
    if height == 0 then [0]
    else [height] + LocatorHeights(if height < step then 0 else height - step, if count + 1 > 10 then 2 * step else step, count + 1)
  }

  /** The heights fall strictly, down to the first block. */
  lemma {:induction false} LocatorFalls(height: nat, step: nat, count: nat)
    requires step > 0
    ensures var r := LocatorHeights(height, step, count);
      r[|r| - 1] == 0 && forall i, j | 0 <= i < j < |r| :: r[i] > r[j]
    decreases height
  {
    var r := LocatorHeights(height, step, count);
    if height > 0 {
      var next := if height < step then 0 else height - step;
      var step' := if count + 1 > 10 then 2 * step else step;
      LocatorFalls(next, step', count + 1);
      var rest := LocatorHeights(next, step', count + 1);
      assert r == [height] + rest;
      forall i, j | 0 <= i < j < |r| ensures r[i] > r[j] {
        if i == 0 && j > 1 { assert rest[0] > rest[j - 1]; }
        if i > 0 { assert rest[i - 1] > rest[j - 1]; }
      }
    }
  }

  /** How far back the i-th block of a locator is: eleven single steps, then steps that double. */
  function Back(i: nat): nat { if i <= 11 then i else 9 + Pow(2, i - 10) }

  /** The step from the i-th block to the next. */
  function StepAt(i: nat): nat { if i <= 10 then 1 else Pow(2, i - 10) }

  lemma BackNext(i: nat)
    ensures Back(i + 1) == Back(i) + StepAt(i) && StepAt(i) > 0
    ensures StepAt(i + 1) == if i + 1 > 10 then 2 * StepAt(i) else StepAt(i)
  {
    if i == 10 { assert Pow(2, 1) == 2 * Pow(2, 0) && Pow(2, 0) == 1; }
    if i == 11 { assert Pow(2, 2) == 2 * Pow(2, 1) && Pow(2, 1) == 2 * Pow(2, 0); }
  }

  lemma {:induction false} LocatorAt(height: nat, i: nat, j: nat)
    requires j < |LocatorHeights(height, StepAt(i), i)|
    ensures var d := Back(i + j) - Back(i);
      LocatorHeights(height, StepAt(i), i)[j] == if d <= height then height - d else 0
    decreases height
  {
    hide Back, StepAt;
    BackNext(i);
    if height > 0 && j > 0 {
      var step := StepAt(i);
      LocatorAt(if height < step then 0 else height - step, i + 1, j - 1);
      BackGrows(i + 1, i + j);
    }
  }

  lemma {:induction false} BackGrows(i: nat, j: nat)
    requires i <= j
    ensures Back(i) <= Back(j)
  {
    hide Back, StepAt;
    if i < j {
      BackNext(j - 1);
      BackGrows(i, j - 1);
    }
  }

  /** The heights of a locator, in closed form. */
  lemma LocatorExact(height: nat, i: nat)
    requires i < |LocatorHeights(height, 1, 0)|
    ensures LocatorHeights(height, 1, 0)[i] == if Back(i) <= height then height - Back(i) else 0
  {
    LocatorAt(height, 0, i);
  }

  /** Once the steps double, the number of blocks is logarithmic. */
  lemma {:induction false} LocatorDoubling(height: nat, step: nat, count: nat)
    requires step > 0 && count >= 10
    ensures |LocatorHeights(height, step, count)| >= 2 ==>
      step * Pow(2, |LocatorHeights(height, step, count)| - 2) <= height + step
    decreases height
  {
    if height > 0 {
      var next := if height < step then 0 else height - step;
      var n := |LocatorHeights(next, 2 * step, count + 1)|;
      LocatorDoubling(next, 2 * step, count + 1);
      if n >= 2 {
        assert Pow(2, n - 1) == 2 * Pow(2, n - 2);
        assert step * (2 * Pow(2, n - 2)) == 2 * step * Pow(2, n - 2);
      } else {
        assert Pow(2, 0) == 1;
      }
    }
  }

  lemma {:induction false} LocatorStart(height: nat, count: nat)
    requires count <= 10
    ensures var n := |LocatorHeights(height, 1, count)|;
      n >= 12 - count ==> Pow(2, n - (12 - count)) <= height + 1
    decreases height
  {
    var n := |LocatorHeights(height, 1, count)|;
    if count == 10 {
      LocatorDoubling(height, 1, 10);
    } else if height > 0 {
      LocatorStart(height - 1, count + 1);
    } else {
      assert n == 1;
    }
  }

  /** A locator has at most twelve blocks more than the logarithm of the height plus one. */
  lemma LocatorShort(height: nat)
    ensures var n := |LocatorHeights(height, 1, 0)|; n > 12 ==> Pow(2, n - 12) <= height + 1
  {
    LocatorStart(height, 0);
  }

  class Chain {
    var vChain: seq<BlockIndex?>

    constructor ()
      ensures vChain == []
    {
      vChain := [];
    }

    function At(nHeight: int): BlockIndex?
      reads this
    {
      if nHeight < 0 || nHeight >= |vChain| then null else vChain[nHeight]
    }

    function Tip(): BlockIndex?
      reads this
    {
      if |vChain| > 0 then vChain[|vChain| - 1] else null
    }

    predicate Contains(b: BlockIndex)
      reads this
    {
      At(b.nHeight) == b
    }

    function Height(): int
      reads this
    {
      |vChain| - 1
    }

    /** Make the chain the one that ends in a block. */
    method SetTip(pindex: BlockIndex?, ghost tree: set<BlockIndex>)
      requires Tree(tree) && Chained(tree, vChain) && (pindex != null ==> pindex in tree)
      modifies this
      ensures Chained(tree, vChain) && (pindex == null ==> vChain == [])
      ensures pindex != null ==> IsPath(tree, pindex, vChain)
    {
      hide Chained, Ancestor, IsPath, Tree;
      if pindex == null {
        vChain := [];
        NoChain(tree);
        return;
      }
      AncestorTop(tree, pindex);
      var size := pindex.nHeight + 1;
      ghost var before := vChain;
      vChain := if size <= |vChain| then vChain[..size] else vChain + seq(size - |vChain|, _ => null);
      var walk: BlockIndex? := pindex;
      ghost var k := size;
      while walk != null && vChain[walk.nHeight] != walk
        invariant |vChain| == size && 0 <= k <= size && (walk == null <==> k == 0)
        invariant walk != null ==> walk in tree && walk.nHeight == k - 1 && walk == Ancestor(tree, pindex, k - 1)
        invariant forall i | k <= i < size :: vChain[i] == Ancestor(tree, pindex, i)
        invariant forall i | 0 <= i < k :: vChain[i] == if i < |before| then before[i] else null
        decreases k
      {
        vChain := vChain[walk.nHeight := walk];
        AncestorStep(tree, pindex, k - 1);
        walk := walk.pprev;
        k := k - 1;
      }
      if k > 0 { ChainBelow(tree, before, pindex, k - 1); }
      PathChained(tree, pindex, vChain);
    }

    /** Walk back from an ancestor of a branch to a block of the chain. */
    method WalkBack(start: BlockIndex?, ghost pindex: BlockIndex, ghost tree: set<BlockIndex>) returns (r: BlockIndex?)
      requires Tree(tree) && pindex in tree && (start != null ==> IsAncestor(tree, pindex, start))
      ensures r != null ==> start != null && Contains(r) && IsAncestor(tree, pindex, r) && r.nHeight <= start.nHeight
      ensures start != null ==>
        forall h | 0 <= h <= start.nHeight && (r != null ==> h > r.nHeight) :: !Contains(Ancestor(tree, pindex, h))
    {
      hide Ancestor, Tree;
      r := start;
      ghost var top := if start == null then -1 else start.nHeight;
      ghost var k := top;
      while r != null && !Contains(r)
        invariant -1 <= k <= top && (r == null <==> k == -1)
        invariant r != null ==> r.nHeight == k && IsAncestor(tree, pindex, r)
        invariant forall h | k < h <= top :: !Contains(Ancestor(tree, pindex, h))
        decreases k
      {
        AncestorStep(tree, pindex, k);
        r := r.pprev;
        k := k - 1;
      }
    }

    /** The last common block of the chain and a branch. */
    method FindFork(pindex: BlockIndex?, ghost tree: set<BlockIndex>) returns (r: BlockIndex?)
      requires Tree(tree) && Skips(tree) && Chained(tree, vChain) && (pindex != null ==> pindex in tree)
      ensures pindex == null ==> r == null
      ensures pindex != null && r != null ==> Contains(r) && IsAncestor(tree, pindex, r)
      ensures pindex != null ==>
        forall h | 0 <= h <= pindex.nHeight && (r != null ==> h > r.nHeight) :: !Contains(Ancestor(tree, pindex, h))
    {
      hide Chained, Ancestor, Tree, Skips;
      if pindex == null {
        return null;
      }
      r := pindex;
      AncestorTop(tree, pindex);
      if pindex.nHeight > Height() {
        ghost var steps;
        r, steps := pindex.GetAncestor(Height(), tree);
      }
      AboveChain(tree, pindex);
      r := WalkBack(r, pindex, tree);
    }

    /** No ancestor above the chain's height is on the chain. */
    lemma AboveChain(tree: set<BlockIndex>, b: BlockIndex)
      requires Tree(tree) && b in tree
      ensures forall h | Height() < h <= b.nHeight && 0 <= h :: !Contains(Ancestor(tree, b, h))
    {
    }

    /** One step of a locator: the block at a lower height, over the chain or the skip links. */
    method StepBack(walk: BlockIndex, nHeight: nat, ghost tree: set<BlockIndex>) returns (r: BlockIndex)
      requires Tree(tree) && Skips(tree) && Chained(tree, vChain) && walk in tree && nHeight <= walk.nHeight
      ensures r == Ancestor(tree, walk, nHeight)
    {
      if Contains(walk) {
        ChainAncestor(tree, vChain, walk.nHeight, nHeight);
        r := At(nHeight);
      } else {
        ghost var steps;
        r, steps := walk.GetAncestor(nHeight, tree);
      }
    }

    /** The blocks a locator names: ancestors of the start, on the chain or not, at heights that
        fall strictly down to the first block. */
    method GetLocator(pindex: BlockIndex?, ghost tree: set<BlockIndex>) returns (vHave: seq<BlockIndex>)
      requires Tree(tree) && Skips(tree) && Chained(tree, vChain) && (pindex != null ==> pindex in tree)
      ensures var start := if pindex == null then Tip() else pindex;
        if start == null then vHave == [] else start in tree && Locates(tree, start, vHave, LocatorHeights(start.nHeight, 1, 0))
    {
      hide Ancestor, Chained, LocatorHeights, Tree, Skips;
      var start := pindex;
      vHave := [];
      if start == null {
        start := Tip();
        if start == null {
          return;
        }
        TipInTree(tree, vChain);
      }
      var walk: BlockIndex := start;
      AncestorTop(tree, start);
      ghost var heights := LocatorHeights(start.nHeight, 1, 0);
      var nStep := 1;
      while true
        invariant nStep > 0 && IsAncestor(tree, start, walk) && |vHave| < |heights|
        invariant heights == heights[..|vHave|] + LocatorHeights(walk.nHeight, nStep, |vHave|)
        invariant Locates(tree, start, vHave, heights[..|vHave|])
        decreases walk.nHeight
      {
        ghost var n, at := |vHave|, walk.nHeight;
        LocatorHead(heights, n, at, nStep);
        vHave := vHave + [walk];
        if walk.nHeight == 0 {
          break;
        }
        var nHeight := if walk.nHeight - nStep > 0 then walk.nHeight - nStep else 0;
        AncestorOfAncestor(tree, start, walk.nHeight, nHeight);
        walk := StepBack(walk, nHeight, tree);
        ghost var step := nStep;
        if |vHave| > 10 {
          nStep := 2 * nStep;
        }
        LocatorTurn(heights, n, at, step, nStep, nHeight);
      }
    }
  }

  /** The ancestors of a block, by height, up to itself. */
  ghost predicate IsPath(tree: set<BlockIndex>, b: BlockIndex, v: seq<BlockIndex?>)
    requires Tree(tree) && b in tree
  {
    |v| == b.nHeight + 1 && forall i | 0 <= i < |v| :: v[i] == Ancestor(tree, b, i)
  }

  ghost predicate IsAncestor(tree: set<BlockIndex>, b: BlockIndex, a: BlockIndex)
    requires Tree(tree) && b in tree
  {
    0 <= a.nHeight <= b.nHeight && a == Ancestor(tree, b, a.nHeight)
  }

  /** The ancestors of a block at some heights. */
  ghost predicate Locates(tree: set<BlockIndex>, b: BlockIndex, v: seq<BlockIndex>, heights: seq<nat>)
    requires Tree(tree) && b in tree
  {
    |v| == |heights| && forall i | 0 <= i < |v| :: heights[i] <= b.nHeight && v[i] == Ancestor(tree, b, heights[i])
  }

  lemma AncestorTop(tree: set<BlockIndex>, b: BlockIndex)
    requires Tree(tree) && b in tree
    ensures b.nHeight >= 0 && Ancestor(tree, b, b.nHeight) == b
  {
  }

  lemma NoChain(tree: set<BlockIndex>)
    requires Tree(tree)
    ensures Chained(tree, [])
  {
  }

  lemma TipInTree(tree: set<BlockIndex>, v: seq<BlockIndex?>)
    requires Tree(tree) && Chained(tree, v) && v != []
    ensures v[|v| - 1] != null && v[|v| - 1] in tree
  {
  }

  /** Below a block that is both on a chain and an ancestor, the chain holds the ancestors. */
  lemma ChainBelow(tree: set<BlockIndex>, v: seq<BlockIndex?>, b: BlockIndex, k: nat)
    requires Tree(tree) && Chained(tree, v) && b in tree && k <= b.nHeight && k < |v| && v[k] == Ancestor(tree, b, k)
    ensures forall i | 0 <= i <= k :: v[i] == Ancestor(tree, b, i)
  {
    forall i | 0 <= i <= k ensures v[i] == Ancestor(tree, b, i) {
      ChainAncestor(tree, v, k, i);
      AncestorOfAncestor(tree, b, k, i);
    }
  }

  lemma PathChained(tree: set<BlockIndex>, b: BlockIndex, v: seq<BlockIndex?>)
    requires Tree(tree) && b in tree && |v| == b.nHeight + 1
    requires forall i | 0 <= i < |v| :: v[i] == Ancestor(tree, b, i)
    ensures Chained(tree, v) && IsPath(tree, b, v)
  {
    hide Ancestor;
    forall i | 0 < i < |v| ensures v[i] != null && v[i].pprev == v[i - 1] { AncestorStep(tree, b, i); }
  }

  lemma LocatorHead(heights: seq<nat>, n: nat, height: nat, step: nat)
    requires n < |heights| && step > 0 && heights == heights[..n] + LocatorHeights(height, step, n)
    ensures heights[n] == height && heights[..n + 1] == heights[..n] + [height]
    ensures height == 0 ==> heights == heights[..n + 1]
  {
    var rest := LocatorHeights(height, step, n);
    assert heights[n] == rest[0];
    if height == 0 { assert |heights| == n + 1; }
  }

  lemma LocatorTurn(heights: seq<nat>, n: nat, height: nat, step: nat, step': nat, next: nat)
    requires n < |heights| && height > 0 && step > 0 && step' == (if n + 1 > 10 then 2 * step else step)
    requires next == (if height < step then 0 else height - step)
    requires heights == heights[..n] + LocatorHeights(height, step, n)
    ensures heights == heights[..n + 1] + LocatorHeights(next, step', n + 1) && n + 1 < |heights|
  {
    var rest := LocatorHeights(next, step', n + 1);
    assert LocatorHeights(height, step, n) == [height] + rest;
    assert heights[n] == height;
    assert heights[..n + 1] == heights[..n] + [height];
  }

  lemma {:induction false} AncestorStep(tree: set<BlockIndex>, b: BlockIndex, h: nat)
    requires Tree(tree) && b in tree && h <= b.nHeight
    ensures h > 0 ==> Ancestor(tree, b, h).pprev == Ancestor(tree, b, h - 1)
    ensures h == 0 ==> Ancestor(tree, b, 0).pprev == null
    decreases b.nHeight
  {
    if h < b.nHeight { AncestorStep(tree, b.pprev, h); }
  }
}
