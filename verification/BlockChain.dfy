/**
The block index and the active chain (src/chain.cpp:13-110, src/chain.h:546-602): every block
knows its predecessor, and a pointer further back that skips over many of them.
*/
module BlockChain {
  import opened Arith
  import opened SkipList

  //
  // Blocks.
  //

  class CBlockIndex {
    const pprev: CBlockIndex?
    const nHeight: nat
    var pskip: CBlockIndex?

    /** A block on top of another one, or a genesis block. */
    constructor (prev: CBlockIndex?)
      ensures pprev == prev && pskip == null
      ensures nHeight == if prev == null then 0 else prev.nHeight + 1
    {
      pprev := prev;
      nHeight := if prev == null then 0 else prev.nHeight + 1;
      pskip := null;
    }

    /** Lines 75-99: by skips and single steps to the ancestor that single steps lead to; where all skips are built, in Steps many. */
    method GetAncestor(height: int, ghost blocks: set<CBlockIndex>) returns (r: CBlockIndex?, ghost steps: nat)
      requires this in blocks && Tree(blocks)
      ensures Linked(this)
      ensures r == if 0 <= height <= nHeight then Ancestor(this, height) else null
      ensures SkipsBuilt(blocks) && 0 <= height <= nHeight ==> steps == Steps(nHeight, height)
    {
      steps := 0;
      assert BlockOk(this, blocks);
      if height > nHeight || height < 0 {
        return null, 0;
      }
      var pindexWalk, heightWalk := this, nHeight;
      while heightWalk > height
        invariant height <= heightWalk <= nHeight && pindexWalk in blocks
        invariant pindexWalk == Ancestor(this, heightWalk)
        invariant SkipsBuilt(blocks) ==> steps + Steps(heightWalk, height) == Steps(nHeight, height)
      {
        hide SkipHeight;
        steps := steps + 1;
        assert BlockOk(pindexWalk, blocks);
        AncestorTrans(this, heightWalk, SkipHeight(heightWalk));
        AncestorTrans(this, heightWalk, heightWalk - 1);
        AncestorIn(pindexWalk, SkipHeight(heightWalk), blocks);
        var heightSkip := SkipHeight(heightWalk);
        var heightSkipPrev := SkipHeight(heightWalk - 1);
        if pindexWalk.pskip != null &&
           (heightSkip == height ||
            (heightSkip > height && !(heightSkipPrev < heightSkip - 2 && heightSkipPrev >= height)))
        {
          pindexWalk := pindexWalk.pskip;
          heightWalk := heightSkip;
        } else {
          assert pindexWalk.pprev != null;
          pindexWalk := pindexWalk.pprev;
          heightWalk := heightWalk - 1;
        }
      }
      return pindexWalk, steps;
    }

    /** Lines 106-110. */
    method BuildSkip(ghost blocks: set<CBlockIndex>)
      requires this in blocks && Tree(blocks)
      modifies this
      ensures Tree(blocks) && Linked(this)
      ensures pskip == if pprev == null then old(pskip) else Ancestor(this, SkipHeight(nHeight))
    {
      assert BlockOk(this, blocks);
      if pprev != null {
        assert BlockOk(pprev, blocks);
        ghost var steps;
        pskip, steps := pprev.GetAncestor(SkipHeight(nHeight), blocks);
      }
      forall b | b in blocks ensures BlockOk(b, blocks) {
        assert old(BlockOk(b, blocks));
      }
    }
  }

  /** Heights count the predecessors. */
  ghost predicate Linked(b: CBlockIndex)
    decreases b.nHeight
  {
    if b.pprev == null then b.nHeight == 0 else b.nHeight == b.pprev.nHeight + 1 && Linked(b.pprev)
  }

  /** The plain walk over predecessors. */
  ghost function Ancestor(b: CBlockIndex, height: nat): (r: CBlockIndex)
    requires Linked(b) && height <= b.nHeight
    ensures Linked(r) && r.nHeight == height
    decreases b.nHeight
  {
    if b.nHeight == height then b else Ancestor(b.pprev, height)
  }

  lemma {:induction false} AncestorTrans(b: CBlockIndex, i: nat, j: nat)
    requires Linked(b) && j <= i <= b.nHeight
    ensures Ancestor(Ancestor(b, i), j) == Ancestor(b, j)
    decreases b.nHeight
  {
    if b.nHeight > i {
      AncestorTrans(b.pprev, i, j);
    }
  }

  /** A block of an index: its predecessors are there, and its skip, once built, is an ancestor. */
  ghost predicate BlockOk(b: CBlockIndex, blocks: set<CBlockIndex>)
    reads b
  {
    && Linked(b)
    && (b.pprev != null ==> b.pprev in blocks)
    && (b.pskip != null ==> b.pprev != null && b.pskip == Ancestor(b, SkipHeight(b.nHeight)))
  }

  /** Every block but a genesis block has its skip pointer. */
  ghost predicate SkipsBuilt(blocks: set<CBlockIndex>)
    reads blocks
  {
    forall b :: b in blocks && b.pprev != null ==> b.pskip != null
  }

  ghost predicate Tree(blocks: set<CBlockIndex>)
    reads blocks
  {
    forall b {:trigger BlockOk(b, blocks)} :: b in blocks ==> BlockOk(b, blocks)
  }

  lemma {:induction false} AncestorIn(b: CBlockIndex, height: nat, blocks: set<CBlockIndex>)
    requires b in blocks && Tree(blocks) && Linked(b) && height <= b.nHeight
    ensures Ancestor(b, height) in blocks
    decreases b.nHeight
  {
    assert BlockOk(b, blocks);
    if b.nHeight > height {
      AncestorIn(b.pprev, height, blocks);
    }
  }

  /** A new block on top of an index leaves it an index. */
  lemma ExtendTree(blocks: set<CBlockIndex>, b: CBlockIndex)
    requires Tree(blocks) && Linked(b) && b.pskip == null && (b.pprev == null || b.pprev in blocks)
    ensures Tree(blocks + {b})
  {
    forall c | c in blocks + {b} ensures BlockOk(c, blocks + {b}) {
      if c in blocks {
        assert BlockOk(c, blocks);
      }
    }
  }

  /** A block index grows by blocks on top of known ones, each with its skip pointer built at once (src/main.cpp:3609-3643). */
  method AddToBlockIndex(prev: CBlockIndex?, ghost blocks: set<CBlockIndex>) returns (b: CBlockIndex, ghost more: set<CBlockIndex>)
    requires Tree(blocks) && SkipsBuilt(blocks) && (prev != null ==> prev in blocks)
    ensures fresh(b) && b.pprev == prev && more == blocks + {b}
    ensures Tree(more) && SkipsBuilt(more)
  {
    b := new CBlockIndex(prev);
    more := blocks + {b};
    if prev != null {
      assert BlockOk(prev, blocks);
    }
    ExtendTree(blocks, b);
    b.BuildSkip(more);
  }

  //
  // The chain.
  //

  /** The entries are the blocks from genesis to the last of them. */
  ghost predicate IsPath(v: seq<CBlockIndex?>) {
    forall i {:trigger PathAt(v, i)} :: 0 <= i < |v| ==> PathAt(v, i)
  }

  ghost predicate PathAt(v: seq<CBlockIndex?>, i: nat) {
    i < |v| && v[i] != null && Linked(v[i]) && v[i].nHeight == i && (i > 0 ==> v[i].pprev == v[i - 1])
  }

  /** On a path, entries are each other's ancestors. */
  lemma {:induction false} PathAncestor(v: seq<CBlockIndex?>, i: nat, j: nat)
    requires IsPath(v) && j <= i < |v|
    ensures PathAt(v, i) && v[j] == Ancestor(v[i], j)
    decreases i
  {
    assert PathAt(v, i);
    if j < i {
      PathAncestor(v, i - 1, j);
      assert PathAt(v, i - 1);
    }
  }

  /** A block on the path shares its ancestors with the tip, up to its height. */
  lemma {:induction false} PathFromAncestors(b: CBlockIndex, v: seq<CBlockIndex?>)
    requires Linked(b) && |v| == b.nHeight + 1
    requires forall j :: 0 <= j < |v| ==> v[j] == Ancestor(b, j)
    ensures IsPath(v) && v[|v| - 1] == b
  {
    forall i | 0 <= i < |v| ensures PathAt(v, i) {
      if i > 0 {
        AncestorTrans(b, i, i - 1);
      }
    }
  }

  function Max(a: int, b: int): int { if a >= b then a else b }

  /** The height of entry i of a locator: ten single steps, then steps that double. */
  function LocatorHeight(h: nat, i: nat): nat {
    Max(h - Back(i), 0)
  }

  function Back(i: nat): nat {
    if i <= 10 then i else 9 + Pow2(i - 10)
  }

  /** The step in force after entry i - 1: one up to the eleventh entry, then doubled for each. */
  function StepAt(i: nat): nat {
    if i <= 10 then 1 else Pow2(i - 10)
  }

  /** Entry i of the locator of a block. */
  ghost function LocatorBlock(start: CBlockIndex, i: nat): (r: CBlockIndex)
    requires Linked(start)
    ensures Linked(r) && r.nHeight == LocatorHeight(start.nHeight, i)
  {
    Ancestor(start, LocatorHeight(start.nHeight, i))
  }

  lemma NextLocator(start: CBlockIndex, i: nat)
    requires Linked(start)
    ensures StepAt(i + 1) == if i + 1 > 10 then StepAt(i) * 2 else StepAt(i)
    ensures var b := LocatorBlock(start, i);
            var h := Max(b.nHeight - StepAt(i), 0);
            0 <= h <= b.nHeight && Ancestor(b, h) == LocatorBlock(start, i + 1)
  {
    BackStep(i);
    assert Pow2(0) == 1;
    var b := LocatorBlock(start, i);
    AncestorTrans(start, b.nHeight, Max(b.nHeight - StepAt(i), 0));
  }

  lemma FirstLocator(start: CBlockIndex)
    requires Linked(start)
    ensures LocatorBlock(start, 0) == start && StepAt(0) == 1
  {
  }

  lemma StepPositive(i: nat)
    ensures StepAt(i) >= 1
  {
  }

  lemma BackStep(i: nat)
    ensures Back(i + 1) == Back(i) + if i < 10 then 1 else Pow2(i - 10)
  {
    if i == 10 {
      assert Pow2(1) == 2 * Pow2(0);
    }
  }

  class CChain {
    var vChain: seq<CBlockIndex?>

    ghost predicate Valid()
      reads this
    {
      IsPath(vChain)
    }

    constructor ()
      ensures Valid() && vChain == []
    {
      vChain := [];
    }

    function Tip(): CBlockIndex?
      reads this
    {
      if |vChain| > 0 then vChain[|vChain| - 1] else null
    }

    function At(nHeight: int): CBlockIndex?
      reads this
    {
      if nHeight < 0 || nHeight >= |vChain| then null else vChain[nHeight]
    }

    predicate Contains(pindex: CBlockIndex)
      reads this
    {
      At(pindex.nHeight) == pindex
    }

    function Height(): int
      reads this
    {
      |vChain| - 1
    }

    /** A block is in the chain exactly when it is an ancestor of the tip. */
    lemma ContainsIff(pindex: CBlockIndex)
      requires Valid() && vChain != []
      ensures Tip() != null && Linked(Tip()) && Tip().nHeight == Height()
      ensures Contains(pindex) <==> pindex.nHeight <= Height() && pindex == Ancestor(Tip(), pindex.nHeight)
    {
      var n := |vChain| - 1;
      assert PathAt(vChain, n);
      if pindex.nHeight <= n {
        PathAncestor(vChain, n, pindex.nHeight);
      }
    }

    /** Lines 13-23: exactly the path to the new tip, although the walk stops at the first common block. */
    method SetTip(tip: CBlockIndex?)
      requires Valid() && (tip != null ==> Linked(tip))
      modifies this
      ensures Valid() && Tip() == tip && |vChain| == if tip == null then 0 else tip.nHeight + 1
    {
      if tip == null {
        vChain := [];
        return;
      }
      ghost var was := vChain;
      var pindex: CBlockIndex? := tip;
      var n := tip.nHeight + 1;
      vChain := if n <= |vChain| then vChain[..n] else vChain + seq(n - |vChain|, i => null);
      ghost var h := n;
      while pindex != null && vChain[pindex.nHeight] != pindex
        invariant |vChain| == n && 0 <= h <= n
        invariant if pindex == null then h == 0 else h > 0 && h - 1 <= tip.nHeight && pindex == Ancestor(tip, h - 1)
        invariant forall j :: h <= j < n ==> vChain[j] == Ancestor(tip, j)
        invariant forall j :: 0 <= j < h ==> vChain[j] == if j < |was| then was[j] else null
        decreases h
      {
        if h > 1 {
          AncestorTrans(tip, h - 1, h - 2);
        }
        vChain := vChain[pindex.nHeight := pindex];
        pindex := pindex.pprev;
        h := h - 1;
      }
      if pindex != null {
        CommonPath(was, tip, h - 1);
      }
      PathFromAncestors(tip, vChain);
    }

    /** Lines 53-59: the highest block of the chain among the ancestors of a block, or none. */
    method FindFork(pindex: CBlockIndex, ghost blocks: set<CBlockIndex>) returns (r: CBlockIndex?)
      requires Valid() && pindex in blocks && Tree(blocks) && Linked(pindex)
      ensures r != null ==> Contains(r) && r.nHeight <= pindex.nHeight && r == Ancestor(pindex, r.nHeight)
      ensures forall h :: 0 <= h <= pindex.nHeight && Contains(Ancestor(pindex, h)) ==> r != null && h <= r.nHeight
    {
      r := pindex;
      if pindex.nHeight > Height() {
        ghost var steps;
        r, steps := pindex.GetAncestor(Height(), blocks);
      }
      while r != null && !Contains(r)
        invariant r != null ==> r.nHeight <= pindex.nHeight && r == Ancestor(pindex, r.nHeight)
        invariant forall h :: 0 <= h <= pindex.nHeight && Contains(Ancestor(pindex, h)) ==> r != null && h <= r.nHeight
        decreases if r == null then 0 else r.nHeight + 1
      {
        if r.pprev != null {
          AncestorTrans(pindex, r.nHeight, r.nHeight - 1);
        }
        r := r.pprev;
      }
    }

    /** Lines 39-45: through the chain if the block is on it, else through the skips. */
    method StepBack(pindex: CBlockIndex, nHeight: nat, ghost blocks: set<CBlockIndex>) returns (r: CBlockIndex)
      requires Valid() && Tree(blocks) && pindex in blocks && Linked(pindex) && nHeight <= pindex.nHeight
      ensures r == Ancestor(pindex, nHeight) && r in blocks
    {
      AncestorIn(pindex, nHeight, blocks);
      if Contains(pindex) {
        PathAncestor(vChain, pindex.nHeight, nHeight);
        r := At(nHeight);
      } else {
        ghost var steps;
        r, steps := pindex.GetAncestor(nHeight, blocks);
      }
    }

    /**
    Lines 25-51, from a block or else from the tip: ancestors at the locator heights, down to and
    including genesis.
    */
    method GetLocator(from: CBlockIndex?, ghost blocks: set<CBlockIndex>) returns (vHave: seq<CBlockIndex>)
      requires Valid() && Tree(blocks) && (from != null ==> from in blocks)
      requires forall i :: 0 <= i < |vChain| ==> vChain[i] in blocks
      ensures var start := if from == null then Tip() else from;
              if start == null then vHave == []
              else
                && Linked(start) && vHave != [] && vHave[|vHave| - 1].nHeight == 0
                && (forall i :: 0 <= i < |vHave| ==> vHave[i] == LocatorBlock(start, i))
                && (forall i :: 0 <= i < |vHave| - 1 ==> vHave[i].nHeight > 0)
    {
      hide LocatorBlock;
      hide LocatorHeight;
      hide StepAt;
      hide Ancestor;
      var start := if from == null then Tip() else from;
      vHave := [];
      if start == null {
        return;
      }
      assert BlockOk(start, blocks);
      var nStep := 1;
      var pindex: CBlockIndex := start;
      FirstLocator(start);
      while true
        invariant pindex in blocks && pindex == LocatorBlock(start, |vHave|) && nStep == StepAt(|vHave|)
        invariant forall i :: 0 <= i < |vHave| ==> vHave[i] == LocatorBlock(start, i) && vHave[i].nHeight > 0
        decreases pindex.nHeight
      {
        vHave := vHave + [pindex];
        if pindex.nHeight == 0 {
          return;
        }
        var nHeight := Max(pindex.nHeight - nStep, 0);
        NextLocator(start, |vHave| - 1);
        StepPositive(|vHave| - 1);
        pindex := StepBack(pindex, nHeight, blocks);
        if |vHave| > 10 {
          nStep := nStep * 2;
        }
      }
    }
  }

  /** Below a common block, the old path is the path to the new tip. */
  lemma {:induction false} CommonPath(was: seq<CBlockIndex?>, tip: CBlockIndex, h: nat)
    requires IsPath(was) && h < |was| && Linked(tip) && h <= tip.nHeight && was[h] == Ancestor(tip, h)
    ensures forall j :: 0 <= j <= h ==> was[j] == Ancestor(tip, j)
  {
    forall j | 0 <= j <= h ensures was[j] == Ancestor(tip, j) {
      PathAncestor(was, h, j);
      AncestorTrans(tip, h, j);
    }
  }
}
