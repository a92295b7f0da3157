/** The block index of src/chain.h and src/chain.cpp: blocks linked to their predecessors, with one skip
    pointer each, and the active chain as a vector of blocks.

    The links and the height of a block are fixed when it is created, as is its skip pointer, which
    the source sets right afterwards with BuildSkip. */
module Chain {
  import opened Basics

  //////////////////////////////////////////////////////////////////////////////
  // Skip heights
  //////////////////////////////////////////////////////////////////////////////

  /** Bitwise and. */
  function And(x: nat, y: nat): nat {
    if x == 0 || y == 0 then 0
    else 2 * And(x / 2, y / 2) + if x % 2 == 1 && y % 2 == 1 then 1 else 0
  }

  function LowestOne(n: nat): (b: nat)
    ensures b <= n && (n > 0 ==> b > 0)
  {
    if n == 0 then 0 else if n % 2 == 1 then 1 else 2 * LowestOne(n / 2)
  }

  function InvertLowestOne(n: nat): nat {
    if n == 0 then 0 else And(n, n - 1)
  }

  lemma {:induction false} AndSelf(n: nat)
    ensures And(n, n) == n
  {
    if n > 0 {
      AndSelf(n / 2);
    }
  }

  /** The lowest one bit is taken away. */
  lemma {:induction false} InvertedLowestOne(n: nat)
    ensures InvertLowestOne(n) == n - LowestOne(n)
  {
    if n == 0 {
    } else if n % 2 == 1 {
      AndSelf(n / 2);
      assert (n - 1) / 2 == n / 2;
    } else {
      InvertedLowestOne(n / 2);
      assert (n - 1) / 2 == n / 2 - 1;
    }
  }

  function GetSkipHeight(height: nat): (h: nat)
    ensures height > 0 ==> h < height
  {
    if height < 2 then 0
    else if height % 2 == 1 then
      InvertedLowestOne(height - 1);
      InvertedLowestOne(InvertLowestOne(height - 1));
      InvertLowestOne(InvertLowestOne(height - 1)) + 1
    else
      InvertedLowestOne(height);
      InvertLowestOne(height)
  }

  /** At an even height the lowest one bit is taken away; at an odd one, which leads further, the two lowest
      ones of the height below. */
  lemma SkipHeight(height: nat)
    ensures height < 2 ==> GetSkipHeight(height) == 0
    ensures height >= 2 && height % 2 == 0 ==> GetSkipHeight(height) == height - LowestOne(height)
    ensures height >= 2 && height % 2 == 1 ==>
              var below := height - 1 - LowestOne(height - 1);
              GetSkipHeight(height) == below - LowestOne(below) + 1
  {
    hide InvertLowestOne, LowestOne;
    if height >= 2 && height % 2 == 1 {
      InvertedLowestOne(height - 1);
      InvertedLowestOne(InvertLowestOne(height - 1));
    } else if height >= 2 {
      InvertedLowestOne(height);
    }
  }

  //////////////////////////////////////////////////////////////////////////////
  // Blocks
  //////////////////////////////////////////////////////////////////////////////

  /** The heights along the predecessors go down to zero. */
  ghost predicate Linked(b: BlockIndex)
    decreases b.height
  {
    if b.pprev == null then b.height == 0 else b.height == b.pprev.height + 1 && Linked(b.pprev)
  }

  /** The block that the plain walk along the predecessors reaches. */
  ghost function Ancestor(b: BlockIndex, height: nat): (a: BlockIndex)
    requires Linked(b) && height <= b.height
    ensures Linked(a) && a.height == height
    decreases b.height
  {
    if b.height == height then b else Ancestor(b.pprev, height)
  }

  /** Every skip pointer, where there is one, leads to the ancestor at the skip height. */
  ghost predicate Built(b: BlockIndex)
    decreases b.height
  {
    && Linked(b)
    && (b.pprev == null ==> b.pskip == null)
    && (b.pprev != null ==>
          && Built(b.pprev)
          && (b.pskip != null ==> b.pskip == Ancestor(b.pprev, GetSkipHeight(b.height))))
  }

  lemma {:induction false} AncestorBuilt(b: BlockIndex, h: nat)
    requires Built(b) && h <= b.height
    ensures Built(Ancestor(b, h))
    decreases b.height
  {
    if b.height > h {
      AncestorBuilt(b.pprev, h);
    }
  }

  lemma {:induction false} AncestorTwice(b: BlockIndex, m: nat, h: nat)
    requires Linked(b) && h <= m <= b.height
    ensures Ancestor(Ancestor(b, m), h) == Ancestor(b, h)
    decreases b.height
  {
    if b.height > m {
      AncestorTwice(b.pprev, m, h);
    }
  }

  class BlockIndex {
    const pprev: BlockIndex?
    const pskip: BlockIndex?
    const height: nat
    const hash: nat

    /** A new block on top of `prev`, or a genesis block, with its skip pointer built. */
    constructor (prev: BlockIndex?, hash: nat)
      requires prev != null ==> Built(prev)
      ensures Built(this) && pprev == prev && this.hash == hash
      ensures prev != null ==> pskip == Ancestor(prev, GetSkipHeight(height))
    {
      pprev := prev;
      this.hash := hash;
      if prev == null {
        pskip := null;
        height := 0;
      } else {
        var skip := prev.GetAncestor(GetSkipHeight(prev.height + 1));
        pskip := skip;
        height := prev.height + 1;
      }
    }

    /** The walk that follows skip pointers reaches the same block as the plain one. */
    method GetAncestor(height: int) returns (r: BlockIndex?)
      requires Built(this)
      ensures r == if 0 <= height <= this.height then Ancestor(this, height) else null
    {
      if height > this.height || height < 0 {
        return null;
      }
      var walk: BlockIndex := this;
      var heightWalk := this.height;
      while heightWalk > height
        invariant height <= heightWalk == walk.height
        invariant Built(walk) && Ancestor(walk, height) == Ancestor(this, height)
      {
        var skip := GetSkipHeight(heightWalk);
        var skipPrev := GetSkipHeight(heightWalk - 1);
        if walk.pskip != null
           && (skip == height || (skip > height && !(skipPrev < skip - 2 && skipPrev >= height)))
        {
          AncestorBuilt(walk.pprev, skip);
          AncestorTwice(walk.pprev, skip, height);
          walk := walk.pskip;
          heightWalk := skip;
        } else {
          walk := walk.pprev;
          heightWalk := heightWalk - 1;
        }
      }
      return walk;
    }
  }

  /** Two different blocks at the same height have no common block above a height where they differ. */
  lemma {:induction false} ForkPersists(a: BlockIndex, b: BlockIndex, h: nat, k: nat)
    requires Linked(a) && Linked(b) && h <= k <= a.height && k <= b.height
    requires Ancestor(a, h) != Ancestor(b, h)
    ensures Ancestor(a, k) != Ancestor(b, k)
  {
    AncestorTwice(a, k, h);
    AncestorTwice(b, k, h);
  }

  /** `r` is the highest block that both `a` and `b` descend from or are; null if there is none. */
  ghost predicate HighestCommon(a: BlockIndex, b: BlockIndex, r: BlockIndex?)
    requires Linked(a) && Linked(b)
  {
    && (r != null ==>
          && r.height <= a.height && r.height <= b.height
          && r == Ancestor(a, r.height) && r == Ancestor(b, r.height))
    && forall h | 0 <= h <= a.height && h <= b.height && (r != null ==> r.height < h) ::
         Ancestor(a, h) != Ancestor(b, h)
  }

  method LastCommonAncestor(pa: BlockIndex, pb: BlockIndex) returns (r: BlockIndex?)
    requires Built(pa) && Built(pb)
    ensures HighestCommon(pa, pb, r)
    ensures Ancestor(pa, 0) == Ancestor(pb, 0) ==> r != null
  {
    var a: BlockIndex? := pa;
    var b: BlockIndex? := pb;
    if pa.height > pb.height {
      a := pa.GetAncestor(pb.height);
    } else if pb.height > pa.height {
      b := pb.GetAncestor(pa.height);
    }
    ghost var top := a.height;
    while a != b && a != null && b != null
      invariant (a == null) == (b == null)
      invariant a != null ==>
                  && a.height == b.height <= top
                  && a == Ancestor(pa, a.height) && b == Ancestor(pb, a.height)
      invariant forall h | 0 <= h <= top && (a != null ==> a.height < h) :: Ancestor(pa, h) != Ancestor(pb, h)
      decreases if a == null then 0 else a.height + 1
    {
      ghost var h := a.height;
      if h > 0 {
        AncestorTwice(pa, h, h - 1);
        AncestorTwice(pb, h, h - 1);
      }
      a := a.pprev;
      b := b.pprev;
    }
    assert a == b;
    return a;
  }

  //////////////////////////////////////////////////////////////////////////////
  // The active chain
  //////////////////////////////////////////////////////////////////////////////

  /** The logarithm to base 2, rounded down. */
  function Log2(n: nat): nat {
    if n <= 1 then 0 else 1 + Log2(n / 2)
  }

  lemma {:induction false} Log2AtLeast(n: nat, k: nat)
    requires Pow2(k) <= n
    ensures k <= Log2(n)
  {
    if k > 0 {
      Log2AtLeast(n / 2, k - 1);
    }
  }

  /** How far below its first block the `k`-th entry of a locator is, when it is not cut off at zero. */
  function LocatorDepth(k: nat): nat {
    if k <= 10 then k else 9 + Pow2(k - 10)
  }

  class ActiveChain {
    var vChain: seq<BlockIndex?>

    /** The chain is a block and all its ancestors, by height. */
    ghost predicate Valid()
      reads this
    {
      vChain != [] ==> ChainOf(vChain, vChain[|vChain| - 1])
    }

    constructor ()
      ensures Valid() && vChain == []
    {
      vChain := [];
    }

    function At(height: int): BlockIndex?
      reads this
    {
      if 0 <= height < |vChain| then vChain[height] else null
    }

    function Tip(): BlockIndex?
      reads this
    {
      At(|vChain| - 1)
    }

    predicate Contains(b: BlockIndex)
      reads this
    {
      At(b.height) == b
    }

    /** The successor of a block in the chain. */
    function Next(b: BlockIndex): (n: BlockIndex?)
      requires Valid()
      reads this
      ensures n != null ==> n.pprev == b && Contains(n)
      ensures Contains(b) && b != Tip() ==> n != null
    {
      if Contains(b) then
        Successor(vChain, b.height);
        At(b.height + 1)
      else null
    }

    /** The loop stops at the first block that is already in place, because the old chain is right
        below it. */
    method SetTip(tip: BlockIndex?)
      requires Valid() && (tip != null ==> Built(tip))
      modifies this
      ensures Valid()
      ensures if tip == null then vChain == [] else ChainOf(vChain, tip)
    {
      if tip == null {
        vChain := [];
        return;
      }
      ghost var was := vChain;
      vChain := if |vChain| > tip.height + 1
                then vChain[..tip.height + 1]
                else vChain + seq(tip.height + 1 - |vChain|, _ => null);
      var p: BlockIndex? := tip;
      while p != null && vChain[p.height] != p
        invariant |vChain| == tip.height + 1
        invariant p != null ==> p.height <= tip.height && p == Ancestor(tip, p.height)
        invariant forall h | 0 <= h <= tip.height && (p != null ==> p.height < h) :: vChain[h] == Ancestor(tip, h)
        invariant forall h | 0 <= h <= tip.height && p != null && h <= p.height ::
                    vChain[h] == if h < |was| then was[h] else null
        decreases if p == null then 0 else p.height + 1
      {
        if p.height > 0 {
          AncestorTwice(tip, p.height, p.height - 1);
        }
        vChain := vChain[p.height := p];
        p := p.pprev;
      }
      if p != null {
        forall h | 0 <= h <= p.height ensures vChain[h] == Ancestor(tip, h) {
          var last := was[|was| - 1];
          assert was[p.height] == Ancestor(last, p.height);
          AncestorTwice(last, p.height, h);
          AncestorTwice(tip, p.height, h);
        }
      }
    }

    /** The highest block of the chain that `b` descends from or is. */
    method FindFork(b: BlockIndex?) returns (r: BlockIndex?)
      requires Valid() && (b != null ==> Built(b))
      ensures b == null || vChain == [] ==> r == null
      ensures b != null && vChain != [] ==> HighestCommon(vChain[|vChain| - 1], b, r)
      ensures r != null ==> Contains(r)
    {
      if b == null {
        return null;
      }
      r := b;
      if b.height > |vChain| - 1 {
        r := b.GetAncestor(|vChain| - 1);
      }
      ghost var top := if b.height > |vChain| - 1 then |vChain| - 1 else b.height;
      while r != null && !Contains(r)
        invariant r != null ==> r.height <= top && r == Ancestor(b, r.height)
        invariant forall h | 0 <= h <= top && (r != null ==> r.height < h) :: vChain[h] != Ancestor(b, h)
        decreases if r == null then 0 else r.height + 1
      {
        if r.height > 0 {
          AncestorTwice(b, r.height, r.height - 1);
        }
        r := r.pprev;
      }
    }

    /** The hashes of blocks at growing distances below `b`, or below the tip, down to the genesis
        block. */
    method GetLocator(b: BlockIndex?) returns (have: seq<nat>, ghost blocks: seq<BlockIndex>)
      requires Valid() && (b != null ==> Built(b))
      ensures |have| == |blocks| && forall k | 0 <= k < |have| :: have[k] == blocks[k].hash
      ensures var first := if b == null then Tip() else b;
              if first == null then blocks == []
              else
                && Linked(first) && Located(first, blocks)
                && blocks != [] && blocks[|blocks| - 1].height == 0
                && |blocks| <= 12 + Log2(first.height)
    {
      hide Located, Built, Linked, Ancestor, LocatorDepth, Pow2, Log2;
      var step := 1;
      have, blocks := [], [];
      var first := if b == null then Tip() else b;
      var p := first;
      if p == null {
        return;
      }
      BuiltLinked(first);
      LocatedStart(first);
      LocatorStep(0);
      while true
        invariant p != null && p.height <= first.height && p == Ancestor(first, p.height)
        invariant |have| == |blocks| && forall k | 0 <= k < |have| :: have[k] == blocks[k].hash
        invariant p.height == Max(first.height - LocatorDepth(|have|), 0)
        invariant step == if |have| <= 10 then 1 else Pow2(|have| - 10)
        invariant |have| > 0 ==> p.height < blocks[|have| - 1].height == first.height - LocatorDepth(|have| - 1)
        invariant Located(first, blocks)
        decreases p.height
      {
        LocatedNext(first, blocks, p);
        LocatorStep(|have|);
        have := have + [p.hash];
        blocks := blocks + [p];
        if p.height == 0 {
          break;
        }
        var height := Max(p.height - step, 0);
        AncestorTwice(first, p.height, height);
        if Contains(p) {
          InChain(vChain, p, height);
          p := At(height);
        } else {
          AncestorBuilt(first, p.height);
          p := p.GetAncestor(height);
        }
        if |have| > 10 {
          step := step * 2;
        }
      }
      LocatorLength(first.height, |have|);
    }
  }

  lemma BuiltLinked(b: BlockIndex)
    requires Built(b)
    ensures Linked(b)
  {
  }

  /** Ancestors of `first`, strictly descending, at the depths of a locator. */
  ghost predicate Located(first: BlockIndex, blocks: seq<BlockIndex>)
    requires Linked(first)
  {
    && (forall k | 0 <= k < |blocks| :: LocatedAt(first, blocks[k], k))
    && (forall k | 0 < k < |blocks| :: blocks[k].height < blocks[k - 1].height)
  }

  ghost predicate LocatedAt(first: BlockIndex, p: BlockIndex, k: nat)
    requires Linked(first)
  {
    && p.height == Max(first.height - LocatorDepth(k), 0)
    && p.height <= first.height
    && p == Ancestor(first, p.height)
  }

  /** The distance to the next entry. */
  lemma LocatorStep(k: nat)
    ensures LocatorDepth(k + 1) == LocatorDepth(k) + if k <= 10 then 1 else Pow2(k - 10)
    ensures k > 10 ==> Pow2(k + 1 - 10) == 2 * Pow2(k - 10)
    ensures LocatorDepth(0) == 0 && Pow2(1) == 2
  {
  }

  lemma LocatedStart(first: BlockIndex)
    requires Linked(first)
    ensures Located(first, []) && first == Ancestor(first, first.height)
  {
  }

  lemma LocatedNext(first: BlockIndex, blocks: seq<BlockIndex>, p: BlockIndex)
    requires Linked(first) && Located(first, blocks)
    requires LocatedAt(first, p, |blocks|)
    requires blocks != [] ==> p.height < blocks[|blocks| - 1].height
    ensures Located(first, blocks + [p])
  {
    hide Linked, LocatedAt;
  }

  /** `chain` holds `tip` and its ancestors, by height. */
  ghost predicate ChainOf(chain: seq<BlockIndex?>, tip: BlockIndex?) {
    && tip != null && Built(tip) && |chain| == tip.height + 1
    && forall h | 0 <= h < |chain| :: chain[h] == Ancestor(tip, h)
  }

  lemma InChain(chain: seq<BlockIndex?>, p: BlockIndex, height: nat)
    requires chain != [] && ChainOf(chain, chain[|chain| - 1])
    requires Linked(p) && height <= p.height < |chain| && chain[p.height] == p
    ensures chain[height] == Ancestor(p, height)
  {
    AncestorTwice(chain[|chain| - 1], p.height, height);
  }

  lemma Successor(chain: seq<BlockIndex?>, h: nat)
    requires chain != [] && ChainOf(chain, chain[|chain| - 1]) && h < |chain|
    ensures chain[h] != null && chain[h].height == h
    ensures h + 1 < |chain| ==> chain[h + 1] != null && chain[h + 1].height == h + 1 && chain[h + 1].pprev == chain[h]
  {
    if h + 1 < |chain| {
      AncestorTwice(chain[|chain| - 1], h + 1, h);
    }
  }

  /** The entry before the last is still above zero. */
  lemma LocatorLength(height: nat, n: nat)
    requires n > 1 ==> height - LocatorDepth(n - 2) > 0
    ensures n <= 12 + Log2(height)
  {
    if n > 12 {
      Log2AtLeast(height, n - 12);
    }
  }
}
