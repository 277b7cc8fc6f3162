/**
 The block tree with skip pointers, and the active chain. Walking by skip pointers finds the same ancestor as
 walking parent by parent; the chain's fast update and fork search give the full path and the highest common
 block.
 */
module BlockChain {
  import opened Bits
  import opened Integers

  /** Turns the lowest '1' bit into a '0'. */
  function InvertLowestOne(n: nat): (r: nat)
    ensures n > 0 ==> r < n
  {
    if n == 0 then 0 else if n % 2 == 1 then n - 1 else 2 * InvertLowestOne(n / 2)
  }

  /** Every positive number is an odd multiple of a power of two; that multiple becomes the even one below it. */
  lemma {:induction false} LowestOneCleared(n: nat) returns (odd: nat, k: nat)
    requires n > 0
    ensures n == (2 * odd + 1) * Pow2(k) && InvertLowestOne(n) == 2 * odd * Pow2(k)
  {
    if n % 2 == 1 {
      odd, k := n / 2, 0;
    } else {
      var j: nat;
      odd, j := LowestOneCleared(n / 2);
      k := j + 1;
      Doubled(2 * odd + 1, Pow2(j));
      Doubled(2 * odd, Pow2(j));
    }
  }

  lemma Doubled(x: nat, p: nat)
    ensures x * (2 * p) == 2 * (x * p)
  {
    MulAssoc(x, 2, p);
    MulAssoc(2, x, p);
  }

  function GetSkipHeight(height: nat): (r: nat)
    ensures height > 0 ==> r < height
  {
    if height < 2 then 0
    else if height % 2 == 1 then InvertLowestOne(InvertLowestOne(height - 1)) + 1
    else InvertLowestOne(height)
  }

  class BlockIndex {
    const pprev: BlockIndex?
    const nHeight: nat
    var pskip: BlockIndex?

    constructor Genesis()
      ensures pprev == null && nHeight == 0 && Linked() && Skips()
    {
      pprev, nHeight, pskip := null, 0, null;
    }

    /** A new block on top of another, with its skip pointer built. */
    constructor (parent: BlockIndex)
      requires parent.Linked() && parent.Skips()
      ensures pprev == parent && nHeight == parent.nHeight + 1 && Linked() && Skips()
    {
      pprev, nHeight, pskip := parent, parent.nHeight + 1, null;
      parent.LineHeights();
      new;
      BuildSkip();
    }

    /** Heights count down to the genesis block. */
    ghost predicate Linked()
      decreases nHeight
    {
      if pprev == null then nHeight == 0 else pprev.nHeight == nHeight - 1 && pprev.Linked()
    }

    /** The ancestor at a height, by the plain walk along parents. */
    ghost function Ancestor(height: nat): (a: BlockIndex)
      requires Linked() && height <= nHeight
      ensures a.Linked() && a.nHeight == height
      decreases nHeight
    {
      if height == nHeight then this else pprev.Ancestor(height)
    }

    /** This block and all its ancestors. */
    ghost function Line(): set<BlockIndex>
      requires Linked()
      decreases nHeight
    {
      {this} + if pprev == null then {} else pprev.Line()
    }

    /** Skip pointers of the whole line lead to the right ancestors. */
    ghost predicate Skips()
      requires Linked()
      reads Line()
      decreases nHeight
    {
      && (pskip != null ==> nHeight > 0 && pskip == Ancestor(GetSkipHeight(nHeight)))
      && (pprev != null ==> pprev.Skips())
    }

    lemma {:induction false} AncestorTwice(a: nat, b: nat)
      requires Linked() && b <= a <= nHeight
      ensures Ancestor(a).Ancestor(b) == Ancestor(b)
      decreases nHeight
    {
      if a < nHeight { pprev.AncestorTwice(a, b); }
    }

    lemma {:induction false} AncestorSkips(h: nat)
      requires Linked() && Skips() && h <= nHeight
      ensures Ancestor(h).Skips()
      decreases nHeight
    {
      if h < nHeight { pprev.AncestorSkips(h); }
    }

    lemma {:induction false} LineHeights()
      requires Linked()
      ensures forall b :: b in Line() ==> b.nHeight <= nHeight && b.Linked() && allocated(b) && b == Ancestor(b.nHeight)
      decreases nHeight
    {
      if pprev != null {
        pprev.LineHeights();
        forall b | b in pprev.Line() ensures b == Ancestor(b.nHeight) {}
      }
    }

    method GetAncestor(height: int) returns (r: BlockIndex?)
      requires Linked() && Skips()
      ensures if 0 <= height <= nHeight then r == Ancestor(height) else r == null
    {
      if height > nHeight || height < 0 {
        return null;
      }
      var pindexWalk: BlockIndex := this;
      var heightWalk: nat := nHeight;
      while heightWalk > height
        invariant height <= heightWalk <= nHeight && pindexWalk == Ancestor(heightWalk) && pindexWalk.Skips()
        decreases heightWalk
      {
        var heightSkip := GetSkipHeight(heightWalk);
        var heightSkipPrev := GetSkipHeight(heightWalk - 1);
        if pindexWalk.pskip != null &&
           (heightSkip == height || (heightSkip > height && !(heightSkipPrev < heightSkip - 2 && heightSkipPrev >= height)))
        {
          AncestorTwice(heightWalk, heightSkip);
          pindexWalk.AncestorSkips(heightSkip);
          pindexWalk := pindexWalk.pskip;
          heightWalk := heightSkip;
        } else {
          AncestorTwice(heightWalk, heightWalk - 1);
          assert pindexWalk.Ancestor(heightWalk - 1) == pindexWalk.pprev;
          pindexWalk := pindexWalk.pprev;
          heightWalk := heightWalk - 1;
        }
      }
      r := pindexWalk;
    }

    method BuildSkip()
      requires Linked() && (pprev != null ==> pprev.Skips() && this !in pprev.Line())
      modifies this`pskip
      ensures pprev != null ==> Skips() && pskip == Ancestor(GetSkipHeight(nHeight))
      ensures pprev == null ==> pskip == old(pskip)
    {
      if pprev != null {
        pprev.LineHeights();
        var a := pprev.GetAncestor(GetSkipHeight(nHeight));
        pskip := a;
      }
    }
  }

  /** `a` is `b` or one of its ancestors. */
  ghost predicate IsAncestor(a: BlockIndex, b: BlockIndex)
    requires b.Linked()
  {
    a.nHeight <= b.nHeight && a == b.Ancestor(a.nHeight)
  }

  /** The highest block that is an ancestor of both, null if there is none. */
  ghost predicate IsLastCommon(r: BlockIndex?, a: BlockIndex, b: BlockIndex)
    requires a.Linked() && b.Linked()
  {
    if r == null then forall h: nat :: h <= a.nHeight && h <= b.nHeight ==> a.Ancestor(h) != b.Ancestor(h)
    else
      && IsAncestor(r, a) && IsAncestor(r, b)
      && forall h: nat :: r.nHeight < h <= a.nHeight && h <= b.nHeight ==> a.Ancestor(h) != b.Ancestor(h)
  }

  method LastCommonAncestor(pa0: BlockIndex, pb0: BlockIndex) returns (r: BlockIndex?)
    requires pa0.Linked() && pb0.Linked() && pa0.Skips() && pb0.Skips()
    ensures IsLastCommon(r, pa0, pb0)
  {
    var pa: BlockIndex?, pb: BlockIndex? := pa0, pb0;
    if pa0.nHeight > pb0.nHeight {
      pa := pa0.GetAncestor(pb0.nHeight);
    } else if pb0.nHeight > pa0.nHeight {
      pb := pb0.GetAncestor(pa0.nHeight);
    }
    ghost var low := if pa0.nHeight < pb0.nHeight then pa0.nHeight else pb0.nHeight;
    ghost var h: int := low;
    while pa != pb && pa != null && pb != null
      invariant -1 <= h <= low
      invariant if h >= 0 then pa == pa0.Ancestor(h) && pb == pb0.Ancestor(h) else pa == null && pb == null
      invariant forall k: nat :: h < k <= low ==> pa0.Ancestor(k) != pb0.Ancestor(k)
      decreases h
    {
      if h > 0 {
        pa0.AncestorTwice(h, h - 1);
        pb0.AncestorTwice(h, h - 1);
        assert pa0.Ancestor(h).Ancestor(h - 1) == pa.pprev && pb0.Ancestor(h).Ancestor(h - 1) == pb.pprev;
      }
      pa := pa.pprev;
      pb := pb.pprev;
      h := h - 1;
    }
    assert pa == pb;
    r := pa;
  }

  class Chain {
    var vChain: seq<BlockIndex?>

    /** The chain is the path from a genesis block to its tip. */
    ghost predicate Valid()
      reads this
    {
      forall i :: 0 <= i < |vChain| ==>
        vChain[i] != null && vChain[i].nHeight == i && vChain[i].Linked() && (i > 0 ==> vChain[i].pprev == vChain[i - 1])
    }

    constructor ()
      ensures Valid() && vChain == []
    {
      vChain := [];
    }

    function Height(): int
      reads this
    {
      |vChain| - 1
    }

    /** The entry at a height, null beyond the ends. */
    function At(nHeight: int): BlockIndex?
      reads this
    {
      if nHeight < 0 || nHeight >= |vChain| then null else vChain[nHeight]
    }

    predicate Contains(pindex: BlockIndex)
      reads this
    {
      At(pindex.nHeight) == pindex
    }

    /** Every entry of a valid chain is followed down by its own ancestors. */
    lemma {:induction false} ChainBelow(i: nat, j: nat)
      requires Valid() && j <= i < |vChain|
      ensures vChain[j] == vChain[i].Ancestor(j)
      decreases i
    {
      if j < i { ChainBelow(i - 1, j); }
    }

    /** Stops at the first entry that is already right; the rest of the path is then right too. */
    method SetTip(pindex0: BlockIndex?)
      requires Valid() && (pindex0 != null ==> pindex0.Linked())
      modifies this
      ensures Valid()
      ensures if pindex0 == null then vChain == []
              else |vChain| == pindex0.nHeight + 1 && forall h :: 0 <= h <= pindex0.nHeight ==> vChain[h] == pindex0.Ancestor(h)
    {
      if pindex0 == null {
        vChain := [];
        return;
      }
      var tip: BlockIndex := pindex0;
      ghost var was := vChain;
      forall i, j | 0 <= j <= i < |was| ensures was[i] != null && was[i].Linked() && was[i].nHeight == i && was[j] == was[i].Ancestor(j) { ChainBelow(i, j); }
      vChain := Resized(vChain, tip.nHeight + 1);
      var pindex: BlockIndex? := tip;
      ghost var h: int := tip.nHeight;
      while pindex != null && vChain[pindex.nHeight] != pindex
        invariant -1 <= h <= tip.nHeight && |vChain| == tip.nHeight + 1
        invariant if h >= 0 then pindex == tip.Ancestor(h) else pindex == null
        invariant forall k :: h < k <= tip.nHeight ==> vChain[k] == tip.Ancestor(k)
        invariant forall k :: 0 <= k <= h ==> vChain[k] == if k < |was| then was[k] else null
        decreases h
      {
        if h > 0 {
          tip.AncestorTwice(h, h - 1);
          assert pindex.Ancestor(h - 1) == pindex.pprev;
        }
        vChain := vChain[pindex.nHeight := pindex];
        pindex := pindex.pprev;
        h := h - 1;
      }
      forall k | 0 <= k <= tip.nHeight ensures vChain[k] == tip.Ancestor(k) {
        if k <= h { tip.AncestorTwice(h, k); }
      }
      forall k | 0 < k <= tip.nHeight ensures tip.Ancestor(k).pprev == tip.Ancestor(k - 1) {
        tip.AncestorTwice(k, k - 1);
        assert tip.Ancestor(k).Ancestor(k - 1) == tip.Ancestor(k).pprev;
      }
    }

    static function Resized(q: seq<BlockIndex?>, n: nat): (r: seq<BlockIndex?>)
      ensures |r| == n && forall k :: 0 <= k < n ==> r[k] == if k < |q| then q[k] else null
    {
      if n <= |q| then q[..n] else q + seq(n - |q|, _ => null)
    }

    /** The highest block of the chain that is an ancestor of the given block. */
    method FindFork(pindex0: BlockIndex?) returns (r: BlockIndex?)
      requires Valid() && (pindex0 != null ==> pindex0.Linked() && pindex0.Skips())
      ensures pindex0 == null ==> r == null
      ensures pindex0 != null && r != null ==> IsAncestor(r, pindex0) && Contains(r)
      ensures pindex0 != null ==>
        forall h: nat :: (r != null ==> r.nHeight < h) && h <= pindex0.nHeight ==> !Contains(pindex0.Ancestor(h))
    {
      if pindex0 == null {
        return null;
      }
      var pindex: BlockIndex? := pindex0;
      if pindex0.nHeight > Height() {
        pindex := pindex0.GetAncestor(Height());
      }
      ghost var h: int := if pindex0.nHeight > Height() then Height() else pindex0.nHeight;
      while pindex != null && !Contains(pindex)
        invariant -1 <= h <= pindex0.nHeight
        invariant if h >= 0 then pindex == pindex0.Ancestor(h) else pindex == null
        invariant forall k: nat :: h < k <= pindex0.nHeight ==> !Contains(pindex0.Ancestor(k))
        decreases h
      {
        if h > 0 {
          pindex0.AncestorTwice(h, h - 1);
          assert pindex.Ancestor(h - 1) == pindex.pprev;
        }
        pindex := pindex.pprev;
        h := h - 1;
      }
      r := pindex;
    }
  }
}
