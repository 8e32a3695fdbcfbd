/** The tree of blocks, and the array that indexes one branch of it by height. */
module Chain {
  import opened Common

  /** A block of the tree; links and heights never change. */
  class CBlockIndex {
    const pprev: CBlockIndex?
    const nHeight: nat
    const nTime: int
    const hash: int

    constructor (pprev: CBlockIndex?, nTime: int, hash: int)
      ensures this.pprev == pprev && this.nTime == nTime && this.hash == hash
      ensures this.nHeight == if pprev == null then 0 else pprev.nHeight + 1
    {
      this.pprev, this.nTime, this.hash := pprev, nTime, hash;
      this.nHeight := if pprev == null then 0 else pprev.nHeight + 1;
    }
  }

  /** Heights count the links down to a block without predecessor. */
  ghost predicate Linked(b: CBlockIndex)
    decreases b.nHeight
  {
    if b.pprev == null then b.nHeight == 0
    else b.nHeight == b.pprev.nHeight + 1 && Linked(b.pprev)
  }

  /** The ancestor at a height, found by following the links; GetAncestor's answer. */
  function Ancestor(b: CBlockIndex, h: nat): (r: CBlockIndex)
    requires Linked(b) && h <= b.nHeight
    ensures Linked(r) && r.nHeight == h
    decreases b.nHeight
  {
    if h == b.nHeight then b else Ancestor(b.pprev, h)
  }

  function GetAncestor(b: CBlockIndex, h: int): (r: CBlockIndex?)
    requires Linked(b)
    ensures r != null <==> 0 <= h <= b.nHeight
  {
    if 0 <= h <= b.nHeight then Ancestor(b, h) else null
  }

  lemma {:induction false} AncestorOfAncestor(b: CBlockIndex, h: nat, g: nat)
    requires Linked(b) && g <= h <= b.nHeight
    ensures Ancestor(Ancestor(b, h), g) == Ancestor(b, g)
    decreases b.nHeight
  {
    if h < b.nHeight {
      AncestorOfAncestor(b.pprev, h, g);
    }
  }

  // ---------------------------------------------------------------- the chain

  /** Entry i is the ancestor of the tip at height i. */
  ghost predicate Indexed(v: seq<CBlockIndex?>) {
    v == [] || IndexedBy(v, v[|v| - 1])
  }

  ghost predicate IndexedBy(v: seq<CBlockIndex?>, tip: CBlockIndex?) {
    && tip != null && Linked(tip) && |v| == tip.nHeight + 1
    && forall i: nat :: i < |v| ==> v[i] == Ancestor(tip, i)
  }

  class CChain {
    var vChain: seq<CBlockIndex?>

    ghost predicate Valid()
      reads this
    {
      Indexed(vChain)
    }

    constructor ()
      ensures Valid() && vChain == []
    {
      vChain := [];
    }

    function Tip(): CBlockIndex?
      reads this
    {
      if |vChain| > 0 then vChain[|vChain| - 1] else null
    }

    function Height(): int
      reads this
    {
      |vChain| - 1
    }

    function At(h: int): CBlockIndex?
      reads this
    {
      if 0 <= h < |vChain| then vChain[h] else null
    }

    predicate Contains(b: CBlockIndex)
      reads this
    {
      At(b.nHeight) == b
    }

    /** Rewrites the array from the new tip down to the first entry that is right already. */
    method SetTip(pindex: CBlockIndex?)
      requires Valid() && (pindex != null ==> Linked(pindex))
      modifies this
      ensures Valid() && Tip() == pindex
    {
      if pindex == null {
        vChain := [];
        return;
      }
      ghost var v := vChain;
      var n := pindex.nHeight + 1;
      vChain := if n <= |vChain| then vChain[..n] else vChain + seq(n - |vChain|, i => null);
      var p: CBlockIndex? := pindex;
      ghost var h := pindex.nHeight;
      while p != null && vChain[p.nHeight] != p
        invariant |vChain| == n && -1 <= h < n
        invariant p == if h < 0 then null else Ancestor(pindex, h)
        invariant forall i: nat :: h < i < n ==> vChain[i] == Ancestor(pindex, i)
        invariant forall i: nat :: i <= h ==> vChain[i] == if i < |v| then v[i] else null
        decreases h
      {
        assert p.nHeight == h;
        AncestorStep(pindex, h);
        vChain := vChain[p.nHeight := p];
        p := p.pprev;
        h := h - 1;
      }
      if p != null {
        RightBelow(v, pindex, h);
      }
      assert vChain[n - 1] == pindex;
    }

    /** The highest ancestor of the block that is in the chain, if there is any. */
    method FindFork(pindex: CBlockIndex) returns (r: CBlockIndex?)
      requires Valid() && Linked(pindex)
      ensures r != null ==>
                && r.nHeight <= pindex.nHeight && r == Ancestor(pindex, r.nHeight) && r in vChain
                && forall h: nat :: r.nHeight < h <= pindex.nHeight ==> Ancestor(pindex, h) !in vChain
      ensures r == null ==> forall h: nat :: h <= pindex.nHeight ==> Ancestor(pindex, h) !in vChain
    {
      forall b: CBlockIndex {
        ContainsExactly(b);
      }
      r := pindex;
      if pindex.nHeight > Height() {
        r := GetAncestor(pindex, Height());
      }
      ghost var h := if r == null then -1 else r.nHeight;
      while r != null && !Contains(r)
        invariant -1 <= h <= pindex.nHeight
        invariant r == if h < 0 then null else Ancestor(pindex, h)
        invariant forall i: nat :: h < i <= pindex.nHeight ==> !Contains(Ancestor(pindex, i))
        decreases h
      {
        AncestorStep(pindex, h);
        r := r.pprev;
        h := h - 1;
      }
    }

    /** The test at its own height tells whether a block is in the chain. */
    lemma ContainsExactly(b: CBlockIndex)
      requires Valid()
      ensures Contains(b) <==> b in vChain
    {
      if b in vChain {
        var i :| 0 <= i < |vChain| && vChain[i] == b;
        assert vChain[i] == Ancestor(vChain[|vChain| - 1], i);
      }
    }

    /** Every block the chain shares with another branch lies at or below the fork. */
    lemma SharedBelowFork(b: CBlockIndex, h: nat, g: nat)
      requires Valid() && Linked(b) && g <= h <= b.nHeight && Contains(Ancestor(b, h))
      ensures Contains(Ancestor(b, g))
    {
      var a := Ancestor(b, h);
      AncestorOfAncestor(b, h, g);
      AncestorOfAncestor(vChain[|vChain| - 1], h, g);
    }

    /** The hashes of the ancestors at the locator heights; whether a step uses the array or the links
        makes no difference. There are at most 12 + log2 of the starting height. */
    method GetLocator(pindex0: CBlockIndex?) returns (vHave: seq<int>)
      requires Valid() && (pindex0 != null ==> Linked(pindex0))
      requires Start(pindex0) != null ==> Start(pindex0).nHeight < 0x4000_0000
      ensures Start(pindex0) == null ==> vHave == []
      ensures Start(pindex0) != null ==> vHave == Hashes(Start(pindex0), LocatorHeights(Start(pindex0).nHeight, 1, 0))
      ensures Start(pindex0) != null ==> |vHave| <= 12 || Pow2(|vHave| - 12) <= Start(pindex0).nHeight
    {
      hide Locator;
      var nStep := 1;
      vHave := [];
      var pindex := pindex0;
      if pindex == null {
        pindex := Tip();
      }
      ghost var start := pindex;
      while pindex != null
        invariant start == null ==> pindex == null
        invariant start != null ==> pindex != null
        invariant start != null ==>
                    && pindex.nHeight <= start.nHeight && pindex == Ancestor(start, pindex.nHeight)
                    && nStep > 0 && (pindex.nHeight > 0 ==> nStep <= Max(1, start.nHeight - pindex.nHeight))
                    && (pindex.nHeight > 0 ==> |vHave| <= start.nHeight - pindex.nHeight)
                    && Locator(start, start.nHeight, 1, 0) == vHave + Locator(start, pindex.nHeight, nStep, |vHave|)
        invariant start == null ==> vHave == []
        decreases if pindex == null then 0 else pindex.nHeight
      {
        LocatorUnfolds(start, pindex.nHeight, nStep, |vHave|);
        vHave := vHave + [pindex.hash];
        if pindex.nHeight == 0 {
          break;
        }
        var nHeight := Max(pindex.nHeight - nStep, 0);
        AncestorOfAncestor(start, pindex.nHeight, nHeight);
        if Contains(pindex) {
          AncestorOfAncestor(vChain[|vChain| - 1], pindex.nHeight, nHeight);
          pindex := At(nHeight);
        } else {
          pindex := GetAncestor(pindex, nHeight);
        }
        if |vHave| > 10 {
          assert nStep * 2 <= 0x7FFF_FFFF;
          nStep := nStep * 2;
        }
      }
      if start != null {
        LocatorIsHashes(start);
        LocatorIsShort(start.nHeight);
      }
    }

    function Start(pindex: CBlockIndex?): CBlockIndex?
      reads this
    {
      if pindex == null then Tip() else pindex
    }
  }

  lemma AncestorStep(b: CBlockIndex, h: nat)
    requires Linked(b) && h <= b.nHeight
    ensures Ancestor(b, h).pprev == if h == 0 then null else Ancestor(b, h - 1)
    decreases b.nHeight
  {
    if h < b.nHeight {
      AncestorStep(b.pprev, h);
    } else if h > 0 {
      assert Ancestor(b, h - 1) == b.pprev;
    }
  }

  /** Where the old array agrees with the new branch at one height, it agrees below. */
  lemma RightBelow(v: seq<CBlockIndex?>, b: CBlockIndex, h: nat)
    requires Indexed(v) && Linked(b) && h <= b.nHeight && h < |v| && v[h] == Ancestor(b, h)
    ensures forall i: nat :: i <= h ==> v[i] == Ancestor(b, i)
  {
    var tip := v[|v| - 1];
    forall i: nat | i <= h
      ensures v[i] == Ancestor(b, i)
    {
      AncestorOfAncestor(tip, h, i);
      AncestorOfAncestor(b, h, i);
    }
  }

  // ---------------------------------------------------------------- locators

  /** The heights of a locator from height h on: steps of one at first, doubling after ten entries. */
  function LocatorHeights(h: nat, step: nat, size: nat): (r: seq<nat>)
    requires step > 0
    ensures |r| > 0 && forall i :: 0 <= i < |r| ==> r[i] <= h
    decreases h
  {
    if h == 0 then [0] else
      [h] + LocatorHeights(Max(h - step, 0), if size + 1 > 10 then 2 * step else step, size + 1)
  }

  function Hashes(b: CBlockIndex, heights: seq<nat>): (r: seq<int>)
    requires Linked(b) && forall i :: 0 <= i < |heights| ==> heights[i] <= b.nHeight
    ensures |r| == |heights|
  {
    if heights == [] then [] else [Ancestor(b, heights[0]).hash] + Hashes(b, heights[1..])
  }

  ghost function Locator(b: CBlockIndex, h: nat, step: nat, size: nat): seq<int>
    requires Linked(b) && h <= b.nHeight && step > 0
  {
    Hashes(b, LocatorHeights(h, step, size))
  }

  lemma LocatorUnfolds(b: CBlockIndex, h: nat, step: nat, size: nat)
    requires Linked(b) && h <= b.nHeight && step > 0
    ensures Locator(b, h, step, size) ==
            if h == 0 then [Ancestor(b, 0).hash]
            else [Ancestor(b, h).hash] +
                 Locator(b, Max(h - step, 0), if size + 1 > 10 then 2 * step else step, size + 1)
  {
    if h == 0 {
      assert LocatorHeights(h, step, size) == [0];
      assert Hashes(b, [0]) == [Ancestor(b, 0).hash] + Hashes(b, [0][1..]);
    } else {
      assert LocatorHeights(h, step, size)[1..] ==
             LocatorHeights(Max(h - step, 0), if size + 1 > 10 then 2 * step else step, size + 1);
    }
  }

  lemma LocatorIsHashes(b: CBlockIndex)
    requires Linked(b)
    ensures Locator(b, b.nHeight, 1, 0) == Hashes(b, LocatorHeights(b.nHeight, 1, 0))
  {
  }

  /** Strictly falling, from the start down to genesis. */
  lemma {:induction false} LocatorFalls(h: nat, step: nat, size: nat)
    requires step > 0
    ensures var r := LocatorHeights(h, step, size);
            r[0] == h && r[|r| - 1] == 0 && forall i, j :: 0 <= i < j < |r| ==> r[i] > r[j]
    decreases h
  {
    if h > 0 {
      LocatorFalls(Max(h - step, 0), if size + 1 > 10 then 2 * step else step, size + 1);
    }
  }

  lemma {:induction false} DoublingLength(h: nat, k: nat, size: nat)
    requires size >= 10
    ensures var n := |LocatorHeights(h, Pow2(k), size)|; n > 1 ==> Pow2(n - 2 + k) < h + Pow2(k)
    decreases h
  {
    if h > 0 {
      var next := Max(h - Pow2(k), 0);
      assert Pow2(k + 1) == 2 * Pow2(k);
      DoublingLength(next, k + 1, size + 1);
    }
  }

  lemma {:induction false} SingleSteps(h: nat, size: nat)
    requires size <= 10
    ensures |LocatorHeights(h, 1, size)| ==
            if h <= 10 - size then h + 1 else 10 - size + |LocatorHeights(h - (10 - size), 1, 10)|
    decreases h
  {
    if h > 0 && size < 10 {
      SingleSteps(h - 1, size + 1);
    }
  }

  /** A locator from height h has at most 12 + log2(h) entries. */
  lemma LocatorIsShort(h: nat)
    ensures var n := |LocatorHeights(h, 1, 0)|; n <= 12 || Pow2(n - 12) <= h
  {
    SingleSteps(h, 0);
    if h > 10 {
      DoublingLength(h - 10, 0, 10);
      assert Pow2(0) == 1;
    }
  }

  lemma {:induction false} DoublingHeights(h: nat, k: nat, size: nat, i: nat)
    requires size >= 10 && i < |LocatorHeights(h, Pow2(k), size)|
    ensures LocatorHeights(h, Pow2(k), size)[i] == Max(0, h - (Pow2(k + i) - Pow2(k)))
    decreases i
  {
    if i > 0 {
      var next := Max(h - Pow2(k), 0);
      assert Pow2(k + 1) == 2 * Pow2(k);
      DoublingHeights(next, k + 1, size + 1, i - 1);
      Pow2Grows(k + 1, i - 1);
    }
  }

  lemma {:induction false} Pow2Grows(k: nat, n: nat)
    ensures Pow2(k + n) >= Pow2(k)
  {
    if n > 0 {
      Pow2Grows(k, n - 1);
    }
  }

  lemma {:induction false} SingleHeights(h: nat, size: nat, i: nat)
    requires size <= 10 && i < |LocatorHeights(h, 1, size)|
    ensures i <= 10 - size ==> LocatorHeights(h, 1, size)[i] == Max(0, h - i)
    ensures i > 10 - size ==> LocatorHeights(h, 1, size)[i] == Max(0, h - (9 - size + Pow2(i - (10 - size))))
    decreases 10 - size
  {
    if size == 10 {
      assert Pow2(0) == 1;
      DoublingHeights(h, 0, 10, i);
    } else if i > 0 {
      SingleHeights(h - 1, size + 1, i - 1);
    }
  }

  /** The first eleven heights go down one by one, the steps after that double: entry i is 9 + 2^(i - 10) below the
      start, and genesis ends the list. */
  lemma LocatorHeightIs(h: nat, i: nat)
    requires i < |LocatorHeights(h, 1, 0)|
    ensures LocatorHeights(h, 1, 0)[i] == Max(0, if i <= 10 then h - i else h - 9 - Pow2(i - 10))
    ensures LocatorHeights(h, 1, 0)[i] == 0 <==> i == |LocatorHeights(h, 1, 0)| - 1
  {
    SingleHeights(h, 0, i);
    LocatorFalls(h, 1, 0);
  }
}
