/** The block tree with its skip pointers (`CBlockIndex`) and the active chain (`CChain`). */
module Chain {
  import Limbs
  import opened SkipHeights

  // ---- the tree ----

  class BlockIndex {
    const pprev: BlockIndex?
    const nHeight: nat
    var pskip: BlockIndex?
    /** This block and all its predecessors. */
    ghost const Line: set<BlockIndex>

    /** The line of predecessors reaches a block of height zero. */
    ghost predicate Rooted()
      decreases nHeight
    {
      if pprev == null then nHeight == 0 && Line == {this}
      else
        && nHeight == pprev.nHeight + 1 && Line == {this} + pprev.Line && this !in pprev.Line
        && pprev.Rooted()
    }

    /** Following `pprev` down to height `h`. */
    ghost function Ancestor(h: nat): (b: BlockIndex)
      requires Rooted() && h <= nHeight
      ensures b.Rooted() && b.nHeight == h
      decreases nHeight
    {
      if h == nHeight then this else pprev.Ancestor(h)
    }

    lemma AncestorOfAncestor(g: nat, h: nat)
      requires Rooted() && g <= h <= nHeight
      ensures Ancestor(h).Ancestor(g) == Ancestor(g)
      decreases nHeight
    {
      if h < nHeight { pprev.AncestorOfAncestor(g, h); }
    }

    /** A skip pointer that has been built points to the ancestor it should. */
    ghost predicate SkipOk()
      requires Rooted()
      reads this
    {
      pskip == null || pskip == Ancestor(GetSkipHeight(nHeight))
    }

    ghost predicate Valid()
      reads Line
      decreases nHeight
    {
      Rooted() && this in Line && SkipOk() && (pprev != null ==> pprev.Valid())
    }

    lemma AncestorValid(h: nat)
      requires Valid() && h <= nHeight
      ensures Ancestor(h).Valid()
      decreases nHeight
    {
      if h < nHeight { pprev.AncestorValid(h); }
    }

    /** All skip pointers of the line have been built. */
    ghost predicate AllBuilt()
      reads Line
      decreases nHeight
    {
      Rooted() && (pprev != null ==> this in Line && pskip != null && pprev.AllBuilt())
    }

    lemma AncestorBuilt(h: nat)
      requires AllBuilt() && h <= nHeight
      ensures Ancestor(h).AllBuilt()
      decreases nHeight
    {
      if h < nHeight { pprev.AncestorBuilt(h); }
    }

    constructor (pprev: BlockIndex?)
      requires pprev != null ==> pprev.Valid()
      ensures Valid() && this.pprev == pprev && pskip == null
    {
      this.pprev := pprev;
      nHeight := if pprev == null then 0 else pprev.nHeight + 1;
      pskip := null;
      Line := {this} + if pprev == null then {} else pprev.Line;
    }

    /** The ancestor at a height, by skip pointers where they do not overshoot, and how many steps that took. */
    method GetAncestor(height: int) returns (r: BlockIndex?, ghost steps: nat)
      requires Valid()
      ensures r == if height > nHeight || height < 0 then null else Ancestor(height)
      ensures AllBuilt() && r != null ==> steps == Walk(nHeight, height)
      ensures AllBuilt() && nHeight < 0x4_0000 ==> steps <= 110
    {
      hide GetSkipHeight, Walk;
      steps := 0;
      if height > nHeight || height < 0 {
        return null, 0;
      }
      ghost var built := AllBuilt();
      if nHeight < 0x4_0000 { AtMost110(nHeight, height); }
      NoStep(height);
      var walk: BlockIndex := this;
      var heightWalk: nat := nHeight;
      while heightWalk > height
        invariant height <= heightWalk <= nHeight && walk == Ancestor(heightWalk)
        invariant built ==> steps + Walk(heightWalk, height) == Walk(nHeight, height)
      {
        AncestorValid(heightWalk);
        if built { AncestorBuilt(heightWalk); }
        OneStep(heightWalk, height);
        var heightSkip := GetSkipHeight(heightWalk);
        var heightSkipPrev := GetSkipHeight(heightWalk - 1);
        if walk.pskip != null &&
           (heightSkip == height ||
            (heightSkip > height && !(heightSkipPrev < heightSkip - 2 && heightSkipPrev >= height))) {
          AncestorOfAncestor(heightSkip, heightWalk);
          walk := walk.pskip;
          heightWalk := heightSkip;
        } else {
          AncestorOfAncestor(heightWalk - 1, heightWalk);
          assert walk.pprev == walk.Ancestor(heightWalk - 1);
          walk := walk.pprev;
          heightWalk := heightWalk - 1;
        }
        steps := steps + 1;
      }
      return walk, steps;
    }

    method BuildSkip()
      requires Valid()
      modifies this`pskip
      ensures Valid()
      ensures pprev != null ==> pskip == Ancestor(GetSkipHeight(nHeight))
    {
      if pprev != null {
        var skip, _ := pprev.GetAncestor(GetSkipHeight(nHeight));
        pskip := skip;
        assert SkipOk();
      }
    }
  }

  /** `b` is `a` or one of its ancestors. */
  ghost predicate OnLineOf(b: BlockIndex, a: BlockIndex)
    requires a.Rooted()
  {
    b.nHeight <= a.nHeight && b == a.Ancestor(b.nHeight)
  }

  // ---- the active chain ----

  class Chain {
    var vChain: seq<BlockIndex?>

    /** The vector holds the tip and its ancestors, each at its height. */
    ghost predicate Valid()
      reads this
    {
      vChain == [] || (vChain[|vChain| - 1] != null && Holds(vChain, vChain[|vChain| - 1]))
    }

    constructor ()
      ensures Valid() && vChain == []
    {
      vChain := [];
    }

    function Tip(): BlockIndex?
      reads this
    {
      if |vChain| > 0 then vChain[|vChain| - 1] else null
    }

    function At(height: int): BlockIndex?
      reads this
    {
      if height < 0 || height >= |vChain| then null else vChain[height]
    }

    predicate Contains(b: BlockIndex)
      reads this
    {
      At(b.nHeight) == b
    }

    /** Membership by one look at the vector is membership in the tip's line. */
    lemma ContainsIsOnLine(b: BlockIndex)
      requires Valid()
      ensures Contains(b) <==> vChain != [] && OnLineOf(b, vChain[|vChain| - 1])
    {
    }

    function Next(b: BlockIndex): BlockIndex?
      reads this
    {
      if Contains(b) then At(b.nHeight + 1) else null
    }

    /** The successor in the chain is the one whose predecessor the block is. */
    lemma NextSucceeds(b: BlockIndex)
      requires Valid()
      ensures Next(b) != null ==> Next(b).pprev == b && Contains(Next(b))
      ensures Next(b) == null <==> !Contains(b) || b == Tip()
    {
      if Next(b) != null {
        var tip := vChain[|vChain| - 1];
        tip.AncestorOfAncestor(b.nHeight, b.nHeight + 1);
        assert Next(b).pprev == Next(b).Ancestor(b.nHeight);
      }
    }

    function Height(): int
      reads this
    {
      |vChain| - 1
    }

    /** Makes `pindex` the tip.  The loop stops at the first block already in place: below it
        the old chain is right as it is. */
    method SetTip(pindex: BlockIndex?)
      requires Valid() && (pindex != null ==> pindex.Rooted())
      modifies this
      ensures Valid() && Tip() == pindex
      ensures pindex == null ==> vChain == []
      ensures pindex != null ==> Holds(vChain, pindex)
    {
      if pindex == null {
        vChain := [];
        return;
      }
      ghost var was := vChain;
      vChain := if |vChain| > pindex.nHeight + 1 then vChain[..pindex.nHeight + 1]
                else vChain + seq(pindex.nHeight + 1 - |vChain|, _ => null);
      var walk: BlockIndex? := pindex;
      while walk != null && vChain[walk.nHeight] != walk
        invariant |vChain| == pindex.nHeight + 1
        invariant walk != null ==> walk.Rooted() && walk.nHeight <= pindex.nHeight
        invariant walk != null ==> walk == pindex.Ancestor(walk.nHeight)
        invariant forall i | 0 <= i <= pindex.nHeight && (walk == null || i > walk.nHeight) ::
          vChain[i] == pindex.Ancestor(i)
        invariant walk != null ==> forall i | 0 <= i <= walk.nHeight ::
          vChain[i] == if i < |was| then was[i] else null
        decreases if walk == null then 0 else walk.nHeight + 1
      {
        vChain := vChain[walk.nHeight := walk];
        if walk.pprev != null {
          pindex.AncestorOfAncestor(walk.nHeight - 1, walk.nHeight);
          assert walk.pprev == walk.Ancestor(walk.nHeight - 1);
        }
        walk := walk.pprev;
      }
      if walk != null {
        var oldTip := was[|was| - 1];
        forall i | 0 <= i <= walk.nHeight ensures vChain[i] == pindex.Ancestor(i) {
          oldTip.AncestorOfAncestor(i, walk.nHeight);
          pindex.AncestorOfAncestor(i, walk.nHeight);
        }
      }
    }

    /** The blocks whose hashes a locator lists, from `b` (or the tip) back to the first block. */
    method GetLocator(b: BlockIndex?) returns (have: seq<BlockIndex>)
      requires Valid() && (b != null ==> b.Valid()) && (b == null && Tip() != null ==> Tip().Valid())
      ensures var start := if b == null then Tip() else b;
              if start == null then have == []
              else
                && |have| == |LocatorHeights(start.nHeight, 1, 0)|
                && forall i | 0 <= i < |have| ::
                     have[i].nHeight == LocatorHeights(start.nHeight, 1, 0)[i] && OnLineOf(have[i], start)
    {
      hide LocatorHeights;
      have := [];
      var start := if b == null then Tip() else b;
      if start == null {
        return;
      }
      var step: nat, walk: BlockIndex, more := 1, start, true;
      ghost var heights := LocatorHeights(start.nHeight, 1, 0);
      while more
        invariant step > 0 && walk.Rooted() && OnLineOf(walk, start)
        invariant forall i | 0 <= i < |have| :: OnLineOf(have[i], start)
        invariant more ==> heights == Heights(have) + LocatorHeights(walk.nHeight, step, |have|)
        invariant !more ==> heights == Heights(have)
        decreases more, walk.nHeight
      {
        LocatorUnfold(Heights(have), walk.nHeight, step, |have|);
        ghost var was := Heights(have);
        have := have + [walk];
        assert Heights(have) == was + [walk.nHeight];
        if walk.nHeight == 0 {
          more := false;
        } else {
          var height := if walk.nHeight < step then 0 else walk.nHeight - step;
          start.AncestorValid(walk.nHeight);
          start.AncestorOfAncestor(height, walk.nHeight);
          walk := StepBack(walk, height);
          if |have| > 10 {
            step := step * 2;
          }
        }
      }
    }

    /** An ancestor, straight from the vector if the block is in the chain. */
    method StepBack(b: BlockIndex, height: nat) returns (r: BlockIndex)
      requires Valid() && b.Valid() && height <= b.nHeight
      ensures r == b.Ancestor(height)
    {
      if Contains(b) {
        vChain[|vChain| - 1].AncestorOfAncestor(height, b.nHeight);
        r := At(height);
      } else {
        var up, _ := b.GetAncestor(height);
        r := up;
      }
    }

    /** The highest block of this chain on `b`'s line, or null if the lines never meet. */
    method FindFork(b: BlockIndex?) returns (r: BlockIndex?)
      requires Valid() && (b != null ==> b.Valid())
      ensures b == null ==> r == null
      ensures b != null && r != null ==> Contains(r) && OnLineOf(r, b)
      ensures b != null ==> forall h: nat | h <= b.nHeight && (r == null || h > r.nHeight) :: !Contains(b.Ancestor(h))
    {
      if b == null {
        return null;
      }
      r := b;
      if b.nHeight > Height() {
        var up, _ := b.GetAncestor(Height());
        r := up;
      }
      while r != null && !Contains(r)
        invariant r != null ==> r.Rooted() && OnLineOf(r, b)
        invariant forall h: nat | h <= b.nHeight && (r == null || h > r.nHeight) :: !Contains(b.Ancestor(h))
        decreases if r == null then 0 else r.nHeight + 1
      {
        if r.pprev != null {
          b.AncestorOfAncestor(r.nHeight - 1, r.nHeight);
          assert r.pprev == r.Ancestor(r.nHeight - 1);
        }
        r := r.pprev;
      }
    }
  }

  // ---- locators ----

  ghost function Heights(blocks: seq<BlockIndex>): seq<nat> {
    seq(|blocks|, i requires 0 <= i < |blocks| => blocks[i].nHeight)
  }

  /** The heights a locator lists: the block itself, then steps back that start to double after
      ten entries, then the first block. */
  function LocatorHeights(height: nat, step: nat, count: nat): seq<nat>
    requires step > 0
    decreases height
  {
    [height] +
    if height == 0 then []
    else LocatorHeights(if height < step then 0 else height - step,
                        if count + 1 > 10 then 2 * step else step, count + 1)
  }

  lemma {:induction false} LocatorUnfold(before: seq<nat>, height: nat, step: nat, count: nat)
    requires step > 0
    ensures before + LocatorHeights(height, step, count) ==
            if height == 0 then before + [height]
            else before + [height] + LocatorHeights(if height < step then 0 else height - step,
                                                    if count + 1 > 10 then 2 * step else step, count + 1)
  {
  }

  lemma {:induction false} LocatorShape(height: nat, step: nat, count: nat)
    requires step > 0
    ensures var hs := LocatorHeights(height, step, count);
            && hs[0] == height && hs[|hs| - 1] == 0
            && forall i | 0 <= i < |hs| - 1 :: hs[i + 1] < hs[i]
    decreases height
  {
    if height > 0 {
      var next := if height < step then 0 else height - step;
      LocatorShape(next, if count + 1 > 10 then 2 * step else step, count + 1);
    }
  }

  lemma {:induction false} DoublingIsShort(height: nat, step: nat, count: nat, k: nat)
    requires step > 0 && count >= 10 && height <= step * (Limbs.Pow2(k) - 1)
    ensures |LocatorHeights(height, step, count)| <= k + 1
    decreases height
  {
    if height > 0 {
      var next := if height < step then 0 else height - step;
      if k > 0 {
        assert step * (2 * Limbs.Pow2(k - 1) - 1) == 2 * step * (Limbs.Pow2(k - 1) - 1) + step;
        assert 2 * step * (Limbs.Pow2(k - 1) - 1) >= 0;
        DoublingIsShort(next, 2 * step, count + 1, k - 1);
      }
    }
  }

  /** A locator has at most eleven entries plus one for every bit of the height. */
  /** Once the steps double, the heights but the last fall by step, 2 * step, 4 * step and so on. */
  lemma {:induction false} DoublingHeights(height: nat, step: nat, count: nat, i: nat)
    requires step > 0 && count >= 10 && i + 1 < |LocatorHeights(height, step, count)|
    ensures LocatorHeights(height, step, count)[i] == height - step * (Limbs.Pow2(i) - 1)
    decreases height
  {
    if i > 0 {
      DoublingHeights(if height < step then 0 else height - step, 2 * step, count + 1, i - 1);
      assert step * (Limbs.Pow2(i) - 1) == step + 2 * step * (Limbs.Pow2(i - 1) - 1);
    }
  }

  /** All heights of a locator but the last: the first twelve follow each other, then the gaps are 2, 4, 8, ... */
  lemma {:induction false} LocatorExact(height: nat, count: nat, i: nat)
    requires count <= 10 && i + 1 < |LocatorHeights(height, 1, count)|
    ensures LocatorHeights(height, 1, count)[i]
            == height - if count + i <= 10 then i else 9 - count + Limbs.Pow2(count + i - 10)
    decreases height
  {
    if count == 10 {
      DoublingHeights(height, 1, count, i);
    } else if i > 0 {
      LocatorExact(height - 1, count + 1, i - 1);
    }
  }

  lemma {:induction false} LocatorIsShort(height: nat, count: nat, k: nat)
    requires height < Limbs.Pow2(k) && count <= 10
    ensures |LocatorHeights(height, 1, count)| <= 11 - count + k
    decreases height
  {
    if count == 10 {
      DoublingIsShort(height, 1, count, k);
    } else if height > 0 {
      LocatorIsShort(height - 1, count + 1, k);
    }
  }

  ghost predicate Holds(v: seq<BlockIndex?>, tip: BlockIndex) {
    tip.Rooted() && |v| == tip.nHeight + 1 && forall i | 0 <= i < |v| :: v[i] == tip.Ancestor(i)
  }

  /** The highest block two lines share, or null if they have different first blocks. */
  method LastCommonAncestor(a: BlockIndex, b: BlockIndex) returns (r: BlockIndex?)
    requires a.Valid() && b.Valid()
    ensures r != null ==> OnLineOf(r, a) && OnLineOf(r, b)
    ensures forall h: nat | h <= a.nHeight && h <= b.nHeight && (r == null || h > r.nHeight) ::
              a.Ancestor(h) != b.Ancestor(h)
  {
    var pa: BlockIndex?, pb: BlockIndex? := a, b;
    if a.nHeight > b.nHeight {
      var up, _ := a.GetAncestor(b.nHeight);
      pa := up;
    } else if b.nHeight > a.nHeight {
      var up, _ := b.GetAncestor(a.nHeight);
      pb := up;
    }
    while pa != pb && pa != null && pb != null
      invariant (pa == null) == (pb == null)
      invariant pa != null && pb != null ==>
        pa.Rooted() && pb.Rooted() && pa.nHeight == pb.nHeight && OnLineOf(pa, a) && OnLineOf(pb, b)
      invariant forall h: nat | h <= a.nHeight && h <= b.nHeight && (pa == null || h > pa.nHeight) ::
        a.Ancestor(h) != b.Ancestor(h)
      decreases if pa == null then 0 else pa.nHeight + 1
    {
      if pa.pprev != null && pb.pprev != null {
        a.AncestorOfAncestor(pa.nHeight - 1, pa.nHeight);
        b.AncestorOfAncestor(pb.nHeight - 1, pb.nHeight);
        assert pa.pprev == pa.Ancestor(pa.nHeight - 1) && pb.pprev == pb.Ancestor(pb.nHeight - 1);
      }
      pa, pb := pa.pprev, pb.pprev;
    }
    assert pa == pb;
    r := pa;
  }
}
