/** The block index with its skip list, and the active chain (src/chain.cpp, src/chain.h). */
module Chain {
  import opened Numbers
  import opened SkipList

  // ---- The block index

  /** A block's place in the tree of blocks is fixed when it is created; its skip pointer is set by BuildSkip. */
  class BlockIndex {
    const nHeight: nat
    const pprev: BlockIndex?
    var pskip: BlockIndex?

    constructor (pprev: BlockIndex?)
      requires pprev != null ==> Rooted(pprev)
      ensures this.pprev == pprev && pskip == null && Rooted(this)
    {
      this.pprev := pprev;
      nHeight := if pprev == null then 0 else pprev.nHeight + 1;
      pskip := null;
    }

    /** The ancestor at a height, following skip pointers where they help, in the turns that Turns counts. */
    method GetAncestor(height: int) returns (r: BlockIndex?, ghost turns: nat)
      requires Rooted(this) && Skips(this)
      ensures r == if 0 <= height <= nHeight then AncestorAt(this, height) else null
      ensures 0 <= height <= nHeight && AllBuilt(this) ==> turns == Turns(nHeight, height)
    {
      hide Turns, GetSkipHeight;
      turns := 0;
      if height > nHeight || height < 0 {
        return null, turns;
      }
      ghost var built := AllBuilt(this);
      var walk: BlockIndex := this;
      var heightWalk: int := nHeight;
      while heightWalk > height
        invariant height <= heightWalk <= nHeight && walk == AncestorAt(this, heightWalk) && Skips(walk)
        invariant built == AllBuilt(this)
        invariant built ==> AllBuilt(walk) && turns + Turns(heightWalk, height) == Turns(nHeight, height)
        decreases heightWalk
      {
        turns := turns + 1;
        TurnsNext(heightWalk, height);
        var heightSkip := GetSkipHeight(heightWalk);
        var heightSkipPrev := GetSkipHeight(heightWalk - 1);
        if walk.pskip != null &&
           (heightSkip == height ||
            (heightSkip > height && !(heightSkipPrev < heightSkip - 2 && heightSkipPrev >= height)))
        {
          AncestorOfAncestor(this, heightWalk, heightSkip);
          SkipsBelow(walk, heightSkip);
          if built {
            BuiltBelow(walk, heightSkip);
          }
          walk := walk.pskip;
          heightWalk := heightSkip;
        } else {
          assert walk.pprev != null;
          AncestorOfAncestor(this, heightWalk, heightWalk - 1);
          walk := walk.pprev;
          heightWalk := heightWalk - 1;
        }
      }
      TurnsEnd(heightWalk);
      r := walk;
    }

    method BuildSkip()
      requires Rooted(this) && (pprev != null ==> Skips(pprev)) && (pprev == null ==> pskip == null)
      modifies this`pskip
      ensures Skips(this)
      ensures pprev != null ==> pskip == AncestorAt(this, GetSkipHeight(nHeight))
      ensures (pprev != null ==> old(AllBuilt(pprev))) ==> AllBuilt(this)
    {
      if pprev != null {
        LineBelow(pprev);
        LineAllocated(pprev);
        ghost var turns;
        pskip, turns := pprev.GetAncestor(GetSkipHeight(nHeight));
      }
    }
  }

  /** Heights count down by one to a block without predecessor at height 0. */
  ghost predicate Rooted(b: BlockIndex)
    decreases b.nHeight
  {
    if b.pprev == null then b.nHeight == 0 else b.nHeight == b.pprev.nHeight + 1 && Rooted(b.pprev)
  }

  /** The ancestor at a height by walking predecessors. */
  ghost function AncestorAt(b: BlockIndex, height: nat): (a: BlockIndex)
    requires Rooted(b) && height <= b.nHeight
    ensures Rooted(a) && a.nHeight == height
    decreases b.nHeight
  {
    if height == b.nHeight then b else AncestorAt(b.pprev, height)
  }

  ghost predicate IsAncestor(a: BlockIndex, b: BlockIndex)
    requires Rooted(b)
  {
    a.nHeight <= b.nHeight && AncestorAt(b, a.nHeight) == a
  }

  lemma {:induction false} AncestorOfAncestor(b: BlockIndex, mid: nat, height: nat)
    requires Rooted(b) && height <= mid <= b.nHeight
    ensures AncestorAt(AncestorAt(b, mid), height) == AncestorAt(b, height)
    decreases b.nHeight
  {
    if mid < b.nHeight {
      AncestorOfAncestor(b.pprev, mid, height);
    }
  }

  /** A block and all its ancestors. */
  ghost function Line(b: BlockIndex): set<BlockIndex>
    requires Rooted(b)
    decreases b.nHeight
  {
    {b} + if b.pprev == null then {} else Line(b.pprev)
  }

  lemma {:induction false} LineBelow(b: BlockIndex)
    requires Rooted(b)
    ensures forall x :: x in Line(b) ==> x.nHeight <= b.nHeight
    decreases b.nHeight
  {
    if b.pprev != null {
      LineBelow(b.pprev);
    }
  }

  lemma {:induction false} LineAllocated(b: BlockIndex)
    requires Rooted(b)
    ensures forall x :: x in Line(b) ==> allocated(x)
    decreases b.nHeight
  {
    if b.pprev != null {
      LineAllocated(b.pprev);
    }
  }

  /** Every skip pointer on the line is either unset or what BuildSkip sets it to. */
  ghost predicate Skips(b: BlockIndex)
    requires Rooted(b)
    reads Line(b)
    decreases b.nHeight
  {
    && (b.pskip == null || (b.pprev != null && b.pskip == AncestorAt(b, GetSkipHeight(b.nHeight))))
    && (b.pprev != null ==> Skips(b.pprev))
  }

  lemma {:induction false} SkipsBelow(b: BlockIndex, height: nat)
    requires Rooted(b) && Skips(b) && height <= b.nHeight
    ensures Skips(AncestorAt(b, height))
    decreases b.nHeight
  {
    if height < b.nHeight {
      SkipsBelow(b.pprev, height);
    }
  }

  /** BuildSkip has run on every block of the line. */
  ghost predicate AllBuilt(b: BlockIndex)
    requires Rooted(b)
    reads Line(b)
    decreases b.nHeight
  {
    b.pprev != null ==> b.pskip != null && AllBuilt(b.pprev)
  }

  lemma {:induction false} BuiltBelow(b: BlockIndex, height: nat)
    requires Rooted(b) && AllBuilt(b) && height <= b.nHeight
    ensures AllBuilt(AncestorAt(b, height))
    decreases b.nHeight
  {
    if height < b.nHeight {
      BuiltBelow(b.pprev, height);
    }
  }

  // ---- The last common ancestor

  ghost predicate SharedAt(a: BlockIndex, b: BlockIndex, height: nat)
    requires Rooted(a) && Rooted(b)
  {
    height <= a.nHeight && height <= b.nHeight && AncestorAt(a, height) == AncestorAt(b, height)
  }

  /** r is the highest block that both lines share, or null when they share none. */
  ghost predicate HighestShared(a: BlockIndex, b: BlockIndex, r: BlockIndex?)
    requires Rooted(a) && Rooted(b)
  {
    if r == null then forall h: nat :: !SharedAt(a, b, h)
    else IsAncestor(r, a) && IsAncestor(r, b) && forall h: nat :: SharedAt(a, b, h) ==> h <= r.nHeight
  }

  /** Two lines that meet at a height stay together below it. */
  lemma SharedBelow(a: BlockIndex, b: BlockIndex, mid: nat, height: nat)
    requires Rooted(a) && Rooted(b) && SharedAt(a, b, mid) && height <= mid
    ensures SharedAt(a, b, height)
  {
    AncestorOfAncestor(a, mid, height);
    AncestorOfAncestor(b, mid, height);
  }

  method LastCommonAncestor(a: BlockIndex, b: BlockIndex) returns (r: BlockIndex?)
    requires Rooted(a) && Rooted(b) && Skips(a) && Skips(b)
    ensures HighestShared(a, b, r)
  {
    var pa: BlockIndex? := a;
    var pb: BlockIndex? := b;
    ghost var turns;
    LineAllocated(a);
    LineAllocated(b);
    if a.nHeight > b.nHeight {
      pa, turns := a.GetAncestor(b.nHeight);
    } else if b.nHeight > a.nHeight {
      pb, turns := b.GetAncestor(a.nHeight);
    }
    ghost var h: int := pa.nHeight;
    SkipsBelow(a, h);
    SkipsBelow(b, h);
    while pa != pb && pa != null && pb != null
      invariant -1 <= h <= a.nHeight && h <= b.nHeight
      invariant if h == -1 then pa == null && pb == null
                else pa == AncestorAt(a, h) && pb == AncestorAt(b, h) && Skips(pa) && Skips(pb)
      invariant forall k: nat :: SharedAt(a, b, k) ==> k <= h
      decreases h
    {
      if pa.pskip != null && pb.pskip != null && pa.pskip != pb.pskip {
        ghost var skip := GetSkipHeight(h);
        AncestorOfAncestor(a, h, skip);
        AncestorOfAncestor(b, h, skip);
        SkipsBelow(pa, skip);
        SkipsBelow(pb, skip);
        NoneSharedAbove(a, b, skip);
        pa, pb := pa.pskip, pb.pskip;
        assert pa.nHeight == pb.nHeight;
        h := skip;
      } else {
        NoneSharedAbove(a, b, h);
        if h > 0 {
          AncestorOfAncestor(a, h, h - 1);
          AncestorOfAncestor(b, h, h - 1);
        }
        pa, pb := pa.pprev, pb.pprev;
        h := h - 1;
      }
    }
    assert pa == pb;
    return pa;
  }

  lemma NoneSharedAbove(a: BlockIndex, b: BlockIndex, height: nat)
    requires Rooted(a) && Rooted(b) && !SharedAt(a, b, height)
    ensures forall k: nat :: SharedAt(a, b, k) ==> k < height
  {
    forall k: nat | SharedAt(a, b, k)
      ensures k < height
    {
      if k >= height {
        SharedBelow(a, b, k, height);
      }
    }
  }

  method AreOnTheSameFork(a: BlockIndex, b: BlockIndex) returns (same: bool)
    requires Rooted(a) && Rooted(b) && Skips(a) && Skips(b)
    ensures same <==> IsAncestor(a, b) || IsAncestor(b, a)
  {
    var pa: BlockIndex? := a;
    var pb: BlockIndex? := b;
    ghost var turns;
    if a.nHeight > b.nHeight {
      pa, turns := a.GetAncestor(b.nHeight);
    } else if b.nHeight > a.nHeight {
      pb, turns := b.GetAncestor(a.nHeight);
    }
    return pa == pb;
  }

  // ---- The active chain

  /** The blocks up to a tip, by height. */
  ghost function Blocks(tip: BlockIndex): (s: seq<BlockIndex?>)
    requires Rooted(tip)
    ensures |s| == tip.nHeight + 1
    ensures forall i :: 0 <= i <= tip.nHeight ==> s[i] == AncestorAt(tip, i)
    decreases tip.nHeight
  {
    if tip.pprev == null then [tip] else Blocks(tip.pprev) + [tip]
  }

  function Resized(s: seq<BlockIndex?>, n: nat): (r: seq<BlockIndex?>)
    ensures |r| == n && forall i :: 0 <= i < n ==> r[i] == if i < |s| then s[i] else null
  {
    if |s| >= n then s[..n] else s + seq(n - |s|, i => null)
  }

  lemma AtItself(b: BlockIndex)
    requires Rooted(b)
    ensures AncestorAt(b, b.nHeight) == b
  {
  }

  lemma PrevAt(b: BlockIndex, h: nat)
    requires Rooted(b) && h <= b.nHeight
    ensures AncestorAt(b, h).pprev == if h == 0 then null else AncestorAt(b, h - 1)
  {
    if h > 0 {
      AncestorOfAncestor(b, h, h - 1);
    }
  }

  lemma MeetAt(a: BlockIndex, b: BlockIndex, h: nat)
    requires Rooted(a) && Rooted(b) && h <= a.nHeight && h <= b.nHeight && AncestorAt(a, h) == AncestorAt(b, h)
    ensures SharedAt(a, b, h)
  {
  }

  lemma SameBelow(a: BlockIndex, b: BlockIndex, h: nat)
    requires Rooted(a) && Rooted(b) && SharedAt(a, b, h)
    ensures forall i :: 0 <= i <= h ==> AncestorAt(a, i) == AncestorAt(b, i)
  {
    forall i | 0 <= i <= h
      ensures AncestorAt(a, i) == AncestorAt(b, i)
    {
      SharedBelow(a, b, h, i);
    }
  }

  class CChain {
    var vChain: seq<BlockIndex?>

    /** The chain is empty or holds exactly the line of its last block. */
    ghost predicate Valid()
      reads this
    {
      vChain == [] ||
      (var tip := vChain[|vChain| - 1]; tip != null && Rooted(tip) && vChain == Blocks(tip))
    }

    constructor ()
      ensures Valid() && vChain == []
    {
      vChain := [];
    }

    function Tip(): BlockIndex?
      reads this
    {
      if |vChain| > 0 then vChain[|vChain| - 1] else null
    }

    function At(height: int): BlockIndex?
      reads this
    {
      if height < 0 || height >= |vChain| then null else vChain[height]
    }

    predicate Contains(b: BlockIndex)
      reads this
    {
      At(b.nHeight) == b
    }

    function Next(b: BlockIndex): BlockIndex?
      reads this
    {
      if Contains(b) then At(b.nHeight + 1) else null
    }

    function Height(): int
      reads this
    {
      |vChain| - 1
    }

    /** A block is in the chain exactly when it is an ancestor of the tip. */
    lemma ContainsExactly(b: BlockIndex)
      requires Valid()
      ensures Contains(b) <==> Tip() != null && IsAncestor(b, Tip())
    {
    }

    /** The block after one in the chain has it as predecessor; only the tip has none. */
    lemma NextFollows(b: BlockIndex)
      requires Valid() && Contains(b)
      ensures if b == Tip() then Next(b) == null else Next(b) != null && Contains(Next(b)) && Next(b).pprev == b
    {
      var tip := Tip();
      if b != tip {
        AncestorOfAncestor(tip, b.nHeight + 1, b.nHeight);
      }
    }

    /** Walks back only to where the new line meets the old one. */
    method SetTip(b: BlockIndex?)
      requires Valid() && (b != null ==> Rooted(b))
      modifies this
      ensures Valid() && Tip() == b
      ensures vChain == if b == null then [] else Blocks(b)
    {
      if b == null {
        vChain := [];
        return;
      }
      hide AncestorAt, Blocks, Rooted, Resized, SharedAt;
      ghost var old_ := vChain;
      var size := b.nHeight + 1;
      vChain := Resized(vChain, size);
      var walk: BlockIndex? := b;
      ghost var h: int := b.nHeight;
      AtItself(b);
      while walk != null && vChain[walk.nHeight] != walk
        invariant |vChain| == size && -1 <= h < size
        invariant if h == -1 then walk == null else walk == AncestorAt(b, h)
        invariant forall i :: h < i < size ==> vChain[i] == AncestorAt(b, i)
        invariant forall i :: 0 <= i <= h ==> vChain[i] == if i < |old_| then old_[i] else null
        decreases h
      {
        vChain := vChain[walk.nHeight := walk];
        PrevAt(b, h);
        walk := walk.pprev;
        h := h - 1;
      }
      if h >= 0 {
        MeetAt(old_[|old_| - 1], b, h);
        SameBelow(old_[|old_| - 1], b, h);
      }
      assert vChain == Blocks(b);
    }

    /** The highest block of the chain that b descends from. */
    method FindFork(b: BlockIndex?) returns (r: BlockIndex?)
      requires Valid() && (b != null ==> Rooted(b) && Skips(b))
      ensures b == null ==> r == null
      ensures b != null && r == null ==> forall h: nat :: h <= b.nHeight ==> !Contains(AncestorAt(b, h))
      ensures b != null && r != null ==>
        && Contains(r) && IsAncestor(r, b)
        && forall h: nat :: h <= b.nHeight && Contains(AncestorAt(b, h)) ==> h <= r.nHeight
    {
      if b == null {
        return null;
      }
      r := b;
      if b.nHeight > Height() {
        ghost var turns;
        r, turns := b.GetAncestor(Height());
      }
      ghost var h: int := if b.nHeight > Height() then Height() else b.nHeight;
      while r != null && !Contains(r)
        invariant -1 <= h <= b.nHeight && (if h == -1 then r == null else r == AncestorAt(b, h))
        invariant forall k: nat :: h < k <= b.nHeight ==> !Contains(AncestorAt(b, k))
        decreases h
      {
        if h > 0 {
          AncestorOfAncestor(b, h, h - 1);
        }
        r := r.pprev;
        h := h - 1;
      }
    }

    /** An ancestor from the chain's own index if it can serve, otherwise from the skip list. */
    method AncestorOf(b: BlockIndex, height: nat) returns (r: BlockIndex)
      requires Valid() && Rooted(b) && Skips(b) && height <= b.nHeight
      ensures r == AncestorAt(b, height) && Skips(r)
    {
      LineAllocated(b);
      SkipsBelow(b, height);
      if Contains(b) {
        AncestorOfAncestor(Tip(), b.nHeight, height);
        r := At(height);
      } else {
        ghost var turns;
        r, turns := b.GetAncestor(height);
        SkipsBelow(b, height);
      }
    }

    /** Blocks at exponentially growing distances back from b, or from the tip, ending with the genesis block. */
    method GetLocator(b: BlockIndex?) returns (have: seq<BlockIndex>)
      requires Valid() && (b != null ==> Rooted(b) && Skips(b)) && (b == null && Tip() != null ==> Skips(Tip()))
      ensures
        var start := if b == null then Tip() else b;
        if start == null then have == [] else
          && Rooted(start) && IsLocator(start, have)
          && (|have| > 12 ==> Pow2(|have| - 12) < start.nHeight)
    {
      hide Spaced, IsLocator, BackTo, Skips, StepOf, Pow2;
      var step := 1;
      have := [];
      var walk: BlockIndex? := b;
      if b == null {
        walk := Tip();
      }
      if walk == null {
        return;
      }
      ghost var start: BlockIndex := walk;
      LocatorStart(start);
      while walk != null
        invariant walk != null && Rooted(start) && IsAncestor(walk, start) && Skips(walk)
        invariant |have| > 0 ==> have[|have| - 1].nHeight > 0
        invariant walk.nHeight == BackTo(start.nHeight, |have|)
        invariant step == StepOf(|have|)
        invariant Spaced(start, have)
        decreases walk.nHeight
      {
        SpacedNext(start, have, walk);
        have := have + [walk];
        if walk.nHeight == 0 {
          LocatorBound(start, have);
          return;
        }
        var height := if walk.nHeight - step > 0 then walk.nHeight - step else 0;
        BackStep(start.nHeight, |have| - 1);
        AncestorOfAncestor(start, walk.nHeight, height);
        walk := AncestorOf(walk, height);
        if |have| > 10 {
          step := step * 2;
        }
      }
    }
  }

  /** The step after k entries. */
  function StepOf(k: nat): (step: nat)
    ensures step >= 1
  {
    if k <= 10 then 1 else Pow2(k - 10)
  }

  /** How far back from the start the k-th entry of a locator lies. */
  function Back(k: nat): nat {
    if k <= 11 then k else 9 + Pow2(k - 10)
  }

  function BackTo(height: nat, k: nat): nat {
    if Back(k) < height then height - Back(k) else 0
  }

  /** The entries so far are ancestors of the start at the prescribed distances. */
  ghost predicate Spaced(start: BlockIndex, have: seq<BlockIndex>)
    requires Rooted(start)
  {
    forall i :: 0 <= i < |have| ==> IsAncestor(have[i], start) && have[i].nHeight == BackTo(start.nHeight, i)
  }

  lemma LocatorStart(start: BlockIndex)
    requires Rooted(start)
    ensures Spaced(start, []) && BackTo(start.nHeight, 0) == start.nHeight && StepOf(0) == 1
  {
  }

  lemma SpacedNext(start: BlockIndex, have: seq<BlockIndex>, b: BlockIndex)
    requires Rooted(start) && Spaced(start, have) && IsAncestor(b, start) && b.nHeight == BackTo(start.nHeight, |have|)
    ensures Spaced(start, have + [b])
  {
    hide IsAncestor, BackTo;
  }

  ghost predicate IsLocator(start: BlockIndex, have: seq<BlockIndex>)
    requires Rooted(start)
  {
    && |have| >= 1 && have[0] == start && have[|have| - 1].nHeight == 0
    && Spaced(start, have)
    && forall i, j :: 0 <= i < j < |have| ==> have[i].nHeight > have[j].nHeight
  }

  lemma BackStep(height: nat, k: nat)
    ensures StepOf(k + 1) == if k + 1 > 10 then 2 * StepOf(k) else StepOf(k)
    ensures
      var step := StepOf(k);
      BackTo(height, k + 1) == if BackTo(height, k) - step > 0 then BackTo(height, k) - step else 0
  {
    if k == 11 {
      assert Pow2(2) == 4;
    }
  }

  lemma {:induction false} BackGrows(i: nat, j: nat)
    requires i < j
    ensures Back(i) < Back(j)
    decreases j
  {
    assert Pow2(1) == 2;
    if i < j - 1 {
      BackGrows(i, j - 1);
    }
  }

  lemma LocatorBound(start: BlockIndex, have: seq<BlockIndex>)
    requires Rooted(start) && Spaced(start, have) && |have| >= 1 && have[|have| - 1].nHeight == 0
    requires |have| > 1 ==> have[|have| - 2].nHeight > 0
    ensures IsLocator(start, have) && (|have| > 12 ==> Pow2(|have| - 12) < start.nHeight)
  {
    forall i, j | 0 <= i < j < |have|
      ensures have[i].nHeight > have[j].nHeight
    {
      BackGrows(i, j);
      if i < |have| - 2 {
        BackGrows(i, |have| - 2);
      }
    }
  }
}
