/**
 How many flag bits a partial Merkle tree takes. The comment on the format
 (src/merkleblock.h) promises at most 2N - 1 of them for N stored hashes;
 every explored node with a single child adds one more.
 */
module MerkleSize {
  import opened Numbers
  import opened MerkleTree
  import opened MerkleProof

  /** Nodes that are explored and have a left child only. */
  function Lone(mask: seq<bool>, height: nat, pos: nat): nat
    decreases height
  {
    if Below(mask, height, pos) == [] || height == 0 then 0
    else
      Lone(mask, height - 1, 2 * pos) +
      if 2 * pos + 1 < Width(|mask|, height - 1) then Lone(mask, height - 1, 2 * pos + 1) else 1
  }

  /** The exact number of flag bits. */
  lemma {:induction false} BitsCounted(hash: PairHash, txids: seq<Hash>, mask: seq<bool>, height: nat, pos: nat)
    ensures |Bits(mask, height, pos)| + 1 == 2 * |Hashes(hash, txids, mask, height, pos)| + Lone(mask, height, pos)
    decreases height
  {
    hide Width, NodeHash, Below;
    if Below(mask, height, pos) != [] && height > 0 {
      BitsCounted(hash, txids, mask, height - 1, 2 * pos);
      if 2 * pos + 1 < Width(|mask|, height - 1) {
        BitsCounted(hash, txids, mask, height - 1, 2 * pos + 1);
      }
    }
  }

  /** There is at most one such node on each level, and none below a full node. */
  lemma {:induction false} LoneBound(mask: seq<bool>, height: nat, pos: nat)
    requires |mask| < UINT32 && InTree(|mask|, height, pos)
    ensures Lone(mask, height, pos) <= height
    ensures First(height, pos + 1) <= |mask| ==> Lone(mask, height, pos) == 0
    decreases height
  {
    hide Width, Pow2, First, InTree, Below;
    if Below(mask, height, pos) != [] && height > 0 {
      Children(|mask|, height, pos);
      FirstSplit(height, pos);
      FirstSplit(height - 1, 2 * pos);
      FirstSplit(height - 1, 2 * pos + 1);
      LoneBound(mask, height - 1, 2 * pos);
      if 2 * pos + 1 < Width(|mask|, height - 1) {
        LoneBound(mask, height - 1, 2 * pos + 1);
      }
    }
  }

  /** The bits never exceed 2N - 1 by more than the height of the tree. */
  lemma BitsBound(hash: PairHash, txids: seq<Hash>, mask: seq<bool>)
    requires 1 <= |mask| < UINT32
    ensures
      var top := HeightFrom(|mask|, 0);
      |Bits(mask, top, 0)| <= 2 * |Hashes(hash, txids, mask, top, 0)| - 1 + top
  {
    hide Bits, Hashes, Lone, InTree;
    TopInTree(|mask|);
    LoneBound(mask, HeightFrom(|mask|, 0), 0);
    BitsCounted(hash, txids, mask, HeightFrom(|mask|, 0), 0);
  }

  // ---- When the promise is kept

  /** A node of the tree over n transactions whose right half is empty. */
  predicate SingleChild(n: nat, height: nat, pos: nat) {
    height > 0 && First(height, pos) < n <= First(height - 1, 2 * pos + 1)
  }

  /** Node q on level h lies in the subtree of a node. */
  predicate InSubtree(height: nat, pos: nat, h: nat, q: nat) {
    h <= height && First(height, pos) <= First(h, q) < First(height, pos + 1)
  }

  /** No selected transaction lies below a node with a single child. */
  ghost predicate Quiet(mask: seq<bool>, height: nat, pos: nat) {
    forall h: nat, q: nat :: InSubtree(height, pos, h, q) && SingleChild(|mask|, h, q) ==> Below(mask, h, q) == []
  }

  lemma InItself(height: nat, pos: nat)
    ensures InSubtree(height, pos, height, pos)
    ensures forall q: nat :: InSubtree(height, pos, height, q) ==> q == pos
  {
    hide Pow2;
    FirstSplit(height, pos);
    forall q: nat | InSubtree(height, pos, height, q)
      ensures q == pos
    {
      InOrder(pos, q + 1, height);
      InOrder(q, pos + 1, height);
    }
  }

  lemma InOrder(a: nat, b: nat, height: nat)
    ensures First(height, a) < First(height, b) ==> a < b
  {
    if a >= b {
      MulMono(b, a, Pow2(height));
    }
  }

  lemma SubtreeSplits(height: nat, pos: nat, h: nat, q: nat)
    requires height > 0 && h < height
    ensures InSubtree(height, pos, h, q) <==>
            InSubtree(height - 1, 2 * pos, h, q) || InSubtree(height - 1, 2 * pos + 1, h, q)
  {
    hide Pow2, First;
    FirstSplit(height, pos);
    FirstSplit(height - 1, 2 * pos);
    FirstSplit(height - 1, 2 * pos + 1);
  }

  /** A subtree's transactions are among those of the tree around it. */
  lemma {:induction false} EndsWithin(n: nat, height: nat, pos: nat, h: nat, q: nat)
    requires InSubtree(height, pos, h, q)
    ensures First(h, q + 1) <= First(height, pos + 1)
    ensures First(height, pos) <= First(h, q) && End(n, h, q) <= End(n, height, pos)
    decreases height
  {
    hide Pow2, First;
    if h == height {
      InItself(height, pos);
    } else {
      SubtreeSplits(height, pos, h, q);
      FirstSplit(height, pos);
      FirstSplit(height - 1, 2 * pos);
      FirstSplit(height - 1, 2 * pos + 1);
      var next := if InSubtree(height - 1, 2 * pos, h, q) then 2 * pos else 2 * pos + 1;
      EndsWithin(n, height - 1, next, h, q);
    }
  }

  lemma NothingBelow(mask: seq<bool>, height: nat, pos: nat, h: nat, q: nat)
    requires InSubtree(height, pos, h, q) && Below(mask, height, pos) == []
    ensures Below(mask, h, q) == []
  {
    hide First, Picked, InSubtree;
    EndsWithin(|mask|, height, pos, h, q);
    var lo, hi := First(h, q), End(|mask|, h, q);
    PickedExact(mask, First(height, pos), End(|mask|, height, pos));
    PickedExact(mask, lo, hi);
    assert Picked(mask, lo, hi) != [] ==> Picked(mask, lo, hi)[0] in Picked(mask, lo, hi);
  }

  lemma {:induction false} LoneIffQuiet(mask: seq<bool>, height: nat, pos: nat)
    requires |mask| < UINT32 && InTree(|mask|, height, pos)
    ensures Lone(mask, height, pos) == 0 <==> Quiet(mask, height, pos)
    decreases height
  {
    hide Width, Pow2, First, InTree, Below, InSubtree;
    if Below(mask, height, pos) == [] {
      forall h: nat, q: nat | InSubtree(height, pos, h, q)
        ensures Below(mask, h, q) == []
      {
        NothingBelow(mask, height, pos, h, q);
      }
    } else if height == 0 {
      LeafQuiet(mask, pos);
    } else {
      Children(|mask|, height, pos);
      InItself(height, pos);
      LoneIffQuiet(mask, height - 1, 2 * pos);
      if 2 * pos + 1 < Width(|mask|, height - 1) {
        LoneIffQuiet(mask, height - 1, 2 * pos + 1);
        QuietSplits(mask, height, pos);
      } else {
        InTreeFirst(|mask|, height, pos);
        assert SingleChild(|mask|, height, pos);
      }
    }
  }

  lemma LeafQuiet(mask: seq<bool>, pos: nat)
    ensures Quiet(mask, 0, pos)
  {
  }

  lemma QuietSplits(mask: seq<bool>, height: nat, pos: nat)
    requires height > 0 && !SingleChild(|mask|, height, pos)
    ensures Quiet(mask, height, pos) <==> Quiet(mask, height - 1, 2 * pos) && Quiet(mask, height - 1, 2 * pos + 1)
  {
    hide First, Below;
    InItself(height, pos);
    forall h: nat, q: nat | h < height
      ensures InSubtree(height, pos, h, q) <==>
              InSubtree(height - 1, 2 * pos, h, q) || InSubtree(height - 1, 2 * pos + 1, h, q)
    {
      SubtreeSplits(height, pos, h, q);
    }
  }

  /** The promise of at most 2N - 1 bits is kept exactly when nothing is selected below a node with a single child. */
  lemma PromiseKeptExactly(hash: PairHash, txids: seq<Hash>, mask: seq<bool>)
    requires 1 <= |mask| < UINT32
    ensures
      var top := HeightFrom(|mask|, 0);
      |Bits(mask, top, 0)| <= 2 * |Hashes(hash, txids, mask, top, 0)| - 1 <==> Quiet(mask, top, 0)
  {
    hide Bits, Hashes, Lone, InTree, Quiet;
    var top := HeightFrom(|mask|, 0);
    TopInTree(|mask|);
    LoneIffQuiet(mask, top, 0);
    BitsCounted(hash, txids, mask, top, 0);
  }

  /** Three transactions, the last one selected: four bits for two hashes. */
  lemma ThreeTransactions(hash: PairHash, txids: seq<Hash>)
    ensures
      var mask := [false, false, true];
      HeightFrom(3, 0) == 2 && |Hashes(hash, txids, mask, 2, 0)| == 2 && |Bits(mask, 2, 0)| == 4
  {
    var mask := [false, false, true];
    assert Pow2(0) == 1 && Pow2(1) == 2 && Pow2(2) == 4;
    assert Width(3, 0) == 3 && Width(3, 1) == 2 && Width(3, 2) == 1;
    BelowSplit(mask, 2, 0);
    BitsCounted(hash, txids, mask, 2, 0);
  }
}
