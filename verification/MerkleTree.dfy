/**
 The tree a partial Merkle tree is cut from (src/merkleblock.h, src/merkleblock.cpp):
 level widths in 32-bit arithmetic, node hashes, the depth-first encoding and its decoding.
 */
module MerkleTree {
  import opened Numbers
  import opened Collections

  /** Hashes and txids; the all-zero hash is the decoder's error value. */
  type Hash = nat
  type PairHash = (Hash, Hash) -> Hash

  ghost predicate Injective(hash: PairHash) {
    forall a, b, c, d :: hash(a, b) == hash(c, d) ==> a == c && b == d
  }

  /** The first transaction below a node. */
  function First(height: nat, pos: nat): nat {
    pos * Pow2(height)
  }

  lemma FirstSplit(height: nat, pos: nat)
    ensures First(0, pos) == pos && First(height, 0) == 0 && First(height, 1) == Pow2(height)
    ensures First(height, pos + 1) == First(height, pos) + Pow2(height)
    ensures height > 0 ==> First(height - 1, 2 * pos) == First(height, pos)
    ensures height > 0 ==> First(height - 1, 2 * pos + 1) == First(height, pos) + Pow2(height - 1)
    ensures height > 0 ==> First(height - 1, 2 * pos + 2) == First(height, pos + 1)
  {
    if height > 0 {
      var d := Pow2(height - 1);
      assert 2 * pos * d == pos * (2 * d);
      assert (2 * pos + 1) * d == 2 * pos * d + d;
      assert (2 * pos + 2) * d == (pos + 1) * (2 * d);
    }
  }

  // ---- Widths

  /** CalcTreeWidth: the sum is computed in unsigned 32-bit arithmetic. */
  function Width(n: nat, height: nat): int {
    ((n + Pow2(height) - 1) % UINT32) / Pow2(height)
  }

  lemma CeilDiv(n: nat, d: nat, k: nat)
    requires d >= 1
    ensures k < (n + d - 1) / d <==> k * d < n
  {
    var q := (n + d - 1) / d;
    assert q * d <= n + d - 1 < q * d + d;
    if k < q {
      assert (k + 1) * d <= q * d;
      assert k * d + d == (k + 1) * d;
    } else {
      assert k * d >= q * d;
    }
  }

  lemma WrappedDiv(n: nat, d: nat, k: nat)
    requires n < UINT32 && 1 <= d <= 0x8000_0000
    ensures k < ((n + d - 1) % UINT32) / d <==> k * d < n && n + d <= UINT32
  {
    if n + d <= UINT32 {
      CeilDiv(n, d, k);
    } else {
      assert (n + d - 1) % UINT32 == n + d - 1 - UINT32;
      SmallQuotient(n + d - 1 - UINT32, d);
    }
  }

  /** A width is the number of nodes on the level, or 0 when the sum wraps around. */
  lemma WidthMeaning(n: nat, height: nat, k: nat)
    requires n < UINT32 && height <= 31
    ensures k < Width(n, height) <==> First(height, k) < n && n + Pow2(height) <= UINT32
  {
    hide Pow2;
    Pow2Mono(height, 31);
    Pow2Of32();
    WrappedDiv(n, Pow2(height), k);
  }

  lemma SmallQuotient(a: nat, d: nat)
    requires a < d
    ensures a / d == 0
  {
  }

  lemma WidthAt31(n: nat)
    requires n < UINT32
    ensures Width(n, 31) <= 1
  {
    Pow2Of32();
    WidthMeaning(n, 31, 1);
  }

  function HeightFrom(n: nat, height: nat): (top: nat)
    requires n < UINT32 && height <= 31
    ensures height <= top <= 31 && Width(n, top) <= 1
    ensures forall h :: height <= h < top ==> Width(n, h) > 1
    decreases 31 - height
  {
    WidthAt31(n);
    if Width(n, height) > 1 then HeightFrom(n, height + 1) else height
  }

  /** How many transactions the top node spans. */
  function Covered(n: nat): nat
    requires n < UINT32
  {
    var span := Pow2(HeightFrom(n, 0));
    if n < span then n else span
  }

  /** The tree spans the whole block exactly up to 2^31 transactions; beyond that the widths wrap around. */
  lemma CoveredExactly(n: nat)
    requires n < UINT32
    ensures Covered(n) == n <==> n <= 0x8000_0000
  {
    hide Width, Pow2, First;
    var top := HeightFrom(n, 0);
    Pow2Mono(top, 31);
    Pow2Of32();
    WidthMeaning(n, top, 1);
    FirstSplit(top, 0);
  }

  /** The node has a transaction below it, and the width of the level below it does not wrap around. */
  predicate InTree(n: nat, height: nat, pos: nat) {
    height <= 31 && First(height, pos) < n && (height > 0 ==> n + Pow2(height - 1) <= UINT32)
  }

  lemma Children(n: nat, height: nat, pos: nat)
    requires n < UINT32 && InTree(n, height, pos) && height > 0
    ensures InTree(n, height - 1, 2 * pos)
    ensures 2 * pos + 1 < Width(n, height - 1) <==> First(height - 1, 2 * pos + 1) < n
    ensures 2 * pos + 1 < Width(n, height - 1) ==> InTree(n, height - 1, 2 * pos + 1)
  {
    hide Width, Pow2, First;
    FirstSplit(height, pos);
    WidthMeaning(n, height - 1, 2 * pos + 1);
    if height > 1 {
      Pow2Mono(height - 2, height - 1);
    }
  }

  lemma TopInTree(n: nat)
    requires 1 <= n < UINT32
    ensures InTree(n, HeightFrom(n, 0), 0)
  {
    hide Width, Pow2, First;
    var top := HeightFrom(n, 0);
    FirstSplit(top, 0);
    if top > 0 {
      WidthMeaning(n, top - 1, 1);
    }
  }

  // ---- Node hashes

  /** CalcHash; only positions in the tree are ever asked for. */
  function NodeHash(hash: PairHash, txids: seq<Hash>, height: nat, pos: nat): Hash
    decreases height
  {
    if height == 0 then
      if pos < |txids| then txids[pos] else 0
    else
      var left := NodeHash(hash, txids, height - 1, 2 * pos);
      if 2 * pos + 1 < Width(|txids|, height - 1)
      then hash(left, NodeHash(hash, txids, height - 1, 2 * pos + 1))
      else hash(left, left)
  }

  function Root(hash: PairHash, txids: seq<Hash>): Hash
    requires |txids| < UINT32
  {
    NodeHash(hash, txids, HeightFrom(|txids|, 0), 0)
  }

  /** One level of a Merkle tree from the level below, the last node paired with itself when it is alone. */
  function NextLevel(hash: PairHash, level: seq<Hash>): (next: seq<Hash>)
    ensures |next| == (|level| + 1) / 2
  {
    seq((|level| + 1) / 2, i requires 0 <= i < (|level| + 1) / 2 =>
      hash(level[2 * i], if 2 * i + 1 < |level| then level[2 * i + 1] else level[2 * i]))
  }

  function Level(hash: PairHash, txids: seq<Hash>, height: nat): seq<Hash> {
    if height == 0 then txids else NextLevel(hash, Level(hash, txids, height - 1))
  }

  /** The Merkle root computed level by level. */
  function MerkleRoot(hash: PairHash, level: seq<Hash>): Hash
    requires level != []
    decreases |level|
  {
    if |level| == 1 then level[0] else MerkleRoot(hash, NextLevel(hash, level))
  }

  lemma {:induction false} LevelWidth(hash: PairHash, txids: seq<Hash>, height: nat, k: nat)
    ensures k < |Level(hash, txids, height)| <==> First(height, k) < |txids|
  {
    hide First, Pow2, NextLevel;
    FirstSplit(height, k);
    if height > 0 {
      LevelWidth(hash, txids, height - 1, 2 * k);
    }
  }

  lemma InTreeFirst(n: nat, height: nat, pos: nat)
    requires InTree(n, height, pos)
    ensures First(height, pos) < n
  {
  }

  lemma NextLevelAt(hash: PairHash, level: seq<Hash>, i: nat)
    requires 2 * i < |level|
    ensures NextLevel(hash, level)[i] == hash(level[2 * i], if 2 * i + 1 < |level| then level[2 * i + 1] else level[2 * i])
  {
  }

  lemma {:induction false} NodeOnLevel(hash: PairHash, txids: seq<Hash>, height: nat, pos: nat)
    requires |txids| <= 0x8000_0000 && InTree(|txids|, height, pos)
    ensures pos < |Level(hash, txids, height)|
    ensures NodeHash(hash, txids, height, pos) == Level(hash, txids, height)[pos]
  {
    hide First, Width, Pow2, InTree, NextLevel;
    InTreeFirst(|txids|, height, pos);
    LevelWidth(hash, txids, height, pos);
    if height > 0 {
      Children(|txids|, height, pos);
      NextLevelAt(hash, Level(hash, txids, height - 1), pos);
      NodeOnLevel(hash, txids, height - 1, 2 * pos);
      LevelWidth(hash, txids, height - 1, 2 * pos + 1);
      if 2 * pos + 1 < Width(|txids|, height - 1) {
        NodeOnLevel(hash, txids, height - 1, 2 * pos + 1);
      }
    }
  }

  lemma {:induction false} RootFromLevel(hash: PairHash, txids: seq<Hash>, height: nat, top: nat)
    requires height <= top && |Level(hash, txids, top)| == 1
    requires forall h :: height <= h < top ==> |Level(hash, txids, h)| > 1
    ensures Level(hash, txids, height) != []
    ensures MerkleRoot(hash, Level(hash, txids, height)) == Level(hash, txids, top)[0]
    decreases top - height
  {
    hide NextLevel;
    if height < top {
      RootFromLevel(hash, txids, height + 1, top);
    }
  }

  /** Up to 2^31 transactions, the top node's hash is the Merkle root. */
  lemma RootIsMerkleRoot(hash: PairHash, txids: seq<Hash>)
    requires 1 <= |txids| <= 0x8000_0000
    ensures Root(hash, txids) == MerkleRoot(hash, txids)
  {
    hide First, Width, Pow2, NextLevel;
    var n := |txids|;
    var top := HeightFrom(n, 0);
    FirstSplit(top, 0);
    TopInTree(n);
    NodeOnLevel(hash, txids, top, 0);
    Pow2Mono(top, 31);
    Pow2Of32();
    LevelWidth(hash, txids, top, 1);
    WidthMeaning(n, top, 1);
    forall h | 0 <= h < top
      ensures |Level(hash, txids, h)| > 1
    {
      WidthMeaning(n, h, 1);
      LevelWidth(hash, txids, h, 1);
    }
    RootFromLevel(hash, txids, 0, top);
  }

  /** Different nodes of a level have different hashes when the txids are distinct. */
  lemma {:induction false} NodesDistinct(hash: PairHash, txids: seq<Hash>, height: nat, p: nat, q: nat)
    requires Injective(hash) && Distinct(txids) && |txids| < UINT32 && p != q
    requires InTree(|txids|, height, p) && InTree(|txids|, height, q)
    ensures NodeHash(hash, txids, height, p) != NodeHash(hash, txids, height, q)
    decreases height
  {
    hide Width, Pow2;
    if height > 0 {
      Children(|txids|, height, p);
      Children(|txids|, height, q);
      NodesDistinct(hash, txids, height - 1, 2 * p, 2 * q);
    }
  }
}
