/** CPartialMerkleTree (src/merkleblock.h, src/merkleblock.cpp): building, extracting and serializing. */
module MerkleBlock {
  import opened Numbers
  import opened Slices
  import opened Collections
  import opened MerkleTree
  import opened MerkleProof

  // ---- Bits in bytes

  predicate BitAt(b: bv8, k: nat)
    requires k < 8
  {
    (b & (1 << k)) != 0
  }

  function OrBit(b: bv8, k: nat, bit: bool): bv8
    requires k < 8
  {
    b | ((if bit then 1 else 0) << k)
  }

  lemma OrBitSets(b: bv8, k: nat, bit: bool, j: nat)
    requires k < 8 && j < 8
    ensures BitAt(OrBit(b, k, bit), j) <==> BitAt(b, j) || (j == k && bit)
  {
  }

  /** The bytes hold the bits, least significant first, padded with zeros. */
  ghost predicate Packs(bytes: seq<bv8>, bits: seq<bool>, upTo: nat) {
    forall p :: 0 <= p < 8 * |bytes| ==> (BitAt(bytes[p / 8], p % 8) <==> p < upTo && p < |bits| && bits[p])
  }

  method PackBits(bits: seq<bool>) returns (bytes: seq<bv8>)
    ensures |bytes| == (|bits| + 7) / 8 && Packs(bytes, bits, |bits|)
  {
    bytes := seq((|bits| + 7) / 8, i => 0);
    for p := 0 to |bits|
      invariant |bytes| == (|bits| + 7) / 8 && Packs(bytes, bits, p)
    {
      ghost var before := bytes;
      bytes := bytes[p / 8 := OrBit(bytes[p / 8], p % 8, bits[p])];
      forall q | 0 <= q < 8 * |bytes|
        ensures BitAt(bytes[q / 8], q % 8) <==> q < p + 1 && q < |bits| && bits[q]
      {
        assert BitAt(before[q / 8], q % 8) <==> q < p && bits[q];
        if q / 8 == p / 8 {
          OrBitSets(before[p / 8], p % 8, bits[p], q % 8);
        }
      }
    }
  }

  method UnpackBits(bytes: seq<bv8>) returns (bits: seq<bool>)
    ensures |bits| == 8 * |bytes| && Packs(bytes, bits, |bits|)
  {
    bits := seq(8 * |bytes|, i => false);
    for p := 0 to |bits|
      invariant |bits| == 8 * |bytes|
      invariant forall q :: 0 <= q < p ==> (BitAt(bytes[q / 8], q % 8) <==> bits[q])
    {
      bits := bits[p := BitAt(bytes[p / 8], p % 8)];
    }
  }

  // ---- The partial tree

  /** What extraction from a built tree must give. */
  ghost function Complete(hash: PairHash, txids: seq<Hash>, mask: seq<bool>): Outcome
    requires |txids| == |mask| < UINT32
  {
    var top := HeightFrom(|mask|, 0);
    var picked := Picked(mask, 0, Covered(|mask|));
    Outcome(Root(hash, txids), |Bits(mask, top, 0)|, |Hashes(hash, txids, mask, top, 0)|, Chosen(txids, picked), picked, false)
  }

  /** Decoding a padded copy of an encoding never reaches the padding. */
  lemma WholeTreeDecodes(hash: PairHash, txids: seq<Hash>, mask: seq<bool>, bits: seq<bool>)
    requires Injective(hash) && Distinct(txids) && 1 <= |txids| == |mask| < UINT32
    requires HasAt(bits, 0, Bits(mask, HeightFrom(|mask|, 0), 0))
    ensures
      var top := HeightFrom(|mask|, 0);
      Extract(hash, |txids|, bits, Hashes(hash, txids, mask, top, 0), top, 0, 0, 0) == Complete(hash, txids, mask)
  {
    hide HeightFrom, Pow2, First, HasAt, InTree, Bits, Hashes, Distinct, Injective, NodeHash, Picked;
    var top := HeightFrom(|mask|, 0);
    TopInTree(|mask|);
    FirstSplit(top, 0);
    var hashes := Hashes(hash, txids, mask, top, 0);
    assert HasAt(hashes, 0, hashes) by { HasAtWhole(hashes); }
    ExtractComplete(hash, txids, mask, bits, hashes, top, 0, 0, 0);
  }

  lemma Reassociate<T>(s: seq<T>, a: seq<T>, b: seq<T>, c: seq<T>)
    ensures s + a + b + c == s + (a + (b + c)) && s + b + c == s + (b + c)
    ensures s + a + b + [] == s + a + b && s + b + [] == s + b
  {
  }

  lemma EncodedAtLeaf(hash: PairHash, txids: seq<Hash>, mask: seq<bool>, height: nat, pos: nat)
    requires height == 0 || Below(mask, height, pos) == []
    ensures Bits(mask, height, pos) == [Below(mask, height, pos) != []]
    ensures Hashes(hash, txids, mask, height, pos) == [NodeHash(hash, txids, height, pos)]
  {
  }

  class PartialMerkleTree {
    const hash: PairHash
    var nTransactions: nat
    var vBits: seq<bool>
    var vHash: seq<Hash>
    var fBad: bool

    ghost predicate Valid()
      reads this`nTransactions
    {
      nTransactions < UINT32
    }

    /** The fields are the encoding of these transactions under this mask. */
    ghost predicate Encodes(txids: seq<Hash>, mask: seq<bool>)
      reads this
    {
      && 1 <= |txids| == |mask| == nTransactions < UINT32 && !fBad
      && var top := HeightFrom(nTransactions, 0);
         HasAt(vBits, 0, Bits(mask, top, 0)) && (|vBits| + 7) / 8 == (|Bits(mask, top, 0)| + 7) / 8
         && vHash == Hashes(hash, txids, mask, top, 0)
    }

    constructor (hash: PairHash, txids: seq<Hash>, mask: seq<bool>)
      requires 1 <= |txids| == |mask| < UINT32
      ensures Valid() && this.hash == hash && Encodes(txids, mask)
      ensures vBits == Bits(mask, HeightFrom(|mask|, 0), 0)
      ensures |vHash| <= nTransactions
      ensures |vHash| <= 1 + |Picked(mask, 0, Covered(|mask|))| * HeightFrom(|mask|, 0)
    {
      hide Bits, Hashes, HeightFrom, InTree, Picked, Pow2, First;
      this.hash := hash;
      nTransactions := |txids|;
      fBad := false;
      vBits, vHash := [], [];
      new;
      var top := TreeHeight();
      TopInTree(|txids|);
      TraverseAndBuild(top, 0, txids, mask);
      HashesBound(hash, txids, mask, top, 0);
      FirstSplit(top, 0);
      HasAtWhole(vBits);
    }

    constructor Empty(hash: PairHash)
      ensures Valid() && this.hash == hash && fBad && nTransactions == 0 && vBits == [] && vHash == []
    {
      this.hash := hash;
      nTransactions, fBad, vBits, vHash := 0, true, [], [];
    }

    /** Reads a tree that anyone may have written. */
    constructor Deserialize(hash: PairHash, n: nat, hashes: seq<Hash>, bytes: seq<bv8>)
      requires n < UINT32
      ensures Valid() && this.hash == hash && nTransactions == n && vHash == hashes && !fBad
      ensures |vBits| == 8 * |bytes| && Packs(bytes, vBits, |vBits|)
    {
      this.hash := hash;
      nTransactions, vHash := n, hashes;
      var bits := UnpackBits(bytes);
      vBits, fBad := bits, false;
    }

    method Serialize() returns (n: nat, hashes: seq<Hash>, bytes: seq<bv8>)
      ensures n == nTransactions && hashes == vHash
      ensures |bytes| == (|vBits| + 7) / 8 && Packs(bytes, vBits, |vBits|)
    {
      n, hashes := nTransactions, vHash;
      bytes := PackBits(vBits);
    }

    method TreeHeight() returns (height: nat)
      requires Valid()
      ensures height == HeightFrom(nTransactions, 0)
    {
      height := 0;
      WidthAt31(nTransactions);
      while Width(nTransactions, height) > 1
        invariant height <= 31 && HeightFrom(nTransactions, 0) == HeightFrom(nTransactions, height)
        decreases 31 - height
      {
        height := height + 1;
      }
    }

    /** Is a transaction below the node selected? */
    method ParentOfMatch(mask: seq<bool>, height: nat, pos: nat) returns (found: bool)
      requires |mask| == nTransactions
      ensures found <==> Below(mask, height, pos) != []
    {
      hide First;
      found := false;
      var p := First(height, pos);
      FirstSplit(height, pos);
      while p < First(height, pos + 1) && p < nTransactions
        invariant First(height, pos) <= p
        invariant p <= End(|mask|, height, pos) || p == First(height, pos)
        invariant p <= |mask| || p == First(height, pos)
        invariant found <==> p <= |mask| && Picked(mask, First(height, pos), p) != []
        decreases nTransactions - p
      {
        found := found || mask[p];
        p := p + 1;
      }
    }

    method TraverseAndBuild(height: nat, pos: nat, txids: seq<Hash>, mask: seq<bool>)
      requires Valid() && |txids| == |mask| == nTransactions && InTree(nTransactions, height, pos)
      modifies this`vBits, this`vHash
      ensures vBits == old(vBits) + Bits(mask, height, pos)
      ensures vHash == old(vHash) + Hashes(hash, txids, mask, height, pos)
      decreases height
    {
      hide InTree, Below, First, Pow2, Width, NodeHash, Bits, Hashes;
      ghost var bits0, hash0 := vBits, vHash;
      var parentOfMatch := ParentOfMatch(mask, height, pos);
      vBits := vBits + [parentOfMatch];
      if height == 0 || !parentOfMatch {
        vHash := vHash + [NodeHash(hash, txids, height, pos)];
        EncodedAtLeaf(hash, txids, mask, height, pos);
      } else {
        Children(nTransactions, height, pos);
        BitsUnfold(mask, height, pos);
        HashesUnfold(hash, txids, mask, height, pos);
        TraverseAndBuild(height - 1, pos * 2, txids, mask);
        ghost var lb, lh := Bits(mask, height - 1, 2 * pos), Hashes(hash, txids, mask, height - 1, 2 * pos);
        if pos * 2 + 1 < Width(nTransactions, height - 1) {
          TraverseAndBuild(height - 1, pos * 2 + 1, txids, mask);
          Reassociate(bits0, [true], lb, Bits(mask, height - 1, 2 * pos + 1));
          Reassociate(hash0, [], lh, Hashes(hash, txids, mask, height - 1, 2 * pos + 1));
        } else {
          Reassociate(bits0, [true], lb, []);
          Reassociate(hash0, [], lh, []);
        }
      }
    }

    method TraverseAndExtract(height: nat, pos: nat, bits0: nat, hash0: nat, matches0: seq<Hash>, indices0: seq<nat>)
      returns (node: Hash, nBitsUsed: nat, nHashUsed: nat, matches: seq<Hash>, indices: seq<nat>)
      requires Valid()
      modifies this`fBad
      ensures
        var out := Extract(hash, nTransactions, vBits, vHash, height, pos, bits0, hash0);
        && node == out.hash && nBitsUsed == out.nBits && nHashUsed == out.nHash
        && matches == matches0 + out.matches && indices == indices0 + out.indices
        && fBad == (old(fBad) || out.bad)
      decreases height
    {
      hide Width, Extract;
      if bits0 >= |vBits| || height == 0 || !vBits[bits0] {
        ExtractStops(hash, nTransactions, vBits, vHash, height, pos, bits0, hash0);
      }
      nBitsUsed, nHashUsed, matches, indices := bits0, hash0, matches0, indices0;
      if nBitsUsed >= |vBits| {
        fBad := true;
        node := 0;
        return;
      }
      var parentOfMatch := vBits[nBitsUsed];
      nBitsUsed := nBitsUsed + 1;
      if height == 0 || !parentOfMatch {
        if nHashUsed >= |vHash| {
          fBad := true;
          node := 0;
          return;
        }
        node := vHash[nHashUsed];
        nHashUsed := nHashUsed + 1;
        if height == 0 && parentOfMatch {
          matches := matches + [node];
          indices := indices + [pos];
        }
        return;
      }
      ghost var l := Extract(hash, nTransactions, vBits, vHash, height - 1, pos * 2, nBitsUsed, nHashUsed);
      var left, right;
      left, nBitsUsed, nHashUsed, matches, indices :=
        TraverseAndExtract(height - 1, pos * 2, nBitsUsed, nHashUsed, matches, indices);
      ghost var r := Extract(hash, nTransactions, vBits, vHash, height - 1, pos * 2 + 1, l.nBits, l.nHash);
      ExtractInner(hash, nTransactions, vBits, vHash, height, pos, bits0, hash0, l, r);
      if pos * 2 + 1 < Width(nTransactions, height - 1) {
        Reassociate(matches0, [], l.matches, r.matches);
        Reassociate(indices0, [], l.indices, r.indices);
        right, nBitsUsed, nHashUsed, matches, indices :=
          TraverseAndExtract(height - 1, pos * 2 + 1, nBitsUsed, nHashUsed, matches, indices);
        if right == left {
          fBad := true;
        }
      } else {
        right := left;
      }
      node := hash(left, right);
    }

    /** The whole tree as decoded from the fields. */
    ghost function Outcome(): MerkleProof.Outcome
      requires Valid()
      reads this`nTransactions, this`vBits, this`vHash
    {
      Extract(hash, nTransactions, vBits, vHash, HeightFrom(nTransactions, 0), 0, 0, 0)
    }

    /** The sizes are plausible, so the tree is decoded at all. */
    ghost predicate Plausible()
      reads this`nTransactions, this`vBits, this`vHash
    {
      nTransactions != 0 && |vHash| <= nTransactions && |vHash| <= |vBits|
    }

    /**
     Extracts the matches. Soundness: whatever the fields hold, if the result is the root of a block with
     as many transactions, each match is that block's transaction at its index.
     */
    method ExtractMatches(indices0: seq<nat>) returns (root: Hash, matches: seq<Hash>, indices: seq<nat>)
      requires Valid()
      modifies this`fBad
      ensures nTransactions == 0 || |vHash| > nTransactions || |vBits| < |vHash| ==>
                root == 0 && matches == [] && indices == indices0 && fBad == old(fBad)
      ensures fBad == (old(fBad) || (Plausible() && Outcome().bad))
      ensures matches == if Plausible() then Outcome().matches else []
      ensures indices == indices0 + if Plausible() then Outcome().indices else []
      ensures root == if && Plausible() && !fBad && Outcome().nHash == |vHash|
                         && (Outcome().nBits + 7) / 8 == (|vBits| + 7) / 8 then Outcome().hash else 0
      ensures forall txids | |txids| == nTransactions && Injective(hash) && root != 0 && root == Root(hash, txids) ::
                Genuine(txids, matches, indices[|indices0|..])
      ensures forall txids | OtherBlock(txids) && root != 0 && root == Root(hash, txids) ::
                Genuine(txids, matches, indices[|indices0|..])
      ensures forall k :: |indices0| <= k < |indices| ==> indices[k] < nTransactions
      ensures StrictlyAscending(indices[|indices0|..])
    {
      hide HeightFrom, NodeHash, Injective, InTree, OtherBlock;
      matches, indices := [], indices0;
      root := 0;
      if nTransactions == 0 || |vHash| > nTransactions || |vBits| < |vHash| {
        return;
      }
      var top := TreeHeight();
      var nBitsUsed, nHashUsed;
      root, nBitsUsed, nHashUsed, matches, indices := TraverseAndExtract(top, 0, 0, 0, matches, indices);
      SoundHere();
      SoundForOthers();
      assert matches == Outcome().matches && indices[|indices0|..] == Outcome().indices;
      if fBad {
        root := 0;
        return;
      }
      if (nBitsUsed + 7) / 8 != (|vBits| + 7) / 8 {
        root := 0;
        return;
      }
      if nHashUsed != |vHash| {
        root := 0;
      }
    }

    lemma SoundHere()
      requires Valid() && nTransactions >= 1
      ensures forall txids | |txids| == nTransactions && Injective(hash) && !Outcome().bad && Outcome().hash == Root(hash, txids) ::
                Genuine(txids, Outcome().matches, Outcome().indices)
      ensures Within(Outcome().indices, 0, nTransactions)
    {
      hide HeightFrom, NodeHash, Injective, InTree, Genuine, Extract;
      var top := HeightFrom(nTransactions, 0);
      TopInTree(nTransactions);
      FirstSplit(top, 0);
      ExtractAscends(hash, nTransactions, vBits, vHash, top, 0, 0, 0);
      forall txids | |txids| == nTransactions && Injective(hash) && !Outcome().bad && Outcome().hash == Root(hash, txids)
        ensures Genuine(txids, Outcome().matches, Outcome().indices)
      {
        ExtractSound(hash, txids, vBits, vHash, top, 0, 0, 0);
      }
    }

    /** A block of any number of different transactions with a tree as high as the one claimed. */
    ghost predicate OtherBlock(txids: seq<Hash>)
      requires Valid()
      reads this`nTransactions
    {
      && 1 <= |txids| < UINT32 && Distinct(txids) && Injective(hash)
      && HeightFrom(|txids|, 0) == HeightFrom(nTransactions, 0)
    }

    lemma SoundForOthers()
      requires Valid() && nTransactions >= 1
      ensures forall txids | OtherBlock(txids) && !Outcome().bad && Outcome().hash == Root(hash, txids) ::
                Genuine(txids, Outcome().matches, Outcome().indices)
    {
      hide HeightFrom, NodeHash, Injective, InTree, Genuine, Extract, Distinct;
      var top := HeightFrom(nTransactions, 0);
      TopInTree(nTransactions);
      forall txids | OtherBlock(txids) && !Outcome().bad && Outcome().hash == Root(hash, txids)
        ensures Genuine(txids, Outcome().matches, Outcome().indices)
      {
        TopInTree(|txids|);
        ExtractSoundAnyCount(hash, txids, nTransactions, vBits, vHash, top, 0, 0, 0);
      }
    }

    /** Completeness: an encoding with distinct txids decodes to the root and exactly the selected transactions. */
    lemma CompleteHere(txids: seq<Hash>, mask: seq<bool>)
      requires Encodes(txids, mask) && Injective(hash) && Distinct(txids)
      ensures Plausible() && Outcome() == Complete(hash, txids, mask)
    {
      hide HeightFrom, NodeHash, Injective, InTree, Distinct, Extract, Bits, Hashes, HasAt, Picked, Pow2, First;
      var top := HeightFrom(nTransactions, 0);
      WholeTreeDecodes(hash, txids, mask, vBits);
      TopInTree(nTransactions);
      FirstSplit(top, 0);
      HashesBound(hash, txids, mask, top, 0);
      BitsPerHash(hash, txids, mask, top, 0);
      HasAtSlice(vBits, 0, Bits(mask, top, 0));
    }
  }

  /** Building a tree, sending it as bytes and extracting at the other end. */
  method RoundTrip(hash: PairHash, txids: seq<Hash>, mask: seq<bool>)
    returns (root: Hash, matches: seq<Hash>, indices: seq<nat>, bad: bool)
    requires Injective(hash) && Distinct(txids) && 1 <= |txids| == |mask| < UINT32
    ensures root == Root(hash, txids) && !bad
    ensures indices == Picked(mask, 0, Covered(|mask|)) && matches == Chosen(txids, indices)
    ensures |txids| <= 0x8000_0000 ==> indices == Picked(mask, 0, |mask|) && root == MerkleRoot(hash, txids)
  {
    hide HeightFrom, NodeHash, Injective, InTree, Distinct, Extract, Bits, Hashes, Picked, Pow2, First, Width, MerkleRoot;
    var sent := new PartialMerkleTree(hash, txids, mask);
    var n, hashes, bytes := sent.Serialize();
    var received := new PartialMerkleTree.Deserialize(hash, n, hashes, bytes);
    Padded(bytes, sent.vBits, received.vBits);
    received.CompleteHere(txids, mask);
    root, matches, indices := received.ExtractMatches([]);
    bad := received.fBad;
    CoveredExactly(|txids|);
    if |txids| <= 0x8000_0000 {
      RootIsMerkleRoot(hash, txids);
    }
  }

  /** What comes out of the bytes is what went in, followed by at most seven zeros. */
  lemma Padded(bytes: seq<bv8>, sent: seq<bool>, received: seq<bool>)
    requires |bytes| == (|sent| + 7) / 8 && Packs(bytes, sent, |sent|)
    requires |received| == 8 * |bytes| && Packs(bytes, received, |received|)
    ensures HasAt(received, 0, sent) && (|received| + 7) / 8 == (|sent| + 7) / 8
    ensures forall p :: |sent| <= p < |received| ==> !received[p]
  {
    forall p | 0 <= p < |received|
      ensures received[p] <==> p < |sent| && sent[p]
    {
      assert BitAt(bytes[p / 8], p % 8) <==> received[p];
    }
    assert received[0..|sent|] == sent;
  }
}
