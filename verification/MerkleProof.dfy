/**
 The depth-first encoding of a partial Merkle tree and the decoding of untrusted
 bits and hashes (src/merkleblock.cpp), with soundness and completeness of the decoder.
 */
module MerkleProof {
  import opened Numbers
  import opened Slices
  import opened Collections
  import opened MerkleTree

  // ---- Which transactions a node leads to

  /** The positions from lo up to hi that the mask selects, in order. */
  function Picked(mask: seq<bool>, lo: nat, hi: nat): seq<nat>
    requires hi <= |mask|
    decreases hi
  {
    if hi <= lo then [] else Picked(mask, lo, hi - 1) + (if mask[hi - 1] then [hi - 1] else [])
  }

  lemma {:induction false} PickedConcat(mask: seq<bool>, lo: nat, mid: nat, hi: nat)
    requires lo <= mid <= hi <= |mask|
    ensures Picked(mask, lo, hi) == Picked(mask, lo, mid) + Picked(mask, mid, hi)
    decreases hi
  {
    if mid < hi {
      PickedConcat(mask, lo, mid, hi - 1);
    }
  }

  ghost predicate Within(s: seq<nat>, lo: nat, hi: nat) {
    StrictlyAscending(s) && forall k :: 0 <= k < |s| ==> lo <= s[k] < hi
  }

  lemma WithinConcat(a: seq<nat>, b: seq<nat>, lo: nat, mid: nat, hi: nat)
    requires Within(a, lo, mid) && Within(b, mid, hi) && lo <= mid <= hi
    ensures Within(a + b, lo, hi)
  {
  }

  /** The list is exactly the selected positions, each once and in order. */
  lemma PickedExact(mask: seq<bool>, lo: nat, hi: nat)
    requires hi <= |mask|
    ensures forall p: nat :: p in Picked(mask, lo, hi) <==> lo <= p < hi && mask[p]
    ensures Within(Picked(mask, lo, hi), lo, hi)
  {
    PickedWithin(mask, lo, hi);
    forall p: nat
      ensures p in Picked(mask, lo, hi) <==> lo <= p < hi && mask[p]
    {
      PickedHas(mask, lo, hi, p);
    }
  }

  lemma {:induction false} PickedHas(mask: seq<bool>, lo: nat, hi: nat, p: nat)
    requires hi <= |mask|
    ensures p in Picked(mask, lo, hi) <==> lo <= p < hi && mask[p]
    decreases hi
  {
    if lo < hi {
      PickedHas(mask, lo, hi - 1, p);
    }
  }

  lemma {:induction false} PickedWithin(mask: seq<bool>, lo: nat, hi: nat)
    requires hi <= |mask|
    ensures Within(Picked(mask, lo, hi), lo, hi)
    decreases hi
  {
    if lo < hi {
      PickedWithin(mask, lo, hi - 1);
      WithinConcat(Picked(mask, lo, hi - 1), if mask[hi - 1] then [hi - 1] else [], lo, hi - 1, hi);
    }
  }

  /** One past the last transaction below a node. */
  function End(n: nat, height: nat, pos: nat): (e: nat)
    ensures e <= n && e <= First(height, pos + 1)
    ensures e == n || e == First(height, pos + 1)
  {
    if First(height, pos + 1) < n then First(height, pos + 1) else n
  }

  /** The selected transactions below a node. */
  function Below(mask: seq<bool>, height: nat, pos: nat): seq<nat> {
    Picked(mask, First(height, pos), End(|mask|, height, pos))
  }

  lemma BelowSplit(mask: seq<bool>, height: nat, pos: nat)
    requires |mask| < UINT32 && InTree(|mask|, height, pos) && height > 0
    ensures Below(mask, height, pos) == Below(mask, height - 1, 2 * pos) +
              if 2 * pos + 1 < Width(|mask|, height - 1) then Below(mask, height - 1, 2 * pos + 1) else []
  {
    hide First, Width, Pow2;
    Children(|mask|, height, pos);
    FirstSplit(height, pos);
    FirstSplit(height - 1, 2 * pos);
    FirstSplit(height - 1, 2 * pos + 1);
    if 2 * pos + 1 < Width(|mask|, height - 1) {
      PickedConcat(mask, First(height, pos), First(height - 1, 2 * pos + 1), End(|mask|, height, pos));
    }
  }

  // ---- Encoding

  /** The flag bits of a subtree. */
  function Bits(mask: seq<bool>, height: nat, pos: nat): (bits: seq<bool>)
    ensures |bits| >= 1
    decreases height
  {
    if Below(mask, height, pos) == [] then [false]
    else if height == 0 then [true]
    else
      [true] + Bits(mask, height - 1, 2 * pos) +
      if 2 * pos + 1 < Width(|mask|, height - 1) then Bits(mask, height - 1, 2 * pos + 1) else []
  }

  /** The hashes stored for a subtree. */
  function Hashes(hash: PairHash, txids: seq<Hash>, mask: seq<bool>, height: nat, pos: nat): seq<Hash>
    decreases height
  {
    if Below(mask, height, pos) == [] || height == 0 then
      [NodeHash(hash, txids, height, pos)]
    else
      Hashes(hash, txids, mask, height - 1, 2 * pos) +
      if 2 * pos + 1 < Width(|mask|, height - 1) then Hashes(hash, txids, mask, height - 1, 2 * pos + 1) else []
  }

  /** At most one hash per transaction below, and at most one more than the matches times the height. */
  lemma {:induction false} HashesBound(hash: PairHash, txids: seq<Hash>, mask: seq<bool>, height: nat, pos: nat)
    requires |mask| == |txids| < UINT32 && InTree(|mask|, height, pos)
    ensures |Hashes(hash, txids, mask, height, pos)| <= End(|mask|, height, pos) - First(height, pos)
    ensures |Hashes(hash, txids, mask, height, pos)| <= 1 + |Below(mask, height, pos)| * height
    decreases height
  {
    hide First, Width, Pow2, InTree, Picked, NodeHash;
    FirstSplit(height, pos);
    EndAfterFirst(|mask|, height, pos);
    var m := |Below(mask, height, pos)|;
    if m > 0 && height > 0 {
      Children(|mask|, height, pos);
      FirstSplit(height - 1, 2 * pos);
      FirstSplit(height - 1, 2 * pos + 1);
      BelowSplit(mask, height, pos);
      HashesBound(hash, txids, mask, height - 1, 2 * pos);
      var left := |Below(mask, height - 1, 2 * pos)|;
      if 2 * pos + 1 < Width(|mask|, height - 1) {
        HashesBound(hash, txids, mask, height - 1, 2 * pos + 1);
        TwoSubtrees(height, left, |Below(mask, height - 1, 2 * pos + 1)|);
      } else {
        TwoSubtrees(height, left, 0);
      }
    }
  }

  lemma EndAfterFirst(n: nat, height: nat, pos: nat)
    requires InTree(n, height, pos)
    ensures First(height, pos) < End(n, height, pos)
  {
    FirstSplit(height, pos);
  }

  lemma TwoSubtrees(height: nat, a: nat, b: nat)
    requires height > 0 && a + b > 0
    ensures (1 + a * (height - 1)) + (1 + b * (height - 1)) <= 1 + (a + b) * height
  {
    assert a * (height - 1) == a * height - a;
    assert b * (height - 1) == b * height - b;
    assert (a + b) * height == a * height + b * height;
  }

  lemma {:induction false} BitsPerHash(hash: PairHash, txids: seq<Hash>, mask: seq<bool>, height: nat, pos: nat)
    ensures |Hashes(hash, txids, mask, height, pos)| <= |Bits(mask, height, pos)|
    decreases height
  {
    hide Width, NodeHash, Below;
    if Below(mask, height, pos) != [] && height > 0 {
      BitsPerHash(hash, txids, mask, height - 1, 2 * pos);
      if 2 * pos + 1 < Width(|mask|, height - 1) {
        BitsPerHash(hash, txids, mask, height - 1, 2 * pos + 1);
      }
    }
  }

  // ---- Decoding

  /** What decoding a subtree returns, how far it moved both cursors, and what it found. */
  datatype Outcome = Outcome(hash: Hash, nBits: nat, nHash: nat, matches: seq<Hash>, indices: seq<nat>, bad: bool)

  function Extract(hash: PairHash, n: nat, bits: seq<bool>, hashes: seq<Hash>,
                   height: nat, pos: nat, nBits: nat, nHash: nat): Outcome
    decreases height
  {
    if nBits >= |bits| then
      Outcome(0, nBits, nHash, [], [], true)
    else if height == 0 || !bits[nBits] then
      if nHash >= |hashes| then
        Outcome(0, nBits + 1, nHash, [], [], true)
      else if height == 0 && bits[nBits] then
        Outcome(hashes[nHash], nBits + 1, nHash + 1, [hashes[nHash]], [pos], false)
      else
        Outcome(hashes[nHash], nBits + 1, nHash + 1, [], [], false)
    else
      var l := Extract(hash, n, bits, hashes, height - 1, 2 * pos, nBits + 1, nHash);
      if 2 * pos + 1 < Width(n, height - 1) then
        var r := Extract(hash, n, bits, hashes, height - 1, 2 * pos + 1, l.nBits, l.nHash);
        Outcome(hash(l.hash, r.hash), r.nBits, r.nHash, l.matches + r.matches, l.indices + r.indices,
                l.bad || r.bad || r.hash == l.hash)
      else
        Outcome(hash(l.hash, l.hash), l.nBits, l.nHash, l.matches, l.indices, l.bad)
  }

  lemma ExtractInner(hash: PairHash, n: nat, bits: seq<bool>, hashes: seq<Hash>,
                     height: nat, pos: nat, nBits: nat, nHash: nat, l: Outcome, r: Outcome)
    requires nBits < |bits| && height > 0 && bits[nBits]
    requires l == Extract(hash, n, bits, hashes, height - 1, 2 * pos, nBits + 1, nHash)
    requires r == Extract(hash, n, bits, hashes, height - 1, 2 * pos + 1, l.nBits, l.nHash)
    ensures Extract(hash, n, bits, hashes, height, pos, nBits, nHash) ==
            if 2 * pos + 1 < Width(n, height - 1) then
              Outcome(hash(l.hash, r.hash), r.nBits, r.nHash, l.matches + r.matches, l.indices + r.indices,
                      l.bad || r.bad || r.hash == l.hash)
            else Outcome(hash(l.hash, l.hash), l.nBits, l.nHash, l.matches, l.indices, l.bad)
  {
    hide Width;
  }

  lemma ExtractStops(hash: PairHash, n: nat, bits: seq<bool>, hashes: seq<Hash>,
                     height: nat, pos: nat, nBits: nat, nHash: nat)
    requires nBits < |bits| ==> height == 0 || !bits[nBits]
    ensures Extract(hash, n, bits, hashes, height, pos, nBits, nHash) ==
            if nBits >= |bits| then Outcome(0, nBits, nHash, [], [], true)
            else if nHash >= |hashes| then Outcome(0, nBits + 1, nHash, [], [], true)
            else Outcome(hashes[nHash], nBits + 1, nHash + 1,
                         if bits[nBits] then [hashes[nHash]] else [], if bits[nBits] then [pos] else [], false)
  {
  }

  /** Every match is the block's transaction at the reported index. */
  ghost predicate Genuine(txids: seq<Hash>, matches: seq<Hash>, indices: seq<nat>) {
    && |matches| == |indices|
    && forall k :: 0 <= k < |matches| ==> indices[k] < |txids| && matches[k] == txids[indices[k]]
  }

  /** Soundness: whatever the bits and hashes, a subtree that decodes to the block's node hash reports only its transactions. */
  lemma {:induction false} ExtractSound(hash: PairHash, txids: seq<Hash>, bits: seq<bool>, hashes: seq<Hash>,
                                        height: nat, pos: nat, nBits: nat, nHash: nat)
    requires Injective(hash) && |txids| < UINT32 && InTree(|txids|, height, pos)
    ensures
      var out := Extract(hash, |txids|, bits, hashes, height, pos, nBits, nHash);
      !out.bad && out.hash == NodeHash(hash, txids, height, pos) ==> Genuine(txids, out.matches, out.indices)
    decreases height
  {
    hide Width, Pow2, InTree, First, Injective;
    if height == 0 {
      ZeroInTree(|txids|, pos);
    } else if nBits < |bits| && bits[nBits] {
      Children(|txids|, height, pos);
      ExtractSound(hash, txids, bits, hashes, height - 1, 2 * pos, nBits + 1, nHash);
      var l := Extract(hash, |txids|, bits, hashes, height - 1, 2 * pos, nBits + 1, nHash);
      var left := NodeHash(hash, txids, height - 1, 2 * pos);
      if 2 * pos + 1 < Width(|txids|, height - 1) {
        ExtractSound(hash, txids, bits, hashes, height - 1, 2 * pos + 1, l.nBits, l.nHash);
        var r := Extract(hash, |txids|, bits, hashes, height - 1, 2 * pos + 1, l.nBits, l.nHash);
        Uncollided(hash, l.hash, r.hash, left, NodeHash(hash, txids, height - 1, 2 * pos + 1));
      } else {
        Uncollided(hash, l.hash, l.hash, left, left);
      }
    }
  }

  /**
   Soundness for any number of transactions claimed: as equal branches are refused, a node of the block's tree that is
   decoded for a tree of another width reports only the block's transactions too.
   */
  lemma {:induction false} ExtractSoundAnyCount(hash: PairHash, txids: seq<Hash>, n: nat, bits: seq<bool>, hashes: seq<Hash>,
                                                height: nat, pos: nat, nBits: nat, nHash: nat)
    requires Injective(hash) && Distinct(txids) && |txids| < UINT32 && n < UINT32
    requires InTree(|txids|, height, pos) && InTree(n, height, pos)
    ensures
      var out := Extract(hash, n, bits, hashes, height, pos, nBits, nHash);
      !out.bad && out.hash == NodeHash(hash, txids, height, pos) ==> Genuine(txids, out.matches, out.indices)
    decreases height
  {
    hide Width, Pow2, InTree, First, Injective, Distinct;
    if height == 0 {
      ZeroInTree(|txids|, pos);
    } else if nBits < |bits| && bits[nBits] {
      Children(|txids|, height, pos);
      Children(n, height, pos);
      ExtractSoundAnyCount(hash, txids, n, bits, hashes, height - 1, 2 * pos, nBits + 1, nHash);
      var l := Extract(hash, n, bits, hashes, height - 1, 2 * pos, nBits + 1, nHash);
      var r := Extract(hash, n, bits, hashes, height - 1, 2 * pos + 1, l.nBits, l.nHash);
      var left, right := NodeHash(hash, txids, height - 1, 2 * pos), NodeHash(hash, txids, height - 1, 2 * pos + 1);
      var wide, wideHere := 2 * pos + 1 < Width(n, height - 1), 2 * pos + 1 < Width(|txids|, height - 1);
      Uncollided(hash, l.hash, if wide then r.hash else l.hash, left, if wideHere then right else left);
      if wide && wideHere {
        ExtractSoundAnyCount(hash, txids, n, bits, hashes, height - 1, 2 * pos + 1, l.nBits, l.nHash);
      } else if wideHere {
        NodesDistinct(hash, txids, height - 1, 2 * pos, 2 * pos + 1);
      }
    }
  }

  lemma Uncollided(hash: PairHash, a: Hash, b: Hash, c: Hash, d: Hash)
    requires Injective(hash)
    ensures hash(a, b) == hash(c, d) ==> a == c && b == d
  {
  }

  lemma ZeroInTree(n: nat, pos: nat)
    ensures InTree(n, 0, pos) <==> pos < n
  {
    FirstSplit(0, pos);
  }

  lemma EndSplit(n: nat, height: nat, pos: nat)
    requires n < UINT32 && InTree(n, height, pos) && height > 0
    ensures First(height - 1, 2 * pos) == First(height, pos) <= First(height - 1, 2 * pos + 1)
    ensures 2 * pos + 1 < Width(n, height - 1) ==>
      && End(n, height - 1, 2 * pos) == First(height - 1, 2 * pos + 1) <= End(n, height, pos)
      && End(n, height - 1, 2 * pos + 1) == End(n, height, pos)
    ensures 2 * pos + 1 >= Width(n, height - 1) ==> End(n, height - 1, 2 * pos) == End(n, height, pos)
  {
    hide Width, Pow2, First;
    Children(n, height, pos);
    FirstSplit(height, pos);
    FirstSplit(height - 1, 2 * pos);
    FirstSplit(height - 1, 2 * pos + 1);
  }

  /** Whatever the bits and hashes, the reported indices ascend and lie below the node. */
  lemma {:induction false} ExtractAscends(hash: PairHash, n: nat, bits: seq<bool>, hashes: seq<Hash>,
                                          height: nat, pos: nat, nBits: nat, nHash: nat)
    requires n < UINT32 && InTree(n, height, pos)
    ensures Within(Extract(hash, n, bits, hashes, height, pos, nBits, nHash).indices, First(height, pos), End(n, height, pos))
    decreases height
  {
    hide Width, Pow2, InTree, First, End;
    if height == 0 {
      LeafRange(n, pos);
    } else if nBits < |bits| && bits[nBits] {
      hide Within;
      EndSplit(n, height, pos);
      Children(n, height, pos);
      ExtractAscends(hash, n, bits, hashes, height - 1, 2 * pos, nBits + 1, nHash);
      var l := Extract(hash, n, bits, hashes, height - 1, 2 * pos, nBits + 1, nHash);
      if 2 * pos + 1 < Width(n, height - 1) {
        ExtractAscends(hash, n, bits, hashes, height - 1, 2 * pos + 1, l.nBits, l.nHash);
        var r := Extract(hash, n, bits, hashes, height - 1, 2 * pos + 1, l.nBits, l.nHash);
        WithinConcat(l.indices, r.indices, First(height, pos), First(height - 1, 2 * pos + 1), End(n, height, pos));
      }
    }
  }

  lemma LeafRange(n: nat, pos: nat)
    requires InTree(n, 0, pos)
    ensures First(0, pos) == pos && End(n, 0, pos) == pos + 1
  {
    FirstSplit(0, pos);
    FirstSplit(0, pos + 1);
  }

  function Chosen(txids: seq<Hash>, indices: seq<nat>): (r: seq<Hash>)
    ensures |r| == |indices|
  {
    seq(|indices|, k requires 0 <= k < |indices| => if indices[k] < |txids| then txids[indices[k]] else 0)
  }

  /** What decoding an encoded subtree must give. */
  ghost predicate Decodes(hash: PairHash, txids: seq<Hash>, mask: seq<bool>, bits: seq<bool>, hashes: seq<Hash>,
                          height: nat, pos: nat, nBits: nat, nHash: nat)
  {
    Extract(hash, |txids|, bits, hashes, height, pos, nBits, nHash) ==
    Outcome(NodeHash(hash, txids, height, pos),
            nBits + |Bits(mask, height, pos)|, nHash + |Hashes(hash, txids, mask, height, pos)|,
            Chosen(txids, Below(mask, height, pos)), Below(mask, height, pos), false)
  }

  /** Completeness: decoding an encoded subtree gives its hash and exactly the selected transactions. */
  lemma {:induction false} ExtractComplete(hash: PairHash, txids: seq<Hash>, mask: seq<bool>,
                                           bits: seq<bool>, hashes: seq<Hash>,
                                           height: nat, pos: nat, nBits: nat, nHash: nat)
    requires Injective(hash) && Distinct(txids)
    requires |mask| == |txids| < UINT32 && InTree(|mask|, height, pos)
    requires HasAt(bits, nBits, Bits(mask, height, pos))
    requires HasAt(hashes, nHash, Hashes(hash, txids, mask, height, pos))
    ensures Decodes(hash, txids, mask, bits, hashes, height, pos, nBits, nHash)
    decreases height
  {
    hide Width, Pow2, InTree, First, Below, Injective, Distinct, HasAt, Decodes, NodeHash, Bits, Hashes, Extract;
    if Below(mask, height, pos) == [] || height == 0 {
      StopsAt(hash, txids, mask, bits, hashes, height, pos, nBits, nHash);
    } else {
      Children(|mask|, height, pos);
      DescendsInto(hash, txids, mask, bits, hashes, height, pos, nBits, nHash);
      var lb, lh := Bits(mask, height - 1, 2 * pos), Hashes(hash, txids, mask, height - 1, 2 * pos);
      ExtractComplete(hash, txids, mask, bits, hashes, height - 1, 2 * pos, nBits + 1, nHash);
      BelowSplit(mask, height, pos);
      if 2 * pos + 1 < Width(|mask|, height - 1) {
        ExtractComplete(hash, txids, mask, bits, hashes, height - 1, 2 * pos + 1, nBits + 1 + |lb|, nHash + |lh|);
        NodesDistinct(hash, txids, height - 1, 2 * pos, 2 * pos + 1);
      }
      Joins(hash, txids, mask, bits, hashes, height, pos, nBits, nHash);
    }
  }

  lemma StopsAt(hash: PairHash, txids: seq<Hash>, mask: seq<bool>, bits: seq<bool>, hashes: seq<Hash>,
                height: nat, pos: nat, nBits: nat, nHash: nat)
    requires |mask| == |txids| < UINT32 && InTree(|mask|, height, pos)
    requires Below(mask, height, pos) == [] || height == 0
    requires HasAt(bits, nBits, Bits(mask, height, pos))
    requires HasAt(hashes, nHash, Hashes(hash, txids, mask, height, pos))
    ensures Decodes(hash, txids, mask, bits, hashes, height, pos, nBits, nHash)
  {
    hide Width, Pow2, InTree, First, Below, HasAt;
    assert First(height, pos) < |mask| by { InTreeFirst(|mask|, height, pos); }
    HasAtHead(bits, nBits, Bits(mask, height, pos)[0]);
    HasAtHead(hashes, nHash, NodeHash(hash, txids, height, pos));
    LeafBelow(mask, height, pos);
  }

  lemma Joins(hash: PairHash, txids: seq<Hash>, mask: seq<bool>, bits: seq<bool>, hashes: seq<Hash>,
              height: nat, pos: nat, nBits: nat, nHash: nat)
    requires |mask| == |txids| && height > 0 && nBits < |bits| && bits[nBits]
    requires Below(mask, height, pos) != []
    requires Below(mask, height, pos) == Below(mask, height - 1, 2 * pos) +
               if 2 * pos + 1 < Width(|mask|, height - 1) then Below(mask, height - 1, 2 * pos + 1) else []
    requires Decodes(hash, txids, mask, bits, hashes, height - 1, 2 * pos, nBits + 1, nHash)
    requires 2 * pos + 1 < Width(|mask|, height - 1) ==>
      && Decodes(hash, txids, mask, bits, hashes, height - 1, 2 * pos + 1,
                 nBits + 1 + |Bits(mask, height - 1, 2 * pos)|, nHash + |Hashes(hash, txids, mask, height - 1, 2 * pos)|)
      && NodeHash(hash, txids, height - 1, 2 * pos) != NodeHash(hash, txids, height - 1, 2 * pos + 1)
    ensures Decodes(hash, txids, mask, bits, hashes, height, pos, nBits, nHash)
  {
    hide Width, Below, Chosen, Bits, Hashes;
    BitsUnfold(mask, height, pos);
    HashesUnfold(hash, txids, mask, height, pos);
    var left, right := Below(mask, height - 1, 2 * pos), Below(mask, height - 1, 2 * pos + 1);
    if 2 * pos + 1 < Width(|mask|, height - 1) {
      ChosenConcat(txids, left, right);
    } else {
      assert left + [] == left;
    }
  }

  lemma ChosenConcat(txids: seq<Hash>, a: seq<nat>, b: seq<nat>)
    ensures Chosen(txids, a + b) == Chosen(txids, a) + Chosen(txids, b)
  {
  }

  lemma BitsUnfold(mask: seq<bool>, height: nat, pos: nat)
    requires height > 0 && Below(mask, height, pos) != []
    ensures Bits(mask, height, pos) == [true] + (Bits(mask, height - 1, 2 * pos) +
              if 2 * pos + 1 < Width(|mask|, height - 1) then Bits(mask, height - 1, 2 * pos + 1) else [])
  {
    hide Width, Below;
  }

  lemma HashesUnfold(hash: PairHash, txids: seq<Hash>, mask: seq<bool>, height: nat, pos: nat)
    requires height > 0 && Below(mask, height, pos) != []
    ensures Hashes(hash, txids, mask, height, pos) == Hashes(hash, txids, mask, height - 1, 2 * pos) +
              if 2 * pos + 1 < Width(|mask|, height - 1) then Hashes(hash, txids, mask, height - 1, 2 * pos + 1) else []
  {
    hide Width, Below, NodeHash;
  }

  /** An inner node with a match below it sets its bit and leaves the rest to its children, left one first. */
  lemma DescendsInto(hash: PairHash, txids: seq<Hash>, mask: seq<bool>, bits: seq<bool>, hashes: seq<Hash>,
                     height: nat, pos: nat, nBits: nat, nHash: nat)
    requires height > 0 && Below(mask, height, pos) != []
    requires HasAt(bits, nBits, Bits(mask, height, pos))
    requires HasAt(hashes, nHash, Hashes(hash, txids, mask, height, pos))
    ensures nBits < |bits| && bits[nBits]
    ensures HasAt(bits, nBits + 1, Bits(mask, height - 1, 2 * pos))
    ensures HasAt(hashes, nHash, Hashes(hash, txids, mask, height - 1, 2 * pos))
    ensures 2 * pos + 1 < Width(|mask|, height - 1) ==>
      && HasAt(bits, nBits + 1 + |Bits(mask, height - 1, 2 * pos)|, Bits(mask, height - 1, 2 * pos + 1))
      && HasAt(hashes, nHash + |Hashes(hash, txids, mask, height - 1, 2 * pos)|,
               Hashes(hash, txids, mask, height - 1, 2 * pos + 1))
  {
    hide Width, Below, Bits, Hashes, HasAt;
    BitsUnfold(mask, height, pos);
    HashesUnfold(hash, txids, mask, height, pos);
    var lb, lh := Bits(mask, height - 1, 2 * pos), Hashes(hash, txids, mask, height - 1, 2 * pos);
    var two := 2 * pos + 1 < Width(|mask|, height - 1);
    var rb := if two then Bits(mask, height - 1, 2 * pos + 1) else [];
    var rh := if two then Hashes(hash, txids, mask, height - 1, 2 * pos + 1) else [];
    HasAtConcat(bits, nBits, [true], lb + rb);
    HasAtHead(bits, nBits, true);
    HasAtConcat(bits, nBits + 1, lb, rb);
    HasAtConcat(hashes, nHash, lh, rh);
  }

  lemma LeafBelow(mask: seq<bool>, height: nat, pos: nat)
    requires |mask| < UINT32 && InTree(|mask|, height, pos)
    ensures height == 0 ==> Below(mask, height, pos) == if mask[pos] then [pos] else []
  {
    if height == 0 {
      FirstSplit(0, pos);
      FirstSplit(0, pos + 1);
      assert Picked(mask, pos, pos) == [];
    }
  }
}
