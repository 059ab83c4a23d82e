/** CRollingBloomFilter (src/bloom.cpp): positions tagged with one of three generations, kept in pairs of bits. */
module Bloom {
  import Numbers

  // ---- Bits of a word

  /** 1 << j */
  function At(j: bv6): bv64 {
    1 << j
  }

  function And(a: bv64, b: bv64): bv64 {
    a & b
  }

  function Or(a: bv64, b: bv64): bv64 {
    a | b
  }

  function Xor(a: bv64, b: bv64): bv64 {
    a ^ b
  }

  predicate BitOf(w: bv64, j: bv6) {
    And(w, At(j)) != 0
  }

  /** ~(1 << b) */
  function Hole(b: bv6): bv64 {
    !At(b)
  }

  /** v << b */
  function Single(v: bool, b: bv6): bv64 {
    if v then At(b) else 0
  }

  /** 0 - v */
  function Spread(v: bool): bv64 {
    0 - (if v then 1 else 0)
  }

  /** One bit of a word is all of the mask or nothing. */
  lemma OneBit(x: bv64, j: bv6)
    ensures At(j) != 0 && (And(x, At(j)) == 0 || And(x, At(j)) == At(j))
  {
  }

  lemma MaskAnd(a: bv64, b: bv64, m: bv64)
    ensures And(And(a, b), m) == And(And(a, m), And(b, m))
  {
    assert (a & b) & m == (a & m) & (b & m);
  }

  lemma MaskOr(a: bv64, b: bv64, m: bv64)
    ensures And(Or(a, b), m) == Or(And(a, m), And(b, m))
  {
    assert (a | b) & m == (a & m) | (b & m);
  }

  lemma MaskNot(a: bv64, m: bv64)
    ensures And(a, m) == 0 ==> And(!a, m) == m
    ensures And(a, m) == m ==> And(!a, m) == 0
  {
  }

  lemma MaskValues(m: bv64)
    ensures And(m, m) == m && And(m, 0) == 0 && And(0, m) == 0 && And(0, 0) == 0
    ensures Or(m, m) == m && Or(m, 0) == m && Or(0, m) == m && Or(0, 0) == 0
  {
  }

  lemma BitwiseBits(a: bv64, b: bv64, j: bv6)
    ensures BitOf(And(a, b), j) <==> BitOf(a, j) && BitOf(b, j)
    ensures BitOf(Or(a, b), j) <==> BitOf(a, j) || BitOf(b, j)
    ensures BitOf(!a, j) <==> !BitOf(a, j)
  {
    hide At, And, Or;
    OneBit(a, j);
    OneBit(b, j);
    MaskAnd(a, b, At(j));
    MaskOr(a, b, At(j));
    MaskNot(a, At(j));
    MaskValues(At(j));
  }

  lemma ConstantBits(b: bv6, v: bool, j: bv6)
    ensures BitOf(Hole(b), j) <==> j != b
    ensures BitOf(Single(v, b), j) <==> j == b && v
    ensures !BitOf(0, j)
  {
  }

  lemma SpreadXor(p: bv64, v: bool)
    ensures Xor(p, Spread(v)) == if v then !p else p
  {
    if v {
      assert Spread(v) == 0xffff_ffff_ffff_ffff;
      Flipped(p);
    } else {
      assert Spread(v) == 0;
    }
  }

  lemma Flipped(p: bv64)
    ensures p ^ 0xffff_ffff_ffff_ffff == !p
  {
  }

  /** Replaces one bit of a word. */
  function PutBit(w: bv64, b: bv6, v: bool): bv64 {
    Or(And(w, Hole(b)), Single(v, b))
  }

  lemma PutBitPuts(w: bv64, b: bv6, v: bool, j: bv6)
    ensures BitOf(PutBit(w, b, v), j) == if j == b then v else BitOf(w, j)
  {
    hide BitOf, And, Or, Hole, Single;
    BitwiseBits(w, Hole(b), j);
    BitwiseBits(And(w, Hole(b)), Single(v, b), j);
    ConstantBits(b, v, j);
  }

  function WipeMask(p1: bv64, p2: bv64, g1: bool, g2: bool): bv64 {
    Or(Xor(p1, Spread(g1)), Xor(p2, Spread(g2)))
  }

  /** The mask keeps exactly the positions whose two bits are not those of the generation. */
  lemma WipeMaskKeeps(p1: bv64, p2: bv64, g1: bool, g2: bool, j: bv6)
    ensures BitOf(WipeMask(p1, p2, g1, g2), j) <==> BitOf(p1, j) != g1 || BitOf(p2, j) != g2
  {
    hide BitOf, And, Or, Xor, Spread;
    SpreadXor(p1, g1);
    SpreadXor(p2, g2);
    BitwiseBits(p1, p2, j);
    BitwiseBits(p2, p1, j);
    BitwiseBits(Xor(p1, Spread(g1)), Xor(p2, Spread(g2)), j);
  }

  // ---- Tags

  type Item = nat
  type Hash = (nat, Item) -> bv32

  /** FastMod: a 32-bit number scaled down to n. */
  function FastMod(x: bv32, n: nat): nat {
    (Number(x) * n) / Numbers.UINT32
  }

  /** It is x / 2^32 of n, rounded down. */
  lemma FastModBelow(x: bv32, n: nat)
    ensures n > 0 ==> FastMod(x, n) < n
    ensures FastMod(x, n) * 0x1_0000_0000 <= Number(x) * n < (FastMod(x, n) + 1) * 0x1_0000_0000
  {
    hide Number;
    if n > 0 {
      Narrow(x);
      Numbers.Fraction(Number(x), n);
    }
  }

  function Number(x: bv32): nat {
    x as nat
  }

  lemma Narrow(x: bv32)
    ensures Number(x) < Numbers.UINT32
  {
  }

  /** The pair of words and the bit in them that a hash selects. */
  function WordOf(h: bv32, size: nat): nat {
    FastMod(h, size) / 2
  }

  function BitIn(h: bv32): bv6 {
    (h & 0x3f) as bv6
  }

  /** The bit is what the other 26 bits leave of the hash. */
  lemma BitInExactly(h: bv32)
    ensures ((h >> 6) << 6) | (BitIn(h) as bv32) == h
  {
  }

  /** The generation a position is tagged with, 0 for none. */
  function Tag(d: seq<bv64>, p: nat, j: bv6): nat
    requires 2 * p + 1 < |d|
  {
    (if BitOf(d[2 * p], j) then 1 else 0) + (if BitOf(d[2 * p + 1], j) then 2 else 0)
  }

  predicate Paired(d: seq<bv64>) {
    |d| >= 2 && |d| % 2 == 0
  }

  lemma WordInRange(h: bv32, size: nat)
    requires size >= 2 && size % 2 == 0
    ensures 2 * WordOf(h, size) + 1 < size
    ensures FastMod(h, size) - FastMod(h, size) % 2 == 2 * WordOf(h, size)
  {
    FastModBelow(h, size);
  }

  /** All positions of x are tagged with one of the generations. */
  ghost predicate Carries(d: seq<bv64>, hash: Hash, nHash: nat, x: Item, gens: set<nat>) {
    && Paired(d)
    && forall n :: 0 <= n < nHash ==>
         var h := hash(n, x); 2 * WordOf(h, |d|) + 1 < |d| && Tag(d, WordOf(h, |d|), BitIn(h)) in gens
  }

  // ---- The filter

  predicate Low(gen: int) {
    gen == 1 || gen == 3
  }

  predicate High(gen: int) {
    gen >= 2
  }

  /** The generation before, in the cycle 1, 2, 3. */
  function Before(gen: nat): nat {
    if gen <= 1 then 3 else gen - 1
  }

  lemma WipedWord(d: seq<bv64>, e: seq<bv64>, q: nat, gen: nat)
    requires 2 * q + 1 < |d| && Paired(d) && 1 <= gen <= 3
    requires
      var mask := WipeMask(d[2 * q], d[2 * q + 1], Low(gen), High(gen));
      e == d[2 * q := And(d[2 * q], mask)][2 * q + 1 := And(d[2 * q + 1], mask)]
    ensures forall p: nat, j: bv6 :: 2 * p + 1 < |d| ==>
      Tag(e, p, j) == if p == q && Tag(d, p, j) == gen then 0 else Tag(d, p, j)
  {
    hide BitOf, And, WipeMask;
    var mask := WipeMask(d[2 * q], d[2 * q + 1], Low(gen), High(gen));
    forall p: nat, j: bv6 | 2 * p + 1 < |d|
      ensures Tag(e, p, j) == if p == q && Tag(d, p, j) == gen then 0 else Tag(d, p, j)
    {
      if p == q {
        WipeMaskKeeps(d[2 * q], d[2 * q + 1], Low(gen), High(gen), j);
        BitwiseBits(d[2 * q], mask, j);
        BitwiseBits(d[2 * q + 1], mask, j);
      } else {
        assert 2 * p != 2 * q && 2 * p + 1 != 2 * q;
      }
    }
  }

  lemma MarkedWord(d: seq<bv64>, e: seq<bv64>, q: nat, b: bv6, gen: nat)
    requires 2 * q + 1 < |d| && Paired(d) && 1 <= gen <= 3
    requires e == d[2 * q := PutBit(d[2 * q], b, Low(gen))][2 * q + 1 := PutBit(d[2 * q + 1], b, High(gen))]
    ensures forall p: nat, j: bv6 :: 2 * p + 1 < |d| ==>
      Tag(e, p, j) == if p == q && j == b then gen else Tag(d, p, j)
  {
    hide BitOf, PutBit;
    forall p: nat, j: bv6 | 2 * p + 1 < |d|
      ensures Tag(e, p, j) == if p == q && j == b then gen else Tag(d, p, j)
    {
      if p == q {
        PutBitPuts(d[2 * q], b, Low(gen), j);
        PutBitPuts(d[2 * q + 1], b, High(gen), j);
      } else {
        assert 2 * p != 2 * q && 2 * p + 1 != 2 * q;
      }
    }
  }

  /** Exactly the positions tagged with the generation lose their tag. */
  ghost predicate Wiped(d: seq<bv64>, e: seq<bv64>, gen: nat) {
    && |d| == |e| && Paired(d)
    && forall p: nat, j: bv6 :: 2 * p + 1 < |d| ==> Tag(e, p, j) == if Tag(d, p, j) == gen then 0 else Tag(d, p, j)
  }

  /** The position is one of those of x. */
  ghost predicate Selects(hash: Hash, nHash: nat, x: Item, size: nat, p: nat, j: bv6) {
    exists n :: 0 <= n < nHash && WordOf(hash(n, x), size) == p && BitIn(hash(n, x)) == j
  }

  /** Exactly the positions of x are tagged with the generation. */
  ghost predicate Marked(d: seq<bv64>, e: seq<bv64>, hash: Hash, nHash: nat, x: Item, gen: nat) {
    && |d| == |e| && Paired(d)
    && forall p: nat, j: bv6 :: 2 * p + 1 < |d| ==>
         Tag(e, p, j) == if Selects(hash, nHash, x, |d|, p, j) then gen else Tag(d, p, j)
  }

  /** Some of the items selects the position. */
  ghost predicate SelectedBy(hash: Hash, nHash: nat, xs: seq<Item>, size: nat, p: nat, j: bv6) {
    exists i :: 0 <= i < |xs| && Selects(hash, nHash, xs[i], size, p, j)
  }

  lemma SelectedNext(hash: Hash, nHash: nat, xs: seq<Item>, ys: seq<Item>, size: nat, p: nat, j: bv6)
    ensures SelectedBy(hash, nHash, xs + ys, size, p, j) <==>
            SelectedBy(hash, nHash, xs, size, p, j) || SelectedBy(hash, nHash, ys, size, p, j)
  {
    hide Selects;
    var all := xs + ys;
    if i :| 0 <= i < |xs| && Selects(hash, nHash, xs[i], size, p, j) {
      assert Selects(hash, nHash, all[i], size, p, j);
    }
    if i :| 0 <= i < |ys| && Selects(hash, nHash, ys[i], size, p, j) {
      assert Selects(hash, nHash, all[|xs| + i], size, p, j);
    }
  }

  lemma SelectedOne(hash: Hash, nHash: nat, x: Item, size: nat, p: nat, j: bv6)
    ensures SelectedBy(hash, nHash, [x], size, p, j) <==> Selects(hash, nHash, x, size, p, j)
    ensures !SelectedBy(hash, nHash, [], size, p, j)
  {
    hide Selects;
    assert [x][0] == x;
  }

  /** The tag of a position: the generation of the last insertion kept that selects it. */
  ghost function Due(hash: Hash, nHash: nat, size: nat, gen: nat, first: seq<Item>, second: seq<Item>, third: seq<Item>,
                     p: nat, j: bv6): nat
  {
    if SelectedBy(hash, nHash, first, size, p, j) then gen
    else if SelectedBy(hash, nHash, second, size, p, j) then Before(gen)
    else if SelectedBy(hash, nHash, third, size, p, j) then Before(Before(gen))
    else 0
  }

  ghost predicate Tagged(d: seq<bv64>, hash: Hash, nHash: nat, gen: nat, first: seq<Item>, second: seq<Item>, third: seq<Item>) {
    && Paired(d)
    && forall p: nat, j: bv6 :: 2 * p + 1 < |d| ==> Tag(d, p, j) == Due(hash, nHash, |d|, gen, first, second, third, p, j)
  }

  /** Marking the positions of x is inserting it into the current generation. */
  lemma MarkedTags(d: seq<bv64>, e: seq<bv64>, hash: Hash, nHash: nat, gen: nat,
                   first: seq<Item>, second: seq<Item>, third: seq<Item>, x: Item)
    requires Tagged(d, hash, nHash, gen, first, second, third) && Marked(d, e, hash, nHash, x, gen)
    ensures Tagged(e, hash, nHash, gen, first + [x], second, third)
  {
    hide Tag, Selects, SelectedBy;
    forall p: nat, j: bv6 | 2 * p + 1 < |e|
      ensures Tag(e, p, j) == Due(hash, nHash, |e|, gen, first + [x], second, third, p, j)
    {
      SelectedNext(hash, nHash, first, [x], |e|, p, j);
      SelectedOne(hash, nHash, x, |e|, p, j);
    }
  }

  /** Wiping the tags of the third generation starts a new one under its number. */
  lemma WipedTags(d: seq<bv64>, e: seq<bv64>, hash: Hash, nHash: nat, gen: nat,
                  first: seq<Item>, second: seq<Item>, third: seq<Item>)
    requires 1 <= gen <= 3 && Tagged(d, hash, nHash, gen, first, second, third) && Wiped(d, e, Before(Before(gen)))
    ensures Tagged(e, hash, nHash, Before(Before(gen)), [], first, second)
  {
    hide Tag, Selects, SelectedBy;
    forall p: nat, j: bv6 | 2 * p + 1 < |e|
      ensures Tag(e, p, j) == Due(hash, nHash, |e|, Before(Before(gen)), [], first, second, p, j)
    {
      SelectedOne(hash, nHash, 0, |e|, p, j);
    }
  }

  lemma ZeroTags(d: seq<bv64>, hash: Hash, nHash: nat)
    requires Paired(d) && forall i :: 0 <= i < |d| ==> d[i] == 0
    ensures Tagged(d, hash, nHash, 1, [], [], [])
  {
    hide Selects, SelectedBy, BitOf;
    forall p: nat, j: bv6 | 2 * p + 1 < |d|
      ensures Tag(d, p, j) == Due(hash, nHash, |d|, 1, [], [], [], p, j)
    {
      ConstantBits(0, false, j);
      SelectedOne(hash, nHash, 0, |d|, p, j);
    }
  }

  /** All positions of y are selected by some of the items. */
  ghost predicate AllSelected(hash: Hash, nHash: nat, xs: seq<Item>, size: nat, y: Item) {
    forall n :: 0 <= n < nHash ==> SelectedBy(hash, nHash, xs, size, WordOf(hash(n, y), size), BitIn(hash(n, y)))
  }

  /** An element is carried exactly when each of its positions is selected by an insertion that is kept. */
  lemma CarriedExactly(d: seq<bv64>, hash: Hash, nHash: nat, gen: nat, first: seq<Item>, second: seq<Item>, third: seq<Item>, y: Item)
    requires 1 <= gen <= 3 && Tagged(d, hash, nHash, gen, first, second, third)
    ensures Carries(d, hash, nHash, y, {1, 2, 3}) <==> AllSelected(hash, nHash, third + second + first, |d|, y)
  {
    hide Tag, Selects, SelectedBy, WordOf, BitIn;
    forall n | 0 <= n < nHash
      ensures
        var h := hash(n, y);
        var p, j := WordOf(h, |d|), BitIn(h);
        2 * p + 1 < |d| && (Tag(d, p, j) in {1, 2, 3} <==> SelectedBy(hash, nHash, third + second + first, |d|, p, j))
    {
      var h := hash(n, y);
      WordInRange(h, |d|);
      SelectedNext(hash, nHash, third, second, |d|, WordOf(h, |d|), BitIn(h));
      SelectedNext(hash, nHash, third + second, first, |d|, WordOf(h, |d|), BitIn(h));
    }
  }

  /** In particular each of the insertions kept is. */
  lemma SelectsItself(hash: Hash, nHash: nat, xs: seq<Item>, size: nat, i: nat)
    requires i < |xs|
    ensures AllSelected(hash, nHash, xs, size, xs[i])
  {
    hide WordOf, BitIn;
    forall n | 0 <= n < nHash
      ensures SelectedBy(hash, nHash, xs, size, WordOf(hash(n, xs[i]), size), BitIn(hash(n, xs[i])))
    {
      assert Selects(hash, nHash, xs[i], size, WordOf(hash(n, xs[i]), size), BitIn(hash(n, xs[i])));
    }
  }

  lemma NothingSelected(hash: Hash, nHash: nat, size: nat, y: Item)
    requires nHash >= 1
    ensures !AllSelected(hash, nHash, [], size, y)
  {
    hide WordOf, BitIn;
    SelectedOne(hash, nHash, y, size, WordOf(hash(0, y), size), BitIn(hash(0, y)));
  }

  class RollingBloomFilter {
    const nHashFuncs: nat
    const nEntriesPerGeneration: nat
    const data: array<bv64>
    var hash: Hash                       // under the current random tweak
    var nGeneration: nat
    var nEntriesThisGeneration: nat

    // History since the last reset: what was inserted, cut into the generations still kept and what came before.
    ghost var older: seq<Item>
    ghost var third: seq<Item>
    ghost var second: seq<Item>
    ghost var first: seq<Item>

    ghost predicate Sized()
      reads this
    {
      && data.Length >= 2 && data.Length % 2 == 0 && nEntriesPerGeneration >= 1
      && 1 <= nGeneration <= 3 && nEntriesThisGeneration <= nEntriesPerGeneration
    }

    /** How the history is cut. */
    ghost predicate Cut()
      reads this
    {
      && |first| == nEntriesThisGeneration && |second| <= nEntriesPerGeneration && |third| <= nEntriesPerGeneration
      && (third + older != [] ==> |second| == nEntriesPerGeneration)
      && (older != [] ==> |third| == nEntriesPerGeneration)
    }

    ghost predicate Valid()
      reads this, data
    {
      Sized() && Cut() && Tagged(data[..], hash, nHashFuncs, nGeneration, first, second, third)
    }

    /** The insertions kept. */
    ghost function Recent(): seq<Item>
      reads this
    {
      third + second + first
    }

    /** All insertions since the last reset, oldest first. */
    ghost function Log(): seq<Item>
      reads this
    {
      older + third + second + first
    }

    /**
     The number of words comes from a floating-point formula. Half the elements are computed in 32 bits,
     so a filter for none, or for 2^32 - 1 elements, has generations of no entries.
     */
    constructor (nElements: nat, nHashFuncs: nat, words: nat, hash: Hash)
      requires nElements < Numbers.UINT32
      ensures fresh(data) && data.Length == 2 * words && Log() == []
      ensures Valid() <==> words >= 1 && 1 <= nElements < Numbers.UINT32 - 1
      ensures Valid() ==> nElements <= 2 * nEntriesPerGeneration <= nElements + 1
      ensures this.nHashFuncs == nHashFuncs && this.hash == hash && (nHashFuncs >= 1 ==> forall x :: !Held(x))
    {
      this.nHashFuncs := nHashFuncs;
      nEntriesPerGeneration := ((nElements + 1) % Numbers.UINT32) / 2;
      data := new bv64[2 * words](i => 0);
      this.hash, nGeneration, nEntriesThisGeneration := hash, 1, 0;
      older, third, second, first := [], [], [], [];
      new;
      if words >= 1 {
        ZeroTags(data[..], hash, nHashFuncs);
        NothingHeld();
      }
    }

    /** Forgets everything. */
    method Reset(hash: Hash)
      requires Sized()
      modifies this, data
      ensures Valid() && Log() == [] && this.hash == hash && (nHashFuncs >= 1 ==> forall x :: !Held(x))
    {
      this.hash, nGeneration, nEntriesThisGeneration := hash, 1, 0;
      for i := 0 to data.Length
        invariant this.hash == hash && nGeneration == 1 && nEntriesThisGeneration == 0
        invariant forall k :: 0 <= k < i ==> data[k] == 0
      {
        data[i] := 0;
      }
      older, third, second, first := [], [], [], [];
      ZeroTags(data[..], hash, nHashFuncs);
      NothingHeld();
    }

    lemma NothingHeld()
      requires 1 <= nGeneration <= 3 && Tagged(data[..], hash, nHashFuncs, nGeneration, [], [], [])
      ensures nHashFuncs >= 1 ==> forall x :: !Held(x)
    {
      hide Tagged, Carries, AllSelected;
      if nHashFuncs >= 1 {
        forall x
          ensures !Held(x)
        {
          CarriedExactly(data[..], hash, nHashFuncs, nGeneration, [], [], [], x);
          var none: seq<Item> := [];
          assert none + none + none == none;
          NothingSelected(hash, nHashFuncs, |data[..]|, x);
        }
      }
    }

    /** Clears the tags of one generation and no others. */
    method Wipe(gen: nat)
      requires Sized() && 1 <= gen <= 3
      modifies data
      ensures Wiped(old(data[..]), data[..], gen)
    {
      hide Tag;
      ghost var d := data[..];
      for q := 0 to data.Length / 2
        invariant forall p: nat, j: bv6 :: 2 * p + 1 < |d| ==>
          Tag(data[..], p, j) == if p < q && Tag(d, p, j) == gen then 0 else Tag(d, p, j)
      {
        ghost var now := data[..];
        var p1, p2 := data[2 * q], data[2 * q + 1];
        var mask := WipeMask(p1, p2, Low(gen), High(gen));
        data[2 * q] := And(p1, mask);
        data[2 * q + 1] := And(p2, mask);
        WipedWord(now, data[..], q, gen);
      }
    }

    /** Tags the positions of x with the current generation. */
    method Mark(x: Item)
      requires Sized()
      modifies data
      ensures Marked(old(data[..]), data[..], hash, nHashFuncs, x, nGeneration)
    {
      hide Tag, WordOf, BitIn, FastMod;
      ghost var d := data[..];
      for n := 0 to nHashFuncs
        invariant Marked(d, data[..], hash, n, x, nGeneration)
      {
        var h := hash(n, x);
        var bit := BitIn(h);
        var pos := FastMod(h, data.Length);
        WordInRange(h, data.Length);
        ghost var now := data[..];
        var even := pos - pos % 2;
        data[even] := PutBit(data[even], bit, Low(nGeneration));
        data[even + 1] := PutBit(data[even + 1], bit, High(nGeneration));
        MarkedWord(now, data[..], WordOf(h, data.Length), bit, nGeneration);
      }
    }

    method Insert(x: Item)
      requires Valid()
      modifies this, data
      ensures Valid() && Log() == old(Log()) + [x]
      ensures hash == old(hash)
      ensures nEntriesThisGeneration ==
              if old(nEntriesThisGeneration) == nEntriesPerGeneration then 1 else old(nEntriesThisGeneration) + 1
    {
      hide Tagged, Wiped, Marked;
      if nEntriesThisGeneration == nEntriesPerGeneration {
        NewGeneration();
      }
      nEntriesThisGeneration := nEntriesThisGeneration + 1;
      ghost var d := data[..];
      Mark(x);
      MarkedTags(d, data[..], hash, nHashFuncs, nGeneration, first, second, third, x);
      first := first + [x];
    }

    /** Starts a new generation under the number of the oldest one. */
    method NewGeneration()
      requires Valid() && nEntriesThisGeneration == nEntriesPerGeneration
      modifies this, data
      ensures Valid() && Log() == old(Log()) && nEntriesThisGeneration == 0 && hash == old(hash)
    {
      hide Tagged, Wiped, Marked;
      ghost var d, was := data[..], nGeneration;
      nEntriesThisGeneration := 0;
      nGeneration := nGeneration + 1;
      if nGeneration == 4 {
        nGeneration := 1;
      }
      Wipe(nGeneration);
      WipedTags(d, data[..], hash, nHashFuncs, was, first, second, third);
      older, third, second, first := older + third, second, first, [];
    }

    ghost predicate Held(x: Item)
      reads this, data
    {
      Carries(data[..], hash, nHashFuncs, x, {1, 2, 3})
    }

    method Contains(x: Item) returns (r: bool)
      requires Sized()
      ensures r <==> Held(x)
    {
      hide Tag, WordOf, BitIn, FastMod;
      for n := 0 to nHashFuncs
        invariant Carries(data[..], hash, n, x, {1, 2, 3})
      {
        var h := hash(n, x);
        var bit := BitIn(h);
        var pos := FastMod(h, data.Length);
        WordInRange(h, data.Length);
        var even := pos - pos % 2;
        TagSet(data[..], WordOf(h, data.Length), bit);
        if !BitOf(Or(data[even], data[even + 1]), bit) {
          return false;
        }
      }
      return true;
    }

    /** The answers are those of a Bloom filter into which exactly the insertions kept have gone. */
    lemma HeldExactly(x: Item)
      requires Valid()
      ensures Held(x) <==> AllSelected(hash, nHashFuncs, Recent(), data.Length, x)
    {
      hide Tagged, Carries, AllSelected;
      CarriedExactly(data[..], hash, nHashFuncs, nGeneration, first, second, third, x);
    }

    /** Kept are the last two full generations and the current one, or all insertions there were. */
    lemma RecentExactly()
      requires Valid()
      ensures
        var n := 2 * nEntriesPerGeneration + nEntriesThisGeneration;
        Recent() == Log()[if |Log()| <= n then 0 else |Log()| - n..]
    {
      hide Tagged;
      assert Log() == older + Recent();
      assert |second| <= nEntriesPerGeneration && |third| <= nEntriesPerGeneration;
    }

    /** So the filter holds each of them. */
    lemma RecentHeld(i: nat)
      requires Valid() && i < |Log()|
      requires |Log()| - i <= 2 * nEntriesPerGeneration + nEntriesThisGeneration
      ensures Held(Log()[i])
    {
      hide Tagged, Carries, AllSelected;
      RecentExactly();
      var k := i - (|Log()| - |Recent()|);
      assert Recent()[k] == Log()[i];
      SelectsItself(hash, nHashFuncs, Recent(), data.Length, k);
      HeldExactly(Log()[i]);
    }
  }

  lemma TagSet(d: seq<bv64>, p: nat, j: bv6)
    requires 2 * p + 1 < |d|
    ensures BitOf(Or(d[2 * p], d[2 * p + 1]), j) <==> Tag(d, p, j) in {1, 2, 3}
  {
    hide BitOf, Or;
    BitwiseBits(d[2 * p], d[2 * p + 1], j);
  }
}
