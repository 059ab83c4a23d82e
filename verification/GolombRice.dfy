/** Golomb-Rice coding (src/blockfilter.cpp): a unary quotient, a zero and the low P bits. */
module GolombRice {
  import opened BitStream
  import opened Numbers
  import opened Options
  import opened Slices

  ghost function Ones(n: nat): (s: seq<bool>)
    ensures |s| == n && forall i :: 0 <= i < n ==> s[i]
  {
    seq(n, i => true)
  }

  ghost function Golomb(p: nat, x: nat): (s: seq<bool>)
    ensures |s| == Quot(x, Pow2(p)) + 1 + p
  {
    Ones(Quot(x, Pow2(p))) + [false] + BitsOf(x, p)
  }

  /** The code of x: x / 2^p ones, a zero, and the p lowest bits of x, the highest first. */
  lemma GolombForm(p: nat, x: nat, i: nat)
    requires i < |Golomb(p, x)|
    ensures
      var q := x / Pow2(p);
      Golomb(p, x)[i] <==> i < q || (i > q && (x / Pow2(p + q - i)) % 2 == 1)
  {
    hide Pow2, BitsOf;
    var q := x / Pow2(p);
    if i > q {
      BitAt(x, p, i - q - 1);
    }
  }

  lemma {:induction false} AllOnes(n: nat, k: nat)
    requires n <= k
    ensures BitsOf(Pow2(k) - 1, n) == Ones(n)
    decreases n
  {
    if n > 0 {
      AllOnes(n - 1, k - 1);
      OddHalf(Pow2(k - 1));
    }
  }

  lemma OddHalf(h: nat)
    requires h >= 1
    ensures (2 * h - 1) / 2 == h - 1 && (2 * h - 1) % 2 == 1
  {
  }

  lemma OnesAdd(a: nat, b: nat)
    ensures Ones(a + b) == Ones(a) + Ones(b)
  {
  }

  lemma NoOnes()
    ensures Ones(0) == []
  {
  }

  method GolombRiceEncode(w: BitStreamWriter, p: nat, x: nat)
    requires w.Valid() && x < UINT64 && p < 64
    modifies w
    ensures w.Valid() && w.Bits() == old(w.Bits()) + Golomb(p, x)
  {
    hide Pow2, BitsOf, Sound, Contents, Ones, Quot;
    var q: nat := Quot(x, Pow2(p));
    NoOnes();
    ghost var quotient := q;
    Pow2Of64();
    while q > 0
      invariant w.Valid() && q <= quotient && w.Bits() == old(w.Bits()) + Ones(quotient - q)
      decreases q
    {
      var nbits: nat := Min(q, 64);
      AllOnes(nbits, 64);
      var _ := w.Write(UINT64 - 1, nbits);
      q := q - nbits;
      OnesAdd(quotient - q - nbits, nbits);
    }
    OneZero();
    var _ := w.Write(0, 1);
    var _ := w.Write(x, p);
  }

  lemma OneZero()
    ensures BitsOf(0, 1) == [false] && NumberOf([false]) == 0 && NumberOf([true]) == 1
  {
    assert BitsOf(0, 0) == [];
  }

  // ---- Decoding

  /** How many ones there are from a position on. */
  ghost function OnesAt(bits: seq<bool>, from: nat): (q: nat)
    requires from <= |bits|
    ensures from + q <= |bits| && (forall i :: from <= i < from + q ==> bits[i]) && (from + q < |bits| ==> !bits[from + q])
    decreases |bits| - from
  {
    if from == |bits| || !bits[from] then 0 else 1 + OnesAt(bits, from + 1)
  }

  /** A decoded value, and where its code ends. */
  datatype Reading = Reading(value: nat, end: nat)

  /** What decoding at a position gives. */
  ghost function DecodeAt(bits: seq<bool>, from: nat, p: nat): Option<Reading>
    requires from <= |bits|
  {
    var q := OnesAt(bits, from);
    var next := from + q + 1;
    if next + p > |bits| then None
    else Some(Reading(((q * Pow2(p)) % UINT64 + NumberOf(bits[next..next + p])) % UINT64, next + p))
  }

  /** Decoding inverts encoding for every 64-bit value. */
  lemma GolombInverse(bits: seq<bool>, from: nat, p: nat, x: nat)
    requires x < UINT64 && p < 64 && HasAt(bits, from, Golomb(p, x))
    ensures DecodeAt(bits, from, p) == Some(Reading(x, from + |Golomb(p, x)|))
  {
    hide Pow2, BitsOf, NumberOf, HasAt, OnesAt;
    var d := Pow2(p);
    var q := Quot(x, d);
    var next := from + q + 1;
    assert Golomb(p, x) == Ones(q) + ([false] + BitsOf(x, p));
    HasAtConcat(bits, from, Ones(q), [false] + BitsOf(x, p));
    HasAtConcat(bits, from + q, [false], BitsOf(x, p));
    HasAtHead(bits, from + q, false);
    HasAtAll(bits, from, Ones(q));
    HasAtSlice(bits, next, BitsOf(x, p));
    UnaryEnds(bits, from, q);
    LowBits(x, p);
    WithinRange(x, d);
  }

  lemma LowBits(x: nat, p: nat)
    ensures NumberOf(BitsOf(x, p)) == x % Pow2(p)
  {
    hide Pow2, BitsOf, NumberOf;
    var d := Pow2(p);
    Euclid(x, d);
    BitsLow(x / d, x % d, p);
    NumberOfBits(x % d, p);
  }

  lemma WithinRange(x: nat, d: nat)
    requires x < UINT64 && d > 0
    ensures ((Quot(x, d) * d) % UINT64 + x % d) % UINT64 == x
  {
    Euclid(x, d);
    DivModUnique(Quot(x, d) * d, UINT64, 0, Quot(x, d) * d);
    DivModUnique(x, UINT64, 0, x);
  }

  lemma UnaryEnds(bits: seq<bool>, from: nat, q: nat)
    requires from + q < |bits| && !bits[from + q] && forall i :: from <= i < from + q ==> bits[i]
    ensures OnesAt(bits, from) == q
  {
  }

  method GolombRiceDecode(r: BitStreamReader, p: nat) returns (x: Option<nat>)
    requires r.Valid() && p < 64
    modifies r
    ensures r.Valid()
    ensures match DecodeAt(ByteBits(r.bytes), old(r.Used()), p)
            case None => x == None
            case Some(v) => x == Some(v.value) && r.Used() == v.end
  {
    hide Pow2, NumberOf, ByteBits;
    ghost var bits, from := ByteBits(r.bytes), r.Used();
    var q: nat := 0;
    while true
      invariant r.Valid() && r.Used() == from + q && forall i :: from <= i < from + q ==> bits[i]
      decreases |bits| - r.Used()
    {
      var bit := r.Read(1);
      if bit == None {
        UnaryRuns(bits, from, q);
        return None;
      }
      OneBit(bits, from + q);
      if bit.value != 1 {
        break;
      }
      q := q + 1;
    }
    UnaryEnds(bits, from, q);
    var low := r.Read(p);
    if low == None {
      return None;
    }
    x := Some(((q * Pow2(p)) % UINT64 + low.value) % UINT64);
  }

  lemma UnaryRuns(bits: seq<bool>, from: nat, q: nat)
    requires from + q == |bits| && forall i :: from <= i < |bits| ==> bits[i]
    ensures OnesAt(bits, from) == q
  {
  }

  lemma OneBit(bits: seq<bool>, i: nat)
    requires i < |bits|
    ensures NumberOf(bits[i..i + 1]) == if bits[i] then 1 else 0
  {
    assert bits[i..i + 1] == [bits[i]];
    OneZero();
  }
}
