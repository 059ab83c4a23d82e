/** The checksum of cashaddr (src/cashaddr.cpp): remainders modulo the generator, packed in 40 bits. */
module CashPoly {

  type Data = seq<bv8>

  /** Addition of packed coefficients. */
  function Xor(a: bv40, b: bv40): bv40 {
    a ^ b
  }

  /** The coefficient of x^7. */
  function High(c: bv40): bv40 {
    c >> 35
  }

  /** The other coefficients, each moved up by one power. */
  function Low(c: bv40): bv40 {
    (c & 0x07ffffffff) << 5
  }

  predicate BitOn(c: bv40, bit: bv40) {
    c & bit != 0
  }

  /** Adds k if the bit is set in c0. */
  function AddIf(s: bv40, c0: bv40, bit: bv40, k: bv40): bv40 {
    if BitOn(c0, bit) then Xor(s, k) else s
  }

  /** Adds c0 times k(x), bit by bit. */
  function Reduce(s: bv40, c0: bv40): bv40 {
    var s1 := AddIf(s, c0, 1, 0x98f2bc8e61);
    var s2 := AddIf(s1, c0, 2, 0x79b76d99e2);
    var s3 := AddIf(s2, c0, 4, 0xf33e5fb3c4);
    var s4 := AddIf(s3, c0, 8, 0xae2eabe2a8);
    AddIf(s4, c0, 16, 0x1e4f43e470)
  }

  /** Multiplication by x modulo the generator. */
  function Shift(c: bv40): bv40 {
    Reduce(Low(c), High(c))
  }

  predicate OneBit(bit: bv40) {
    bit == 1 || bit == 2 || bit == 4 || bit == 8 || bit == 16
  }

  lemma XorComm(a: bv40, b: bv40)
    ensures Xor(a, b) == Xor(b, a)
  {
  }

  lemma XorAssoc(a: bv40, b: bv40, c: bv40)
    ensures Xor(Xor(a, b), c) == Xor(a, Xor(b, c))
  {
    assert (a ^ b) ^ c == a ^ (b ^ c);
  }

  lemma XorSelf(a: bv40)
    ensures Xor(a, a) == 0 && Xor(a, 0) == a && Xor(0, a) == a
  {
  }

  lemma XorMiddle(a: bv40, b: bv40, c: bv40, d: bv40)
    ensures Xor(Xor(a, b), Xor(c, d)) == Xor(Xor(a, c), Xor(b, d))
  {
    hide Xor;
    XorAssoc(a, b, Xor(c, d));
    XorAssoc(b, c, d);
    XorComm(b, c);
    XorAssoc(c, b, d);
    XorAssoc(a, c, Xor(b, d));
  }

  lemma XorMoves(s: bv40, t: bv40, k: bv40)
    ensures Xor(Xor(s, k), Xor(t, k)) == Xor(s, t)
    ensures Xor(Xor(s, k), t) == Xor(Xor(s, t), k) && Xor(s, Xor(t, k)) == Xor(Xor(s, t), k)
  {
    hide Xor;
    XorMiddle(s, k, t, k);
    XorSelf(k);
    XorSelf(Xor(s, t));
    XorAssoc(s, k, t);
    XorComm(k, t);
    XorAssoc(s, t, k);
  }

  lemma BitLinear(c: bv40, d: bv40, bit: bv40)
    requires OneBit(bit)
    ensures BitOn(Xor(c, d), bit) <==> BitOn(c, bit) != BitOn(d, bit)
  {
  }

  lemma AddIfLinear(s: bv40, t: bv40, c: bv40, d: bv40, bit: bv40, k: bv40)
    requires OneBit(bit)
    ensures AddIf(Xor(s, t), Xor(c, d), bit, k) == Xor(AddIf(s, c, bit, k), AddIf(t, d, bit, k))
  {
    hide Xor, BitOn;
    BitLinear(c, d, bit);
    XorMoves(s, t, k);
  }

  lemma PartsLinear(a: bv40, b: bv40)
    ensures Low(Xor(a, b)) == Xor(Low(a), Low(b)) && High(Xor(a, b)) == Xor(High(a), High(b))
  {
  }

  lemma ReduceLinear(s: bv40, t: bv40, c: bv40, d: bv40)
    ensures Reduce(Xor(s, t), Xor(c, d)) == Xor(Reduce(s, c), Reduce(t, d))
  {
    hide Xor, AddIf;
    AddIfLinear(s, t, c, d, 1, 0x98f2bc8e61);
    var s1, t1 := AddIf(s, c, 1, 0x98f2bc8e61), AddIf(t, d, 1, 0x98f2bc8e61);
    AddIfLinear(s1, t1, c, d, 2, 0x79b76d99e2);
    var s2, t2 := AddIf(s1, c, 2, 0x79b76d99e2), AddIf(t1, d, 2, 0x79b76d99e2);
    AddIfLinear(s2, t2, c, d, 4, 0xf33e5fb3c4);
    var s3, t3 := AddIf(s2, c, 4, 0xf33e5fb3c4), AddIf(t2, d, 4, 0xf33e5fb3c4);
    AddIfLinear(s3, t3, c, d, 8, 0xae2eabe2a8);
    var s4, t4 := AddIf(s3, c, 8, 0xae2eabe2a8), AddIf(t3, d, 8, 0xae2eabe2a8);
    AddIfLinear(s4, t4, c, d, 16, 0x1e4f43e470);
  }

  lemma ShiftLinear(a: bv40, b: bv40)
    ensures Shift(Xor(a, b)) == Xor(Shift(a), Shift(b))
  {
    hide Xor, Reduce, Low, High;
    PartsLinear(a, b);
    ReduceLinear(Low(a), Low(b), High(a), High(b));
  }

  /** The lowest coefficient of k(x) is 1, so nothing but 0 is mapped to 0. */
  lemma ShiftInjective(c: bv40)
    requires Shift(c) == 0
    ensures c == 0
  {
  }

  lemma ShiftSmall(c: bv40)
    requires c >> 35 == 0
    ensures Shift(c) == c << 5
  {
  }

  // ---- Whole sequences

  function Wide(d: bv8): bv40 {
    d as bv40
  }

  /** The loop of PolyMod from a given start. */
  function Fold(c: bv40, v: Data): bv40 {
    if v == [] then c else Xor(Shift(Fold(c, v[..|v| - 1])), Wide(v[|v| - 1]))
  }

  /** One round of the loop adds the next value before it reduces. */
  lemma ReduceLate(c: bv40, d: bv40)
    ensures Reduce(Xor(Low(c), d), High(c)) == Xor(Shift(c), d)
  {
    hide Reduce, Low, High, Xor;
    XorSelf(High(c));
    ReduceLinear(Low(c), d, High(c), 0);
    ReduceNone(d);
  }

  lemma ReduceNone(s: bv40)
    ensures Reduce(s, 0) == s
  {
  }

  method PolyMod(v: Data) returns (r: bv40)
    ensures r == Xor(Fold(1, v), 1)
  {
    hide Shift, Low, High, BitOn, Xor, Wide;
    var c: bv40 := 1;
    for i := 0 to |v|
      invariant c == Fold(1, v[..i])
    {
      assert v[..i + 1][..i] == v[..i];
      ReduceLate(c, Wide(v[i]));
      var c0 := High(c);
      c := Xor(Low(c), Wide(v[i]));
      if BitOn(c0, 1) {
        c := Xor(c, 0x98f2bc8e61);
      }
      if BitOn(c0, 2) {
        c := Xor(c, 0x79b76d99e2);
      }
      if BitOn(c0, 4) {
        c := Xor(c, 0xf33e5fb3c4);
      }
      if BitOn(c0, 8) {
        c := Xor(c, 0xae2eabe2a8);
      }
      if BitOn(c0, 16) {
        c := Xor(c, 0x1e4f43e470);
      }
    }
    assert v[..|v|] == v;
    return Xor(c, 1);
  }

  lemma {:induction false} FoldConcat(c: bv40, u: Data, v: Data)
    ensures Fold(c, u + v) == Fold(Fold(c, u), v)
  {
    hide Shift, Xor, Wide;
    if v == [] {
      assert u + v == u;
    } else {
      var n := |v| - 1;
      assert (u + v)[..|u| + n] == u + v[..n];
      FoldConcat(c, u, v[..n]);
    }
  }

  /** Value by value difference. */
  function Difference(u: Data, v: Data): (w: Data)
    requires |u| == |v|
    ensures |w| == |u| && forall i :: 0 <= i < |w| ==> w[i] == u[i] ^ v[i]
  {
    seq(|u|, i requires 0 <= i < |u| => u[i] ^ v[i])
  }

  lemma WideXor(a: bv8, b: bv8)
    ensures Wide(a ^ b) == Xor(Wide(a), Wide(b))
  {
  }

  /** The checksum of a difference is the difference of the checksums. */
  lemma {:induction false} FoldLinear(a: bv40, b: bv40, u: Data, v: Data)
    requires |u| == |v|
    ensures Fold(Xor(a, b), Difference(u, v)) == Xor(Fold(a, u), Fold(b, v))
  {
    hide Shift, Xor, Wide, Difference;
    if u != [] {
      var n := |u| - 1;
      FoldLinear(a, b, u[..n], v[..n]);
      assert Difference(u, v)[..n] == Difference(u[..n], v[..n]);
      ShiftLinear(Fold(a, u[..n]), Fold(b, v[..n]));
      WideXor(u[n], v[n]);
      XorMiddle(Shift(Fold(a, u[..n])), Shift(Fold(b, v[..n])), Wide(u[n]), Wide(v[n]));
    }
  }

  predicate AllZero(v: Data) {
    forall i :: 0 <= i < |v| ==> v[i] == 0
  }

  predicate FiveBit(v: Data) {
    forall i :: 0 <= i < |v| ==> v[i] < 32
  }

  /** Appending zeros turns nothing into 0 but 0. */
  lemma {:induction false} FoldZeros(c: bv40, v: Data)
    requires AllZero(v)
    ensures Fold(c, v) == 0 <==> c == 0
  {
    if v != [] {
      hide Shift, Xor, Wide;
      var n := |v| - 1;
      FoldZeros(c, v[..n]);
      WideZero();
      XorSelf(Shift(Fold(c, v[..n])));
      ZeroShift();
      if Shift(Fold(c, v[..n])) == 0 {
        ShiftInjective(Fold(c, v[..n]));
      }
    }
  }

  lemma WideZero()
    ensures Wide(0) == 0
  {
  }

  lemma ZeroShift()
    ensures Shift(0) == 0
  {
  }

  /** The bits that n five-bit values can fill. */
  function Room(n: nat): bv40
    requires n <= 8
  {
    if n == 0 then 0 else if n == 1 then 0x1f else if n == 2 then 0x3ff else if n == 3 then 0x7fff
    else if n == 4 then 0xfffff else if n == 5 then 0x1ffffff else if n == 6 then 0x3fffffff
    else if n == 7 then 0x7ffffffff else 0xffffffffff
  }

  predicate Fits(c: bv40, n: nat)
    requires n <= 8
  {
    c & !Room(n) == 0
  }

  lemma PackStep(c: bv40, d: bv40, n: nat)
    requires n < 8 && Fits(c, n) && d < 32
    ensures Fits(Xor(Shift(c), d), n + 1) && (Xor(Shift(c), d) == 0 <==> c == 0 && d == 0)
  {
    RoomSmall(c, n);
    ShiftSmall(c);
    hide Shift;
    PackBits(c, d, n);
  }

  lemma RoomSmall(c: bv40, n: nat)
    requires n < 8 && Fits(c, n)
    ensures c >> 35 == 0
  {
    if n == 0 {} else if n == 1 {} else if n == 2 {} else if n == 3 {} else if n == 4 {} else if n == 5 {} else if n == 6 {}
  }

  lemma PackBits(c: bv40, d: bv40, n: nat)
    requires n < 8 && Fits(c, n) && d < 32
    ensures Fits((c << 5) ^ d, n + 1) && ((c << 5) ^ d == 0 <==> c == 0 && d == 0)
  {
    if n == 0 {} else if n == 1 {} else if n == 2 {} else if n == 3 {} else if n == 4 {} else if n == 5 {} else if n == 6 {}
  }

  /** Up to eight values are just packed, so they give 0 only if they are all 0. */
  lemma {:induction false} FoldShort(v: Data)
    requires |v| <= 8 && FiveBit(v)
    ensures Fits(Fold(0, v), |v|) && (Fold(0, v) == 0 <==> AllZero(v))
  {
    hide Shift, Xor, Wide, Fits;
    if v == [] {
      NothingFits();
    } else {
      var n := |v| - 1;
      FoldShort(v[..n]);
      WideSmall(v[n]);
      PackStep(Fold(0, v[..n]), Wide(v[n]), n);
      assert AllZero(v) <==> AllZero(v[..n]) && v[n] == 0;
    }
  }

  lemma NothingFits()
    ensures Fits(0, 0)
  {
  }

  lemma WideSmall(d: bv8)
    requires d < 32
    ensures Wide(d) < 32 && (Wide(d) == 0 <==> d == 0)
  {
  }

  /** u and v agree outside a window of at most eight values. */
  ghost predicate BurstApart(u: Data, v: Data, at: nat, len: nat) {
    && |u| == |v| && len <= 8 && at + len <= |u|
    && forall i :: 0 <= i < |u| && !(at <= i < at + len) ==> u[i] == v[i]
  }

  /** Any change confined to eight consecutive values changes the checksum. */
  lemma BurstDetected(c: bv40, u: Data, v: Data, at: nat, len: nat)
    requires BurstApart(u, v, at, len) && FiveBit(u) && FiveBit(v) && u != v
    ensures Fold(c, u) != Fold(c, v)
  {
    hide Shift, Xor, Wide, Fold;
    var w := Difference(u, v);
    XorSelf(c);
    FoldLinear(c, c, u, v);
    XorEqual(Fold(c, u), Fold(c, v));
    var pre, mid, post := w[..at], w[at..at + len], w[at + len..];
    DifferenceParts(u, v, at, len);
    assert w == pre + mid + post;
    FoldConcat(0, pre + mid, post);
    FoldConcat(0, pre, mid);
    FoldZeros(0, pre);
    FoldShort(mid);
    FoldZeros(Fold(0, mid), post);
  }

  lemma XorEqual(a: bv40, b: bv40)
    ensures Xor(a, b) == 0 <==> a == b
  {
    hide Xor;
    XorAssoc(a, b, b);
    XorSelf(a);
    XorSelf(b);
  }

  lemma DifferenceParts(u: Data, v: Data, at: nat, len: nat)
    requires BurstApart(u, v, at, len) && FiveBit(u) && FiveBit(v) && u != v
    ensures
      var w := Difference(u, v);
      AllZero(w[..at]) && FiveBit(w[at..at + len]) && !AllZero(w[at..at + len]) && AllZero(w[at + len..])
  {
    var w := Difference(u, v);
    forall i | 0 <= i < |u|
      ensures w[i] < 32 && (w[i] == 0 <==> u[i] == v[i])
    {
      SmallXor(u[i], v[i]);
    }
    var i :| 0 <= i < |u| && u[i] != v[i];
    assert w[at..at + len][i - at] == w[i];
  }

  lemma SmallXor(a: bv8, b: bv8)
    requires a < 32 && b < 32
    ensures a ^ b < 32 && (a ^ b == 0 <==> a == b)
  {
  }

  // ---- Checksums

  /** mod >> 5k: mod without its last k values. */
  function Drop(mod: bv40, k: nat): bv40 {
    if k == 0 then mod else Shr5(Drop(mod, k - 1))
  }

  function Shr5(x: bv40): bv40 {
    x >> 5
  }

  /** The last value. */
  function Last(x: bv40): (d: bv8)
    ensures d < 32
  {
    (x & 0x1f) as bv8
  }

  /** The eight values packed in mod. */
  function Unpack(mod: bv40): (v: Data)
    ensures |v| == 8 && FiveBit(v)
  {
    seq(8, i requires 0 <= i < 8 => Last(Drop(mod, 7 - i)))
  }

  lemma LastPut(x: bv40)
    ensures Xor(Shift(Shr5(x)), Wide(Last(x))) == x
  {
    ShiftSmall(x >> 5);
    hide Shift;
    assert ((x >> 5) << 5) ^ (x & 0x1f) == x;
  }

  lemma {:induction false} FoldUnpack(mod: bv40, n: nat)
    requires n <= 8
    ensures Fold(0, Unpack(mod)[..n]) == Drop(mod, 8 - n)
  {
    hide Shift, Xor, Wide, Last, Drop, Shr5;
    if n == 0 {
      DropAll(mod);
    } else {
      DropOne(mod, 9 - n);
      FoldUnpack(mod, n - 1);
      LastPut(Drop(mod, 8 - n));
      assert Unpack(mod)[..n][..n - 1] == Unpack(mod)[..n - 1];
    }
  }

  lemma DropAll(mod: bv40)
    ensures Drop(mod, 8) == 0 && Drop(mod, 0) == mod
  {
    assert Drop(mod, 0) == mod;
    hide Drop, Shr5;
    DropOne(mod, 1);
    DropOne(mod, 2);
    DropOne(mod, 3);
    DropOne(mod, 4);
    DropOne(mod, 5);
    DropOne(mod, 6);
    DropOne(mod, 7);
    DropOne(mod, 8);
    EightShifts(mod);
  }

  lemma DropOne(mod: bv40, k: nat)
    requires k >= 1
    ensures Drop(mod, k) == Shr5(Drop(mod, k - 1))
  {
    hide Shr5;
  }

  lemma EightShifts(m: bv40)
    ensures Shr5(Shr5(Shr5(Shr5(Shr5(Shr5(Shr5(Shr5(m)))))))) == 0
  {
  }

  function Zeros(n: nat): (v: Data)
    ensures |v| == n && AllZero(v)
  {
    seq(n, i => 0)
  }

  /** Putting in for the eight zeros what the remainder says makes the checksum hold. */
  lemma ChecksumHolds(v: Data)
    ensures Fold(1, v + Unpack(Xor(Fold(1, v + Zeros(8)), 1))) == 1
  {
    hide Shift, Xor, Wide, Unpack, Fold, Zeros, Difference;
    var rest := Fold(1, v + Zeros(8));
    var mod := Xor(rest, 1);
    var sum := Unpack(mod);
    FoldUnpack(mod, 8);
    assert sum[..8] == sum;
    DropAll(mod);
    var c := Fold(1, v);
    FoldConcat(1, v, Zeros(8));
    FoldConcat(1, v, sum);
    XorSelf(c);
    FoldLinear(c, 0, Zeros(8), sum);
    assert Difference(Zeros(8), sum) == sum by { DifferenceZero(sum); }
    XorAssoc(rest, rest, 1);
    XorSelf(rest);
    XorSelf(1);
  }

  lemma DifferenceZero(v: Data)
    ensures Difference(Zeros(|v|), v) == v
  {
    assert forall i :: 0 <= i < |v| ==> 0 ^ v[i] == v[i];
  }
}
