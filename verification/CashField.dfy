/**
 What the loop of PolyMod (src/cashaddr.cpp) computes, in polynomials over
 GF(32): the packed value is the remainder of the message, with a 1 in front,
 modulo the generator g(x), and no other packed value is one.
 */
module CashField {
  import opened CashPoly

  // ---- GF(32): five bits, modulo a^5 + a^3 + 1

  /** Multiplication by a. */
  function Twice(b: bv8): bv8 {
    if b & 0x10 != 0 then ((b << 1) ^ 0x29) & 0x1f else b << 1
  }

  function BitTimes(a: bv8, bit: bv8, b: bv8): bv8 {
    if a & bit != 0 then b else 0
  }

  function Times(a: bv8, b: bv8): bv8 {
    var b2 := Twice(b);
    var b4 := Twice(b2);
    var b8 := Twice(b4);
    var low := Plus(Plus(BitTimes(a, 1, b), BitTimes(a, 2, b2)), BitTimes(a, 4, b4));
    Plus(Plus(low, BitTimes(a, 8, b8)), BitTimes(a, 16, Twice(b8)))
  }

  /** Addition. */
  function Plus(a: bv8, b: bv8): bv8 {
    a ^ b
  }

  // ---- Polynomials, lowest coefficient first

  /** g(x) = x^8 + {19}x^7 + {3}x^6 + {25}x^5 + {11}x^4 + {25}x^3 + {3}x^2 + {19}x + {1}. */
  function Generator(i: int): bv8 {
    if i == 0 || i == 8 then 1 else if i == 1 || i == 7 then 19 else if i == 2 || i == 6 then 3
    else if i == 3 || i == 5 then 25 else if i == 4 then 11 else 0
  }

  /** Coefficient i of q(x) g(x). */
  function ProductAt(q: Data, i: int): bv8 {
    if q == [] then 0 else Plus(Times(q[0], Generator(i)), ProductAt(q[1..], i - 1))
  }

  /** Coefficient i of the message: the values after an implicit 1, the last value lowest. */
  function MessageAt(v: Data, i: int): bv8 {
    if 0 <= i < |v| then v[|v| - 1 - i] else if i == |v| then 1 else 0
  }

  /** Coefficient i of a packed remainder, of degree at most 7. */
  function PackedAt(c: bv40, i: int): bv8 {
    if 0 <= i < 8 then Last(Drop(c, i)) else 0
  }

  /** p(x) = q(x) g(x) + c(x), where p is given by its coefficients. */
  ghost predicate Divided(p: int -> bv8, q: Data, c: bv40) {
    forall i: int :: p(i) == Plus(ProductAt(q, i), PackedAt(c, i))
  }

  // ---- One round

  lemma PackedXor(a: bv40, b: bv40, i: int)
    ensures PackedAt(Xor(a, b), i) == Plus(PackedAt(a, i), PackedAt(b, i))
  {
    if 0 <= i < 8 {
      DropXor(a, b, i);
      LastXor(Drop(a, i), Drop(b, i));
    }
  }

  lemma {:induction false} DropXor(a: bv40, b: bv40, k: nat)
    ensures Drop(Xor(a, b), k) == Xor(Drop(a, k), Drop(b, k))
  {
    hide Xor, Shr5;
    if k > 0 {
      DropXor(a, b, k - 1);
      Shr5Xor(Drop(a, k - 1), Drop(b, k - 1));
    }
  }

  lemma Shr5Xor(a: bv40, b: bv40)
    ensures Shr5(Xor(a, b)) == Xor(Shr5(a), Shr5(b))
  {
  }

  lemma LastXor(a: bv40, b: bv40)
    ensures Last(Xor(a, b)) == Plus(Last(a), Last(b))
  {
  }

  /** mod >> 5k, with the shift written out. */
  function Shifted(m: bv40, k: nat): bv40 {
    if k == 0 then m else if k == 1 then m >> 5 else if k == 2 then m >> 10 else if k == 3 then m >> 15
    else if k == 4 then m >> 20 else if k == 5 then m >> 25 else if k == 6 then m >> 30 else m >> 35
  }

  lemma Shr5From1(m: bv40)
    ensures Shr5(m >> 5) == m >> 10
  {
  }

  lemma Shr5From2(m: bv40)
    ensures Shr5(m >> 10) == m >> 15
  {
  }

  lemma Shr5From3(m: bv40)
    ensures Shr5(m >> 15) == m >> 20
  {
  }

  lemma Shr5From4(m: bv40)
    ensures Shr5(m >> 20) == m >> 25
  {
  }

  lemma Shr5From5(m: bv40)
    ensures Shr5(m >> 25) == m >> 30
  {
  }

  lemma Shr5From6(m: bv40)
    ensures Shr5(m >> 30) == m >> 35
  {
  }

  lemma ShiftedNext(m: bv40, k: nat)
    requires k < 7
    ensures Shr5(Shifted(m, k)) == Shifted(m, k + 1)
  {
    if k == 0 {
      assert Shr5(m) == m >> 5;
    } else {
      hide Shr5;
      if k == 1 {
        Shr5From1(m);
      } else if k == 2 {
        Shr5From2(m);
      } else if k == 3 {
        Shr5From3(m);
      } else if k == 4 {
        Shr5From4(m);
      } else if k == 5 {
        Shr5From5(m);
      } else {
        Shr5From6(m);
      }
    }
  }

  lemma {:induction false} DropShifted(m: bv40, k: nat)
    requires k < 8
    ensures Drop(m, k) == Shifted(m, k)
  {
    hide Shr5;
    if k > 0 {
      DropShifted(m, k - 1);
      hide Drop, Shifted;
      DropOne(m, k);
      ShiftedNext(m, k - 1);
    }
  }

  lemma LowGroup(c: bv40, i: nat)
    requires 0 < i < 8
    ensures Shifted(Low(c), i) & 0x1f == Shifted(c, i - 1) & 0x1f
  {
    if i == 1 {} else if i == 2 {} else if i == 3 {} else if i == 4 {} else if i == 5 {} else if i == 6 {}
  }

  lemma LowEmpty(c: bv40)
    ensures Low(c) & 0x1f == 0
  {
  }

  lemma PackedLow(c: bv40, i: int)
    requires 0 <= i < 8
    ensures PackedAt(Low(c), i) == PackedAt(c, i - 1)
  {
    hide Drop, Low, Shifted;
    DropShifted(Low(c), i);
    if i > 0 {
      DropShifted(c, i - 1);
      LowGroup(c, i);
    } else {
      DropAll(Low(c));
      LowEmpty(c);
    }
  }

  lemma PackedWide(d: bv8, i: int)
    requires d < 32
    ensures PackedAt(Wide(d), i) == if i == 0 then d else 0
  {
    if 0 <= i < 8 {
      hide Drop;
      DropShifted(Wide(d), i);
      if i == 0 {} else if i == 1 {} else if i == 2 {} else if i == 3 {} else if i == 4 {} else if i == 5 {} else if i == 6 {}
    }
  }

  /** The coefficient of x^7, which is what one more factor x takes out of range. */
  function Top(c: bv40): (d: bv8)
    ensures d < 32 && Wide(d) == High(c)
  {
    High(c) as bv8
  }

  lemma TopPacked(c: bv40)
    ensures PackedAt(c, 7) == Top(c)
  {
    hide Drop;
    DropShifted(c, 7);
  }

  /** The constants of the loop are the multiples of k(x) = g(x) - x^8 by powers of a. */
  lemma PackedReduced(d: bv8, i: int)
    requires d < 32 && 0 <= i < 8
    ensures PackedAt(Reduce(0, Wide(d)), i) == Times(d, Generator(i))
  {
    hide Drop;
    DropShifted(Reduce(0, Wide(d)), i);
    if i == 0 {} else if i == 1 {} else if i == 2 {} else if i == 3 {} else if i == 4 {} else if i == 5 {} else if i == 6 {}
  }

  lemma TimesSimple(a: bv8, b: bv8)
    requires a < 32
    ensures Times(a, 1) == a && Times(a, 0) == 0 && Times(0, b) == 0
  {
  }

  /** x c(x) + d is c's top coefficient times g(x), plus what a round leaves. */
  lemma RoundAt(c: bv40, d: bv8, i: int)
    requires d < 32
    ensures (if i == 0 then d else PackedAt(c, i - 1)) ==
              Plus(Times(Top(c), Generator(i)), PackedAt(Xor(Shift(c), Wide(d)), i))
  {
    hide Xor, Plus, Low, High, Reduce, Times, Generator, PackedAt, Top, Wide;
    TimesSimple(Top(c), 0);
    PlusCancels(0, Times(Top(c), Generator(i)), 0);
    if 0 <= i < 8 {
      XorSelf(Low(c));
      XorSelf(High(c));
      ReduceLinear(Low(c), 0, 0, High(c));
      ReduceNone(Low(c));
      PackedXor(Shift(c), Wide(d), i);
      PackedXor(Low(c), Reduce(0, High(c)), i);
      PackedLow(c, i);
      PackedReduced(Top(c), i);
      PackedWide(d, i);
      OutsideZero(c, i - 1);
      PlusCancels(Times(Top(c), Generator(i)), PackedAt(c, i - 1), PackedAt(Wide(d), i));
    } else {
      OutsideZero(Xor(Shift(c), Wide(d)), i);
      OutsideGenerator(i);
      if i == 8 {
        TopPacked(c);
      } else {
        OutsideZero(c, i - 1);
      }
    }
  }

  lemma OutsideZero(c: bv40, i: int)
    ensures !(0 <= i < 8) ==> PackedAt(c, i) == 0
  {
  }

  lemma OutsideGenerator(i: int)
    ensures Generator(8) == 1 && (!(0 <= i <= 8) ==> Generator(i) == 0)
  {
  }

  lemma PlusCancels(t: bv8, a: bv8, b: bv8)
    ensures Plus(t, Plus(Plus(a, t), b)) == Plus(a, b) && Plus(a, 0) == a && Plus(0, b) == b
  {
  }

  // ---- The remainder

  /** The top coefficients that the rounds took out, the last one lowest. */
  ghost function Quotient(v: Data): (q: Data)
    ensures |q| == |v| && FiveBit(q)
  {
    if v == [] then [] else
      var u := v[..|v| - 1];
      [Top(Fold(1, u))] + Quotient(u)
  }

  /** What the loop computes is the message reduced modulo g(x). */
  lemma {:induction false} FoldDivides(v: Data)
    requires FiveBit(v)
    ensures Divided(i => MessageAt(v, i), Quotient(v), Fold(1, v))
  {
    if v == [] {
      forall i: int
        ensures MessageAt(v, i) == Plus(ProductAt(Quotient(v), i), PackedAt(Fold(1, v), i))
      {
        assert Wide(1) == 1;
        PackedWide(1, i);
      }
    } else {
      var n := |v| - 1;
      var u := v[..n];
      FoldDivides(u);
      forall i: int
        ensures MessageAt(v, i) == Plus(ProductAt(Quotient(v), i), PackedAt(Fold(1, v), i))
      {
        DivideNext(v, u, i);
      }
    }
  }

  lemma DivideNext(v: Data, u: Data, i: int)
    requires v != [] && u == v[..|v| - 1] && FiveBit(v)
    requires MessageAt(u, i - 1) == Plus(ProductAt(Quotient(u), i - 1), PackedAt(Fold(1, u), i - 1))
    ensures MessageAt(v, i) == Plus(ProductAt(Quotient(v), i), PackedAt(Fold(1, v), i))
  {
    hide Xor, Plus, Shift, Times, Generator, PackedAt, Top, Wide, Fold, Quotient, ProductAt;
    var d, c, q := v[|u|], Fold(1, u), Quotient(u);
    RoundAt(c, d, i);
    FoldSplit(v, u, i);
    OutsideZero(c, -1);
    ProductNone(q, -1);
    PlusRegroups(Times(Top(c), Generator(i)), ProductAt(q, i - 1), PackedAt(Fold(1, v), i));
    PlusRegroups(0, 0, d);
    PlusRegroups(0, 0, Plus(Times(Top(c), Generator(i)), PackedAt(Fold(1, v), i)));
  }

  lemma FoldSplit(v: Data, u: Data, i: int)
    requires v != [] && u == v[..|v| - 1]
    ensures Fold(1, v) == Xor(Shift(Fold(1, u)), Wide(v[|u|]))
    ensures ProductAt(Quotient(v), i) == Plus(Times(Top(Fold(1, u)), Generator(i)), ProductAt(Quotient(u), i - 1))
  {
    hide Xor, Plus, Shift, Times, Generator, Top, Wide;
    assert Quotient(v)[1..] == Quotient(u);
  }

  lemma {:induction false} ProductNone(q: Data, i: int)
    requires i < 0
    ensures ProductAt(q, i) == 0
  {
    if q != [] {
      ProductNone(q[1..], i - 1);
      TimesZero(q[0]);
    }
  }

  lemma TimesZero(a: bv8)
    ensures Times(a, 0) == 0
  {
  }

  lemma PlusRegroups(t: bv8, p: bv8, r: bv8)
    ensures Plus(Plus(t, p), r) == Plus(p, Plus(t, r)) && Plus(0, r) == r
  {
  }

  // ---- No other remainder

  /** p(x) + q(x). */
  ghost function Sum(p: Data, q: Data): (w: Data)
    requires FiveBit(p) && FiveBit(q)
    ensures FiveBit(w)
  {
    if p == [] then q else if q == [] then p else
      PlusSmall(p[0], q[0]);
      [Plus(p[0], q[0])] + Sum(p[1..], q[1..])
  }

  lemma PlusSmall(a: bv8, b: bv8)
    requires a < 32 && b < 32
    ensures Plus(a, b) < 32
  {
  }

  lemma BitTimesLinear(a: bv8, b: bv8, bit: bv8, g: bv8)
    requires bit == 1 || bit == 2 || bit == 4 || bit == 8 || bit == 16
    ensures BitTimes(Plus(a, b), bit, g) == Plus(BitTimes(a, bit, g), BitTimes(b, bit, g))
  {
  }

  lemma TimesLinear(a: bv8, b: bv8, g: bv8)
    ensures Times(Plus(a, b), g) == Plus(Times(a, g), Times(b, g))
  {
    hide Plus, BitTimes, Twice;
    var g2 := Twice(g);
    var g4 := Twice(g2);
    var g8 := Twice(g4);
    var g16 := Twice(g8);
    BitTimesLinear(a, b, 1, g);
    BitTimesLinear(a, b, 2, g2);
    BitTimesLinear(a, b, 4, g4);
    BitTimesLinear(a, b, 8, g8);
    BitTimesLinear(a, b, 16, g16);
    var a2, b2 := Plus(BitTimes(a, 1, g), BitTimes(a, 2, g2)), Plus(BitTimes(b, 1, g), BitTimes(b, 2, g2));
    PlusMiddle(BitTimes(a, 1, g), BitTimes(b, 1, g), BitTimes(a, 2, g2), BitTimes(b, 2, g2));
    PlusMiddle(a2, b2, BitTimes(a, 4, g4), BitTimes(b, 4, g4));
    var a3, b3 := Plus(a2, BitTimes(a, 4, g4)), Plus(b2, BitTimes(b, 4, g4));
    PlusMiddle(a3, b3, BitTimes(a, 8, g8), BitTimes(b, 8, g8));
    PlusMiddle(Plus(a3, BitTimes(a, 8, g8)), Plus(b3, BitTimes(b, 8, g8)), BitTimes(a, 16, g16), BitTimes(b, 16, g16));
  }

  lemma {:induction false} SumProduct(p: Data, q: Data, i: int)
    requires FiveBit(p) && FiveBit(q)
    ensures ProductAt(Sum(p, q), i) == Plus(ProductAt(p, i), ProductAt(q, i))
  {
    hide Plus, Times, Generator;
    PlusCancels(0, ProductAt(p, i), ProductAt(q, i));
    if p != [] && q != [] {
      SumProduct(p[1..], q[1..], i - 1);
      PlusSmall(p[0], q[0]);
      var w := Sum(p, q);
      assert w[1..] == Sum(p[1..], q[1..]);
      TimesLinear(p[0], q[0], Generator(i));
      PlusMiddle(Times(p[0], Generator(i)), Times(q[0], Generator(i)), ProductAt(p[1..], i - 1), ProductAt(q[1..], i - 1));
    }
  }

  lemma PlusMiddle(a: bv8, b: bv8, c: bv8, d: bv8)
    ensures Plus(Plus(a, b), Plus(c, d)) == Plus(Plus(a, c), Plus(b, d))
  {
    hide Plus;
    PlusAssoc(a, b, Plus(c, d));
    PlusAssoc(b, c, d);
    PlusAssoc(c, b, d);
    PlusAssoc(a, c, Plus(b, d));
  }

  lemma PlusAssoc(a: bv8, b: bv8, c: bv8)
    ensures Plus(Plus(a, b), c) == Plus(a, Plus(b, c)) && Plus(a, b) == Plus(b, a)
  {
  }

  /** g(x) is monic of degree 8: the top coefficient of w(x) g(x) is that of w(x). */
  lemma {:induction false} ProductTop(w: Data, i: int)
    requires FiveBit(w) && i >= |w| + 7
    ensures ProductAt(w, i) == if i == |w| + 7 && w != [] then w[|w| - 1] else 0
  {
    hide Plus, Times, Generator;
    if w != [] {
      ProductTop(w[1..], i - 1);
      OutsideGenerator(i);
      TimesSimple(w[0], 0);
      PlusCancels(0, w[0], ProductAt(w[1..], i - 1));
      PlusCancels(0, 0, 0);
    }
  }

  lemma {:induction false} ProductShorter(w: Data, i: int)
    requires w != [] && w[|w| - 1] == 0
    ensures ProductAt(w, i) == ProductAt(w[..|w| - 1], i)
  {
    hide Plus, Times, Generator;
    if |w| == 1 {
      TimesSimple(0, Generator(i));
      PlusCancels(0, 0, 0);
    } else {
      ProductShorter(w[1..], i - 1);
      assert w[1..][..|w| - 2] == w[..|w| - 1][1..];
    }
  }

  /** A multiple of g(x) of degree below 8 is 0. */
  lemma {:induction false} LowMultipleZero(w: Data, i: int)
    requires FiveBit(w) && forall j :: j >= 8 ==> ProductAt(w, j) == 0
    ensures ProductAt(w, i) == 0
    decreases |w|
  {
    hide Plus, Times, Generator;
    if w != [] {
      var n := |w| - 1;
      ProductTop(w, n + 8);
      forall j | j >= 8
        ensures ProductAt(w[..n], j) == 0
      {
        ProductShorter(w, j);
      }
      ProductShorter(w, i);
      LowMultipleZero(w[..n], i);
    }
  }

  /** No other packed value is a remainder of the same polynomial. */
  lemma RemainderUnique(p: int -> bv8, q: Data, c: bv40, q': Data, c': bv40)
    requires FiveBit(q) && FiveBit(q') && Divided(p, q, c) && Divided(p, q', c')
    ensures c == c'
  {
    hide Plus, ProductAt, PackedAt;
    var w := Sum(q, q');
    forall i: int
      ensures ProductAt(w, i) == Plus(PackedAt(c, i), PackedAt(c', i))
    {
      SumProduct(q, q', i);
      assert p(i) == Plus(ProductAt(q, i), PackedAt(c, i)) == Plus(ProductAt(q', i), PackedAt(c', i));
      PlusMoves(ProductAt(q, i), PackedAt(c, i), ProductAt(q', i), PackedAt(c', i));
    }
    forall j: int | j >= 8
      ensures ProductAt(w, j) == 0
    {
      OutsideZero(c, j);
      OutsideZero(c', j);
      PlusCancels(0, 0, 0);
    }
    forall i | 0 <= i < 8
      ensures PackedAt(c, i) == PackedAt(c', i)
    {
      LowMultipleZero(w, i);
      PlusEqual(PackedAt(c, i), PackedAt(c', i));
    }
    SamePacked(c, c');
  }

  lemma PlusMoves(a: bv8, b: bv8, c: bv8, d: bv8)
    requires Plus(a, b) == Plus(c, d)
    ensures Plus(a, c) == Plus(b, d)
  {
    assert a == (c ^ d) ^ b;
  }

  lemma PlusEqual(a: bv8, b: bv8)
    ensures Plus(a, b) == 0 <==> a == b
  {
  }

  lemma SamePacked(c: bv40, c': bv40)
    requires forall i :: 0 <= i < 8 ==> PackedAt(c, i) == PackedAt(c', i)
    ensures c == c'
  {
    hide Drop, Last, Fold;
    FoldUnpack(c, 8);
    FoldUnpack(c', 8);
    DropAll(c);
    DropAll(c');
    forall i | 0 <= i < 8
      ensures Unpack(c)[i] == Unpack(c')[i]
    {
      assert PackedAt(c, 7 - i) == PackedAt(c', 7 - i);
    }
    assert Unpack(c) == Unpack(c');
  }
}
