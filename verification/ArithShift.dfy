/** Shifting limbs: the parts a limb falls into, and the algebra of one step of each shift loop. */
module ArithShift {
  import opened Numbers
  import opened ArithWords

  /** The bits of x that leave the limb when it is shifted left by s. */
  function Above(x: Word, s: nat): nat
    requires s < 32
  {
    if s == 0 then 0 else Quot(x, Pow2(32 - s))
  }

  /** The bits that stay. */
  function Within(x: Word, s: nat): nat {
    (x * Pow2(s)) % B
  }

  lemma ShiftParts(x: Word, s: nat)
    requires s < 32
    ensures x * Pow2(s) == Above(x, s) * B + Within(x, s)
    ensures 0 <= Above(x, s) < Pow2(s) && Within(x, s) < B && Within(x, s) % Pow2(s) == 0
    ensures s > 0 ==> Within(x, s) == (x % Pow2(32 - s)) * Pow2(s)
  {
    hide Pow2;
    if s == 0 {
      PowZero();
    } else {
      var d, p := Pow2(32 - s), Pow2(s);
      Pow2Add(32 - s, s);
      Pow2Of32();
      var q, r := x / d, x % d;
      SplitProduct(x, d, p);
      DivModUnique(x * p, B, q, r * p);
      DivModUnique(r * p, p, r, 0);
    }
  }

  lemma SplitProduct(x: Word, d: nat, p: nat)
    requires d * p == B && d >= 1
    ensures x * p == B * (x / d) + (x % d) * p && (x % d) * p < B && x / d < p
  {
    var q, r := x / d, x % d;
    assert x == d * q + r;
    MulSum(d * q, r, p);
    MulSwap(d, q, p);
    MulLess(r, d, p);
    QuotientBelow(d, q, p);
  }

  /** (a b)(c d) regrouped. */
  lemma MulRegroup(a: nat, b: nat, c: nat, d: nat)
    ensures (a * b) * (c * d) == (a * d) * (b * c)
  {
    assert (a * b) * (c * d) == a * (b * (c * d));
    assert b * (c * d) == (b * c) * d;
    assert a * ((b * c) * d) == (a * d) * (b * c);
  }

  lemma QuotientBelow(d: nat, q: nat, p: nat)
    requires d * q < d * p
    ensures q < p
  {
    if q >= p {
      MulMono(p, q, d);
    }
  }

  lemma PowZero()
    ensures Pow2(0) == 1
  {
  }

  /** The bits carried into a limb and the bits that stay in it do not overlap and fill at most the limb. */
  lemma Joined(c: nat, x: Word, s: nat)
    requires s < 32 && c < Pow2(s)
    ensures Or(c, Within(x, s)) == c + Within(x, s) < B
  {
    hide Pow2, Within, Or;
    ShiftParts(x, s);
    OrDisjoint(c, Within(x, s), s);
    var p, w := Pow2(s), Within(x, s);
    Pow2Add(32 - s, s);
    Pow2Of32();
    var d := Pow2(32 - s);
    var q := w / p;
    assert w == p * q;
    QuotientBelow(p, q, d);
    MulLess(q, d, p);
  }

  /** One step of <<=: limb i is multiplied by 2^s and carries on. */
  lemma LeftStep(low: nat, c: nat, v: nat, x: Word, s: nat, wi: nat, wk: nat, w: nat)
    requires s < 32 && w == wi * wk && low + c * w == (v * Pow2(s)) * wk
    ensures low + (c + Within(x, s)) * w + Above(x, s) * (B * w) == ((v + x * wi) * Pow2(s)) * wk
  {
    hide Pow2, Within, Above;
    ShiftParts(x, s);
    var p, lo, hi := Pow2(s), Within(x, s), Above(x, s);
    MulSum(c, lo, w);
    MulSum(hi * B, lo, w);
    assert (hi * B) * w == hi * (B * w);
    MulSum(v, x * wi, p);
    MulSum(v * p, (x * wi) * p, wk);
    MulSwap(x, wi, p);
    assert ((x * p) * wi) * wk == (x * p) * (wi * wk);
  }

  /** What was shifted out is a multiple of the limit. */
  lemma LeftWhole(value: nat, c: nat, lo: nat, hi: nat, p: nat, wk: nat, wn: nat)
    requires value + c * (wn * wk) == (lo * p) * wk && value < wn * wk
    ensures ((lo + wn * hi) * (wk * p)) % (wn * wk) == value
  {
    var l := wn * wk;
    assert (lo + wn * hi) * (wk * p) == (lo * p) * wk + (wn * hi) * (wk * p);
    assert (wn * hi) * (wk * p) == l * (hi * p);
    assert l * (c + hi * p) == c * l + l * (hi * p);
    DivModUnique((lo + wn * hi) * (wk * p), l, c + hi * p, value);
  }

  /** The first step of >>= that stores anything: limb k itself. */
  lemma RightFirst(rem: nat, x: Word, p: nat, wk: nat)
    requires p >= 1 && rem < wk
    ensures rem + x * wk == (x / p) * (wk * p) + ((x % p) * wk + rem)
    ensures (x % p) * wk + rem < wk * p
  {
    var q, r := x / p, x % p;
    assert x * wk == (p * q + r) * wk == q * (wk * p) + r * wk;
    MulLess(r, p, wk);
  }

  /** What a right shift by s moves into the limb below. */
  lemma LowPart(x: Word, s: nat)
    requires s < 32
    ensures (x % Pow2(s)) * B == (if s == 0 then 0 else Within(x, 32 - s)) * Pow2(s)
  {
    hide Pow2, Within, Above;
    if s == 0 {
      PowZero();
    } else {
      ShiftParts(x, 32 - s);
      var d, p, r := Pow2(32 - s), Pow2(s), x % Pow2(s);
      assert B == d * p by {
        Pow2Add(32 - s, s);
        Pow2Of32();
      }
      Regroup(r, d, p);
    }
  }

  /** A later step of >>=: limb i splits into the high part of limb m and the low part of limb m - 1. */
  lemma RightStep(a: nat, v: nat, rem: nat, x: Word, s: nat, wk: nat, below: nat, d: nat)
    requires s < 32 && d == wk * Pow2(s) && a == v * d + rem
    ensures a + x * ((B * below) * wk) ==
            (v + (if s == 0 then 0 else Within(x, 32 - s)) * below + (x / Pow2(s)) * (B * below)) * d + rem
  {
    hide Pow2, Within, Above;
    var p := Pow2(s);
    var lo := if s == 0 then 0 else Within(x, 32 - s);
    LowPart(x, s);
    Euclid(x, p);
    var q, r := x / p, x % p;
    RightAlgebra(v, rem, x, q, r, p, lo, wk, below, d);
  }

  lemma RightAlgebra(v: nat, rem: nat, x: nat, q: nat, r: nat, p: nat, lo: nat, wk: nat, below: nat, d: nat)
    requires x == p * q + r && r * B == lo * p && d == wk * p
    ensures v * d + rem + x * ((B * below) * wk) == (v + lo * below + q * (B * below)) * d + rem
  {
    var w, t, u := (B * below) * wk, lo * below, q * (B * below);
    MulSum(p * q, r, w);
    MulRegroup(q, B * below, wk, p);
    MulRegroup(lo, below, wk, p);
    assert r * w == (r * B) * (below * wk) by { Group3(r, B, below, wk); }
    MulSum(v + t, u, d);
    MulSum(v, t, d);
  }

  lemma Group3(r: nat, b: nat, c: nat, w: nat)
    ensures r * ((b * c) * w) == (r * b) * (c * w)
  {
    assert (b * c) * w == b * (c * w);
    assert r * (b * (c * w)) == (r * b) * (c * w);
  }

  /** x >> s. */
  function Down(x: Word, s: nat): nat {
    Quot(x, Pow2(s))
  }

  lemma DownFits(x: Word, s: nat)
    requires s < 32
    ensures 0 <= Down(x, s) < B
    ensures s > 0 ==> Down(x, s) == Above(x, 32 - s) < Pow2(32 - s)
  {
    hide Pow2, Within;
    if s == 0 {
      PowZero();
    } else {
      ShiftParts(x, 32 - s);
      Pow2Mono(32 - s, 32);
      Pow2Of32();
    }
  }
}
