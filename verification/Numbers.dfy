/** Arithmetic that several models share: powers of two, products and quotients, and bitwise or. */
module Numbers {

  const UINT32: nat := 0x1_0000_0000
  const UINT64: nat := 0x1_0000_0000_0000_0000

  function Max(a: int, b: int): int {
    if a < b then b else a
  }

  function Min(a: int, b: int): int {
    if a < b then a else b
  }

  function Pow2(k: nat): (p: nat)
    ensures p >= 1
  {
    if k == 0 then 1 else 2 * Pow2(k - 1)
  }

  lemma {:induction false} Pow2Add(a: nat, b: nat)
    ensures Pow2(a + b) == Pow2(a) * Pow2(b)
    decreases b
  {
    if b > 0 {
      Pow2Add(a, b - 1);
      assert 2 * (Pow2(a) * Pow2(b - 1)) == Pow2(a) * (2 * Pow2(b - 1));
    }
  }

  lemma {:induction false} Pow2Mono(a: nat, b: nat)
    requires a <= b
    ensures Pow2(a) <= Pow2(b)
    decreases b
  {
    if a < b {
      Pow2Mono(a, b - 1);
    }
  }

  lemma Pow2Values()
    ensures Pow2(0) == 1 && Pow2(1) == 2 && Pow2(8) == 256 && Pow2(16) == 0x1_0000 && Pow2(24) == 0x100_0000
  {
  }

  lemma Pow2Of32()
    ensures Pow2(31) == 0x8000_0000 && Pow2(32) == UINT32
  {
    Pow2Values();
    Pow2Add(16, 16);
    assert Pow2(32) == 2 * Pow2(31);
  }

  lemma Pow2Of64()
    ensures Pow2(64) == UINT64
  {
    Pow2Of32();
    hide Pow2;
    Pow2Add(32, 32);
  }

  // ---- Products and quotients

  lemma MulLess(x: nat, y: nat, w: nat)
    requires x < y
    ensures x * w + w <= y * w
  {
    var d: nat := y - x - 1;
    assert d * w >= 0;
    assert (x + 1 + d) * w == x * w + w + d * w;
  }

  lemma MulMono(a: nat, b: nat, w: nat)
    requires a <= b
    ensures a * w <= b * w
  {
    if a < b {
      MulLess(a, b, w);
    }
  }

  lemma DivModUnique(a: nat, m: nat, q: nat, r: nat)
    requires a == m * q + r && r < m
    ensures a / m == q && a % m == r
  {
    var d := a / m;
    assert a == m * d + a % m;
    assert d < q ==> m * (d + 1) <= m * q;
    assert d > q ==> m * (q + 1) <= m * d;
  }

  function Times(x: nat, y: nat): nat {
    x * y
  }

  function Quot(a: nat, d: nat): nat
    requires d > 0
  {
    a / d
  }

  lemma Euclid(x: nat, p: nat)
    requires p > 0
    ensures x == p * (x / p) + x % p && x / p >= 0
  {
  }

  lemma Regroup(r: nat, d: nat, p: nat)
    ensures r * (d * p) == (r * d) * p
  {
  }

  lemma MulSum(a: nat, b: nat, w: nat)
    ensures (a + b) * w == a * w + b * w
  {
  }

  lemma MulSwap(a: nat, b: nat, c: nat)
    ensures (a * b) * c == (a * c) * b
  {
  }

  /** A 32-bit number as a fraction of 2^32, scaled up to n: the replacement for a remainder. */
  lemma Fraction(h: nat, n: nat)
    requires h < UINT32 && n > 0
    ensures (h * n) / UINT32 < n
  {
    MulLess(h, UINT32, n);
  }

  // ---- Bits

  /** Bitwise or. */
  function Or(x: nat, y: nat): nat {
    if x == 0 then y else if y == 0 then x
    else 2 * Or(x / 2, y / 2) + (if x % 2 == 1 || y % 2 == 1 then 1 else 0)
  }

  /** On disjoint bits, or is addition. */
  lemma {:induction false} OrDisjoint(x: nat, y: nat, s: nat)
    requires x < Pow2(s) && y % Pow2(s) == 0
    ensures Or(x, y) == x + y && Or(y, x) == x + y
    decreases s
  {
    if s > 0 && x != 0 && y != 0 {
      var m := Pow2(s - 1);
      var q := y / (2 * m);
      assert y == 2 * (m * q);
      DivModUnique(m * q, m, q, 0);
      OrDisjoint(x / 2, y / 2, s - 1);
    }
  }
}
