/** Numbers in positional notation, most significant digit first. */
module Radix {
  import opened Numbers

  function Pow(b: nat, k: nat): nat {
    if k == 0 then 1 else b * Pow(b, k - 1)
  }

  lemma {:induction false} PowAdd(b: nat, j: nat, k: nat)
    ensures Pow(b, j + k) == Pow(b, j) * Pow(b, k)
    decreases j
  {
    if j > 0 {
      PowAdd(b, j - 1, k);
      assert b * (Pow(b, j - 1) * Pow(b, k)) == (b * Pow(b, j - 1)) * Pow(b, k);
    }
  }

  lemma {:induction false} PowMul(b: nat, j: nat, k: nat)
    ensures Pow(Pow(b, j), k) == Pow(b, j * k)
    decreases k
  {
    if k > 0 {
      PowMul(b, j, k - 1);
      PowAdd(b, j, j * (k - 1));
      assert j + j * (k - 1) == j * k;
    } else {
      assert j * 0 == 0;
    }
  }

  lemma {:induction false} PowPositive(b: nat, k: nat)
    requires b > 0
    ensures Pow(b, k) > 0
  {
    if k > 0 {
      PowPositive(b, k - 1);
    }
  }

  lemma {:induction false} PowMono(b: nat, j: nat, k: nat)
    requires b > 0 && j <= k
    ensures Pow(b, j) <= Pow(b, k)
    decreases k
  {
    if j < k {
      PowMono(b, j, k - 1);
      assert Pow(b, k - 1) <= b * Pow(b, k - 1);
    }
  }

  lemma ProductMono(a: nat, b: nat, c: nat, d: nat)
    requires a <= b && c <= d
    ensures a * c <= b * d
  {
    var e: nat, f: nat := b - a, d - c;
    assert b * d == a * c + a * f + e * c + e * f;
    assert a * f >= 0 && e * c >= 0 && e * f >= 0;
  }

  lemma {:induction false} PowBaseMono(a: nat, b: nat, k: nat)
    requires a <= b
    ensures Pow(a, k) <= Pow(b, k)
  {
    if k > 0 {
      PowBaseMono(a, b, k - 1);
      ProductMono(a, b, Pow(a, k - 1), Pow(b, k - 1));
    }
  }

  lemma {:induction false} PowBaseStrict(a: nat, b: nat, k: nat)
    requires a < b && k > 0
    ensures Pow(a, k) < Pow(b, k)
  {
    PowBaseMono(a, b, k - 1);
    PowPositive(b, k - 1);
    ProductMono(a, b - 1, Pow(a, k - 1), Pow(b, k - 1));
    assert (b - 1) * Pow(b, k - 1) == b * Pow(b, k - 1) - Pow(b, k - 1);
  }

  /** If a^p <= b^q, then a^n <= b^m as soon as m : n is at least q : p. */
  lemma Enough(a: nat, b: nat, p: nat, q: nat, n: nat, m: nat)
    requires b > 0 && p > 0 && Pow(a, p) <= Pow(b, q) && q * n <= p * m
    ensures Pow(a, n) <= Pow(b, m)
  {
    var e, f, g := p * n, q * n, p * m;
    EnoughNamed(a, b, p, q, n, m, e, f, g);
  }

  lemma EnoughNamed(a: nat, b: nat, p: nat, q: nat, n: nat, m: nat, e: nat, f: nat, g: nat)
    requires b > 0 && p > 0 && Pow(a, p) <= Pow(b, q) && e == p * n && f == q * n && g == p * m && f <= g
    ensures Pow(a, n) <= Pow(b, m)
  {
    hide Pow;
    PowMulIs(a, n, p, e);
    PowMulIs(a, p, n, e);
    PowBaseMono(Pow(a, p), Pow(b, q), n);
    PowMulIs(b, q, n, f);
    PowMono(b, f, g);
    PowMulIs(b, m, p, g);
    if Pow(a, n) > Pow(b, m) {
      PowBaseStrict(Pow(b, m), Pow(a, n), p);
    }
  }

  lemma PowMulIs(b: nat, j: nat, k: nat, e: nat)
    requires e == j * k
    ensures Pow(Pow(b, j), k) == Pow(b, e)
  {
    PowMul(b, j, k);
  }

  // ---- Digits

  function Value(b: nat, s: seq<nat>): nat {
    if s == [] then 0 else Value(b, s[..|s| - 1]) * b + s[|s| - 1]
  }

  function Digits(b: nat, n: nat): (s: seq<nat>)
    requires b >= 2
    ensures (s == [] <==> n == 0) && (s != [] ==> s[0] > 0) && forall i :: 0 <= i < |s| ==> s[i] < b
    decreases n
  {
    if n == 0 then [] else Digits(b, n / b) + [n % b]
  }

  lemma {:induction false} ValueOfDigits(b: nat, n: nat)
    requires b >= 2
    ensures Value(b, Digits(b, n)) == n
    decreases n
  {
    if n == 0 {
      assert Value(b, []) == 0;
    } else {
      hide Value;
      QuotLess(n, b);
      ValueOfDigits(b, n / b);
      ValueSnoc(b, Digits(b, n / b), n % b);
      Recompose(n, b);
    }
  }

  lemma QuotLess(n: nat, b: nat)
    requires n > 0 && b >= 2
    ensures 0 <= n / b < n
  {
  }

  lemma ValueSnoc(b: nat, s: seq<nat>, d: nat)
    ensures Value(b, s + [d]) == Value(b, s) * b + d
  {
    assert (s + [d])[..|s|] == s;
  }

  lemma Recompose(n: nat, b: nat)
    requires b > 0
    ensures (n / b) * b + n % b == n
  {
  }

  ghost predicate AllBelow(b: nat, s: seq<nat>) {
    forall i :: 0 <= i < |s| ==> s[i] < b
  }

  /** Digits without leading zeros are the ones of their value. */
  lemma {:induction false} DigitsOfValue(b: nat, s: seq<nat>)
    requires b >= 2 && AllBelow(b, s) && (s != [] ==> s[0] > 0)
    ensures Digits(b, Value(b, s)) == s
  {
    if s != [] {
      hide Digits, Value;
      var n, d := |s| - 1, s[|s| - 1];
      var v := Value(b, s[..n]);
      DigitsOfValue(b, s[..n]);
      assert s == s[..n] + [d];
      ValueSnoc(b, s[..n], d);
      DigitsSnoc(b, v, d);
    }
  }

  lemma DigitsSnoc(b: nat, v: nat, d: nat)
    requires b >= 2 && d < b && v + d > 0
    ensures Digits(b, v * b + d) == Digits(b, v) + [d]
  {
    hide Digits;
    var n := v * b + d;
    ProductMono(v, v, 1, b);
    DivModUnique(n, b, v, d);
    DigitsStep(b, n);
  }

  lemma DigitsStep(b: nat, n: nat)
    requires b >= 2 && n > 0
    ensures Digits(b, n) == Digits(b, n / b) + [n % b]
  {
  }

  lemma {:induction false} ValueZeros(b: nat, z: seq<nat>, s: seq<nat>)
    requires forall i :: 0 <= i < |z| ==> z[i] == 0
    ensures Value(b, z + s) == Value(b, s)
    decreases |s|, |z|
  {
    if s == [] {
      if z != [] {
        assert z + s == z && z[..|z| - 1] + [] == z[..|z| - 1];
        ValueZeros(b, z[..|z| - 1], []);
      }
    } else {
      assert (z + s)[..|z + s| - 1] == z + s[..|s| - 1];
      ValueZeros(b, z, s[..|s| - 1]);
    }
  }

  /** A digit in front counts with the weight of its place. */
  lemma {:induction false} ValueCons(b: nat, d: nat, s: seq<nat>)
    ensures Value(b, [d] + s) == d * Pow(b, |s|) + Value(b, s)
  {
    if s == [] {
      assert ([d] + s)[..0] == [];
    } else {
      var n := |s| - 1;
      assert ([d] + s)[..n + 1] == [d] + s[..n];
      ValueCons(b, d, s[..n]);
      var p, v := Pow(b, n), Value(b, s[..n]);
      assert (d * p + v) * b == d * (b * p) + v * b;
    }
  }

  lemma {:induction false} ValueBound(b: nat, s: seq<nat>)
    requires b > 0 && AllBelow(b, s)
    ensures Value(b, s) < Pow(b, |s|)
  {
    if s != [] {
      var n := |s| - 1;
      ValueBound(b, s[..n]);
      BoundStep(Value(b, s[..n]), Pow(b, n), b, s[n]);
    }
  }

  lemma BoundStep(v: nat, p: nat, b: nat, d: nat)
    requires v < p && d < b
    ensures v * b + d < b * p
  {
    ProductMono(v + 1, p, b, b);
    assert (v + 1) * b == v * b + b;
  }
}
