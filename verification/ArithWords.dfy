/** Numbers as sequences of 32-bit limbs, least significant first: the arithmetic behind base_uint. */
module ArithWords {
  import opened Numbers

  const B: nat := 0x1_0000_0000

  type Word = x: int | 0 <= x < B

  /** The weight of limb i. */
  ghost function Weight(i: nat): nat {
    Pow2(32 * i)
  }

  lemma WeightNext(i: nat)
    ensures Weight(0) == 1 && Weight(1) == B && Weight(i + 1) == B * Weight(i)
  {
    Pow2Of32();
    Pow2Add(32, 32 * i);
    assert 32 + 32 * i == 32 * (i + 1);
  }

  lemma WeightAdd(i: nat, j: nat)
    ensures Weight(i + j) == Weight(i) * Weight(j)
  {
    Pow2Add(32 * i, 32 * j);
    assert 32 * i + 32 * j == 32 * (i + j);
  }

  // ---- Products and quotients

  lemma Distribute(w: nat, hi: nat, x: nat, v: nat)
    ensures w * (hi + x * v) == w * hi + x * (w * v)
  {
    assert w * (x * v) == x * (w * v);
  }

  /** Splitting off the low limb of n and carrying the rest keeps n times the weight. */
  lemma Carry(n: nat, w: nat)
    ensures (n % B) * w + (n / B) * (B * w) == n * w
  {
    var q, r := n / B, n % B;
    assert (r + B * q) * w == r * w + (B * q) * w;
    assert (B * q) * w == q * (B * w);
  }

  // ---- Values

  ghost function Val(s: seq<Word>): nat {
    if s == [] then 0 else Val(s[..|s| - 1]) + Times(s[|s| - 1], Weight(|s| - 1))
  }

  lemma ValSnoc(s: seq<Word>, i: nat)
    requires i < |s|
    ensures Val(s[..i + 1]) == Val(s[..i]) + s[i] * Weight(i)
  {
    assert s[..i + 1][..i] == s[..i];
  }

  lemma {:induction false} ValBound(s: seq<Word>)
    ensures Val(s) < Weight(|s|)
  {
    if s == [] {
      WeightNext(0);
    } else {
      var n := |s| - 1;
      hide Weight;
      ValBound(s[..n]);
      WeightNext(n);
      MulLess(s[n], B, Weight(n));
    }
  }

  /** The value splits at any limb. */
  lemma {:induction false} ValSplit(s: seq<Word>, i: nat)
    requires i <= |s|
    ensures Val(s) == Val(s[..i]) + Weight(i) * Val(s[i..])
  {
    hide Weight;
    if i == |s| {
      assert s[..i] == s;
    } else {
      var n := |s| - 1;
      ValSplit(s[..n], i);
      assert s[..n][..i] == s[..i] && s[..n][i..] == s[i..n] && s[i..][..n - i] == s[i..n];
      WeightAdd(i, n - i);
      Distribute(Weight(i), Val(s[i..n]), s[n], Weight(n - i));
    }
  }

  lemma {:induction false} ValZeros(s: seq<Word>)
    requires forall i :: 0 <= i < |s| ==> s[i] == 0
    ensures Val(s) == 0
  {
    if s != [] {
      ValZeros(s[..|s| - 1]);
    }
  }

  /** Only the highest differing limb decides. */
  lemma {:induction false} ValCompare(s: seq<Word>, t: seq<Word>, i: nat)
    requires i < |s| == |t| && s[i] < t[i] && s[i + 1..] == t[i + 1..]
    ensures Val(s) < Val(t)
  {
    hide Weight, Val;
    ValSplit(s, i + 1);
    ValSplit(t, i + 1);
    ValSnoc(s, i);
    ValSnoc(t, i);
    ValBound(s[..i]);
    MulLess(s[i], t[i], Weight(i));
  }
}
