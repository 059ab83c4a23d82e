/** base_uint (src/arith_uint256.h, src/arith_uint256.cpp): unsigned numbers of any fixed number of 32-bit limbs. */
module BigUint {
  import opened Numbers
  import opened ArithWords
  import opened ArithShift

  class BaseUint {
    const pn: array<Word>

    /** The number the limbs stand for. */
    ghost function Value(): nat
      reads pn
    {
      Val(pn[..])
    }

    /** One more than the largest number the limbs can hold. */
    ghost function Limit(): nat {
      Weight(pn.Length)
    }

    constructor (width: nat)
      ensures fresh(pn) && pn.Length == width && Value() == 0
    {
      pn := new Word[width](i => 0);
      new;
      ValZeros(pn[..]);
    }

    constructor Copy(b: BaseUint)
      ensures fresh(pn) && pn.Length == b.pn.Length && pn[..] == b.pn[..] && Value() == b.Value()
    {
      pn := new Word[b.pn.Length](i requires 0 <= i < b.pn.Length reads b.pn => b.pn[i]);
      new;
      assert pn[..] == b.pn[..];
    }

    method AddAssign(b: BaseUint)
      requires b.pn.Length == pn.Length
      modifies pn
      ensures Value() == (old(Value()) + old(b.Value())) % Limit()
    {
      hide Val, Weight;
      ghost var x, y := pn[..], b.pn[..];
      var carry: nat := 0;
      WeightNext(0);
      assert Val([]) == 0 by { ValZeros([]); }
      for i := 0 to pn.Length
        invariant carry <= 1
        invariant forall j :: i <= j < pn.Length ==> pn[j] == x[j] && b.pn[j] == y[j]
        invariant Val(pn[..i]) + carry * Weight(i) == Val(x[..i]) + Val(y[..i])
      {
        var n := carry + pn[i] + b.pn[i];
        assert n < UINT64;
        ghost var low := pn[..i];
        pn[i] := n % B;
        AddStep(low, carry, x, y, i, pn[..], n);
        carry := n / B;
      }
      WholeSlices(pn[..], x, y);
      ValBound(pn[..]);
      DivModUnique(Val(x) + Val(y), Limit(), carry, Val(pn[..]));
    }

    /** operator~ */
    method Complement() returns (r: BaseUint)
      ensures fresh(r) && fresh(r.pn) && r.pn.Length == pn.Length
      ensures r.Value() == Limit() - 1 - Value()
    {
      hide Val, Weight;
      r := new BaseUint(pn.Length);
      for i := 0 to pn.Length
        invariant r.pn.Length == pn.Length && fresh(r.pn)
        invariant forall j :: 0 <= j < i ==> r.pn[j] == B - 1 - pn[j]
      {
        r.pn[i] := B - 1 - pn[i];
      }
      ValComplement(pn[..], r.pn[..]);
    }

    /** Prefix operator++ */
    method Increment()
      modifies pn
      ensures Value() == (old(Value()) + 1) % Limit()
    {
      hide Val, Weight;
      ghost var x := pn[..];
      var i := 0;
      while i < pn.Length
        invariant i <= pn.Length
        invariant forall j :: 0 <= j < i ==> x[j] == B - 1 && pn[j] == 0
        invariant forall j :: i <= j < pn.Length ==> pn[j] == x[j]
      {
        pn[i] := (pn[i] + 1) % B;
        if pn[i] != 0 {
          IncrementStops(x, pn[..], i);
          return;
        }
        i := i + 1;
      }
      IncrementWraps(x, pn[..]);
    }

    /** Prefix operator-- */
    method Decrement()
      modifies pn
      ensures Value() == (old(Value()) + Limit() - 1) % Limit()
    {
      hide Val, Weight;
      ghost var x := pn[..];
      var i := 0;
      while i < pn.Length
        invariant i <= pn.Length
        invariant forall j :: 0 <= j < i ==> x[j] == 0 && pn[j] == B - 1
        invariant forall j :: i <= j < pn.Length ==> pn[j] == x[j]
      {
        pn[i] := (pn[i] - 1) % B;
        if pn[i] != B - 1 {
          IncrementStops(pn[..], x, i);
          ValBound(x);
          DivModUnique(Val(x) + Limit() - 1, Limit(), 1, Val(x) - 1);
          return;
        }
        i := i + 1;
      }
      DecrementWraps(x, pn[..]);
    }

    /** Unary operator- */
    method Negate() returns (r: BaseUint)
      ensures fresh(r) && fresh(r.pn) && r.pn.Length == pn.Length
      ensures r.Value() == (Limit() - Value()) % Limit()
    {
      hide Val, Weight;
      r := Complement();
      r.Increment();
    }

    method SubAssign(b: BaseUint)
      requires b.pn.Length == pn.Length
      modifies pn
      ensures Value() == (old(Value()) + Limit() - old(b.Value())) % Limit()
    {
      hide Val, Weight;
      ValBound(b.pn[..]);
      ghost var x, y := Value(), b.Value();
      var minus := b.Negate();
      AddAssign(minus);
      ModOfMod(x, Limit() - y, Limit());
    }

    /** operator*= of one limb */
    method MulWord(b: Word)
      modifies pn
      ensures Value() == (old(Value()) * b) % Limit()
    {
      hide Val, Weight;
      ghost var x := pn[..];
      var carry: nat := 0;
      WeightNext(0);
      ValZeros([]);
      for i := 0 to pn.Length
        invariant carry < B
        invariant forall j :: i <= j < pn.Length ==> pn[j] == x[j]
        invariant Val(pn[..i]) + carry * Weight(i) == Val(x[..i]) * b
      {
        WordProduct(b, pn[i]);
        var n := carry + b * pn[i];
        assert n < UINT64;
        ghost var low := pn[..i];
        pn[i] := n % B;
        MulStep(low, carry, x, b, i, pn[..], n);
        CarryFits(n);
        carry := n / B;
      }
      WholeSlices(pn[..], x, x);
      ValBound(pn[..]);
      DivModUnique(Val(x) * b, Limit(), carry, Val(pn[..]));
    }

    /** operator*= : schoolbook multiplication, limbs beyond the width dropped */
    method MulAssign(b: BaseUint)
      requires b.pn.Length == pn.Length
      modifies pn
      ensures Value() == (old(Value()) * old(b.Value())) % Limit()
    {
      hide Val, Weight;
      ghost var x, y := pn[..], b.pn[..];
      var width := pn.Length;
      var a := new BaseUint(width);
      ghost var q: nat := 0;
      ValZeros([]);
      assert x[..0] == [];
      for j := 0 to width
        invariant a.pn.Length == width && fresh(a.pn) && pn[..] == x && b.pn[..] == y
        invariant Val(x[..j]) * Val(y) == Val(a.pn[..]) + Limit() * q
      {
        ghost var a0 := a.pn[..];
        ghost var carry := a.AddProduct(pn[j], b, j);
        MulRow(x, y, j, a0, a.pn[..], carry, q);
        q := q + carry + x[j] * Val(y[width - j..]);
      }
      WholeSlices(x, x, x);
      ValBound(a.pn[..]);
      DivModUnique(Val(x) * Val(y), Limit(), q, Val(a.pn[..]));
      ghost var product := a.pn[..];
      forall i | 0 <= i < width {
        pn[i] := a.pn[i];
      }
      assert pn[..] == product;
    }

    /** One row of the multiplication: adds the product of one limb and b, shifted by j limbs. */
    method AddProduct(x: Word, b: BaseUint, j: nat) returns (ghost last: nat)
      requires b.pn.Length == pn.Length && b.pn != pn && j < pn.Length
      modifies pn
      ensures Value() + last * Limit() == old(Value()) + (x * Weight(j)) * Val(b.pn[..pn.Length - j])
    {
      hide Val, Weight;
      ghost var a0, y := pn[..], b.pn[..];
      var carry: nat := 0;
      ValZeros([]);
      assert y[..0] == [];
      for i := 0 to pn.Length - j
        invariant carry < B && b.pn[..] == y
        invariant forall k :: i + j <= k < pn.Length ==> pn[k] == a0[k]
        invariant Val(pn[..i + j]) + carry * Weight(i + j) == Val(a0[..i + j]) + (x * Weight(j)) * Val(y[..i])
      {
        WordProduct(x, b.pn[i]);
        var n := carry + pn[i + j] + x * b.pn[i];
        assert n < UINT64;
        ghost var low := pn[..i + j];
        pn[i + j] := n % B;
        RowStep(low, carry, a0, x, y, i, j, pn[..], n);
        CarryFits(n);
        carry := n / B;
      }
      WholeSlices(pn[..], a0, y);
      last := carry;
    }

    method CompareTo(b: BaseUint) returns (r: int)
      requires b.pn.Length == pn.Length
      ensures r == if Value() < b.Value() then -1 else if Value() > b.Value() then 1 else 0
    {
      hide Val, Weight;
      for i := pn.Length downto 0
        invariant pn[i..] == b.pn[i..]
      {
        assert pn[..][i + 1..] == pn[i + 1..] && b.pn[..][i + 1..] == b.pn[i + 1..];
        if pn[i] < b.pn[i] {
          ValCompare(pn[..], b.pn[..], i);
          return -1;
        }
        if pn[i] > b.pn[i] {
          ValCompare(b.pn[..], pn[..], i);
          return 1;
        }
        assert pn[i..] == [pn[i]] + pn[i + 1..] && b.pn[i..] == [b.pn[i]] + b.pn[i + 1..];
      }
      assert pn[..] == b.pn[..];
      return 0;
    }

    /** The position of the highest set bit plus one, or zero. */
    method Bits() returns (r: nat)
      ensures r <= 32 * pn.Length
      ensures if r == 0 then Value() == 0 else Pow2(r - 1) <= Value() < Pow2(r)
    {
      hide Val, Weight;
      for pos := pn.Length downto 0
        invariant forall k :: pos <= k < pn.Length ==> pn[k] == 0
      {
        if pn[pos] != 0 {
          var top := TopBit(pn[pos]);
          BitsAt(pn[..], pos, top);
          return 32 * pos + top + 1;
        }
      }
      ValZeros(pn[..]);
      return 0;
    }

    method SetZero()
      modifies pn
      ensures forall j :: 0 <= j < pn.Length ==> pn[j] == 0
    {
      for i := 0 to pn.Length
        invariant forall j :: 0 <= j < i ==> pn[j] == 0
      {
        pn[i] := 0;
      }
    }

    /** operator<<= */
    method ShiftLeft(shift: nat)
      modifies pn
      ensures Value() == (old(Value()) * Pow2(shift)) % Limit()
    {
      hide Val, Weight, Pow2, Or, Above, Within, LeftSoFar;
      ghost var x := pn[..];
      var a := new BaseUint.Copy(this);
      SetZero();
      var k, s := shift / 32, shift % 32;
      var width := pn.Length;
      ghost var c: nat, e := 0, 0;
      LeftStart(x, pn[..], s, k);
      for i := 0 to width
        invariant a.pn[..] == x && a.pn != pn
        invariant k > width ==> forall j :: 0 <= j < width ==> pn[j] == 0
        invariant k <= width ==> LeftSoFar(x, pn[..], s, k, e, c) && e == if i + k <= width then i else width - k
      {
        ghost var now := pn[..];
        if i + k < width {
          LeftLimb(x, now, s, k, i, c);
        }
        if i + k + 1 < width && s != 0 {
          pn[i + k + 1] := Or(pn[i + k + 1], Above(a.pn[i], s));
        }
        if i + k < width {
          pn[i + k] := Or(pn[i + k], Within(a.pn[i], s));
          assert pn[..] == LeftLimbs(now, x[i], s, i + k);
          c, e := Above(a.pn[i], s), i + 1;
        }
      }
      if k <= width {
        LeftDone(x, pn[..], s, k, c);
      } else {
        ValZeros(pn[..]);
        LeftAll(Val(x), width, k, s);
      }
      assert shift == 32 * k + s;
    }

    /** operator>>= */
    method ShiftRight(shift: nat)
      modifies pn
      ensures Value() == old(Value()) / Pow2(shift)
    {
      hide Val, Weight, Pow2, Or, Down, Within, RightSoFar;
      ghost var x := pn[..];
      var a := new BaseUint.Copy(this);
      SetZero();
      var k, s := shift / 32, shift % 32;
      ghost var rem: nat := 0;
      RightStart(x, pn[..], s, k);
      for i := 0 to pn.Length
        invariant a.pn[..] == x && a.pn != pn && RightSoFar(x, pn[..], s, k, i, rem)
      {
        ghost var now := pn[..];
        rem := RightLimb(x, now, s, k, i, rem);
        if i - k - 1 >= 0 && s != 0 {
          pn[i - k - 1] := Or(pn[i - k - 1], Within(a.pn[i], 32 - s));
        }
        if i - k >= 0 {
          pn[i - k] := Or(pn[i - k], Down(a.pn[i], s));
        }
        assert pn[..] == RightLimbs(now, x[i], s, i - k);
      }
      RightDone(x, pn[..], s, k, rem);
      assert shift == 32 * k + s;
    }

    /** operator/= ; the source throws on a zero divisor. */
    method DivAssign(b: BaseUint) returns (ok: bool)
      requires b.pn.Length == pn.Length
      modifies pn
      ensures ok <==> old(b.Value()) != 0
      ensures Value() == if ok then old(Value()) / old(b.Value()) else 0
    {
      hide Val, Weight, Pow2, Dividing;
      var div := new BaseUint.Copy(b);
      var num := new BaseUint.Copy(this);
      ghost var n, d := num.Value(), div.Value();
      SetZero();
      ValZeros(pn[..]);
      var numBits := num.Bits();
      var divBits := div.Bits();
      if divBits == 0 {
        return false;
      }
      if divBits > numBits {
        NoQuotient(n, d, numBits, divBits);
        return true;
      }
      var shift := numBits - divBits;
      FitsShifted(n, d, numBits, divBits, pn.Length);
      div.ShiftLeft(shift);
      DividingStart(n, d, shift);
      while shift >= 0
        invariant -1 <= shift < 32 * pn.Length
        invariant div.pn.Length == num.pn.Length == pn.Length && div.pn != num.pn && fresh(div.pn) && fresh(num.pn)
        invariant shift >= 0 ==> div.Value() == d * Pow2(shift)
        invariant Dividing(n, d, Value(), num.Value(), shift)
        decreases shift
      {
        ValBound(num.pn[..]);
        DividingStep(n, d, Value(), num.Value(), shift);
        var c := num.CompareTo(div);
        if c >= 0 {
          SubExact(num.Limit(), num.Value(), div.Value());
          num.SubAssign(div);
          SetBit(shift);
        }
        Halved(d, shift);
        div.ShiftRight(1);
        shift := shift - 1;
      }
      DividingEnd(n, d, Value(), num.Value());
      return true;
    }

    /** Sets one bit of a number that has only zeros up to it. */
    method SetBit(bit: nat)
      requires bit < 32 * pn.Length && Value() % Pow2(bit + 1) == 0
      modifies pn
      ensures Value() == old(Value()) + Pow2(bit)
    {
      hide Val, Weight, Pow2, Or;
      ghost var x := pn[..];
      var at, r := bit / 32, bit % 32;
      BitClear(x, at, r);
      pn[at] := Or(pn[at], Pow2(r));
      assert pn[..] == x[at := x[at] + Pow2(r)];
      BitAdded(x, at, r);
    }
  }

  lemma AddStep(low: seq<Word>, carry: nat, x: seq<Word>, y: seq<Word>, i: nat, now: seq<Word>, n: nat)
    requires i < |x| == |y| == |now| && low == now[..i]
    requires Val(low) + carry * Weight(i) == Val(x[..i]) + Val(y[..i])
    requires n == carry + x[i] + y[i] && now[i] == n % B
    ensures Val(now[..i + 1]) + (n / B) * Weight(i + 1) == Val(x[..i + 1]) + Val(y[..i + 1])
  {
    hide Val, Weight;
    var w := Weight(i);
    ValSnoc(now, i);
    ValSnoc(x, i);
    ValSnoc(y, i);
    WeightNext(i);
    Carry(n, w);
    assert n * w == carry * w + x[i] * w + y[i] * w;
  }

  lemma WholeSlices(a: seq<Word>, x: seq<Word>, y: seq<Word>)
    ensures a[..|a|] == a && x[..|x|] == x && y[..|y|] == y
  {
  }

  lemma {:induction false} ValComplement(x: seq<Word>, y: seq<Word>)
    requires |x| == |y| && forall j :: 0 <= j < |x| ==> y[j] == B - 1 - x[j]
    ensures Val(y) == Weight(|x|) - 1 - Val(x)
  {
    hide Weight;
    if x == [] {
      WeightNext(0);
    } else {
      var n := |x| - 1;
      ValComplement(x[..n], y[..n]);
      WeightNext(n);
      assert (B - 1 - x[n]) * Weight(n) == B * Weight(n) - Weight(n) - x[n] * Weight(n);
    }
  }

  /** All low limbs roll over from the largest value to zero and limb i takes the carry. */
  lemma IncrementStops(x: seq<Word>, y: seq<Word>, i: nat)
    requires i < |x| == |y| && (forall j :: 0 <= j < i ==> x[j] == B - 1 && y[j] == 0)
    requires y[i] == (x[i] as int) + 1 && x[i + 1..] == y[i + 1..]
    ensures Val(y) == Val(x) + 1 < Weight(|x|)
    ensures Val(y) == (Val(x) + 1) % Weight(|x|)
  {
    hide Weight, Val;
    ValSplit(x, i + 1);
    ValSplit(y, i + 1);
    ValSnoc(x, i);
    ValSnoc(y, i);
    ValComplement(y[..i], x[..i]);
    ValZeros(y[..i]);
    ValBound(y);
    assert (x[i] + 1) * Weight(i) == x[i] * Weight(i) + Weight(i);
    DivModUnique(Val(y), Weight(|x|), 0, Val(y));
  }

  lemma IncrementWraps(x: seq<Word>, y: seq<Word>)
    requires |x| == |y| && forall j :: 0 <= j < |x| ==> x[j] == B - 1 && y[j] == 0
    ensures Val(y) == (Val(x) + 1) % Weight(|x|)
  {
    hide Weight, Val;
    ValComplement(y, x);
    ValZeros(y);
    DivModUnique(Weight(|x|), Weight(|x|), 1, 0);
  }

  lemma DecrementWraps(x: seq<Word>, y: seq<Word>)
    requires |x| == |y| && forall j :: 0 <= j < |x| ==> x[j] == 0 && y[j] == B - 1
    ensures Val(y) == (Val(x) + Weight(|x|) - 1) % Weight(|x|)
  {
    hide Weight, Val;
    ValComplement(x, y);
    ValZeros(x);
    DivModUnique(Weight(|x|) - 1, Weight(|x|), 0, Weight(|x|) - 1);
  }

  lemma ModOfMod(a: nat, b: nat, m: nat)
    requires m > 0
    ensures (a + b % m) % m == (a + b) % m
  {
    var q, r := b / m, b % m;
    var d := (a + r) / m;
    assert a + b == m * q + (m * d + (a + r) % m);
    assert m * q + m * d == m * (q + d);
    DivModUnique(a + b, m, q + d, (a + r) % m);
  }

  lemma WordProduct(a: Word, b: Word)
    ensures 0 <= a * b <= (B - 1) * (B - 1)
  {
    var d: nat := B - 1 - b;
    assert a * d >= 0 && a * b >= 0;
    assert a * b + a * d == a * (b + d);
  }

  lemma CarryFits(n: nat)
    requires n < UINT64
    ensures n / B < B
  {
  }

  lemma MulStep(low: seq<Word>, carry: nat, x: seq<Word>, b: Word, i: nat, now: seq<Word>, n: nat)
    requires i < |x| == |now| && low == now[..i]
    requires Val(low) + carry * Weight(i) == Val(x[..i]) * b
    requires n == carry + b * x[i] && now[i] == n % B
    ensures Val(now[..i + 1]) + (n / B) * Weight(i + 1) == Val(x[..i + 1]) * b
  {
    hide Val, Weight;
    var w := Weight(i);
    ValSnoc(now, i);
    ValSnoc(x, i);
    WeightNext(i);
    Carry(n, w);
    assert n * w == carry * w + (b * x[i]) * w;
    assert (Val(x[..i]) + x[i] * w) * b == Val(x[..i]) * b + (b * x[i]) * w;
  }

  lemma RowStep(low: seq<Word>, carry: nat, a0: seq<Word>, x: Word, y: seq<Word>, i: nat, j: nat, now: seq<Word>, n: nat)
    requires i + j < |a0| == |y| == |now| && low == now[..i + j]
    requires Val(low) + carry * Weight(i + j) == Val(a0[..i + j]) + (x * Weight(j)) * Val(y[..i])
    requires n == carry + a0[i + j] + x * y[i] && now[i + j] == n % B
    ensures Val(now[..i + 1 + j]) + (n / B) * Weight(i + 1 + j) ==
            Val(a0[..i + 1 + j]) + (x * Weight(j)) * Val(y[..i + 1])
  {
    hide Val, Weight;
    var w, wj, wi := Weight(i + j), Weight(j), Weight(i);
    WeightAdd(j, i);
    ValSnoc(now, i + j);
    ValSnoc(a0, i + j);
    ValSnoc(y, i);
    WeightNext(i + j);
    Carry(n, w);
    Expand(carry, a0[i + j], x, y[i], wj, wi);
    Distribute(x * wj, Val(y[..i]), y[i], wi);
  }

  lemma Expand(c: nat, a: nat, x: nat, y: nat, wj: nat, wi: nat)
    ensures (c + a + x * y) * (wj * wi) == c * (wj * wi) + a * (wj * wi) + y * ((x * wj) * wi)
  {
    var w := wj * wi;
    assert (c + a + x * y) * w == c * w + a * w + (x * y) * w;
    assert (x * y) * w == y * (x * w);
    assert x * w == (x * wj) * wi;
  }

  /** A row changes the accumulated product by a multiple of the limit only. */
  lemma MulRow(x: seq<Word>, y: seq<Word>, j: nat, a0: seq<Word>, a: seq<Word>, carry: nat, q: nat)
    requires j < |x| == |y| == |a0| == |a|
    requires Val(x[..j]) * Val(y) == Val(a0) + Weight(|x|) * q
    requires Val(a) + carry * Weight(|x|) == Val(a0) + (x[j] * Weight(j)) * Val(y[..|y| - j])
    ensures Val(x[..j + 1]) * Val(y) == Val(a) + Weight(|x|) * (q + carry + x[j] * Val(y[|y| - j..]))
  {
    hide Val, Weight;
    var n := |x|;
    var w, v, lo, hi := Weight(j), Weight(n - j), Val(y[..n - j]), Val(y[n - j..]);
    ValSnoc(x, j);
    ValSplit(y, n - j);
    WeightAdd(j, n - j);
    RowAlgebra(Val(x[..j]), Val(y), x[j], w, v, lo, hi, Val(a0), Val(a), carry, q, Weight(n));
  }

  lemma RowAlgebra(x: nat, y: nat, d: nat, w: nat, v: nat, lo: nat, hi: nat, a0: nat, a: nat, c: nat, q: nat, l: nat)
    requires l == w * v && y == lo + v * hi && x * y == a0 + l * q && a + c * l == a0 + (d * w) * lo
    ensures (x + d * w) * y == a + l * (q + c + d * hi)
  {
    var t, e := d * hi, d * w;
    assert (x + e) * y == x * y + e * y;
    HighPart(d, w, lo, v, hi);
    assert l * (q + c + t) == l * q + l * c + l * t;
  }

  lemma HighPart(x: nat, w: nat, lo: nat, v: nat, hi: nat)
    ensures (x * w) * (lo + v * hi) == (x * w) * lo + (w * v) * (x * hi)
  {
    assert (x * w) * (v * hi) == (w * v) * (x * hi) by {
      assert (x * w) * (v * hi) == x * (w * (v * hi));
      assert w * (v * hi) == (w * v) * hi;
      assert x * ((w * v) * hi) == (w * v) * (x * hi);
    }
  }

  /** Is bit k set? */
  predicate BitSet(x: nat, k: nat) {
    (x / Pow2(k)) % 2 == 1
  }

  lemma HighestBit(x: nat, k: nat)
    requires x < Pow2(k + 1)
    ensures BitSet(x, k) <==> x >= Pow2(k)
  {
    var p := Pow2(k);
    if x >= p {
      DivModUnique(x, p, 1, x - p);
    } else {
      DivModUnique(x, p, 0, x);
    }
  }

  /** The inner loop of bits(). */
  method TopBit(x: Word) returns (nbits: nat)
    requires x != 0
    ensures nbits < 32 && Pow2(nbits) <= x < Pow2(nbits + 1)
  {
    hide Pow2, BitSet;
    nbits := 31;
    Pow2Of32();
    while nbits > 0
      invariant nbits < 32 && x < Pow2(nbits + 1)
    {
      HighestBit(x, nbits);
      if BitSet(x, nbits) {
        return;
      }
      nbits := nbits - 1;
    }
    PowOne();
  }

  lemma PowOne()
    ensures Pow2(0) == 1 && Pow2(1) == 2
  {
  }

  lemma BitsAt(s: seq<Word>, pos: nat, top: nat)
    requires pos < |s| && (forall k :: pos < k < |s| ==> s[k] == 0)
    requires Pow2(top) <= s[pos] < Pow2(top + 1)
    ensures Pow2(32 * pos + top) <= Val(s) < Pow2(32 * pos + top + 1)
  {
    hide Val, Weight, Pow2;
    var w := Weight(pos);
    ValSplit(s, pos + 1);
    ValZeros(s[pos + 1..]);
    ValSnoc(s, pos);
    ValBound(s[..pos]);
    WeightIs(pos, top);
    BitsAlgebra(Val(s[..pos]), s[pos], w, Pow2(top));
  }

  lemma WeightIs(pos: nat, top: nat)
    ensures Pow2(32 * pos + top) == Weight(pos) * Pow2(top)
    ensures Pow2(32 * pos + top + 1) == Weight(pos) * (2 * Pow2(top)) && Pow2(top + 1) == 2 * Pow2(top)
  {
    Pow2Add(32 * pos, top);
    Pow2Add(32 * pos, top + 1);
  }

  lemma BitsAlgebra(low: nat, x: nat, w: nat, p: nat)
    requires low < w && p <= x < 2 * p
    ensures w * p <= low + x * w < w * (2 * p)
  {
    MulMono(p, x, w);
    MulLess(x, 2 * p, w);
  }

  lemma OrZero(y: nat)
    ensures Or(0, y) == y
  {
  }

  lemma AboveFits(x: Word, s: nat)
    requires s < 32
    ensures 0 <= Above(x, s) < B && (s == 0 ==> Above(x, s) == 0)
  {
    hide Pow2, Within;
    ShiftParts(x, s);
    Pow2Mono(s, 32);
    Pow2Of32();
  }

  /** After e limbs of x: their value shifted, but for the bits c that belong into the next limb. */
  ghost predicate LeftSoFar(x: seq<Word>, now: seq<Word>, s: nat, k: nat, e: nat, c: nat) {
    && e + k <= |x| == |now| && c < Pow2(s)
    && Val(now[..e + k]) + c * Weight(e + k) == (Val(x[..e]) * Pow2(s)) * Weight(k)
    && (e + k < |x| ==> now[e + k] == c && forall m :: e + k < m < |now| ==> now[m] == 0)
  }

  /** The number itself where it fits a limb. */
  ghost function ToWord(v: nat): Word {
    if v < B then v else 0
  }

  /** What one step of the loop makes of the limbs. */
  ghost function LeftLimbs(now: seq<Word>, x: Word, s: nat, at: nat): seq<Word>
    requires s < 32 && at < |now|
  {
    var next := if at + 1 < |now| && s != 0 then now[at + 1 := ToWord(Or(now[at + 1], Above(x, s)))] else now;
    next[at := ToWord(Or(now[at], Within(x, s)))]
  }

  lemma LeftStart(x: seq<Word>, zeros: seq<Word>, s: nat, k: nat)
    requires |x| == |zeros| && forall j :: 0 <= j < |zeros| ==> zeros[j] == 0
    ensures k <= |x| ==> LeftSoFar(x, zeros, s, k, 0, 0)
  {
    hide Weight, Pow2;
    if k <= |x| {
      ValZeros(zeros[..k]);
      assert Val(x[..0]) == 0;
    }
  }

  lemma LeftLimb(x: seq<Word>, now: seq<Word>, s: nat, k: nat, i: nat, c: nat)
    requires s < 32 && LeftSoFar(x, now, s, k, i, c) && i + k < |x|
    ensures Or(now[i + k], Within(x[i], s)) < B
    ensures i + k + 1 < |x| ==> Or(now[i + k + 1], Above(x[i], s)) < B
    ensures LeftSoFar(x, LeftLimbs(now, x[i], s, i + k), s, k, i + 1, Above(x[i], s))
  {
    hide Val, Weight, Pow2, Above, Within, Or;
    Joined(c, x[i], s);
    ShiftParts(x[i], s);
    AboveFits(x[i], s);
    OrZero(Above(x[i], s));
    var next := LeftLimbs(now, x[i], s, i + k);
    assert next[..i + k] == now[..i + k];
    WeightAdd(i, k);
    WeightNext(i + k);
    ValSnoc(next, i + k);
    ValSnoc(x, i);
    LeftStep(Val(now[..i + k]), c, Val(x[..i]), x[i], s, Weight(i), Weight(k), Weight(i + k));
  }

  lemma LeftDone(x: seq<Word>, y: seq<Word>, s: nat, k: nat, c: nat)
    requires k <= |x| && LeftSoFar(x, y, s, k, |x| - k, c)
    ensures Val(y) == (Val(x) * Pow2(32 * k + s)) % Weight(|x|)
  {
    hide Val, Pow2;
    var n := |x| - k;
    assert y[..n + k] == y;
    ValBound(y);
    ValSplit(x, n);
    WeightAdd(n, k);
    Pow2Add(32 * k, s);
    LeftWhole(Val(y), c, Val(x[..n]), Val(x[n..]), Pow2(s), Weight(k), Weight(n));
  }

  lemma LeftAll(v: nat, width: nat, k: nat, s: nat)
    requires k >= width
    ensures (v * Pow2(32 * k + s)) % Weight(width) == 0
  {
    hide Pow2;
    var l, m := Weight(width), Pow2(32 * (k - width) + s);
    Pow2Add(32 * width, 32 * (k - width) + s);
    assert 32 * width + (32 * (k - width) + s) == 32 * k + s;
    assert v * (l * m) == l * (v * m);
    DivModUnique(v * (l * m), l, v * m, 0);
  }

  /** After i limbs of x: the limbs written hold the quotient of what was read. */
  ghost predicate RightSoFar(x: seq<Word>, now: seq<Word>, s: nat, k: nat, i: nat, rem: nat) {
    var m := if i > k then i - k else 0;
    && i <= |x| == |now|
    && Val(x[..i]) == Val(now[..m]) * (Weight(k) * Pow2(s)) + rem
    && (if i <= k then rem == Val(x[..i]) else rem < Weight(k) * Pow2(s))
    && (m > 0 ==> now[m - 1] == Down(x[i - 1], s))
    && (forall j :: m <= j < |now| ==> now[j] == 0)
  }

  ghost function RightLimbs(now: seq<Word>, x: Word, s: nat, at: int): seq<Word>
    requires s < 32 && at < |now|
  {
    var next := if at >= 1 && s != 0 then now[at - 1 := ToWord(Or(now[at - 1], Within(x, 32 - s)))] else now;
    if at >= 0 then next[at := ToWord(Or(now[at], Down(x, s)))] else next
  }

  lemma RightStart(x: seq<Word>, zeros: seq<Word>, s: nat, k: nat)
    requires |x| == |zeros| && forall j :: 0 <= j < |zeros| ==> zeros[j] == 0
    ensures RightSoFar(x, zeros, s, k, 0, 0)
  {
    hide Weight, Pow2;
    assert Val(x[..0]) == 0 && Val(zeros[..0]) == 0;
  }

  lemma RightLimb(x: seq<Word>, now: seq<Word>, s: nat, k: nat, i: nat, rem: nat) returns (rem': nat)
    requires s < 32 && i < |x| && RightSoFar(x, now, s, k, i, rem)
    ensures i >= k ==> Or(now[i - k], Down(x[i], s)) < B
    ensures i > k && s != 0 ==> Or(now[i - k - 1], Within(x[i], 32 - s)) < B
    ensures RightSoFar(x, RightLimbs(now, x[i], s, i - k), s, k, i + 1, rem')
  {
    hide Val, Weight, Pow2, Within, Down, Or;
    ValSnoc(x, i);
    DownFits(x[i], s);
    OrZero(Down(x[i], s));
    if i < k {
      rem' := Val(x[..i + 1]);
      NothingWritten(now);
    } else if i == k {
      rem' := RightAtK(x, now, s, k, rem);
    } else {
      RightAbove(x, now, s, k, i, rem);
      rem' := rem;
    }
  }

  lemma NothingWritten(now: seq<Word>)
    ensures Val(now[..0]) == 0
  {
  }

  lemma RightAtK(x: seq<Word>, now: seq<Word>, s: nat, k: nat, rem: nat) returns (rem': nat)
    requires s < 32 && k < |x| && RightSoFar(x, now, s, k, k, rem) && Down(x[k], s) < B
    ensures RightSoFar(x, now[0 := Down(x[k], s)], s, k, k + 1, rem')
  {
    hide Val, Weight, Pow2;
    var p := Pow2(s);
    ValSnoc(x, k);
    ValBound(x[..k]);
    RightFirst(rem, x[k], p, Weight(k));
    rem' := (x[k] % p) * Weight(k) + rem;
    var next := now[0 := Down(x[k], s)];
    ValSnoc(next, 0);
    NothingWritten(next);
    WeightNext(0);
  }

  lemma RightAbove(x: seq<Word>, now: seq<Word>, s: nat, k: nat, i: nat, rem: nat)
    requires s < 32 && k < i < |x| && RightSoFar(x, now, s, k, i, rem) && Down(x[i], s) < B
    requires Or(0, Down(x[i], s)) == Down(x[i], s)
    ensures s != 0 ==> Or(now[i - k - 1], Within(x[i], 32 - s)) < B
    ensures RightSoFar(x, RightLimbs(now, x[i], s, i - k), s, k, i + 1, rem)
  {
    hide Val, Weight, Pow2, Within, Or, Down;
    var m := i - k;
    DownFits(x[i - 1], s);
    if s != 0 {
      Joined(Down(x[i - 1], s), x[i], 32 - s);
    }
    var next := RightLimbs(now, x[i], s, m);
    var lo := if s == 0 then 0 else Within(x[i], 32 - s);
    assert next[..m - 1] == now[..m - 1];
    ValSnoc(x, i);
    ValSnoc(now, m - 1);
    ValSnoc(next, m - 1);
    ValSnoc(next, m);
    WeightNext(m - 1);
    WeightAdd(m, k);
    MulSum(now[m - 1], lo, Weight(m - 1));
    RightStep(Val(x[..i]), Val(now[..m]), rem, x[i], s, Weight(k), Weight(m - 1), Weight(k) * Pow2(s));
    DownIs(x[i], s);
  }

  lemma DownIs(x: Word, s: nat)
    ensures Down(x, s) == x / Pow2(s)
  {
  }

  lemma RightDone(x: seq<Word>, y: seq<Word>, s: nat, k: nat, rem: nat)
    requires RightSoFar(x, y, s, k, |x|, rem)
    ensures Val(y) == Val(x) / Pow2(32 * k + s)
  {
    hide Val, Pow2, Down;
    var n := |x|;
    var m := if n > k then n - k else 0;
    assert x[..n] == x;
    Pow2Add(32 * k, s);
    ValSplit(y, m);
    ValZeros(y[m..]);
    if n <= k {
      ValBound(x);
      Pow2Mono(32 * n, 32 * k + s);
      NothingWritten(y);
    }
    DivModUnique(Val(x), Pow2(32 * k + s), Val(y), rem);
  }

  // ---- Division

  lemma NoQuotient(n: nat, d: nat, nBits: nat, dBits: nat)
    requires dBits > nBits && (if nBits == 0 then n == 0 else n < Pow2(nBits)) && Pow2(dBits - 1) <= d
    ensures n / d == 0
  {
    Pow2Mono(nBits, dBits - 1);
    DivModUnique(n, d, 0, n);
  }

  /** Aligning the divisor with the number does not push a bit out. */
  lemma FitsShifted(n: nat, d: nat, nBits: nat, dBits: nat, width: nat)
    requires 1 <= dBits <= nBits <= 32 * width && d < Pow2(dBits) && n < Pow2(nBits) && Pow2(dBits - 1) <= d
    ensures (d * Pow2(nBits - dBits)) % Weight(width) == d * Pow2(nBits - dBits)
    ensures n < d * Pow2(nBits - dBits + 1)
  {
    hide Pow2;
    var shift := nBits - dBits;
    Pow2Add(dBits, shift);
    Pow2Mono(nBits, 32 * width);
    MulLess(d, Pow2(dBits), Pow2(shift));
    DivModUnique(d * Pow2(shift), Weight(width), 0, d * Pow2(shift));
    Pow2Add(dBits - 1, shift + 1);
    MulMono(Pow2(dBits - 1), d, Pow2(shift + 1));
  }

  /** The state of the division before bit shift: the quotient so far, and a remainder below twice the divisor there. */
  ghost predicate Dividing(n: nat, d: nat, q: nat, r: nat, shift: int) {
    shift >= -1 && n == q * d + r && r < d * Pow2(shift + 1) && q % Pow2(shift + 1) == 0
  }

  lemma DividingStart(n: nat, d: nat, shift: nat)
    requires n < d * Pow2(shift + 1)
    ensures Dividing(n, d, 0, n, shift)
  {
  }

  lemma DividingStep(n: nat, d: nat, q: nat, r: nat, shift: nat)
    requires Dividing(n, d, q, r, shift)
    ensures q % Pow2(shift + 1) == 0
    ensures if r >= d * Pow2(shift) then Dividing(n, d, q + Pow2(shift), r - d * Pow2(shift), shift - 1)
            else Dividing(n, d, q, r, shift - 1)
  {
    hide Pow2;
    var p := Pow2(shift);
    NextPower(d, shift);
    MultipleOfHalf(q, p, r >= d * p);
    MulSum(q, p, d);
  }

  lemma DividingEnd(n: nat, d: nat, q: nat, r: nat)
    requires Dividing(n, d, q, r, -1)
    ensures d > 0 && n / d == q
  {
    PowOne();
    DivModUnique(n, d, q, r);
  }

  lemma NextPower(d: nat, shift: nat)
    ensures Pow2(shift + 1) == 2 * Pow2(shift) && d * Pow2(shift + 1) == 2 * (d * Pow2(shift))
  {
  }

  lemma SubExact(limit: nat, r: nat, d: nat)
    requires d <= r < limit
    ensures (r + limit - d) % limit == r - d
  {
    DivModUnique(r + limit - d, limit, 1, r - d);
  }

  lemma Halved(d: nat, shift: nat)
    ensures (d * Pow2(shift)) / Pow2(1) == if shift == 0 then d / 2 else d * Pow2(shift - 1)
  {
    PowOne();
    if shift > 0 {
      assert d * Pow2(shift) == 2 * (d * Pow2(shift - 1));
    }
  }

  lemma MultipleOfHalf(q: nat, p: nat, bit: bool)
    requires p > 0 && q % (2 * p) == 0
    ensures (if bit then q + p else q) % p == 0
  {
    var m := q / (2 * p);
    assert q == p * (2 * m);
    DivModUnique(q, p, 2 * m, 0);
    assert q + p == p * (2 * m + 1);
    DivModUnique(q + p, p, 2 * m + 1, 0);
  }

  /** A multiple of 2^(32 at + r + 1) has only zeros in the low bits of limb at. */
  lemma BitClear(x: seq<Word>, at: nat, r: nat)
    requires at < |x| && r < 32 && Val(x) % Pow2(32 * at + r + 1) == 0
    ensures Or(x[at], Pow2(r)) == x[at] + Pow2(r) < B
  {
    hide Val, Pow2, Or;
    ValSplit(x, at);
    ValBound(x[..at]);
    HeadLimb(x[at..]);
    var m, p, e := Weight(at), Pow2(r + 1), Pow2(31 - r);
    Pow2Add(32 * at, r + 1);
    Pow2Add(r + 1, 31 - r);
    Pow2Of32();
    LimbMultiple(Val(x), Val(x[..at]), m, Val(x[at..]), p);
    MultipleBelow(Val(x[at..]), x[at], Val(x[at..][1..]), p, e);
    NextPower(0, r);
    OrDisjoint(Pow2(r), x[at], r + 1);
  }

  lemma HeadLimb(s: seq<Word>)
    requires s != []
    ensures Val(s) == s[0] + B * Val(s[1..])
  {
    hide Weight;
    ValSplit(s, 1);
    ValSnoc(s, 0);
    assert Val(s[..0]) == 0;
    WeightNext(0);
  }

  lemma LimbMultiple(v: nat, low: nat, m: nat, high: nat, p: nat)
    requires m > 0 && p > 0 && low < m && v == low + m * high && v % (m * p) == 0
    ensures high % p == 0
  {
    var t := v / (m * p);
    assert v == (m * p) * t;
    assert (m * p) * t == m * (p * t);
    DivModUnique(v, m, p * t, 0);
    DivModUnique(v, m, high, low);
    DivModUnique(high, p, t, 0);
  }

  lemma MultipleBelow(v: nat, x: Word, high: nat, p: nat, e: nat)
    requires p > 0 && p * e == B && v == x + B * high && v % p == 0
    ensures x % p == 0 && x + p <= B
  {
    var t := v / p;
    assert v == p * t;
    assert B * high == p * (e * high);
    var u := e * high;
    assert x == p * (t - u);
    assert t >= u || p * (t - u) < 0;
    DivModUnique(x, p, t - u, 0);
    QuotientBelow(p, t - u, e);
    MulLess(t - u, e, p);
  }

  lemma BitAdded(x: seq<Word>, at: nat, r: nat)
    requires at < |x| && r < 32 && x[at] + Pow2(r) < B
    ensures Val(x[at := x[at] + Pow2(r)]) == Val(x) + Pow2(32 * at + r)
  {
    hide Val, Pow2;
    var y := x[at := x[at] + Pow2(r)];
    ValSplit(x, at + 1);
    ValSplit(y, at + 1);
    assert x[at + 1..] == y[at + 1..] && x[..at] == y[..at];
    ValSnoc(x, at);
    ValSnoc(y, at);
    MulSum(x[at], Pow2(r), Weight(at));
    Pow2Add(32 * at, r);
  }
}
