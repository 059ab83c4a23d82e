/** arith_uint256: the compact form of targets (src/arith_uint256.cpp) and the work of a block (src/chain.cpp). */
module Arith256 {
  import opened Numbers
  import opened ArithWords
  import opened ArithShift
  import opened BigUint

  /** The number a 32-bit compact form stands for, before reduction to 256 bits. */
  ghost function Decoded(compact: nat): nat {
    var size, word := compact / 0x100_0000, compact % 0x80_0000;
    if size <= 3 then Quot(word, Pow2(8 * (3 - size))) else Times(word, Pow2(8 * (size - 3)))
  }

  /** The sign bit. */
  predicate Signed(compact: nat) {
    (compact / 0x80_0000) % 2 == 1
  }

  ghost function BitLength(v: nat): nat {
    if v == 0 then 0 else 1 + BitLength(v / 2)
  }

  lemma {:induction false} BitLengthUnique(v: nat, bits: nat)
    requires if bits == 0 then v == 0 else Pow2(bits - 1) <= v < Pow2(bits)
    ensures BitLength(v) == bits
  {
    if bits == 1 {
      assert BitLength(0) == 0;
    } else if bits > 1 {
      BitLengthUnique(v / 2, bits - 1);
    }
  }

  lemma {:induction false} BitLengthBounds(v: nat)
    ensures if v == 0 then BitLength(v) == 0 else Pow2(BitLength(v) - 1) <= v < Pow2(BitLength(v))
  {
    if v > 1 {
      BitLengthBounds(v / 2);
    }
  }

  /** How many bytes the number takes. */
  ghost function Bytes(v: nat): nat {
    (BitLength(v) + 7) / 8
  }

  /** Its top three bytes. */
  ghost function Top(v: nat): nat {
    if Bytes(v) <= 3 then Times(v, Pow2(8 * (3 - Bytes(v)))) else Quot(v, Pow2(8 * (Bytes(v) - 3)))
  }

  /** The compact form of a number. */
  ghost function Encoded(v: nat, negative: bool): nat {
    var word := if Top(v) >= 0x80_0000 then Top(v) / 256 else Top(v);
    var size := if Top(v) >= 0x80_0000 then Bytes(v) + 1 else Bytes(v);
    size * 0x100_0000 + word + if negative && word != 0 then 0x80_0000 else 0
  }

  // ---- Bounds

  lemma Powers()
    ensures Pow2(8) == 0x100 && Pow2(16) == 0x1_0000 && Pow2(24) == 0x100_0000
    ensures Pow2(15) == 0x8000 && Pow2(23) == 0x80_0000 && Pow2(0) == 1
  {
    assert Pow2(7) == 0x80;
  }

  lemma BytesBounds(v: nat)
    ensures v == 0 ==> Bytes(v) == 0
    ensures v > 0 ==> Bytes(v) >= 1 && Pow2(8 * (Bytes(v) - 1)) <= v < Pow2(8 * Bytes(v))
  {
    hide Pow2;
    BitLengthBounds(v);
    if v > 0 {
      var n := Bytes(v);
      PowZero();
      assert BitLength(v) >= 1;
      Pow2Mono(8 * (n - 1), BitLength(v) - 1);
      Pow2Mono(BitLength(v), 8 * n);
    }
  }

  lemma BytesUnique(v: nat, n: nat)
    requires n >= 1 && Pow2(8 * (n - 1)) <= v < Pow2(8 * n)
    ensures Bytes(v) == n
  {
    hide Pow2;
    BitLengthBounds(v);
    var l := BitLength(v);
    if l <= 8 * (n - 1) {
      Pow2Mono(l, 8 * (n - 1));
    }
    if l - 1 >= 8 * n {
      Pow2Mono(8 * n, l - 1);
    }
  }

  lemma ScaledBelow(v: nat, a: nat, b: nat)
    ensures v < Pow2(a) ==> v * Pow2(b) < Pow2(a + b)
    ensures v >= Pow2(a) ==> v * Pow2(b) >= Pow2(a + b)
  {
    hide Pow2;
    Pow2Add(a, b);
    if v < Pow2(a) {
      MulLess(v, Pow2(a), Pow2(b));
    } else {
      MulMono(Pow2(a), v, Pow2(b));
    }
  }

  /** Top is the number scaled up to three bytes, or cut down to them. */
  lemma TopBounds(v: nat)
    ensures v == 0 ==> Top(v) == 0
    ensures v > 0 ==> 0x1_0000 <= Top(v) < 0x100_0000
    ensures Bytes(v) <= 3 ==> Top(v) == v * Pow2(8 * (3 - Bytes(v)))
    ensures Bytes(v) >= 3 ==> var d := Pow2(8 * (Bytes(v) - 3)); Top(v) * d <= v < Top(v) * d + d
  {
    hide Pow2, Bytes;
    BytesBounds(v);
    if v > 0 {
      if Bytes(v) <= 3 {
        TopScaled(v, Bytes(v));
      } else {
        TopCut(v, Bytes(v));
      }
    }
    PowZero();
  }

  lemma TopScaled(v: nat, n: nat)
    requires 1 <= n <= 3 && Pow2(8 * (n - 1)) <= v < Pow2(8 * n)
    ensures 0x1_0000 <= v * Pow2(8 * (3 - n)) < 0x100_0000
  {
    hide Pow2;
    Powers();
    ScaledBelow(v, 8 * n, 8 * (3 - n));
    ScaledBelow(v, 8 * (n - 1), 8 * (3 - n));
  }

  lemma TopCut(v: nat, n: nat)
    requires n > 3 && Pow2(8 * (n - 1)) <= v < Pow2(8 * n)
    ensures var d := Pow2(8 * (n - 3)); 0x1_0000 <= v / d < 0x100_0000 && (v / d) * d <= v < (v / d) * d + d
  {
    hide Pow2;
    Powers();
    var d := Pow2(8 * (n - 3));
    Pow2Add(16, 8 * (n - 3));
    Pow2Add(24, 8 * (n - 3));
    CutBounds(v, d);
  }

  lemma CutBounds(v: nat, d: nat)
    requires d > 0 && 0x1_0000 * d <= v < 0x100_0000 * d
    ensures 0x1_0000 <= v / d < 0x100_0000 && (v / d) * d <= v < (v / d) * d + d
  {
    Euclid(v, d);
    var q := v / d;
    if q < 0x1_0000 {
      MulLess(q, 0x1_0000, d);
    } else if q >= 0x100_0000 {
      MulMono(0x100_0000, q, d);
    }
  }

  /** The mantissa and the exponent of the compact form. */
  ghost function WordOf(v: nat): nat {
    if Top(v) >= 0x80_0000 then Top(v) / 256 else Top(v)
  }

  ghost function SizeOf(v: nat): nat {
    if Top(v) >= 0x80_0000 then Bytes(v) + 1 else Bytes(v)
  }

  lemma EncodedParts(v: nat, negative: bool)
    ensures
      var c := Encoded(v, negative);
      c / 0x100_0000 == SizeOf(v) && c % 0x80_0000 == WordOf(v) < 0x80_0000
      && (Signed(c) <==> negative && WordOf(v) != 0)
  {
    hide Top, Bytes;
    TopBounds(v);
    Assembled(SizeOf(v), WordOf(v), negative && WordOf(v) != 0);
  }

  lemma Assembled(size: nat, word: nat, sign: bool)
    requires word < 0x80_0000
    ensures
      var c := size * 0x100_0000 + word + if sign then 0x80_0000 else 0;
      c / 0x100_0000 == size && c % 0x80_0000 == word && (Signed(c) <==> sign)
  {
    var rest := word + if sign then 0x80_0000 else 0;
    var c := size * 0x100_0000 + rest;
    DivModUnique(c, 0x100_0000, size, rest);
    var halves := 2 * size + if sign then 1 else 0;
    DivModUnique(c, 0x80_0000, halves, word);
    DivModUnique(halves, 2, size, if sign then 1 else 0);
  }

  /** Decoding a compact form gives the number with its low bytes cleared. */
  lemma DecodeTruncates(v: nat, negative: bool)
    ensures
      var c := Encoded(v, negative);
      if SizeOf(v) <= 3 then Decoded(c) == v
      else Decoded(c) <= v < Decoded(c) + Pow2(8 * (SizeOf(v) - 3))
  {
    hide Pow2, Bytes, Top, Encoded;
    TopBounds(v);
    EncodedParts(v, negative);
    var n, t := Bytes(v), Top(v);
    if t < 0x80_0000 {
      if n <= 3 {
        QuotOfProduct(v, Pow2(8 * (3 - n)));
      }
    } else if n <= 2 {
      Pow2Add(8 * (2 - n), 8);
      Powers();
      Regroup(v, Pow2(8 * (2 - n)), 256);
      QuotOfProduct(v * Pow2(8 * (2 - n)), 256);
      QuotOfProduct(v, Pow2(8 * (2 - n)));
    } else {
      var d := Pow2(8 * (n - 3));
      Pow2Add(8 * (n - 3), 8);
      Powers();
      ByteCut(v, t, d);
    }
  }

  lemma QuotOfProduct(v: nat, p: nat)
    requires p > 0
    ensures (v * p) / p == v
  {
    DivModUnique(v * p, p, v, 0);
  }

  lemma ByteCut(v: nat, t: nat, d: nat)
    requires t * d <= v < t * d + d
    ensures (t / 256) * (d * 256) <= v < (t / 256) * (d * 256) + d * 256
  {
    var w, r := t / 256, t % 256;
    assert t == w * 256 + r;
    MulSum(w * 256, r, d);
    assert (w * 256) * d == w * (d * 256);
    MulLess(r, 256, d);
  }

  /** Encoding what a compact form decodes to gives the same compact form. */
  lemma ReencodeStable(v: nat, negative: bool)
    ensures Encoded(Decoded(Encoded(v, negative)), negative) == Encoded(v, negative)
  {
    hide Pow2, Bytes, Top, Decoded;
    DecodeTruncates(v, negative);
    if SizeOf(v) > 3 {
      SameTop(v, negative);
    }
  }

  lemma SameTop(v: nat, negative: bool)
    requires SizeOf(v) > 3
    ensures
      var u := Decoded(Encoded(v, negative));
      Bytes(u) == Bytes(v) && WordOf(u) == WordOf(v) && SizeOf(u) == SizeOf(v)
  {
    hide Pow2, Bytes, Encoded;
    TopBounds(v);
    BytesBounds(v);
    EncodedParts(v, negative);
    DecodeTruncates(v, negative);
    Powers();
    var n, t, u := Bytes(v), Top(v), Decoded(Encoded(v, negative));
    var d := Pow2(8 * (n - 3));
    var kept := if t < 0x80_0000 then t else (t / 256) * 256;
    assert u == kept * d by {
      if t >= 0x80_0000 {
        Pow2Add(8 * (n - 3), 8);
        Regroup(t / 256, 256, d);
      }
    }
    ScaledBelow(kept, 16, 8 * (n - 3));
    BytesUnique(u, n);
    QuotOfProduct(kept, d);
    assert Top(u) == kept;
  }

  /** The overflow test of SetCompact is exact. */
  lemma OverflowExact(size: nat, word: nat)
    requires word < 0x80_0000 && size > 3
    ensures word * Pow2(8 * (size - 3)) >= Pow2(256) <==>
            word != 0 && (size > 34 || (word > 0xff && size > 33) || (word > 0xffff && size > 32))
  {
    hide Pow2;
    Powers();
    var e := 8 * (size - 3);
    if size <= 32 {
      ScaledBelow(word, 24, e);
      Pow2Mono(24 + e, 256);
    } else if size == 33 {
      ScaledBelow(word, 16, 240);
    } else if size == 34 {
      ScaledBelow(word, 8, 248);
    } else if word > 0 {
      ScaledBelow(word, 0, e);
      Pow2Mono(256, e);
    }
  }

  // ---- The operations

  /** Assignment from a 64-bit number. */
  method Assign(x: BaseUint, v: nat)
    requires x.pn.Length == 8 && v < UINT64
    modifies x.pn
    ensures x.Value() == v
  {
    hide Val, Weight;
    x.SetZero();
    x.pn[0] := v % B;
    x.pn[1] := v / B;
    TwoLimbs(x.pn[..]);
  }

  lemma TwoLimbs(s: seq<Word>)
    requires |s| >= 2 && forall j :: 2 <= j < |s| ==> s[j] == 0
    ensures Val(s) == s[0] + B * s[1]
  {
    hide Val, Weight;
    HeadLimb(s);
    HeadLimb(s[1..]);
    ValZeros(s[1..][1..]);
  }

  lemma LimitIs(x: BaseUint)
    requires x.pn.Length == 8
    ensures x.Limit() == Pow2(256)
  {
  }

  method SetCompact(x: BaseUint, compact: nat) returns (negative: bool, overflow: bool)
    requires x.pn.Length == 8 && compact < B
    modifies x.pn
    ensures x.Value() == Decoded(compact) % Pow2(256)
    ensures overflow <==> Decoded(compact) >= Pow2(256)
    ensures negative <==> Signed(compact) && Decoded(compact) != 0
  {
    hide Val, Weight, Pow2;
    var size, word := compact / 0x100_0000, compact % 0x80_0000;
    LimitIs(x);
    if size <= 3 {
      SmallWord(word, 8 * (3 - size));
      word := Quot(word, Pow2(8 * (3 - size)));
      Assign(x, word);
      Pow2Mono(32, 256);
      Pow2Of32();
      DivModUnique(word, Pow2(256), 0, word);
    } else {
      Assign(x, word);
      x.ShiftLeft(8 * (size - 3));
      OverflowExact(size, word);
      ProductZero(word, Pow2(8 * (size - 3)));
    }
    negative := word != 0 && Signed(compact);
    overflow := word != 0 && (size > 34 || (word > 0xff && size > 33) || (word > 0xffff && size > 32));
  }

  lemma SmallWord(word: nat, k: nat)
    requires word < 0x80_0000
    ensures Quot(word, Pow2(k)) < 0x80_0000
  {
    hide Pow2;
    var p, q := Pow2(k), Quot(word, Pow2(k));
    Euclid(word, p);
    MulMono(1, p, q);
  }

  lemma ProductZero(a: nat, b: nat)
    requires b > 0
    ensures a * b == 0 <==> a == 0
  {
    if a > 0 {
      MulMono(1, a, b);
    }
  }

  method GetCompact(x: BaseUint, negative: bool) returns (compact: nat)
    requires x.pn.Length == 8
    ensures compact == Encoded(x.Value(), negative) && compact < B
  {
    hide Val, Weight, Pow2, BitLength;
    ghost var v := x.Value();
    var bits := x.Bits();
    BitLengthUnique(v, bits);
    var size := (bits + 7) / 8;
    TopBounds(v);
    var top;
    if size <= 3 {
      LowLimb(x, size);
      top := x.pn[0] * Pow2(8 * (3 - size));
    } else {
      var shifted := new BaseUint.Copy(x);
      shifted.ShiftRight(8 * (size - 3));
      LowLimb(shifted, 3);
      top := shifted.pn[0];
    }
    var word := top;
    if top >= 0x80_0000 {
      word := top / 256;
      size := size + 1;
    }
    assert word < 0x80_0000;
    assert size < 256;
    compact := size * 0x100_0000 + word;
    if negative && word != 0 {
      compact := compact + 0x80_0000;
    }
  }

  /** A number of at most three bytes is its lowest limb. */
  lemma LowLimb(x: BaseUint, size: nat)
    requires x.pn.Length == 8 && size <= 3 && x.Value() < 0x100_0000
    ensures x.pn[0] == x.Value()
  {
    hide Val;
    HeadLimb(x.pn[..]);
  }

  /** The expected number of hashes for a block: one in every 2^256 / (target + 1) meets the target. */
  method GetBlockProof(nBits: nat) returns (proof: BaseUint)
    requires nBits < B
    ensures proof.pn.Length == 8
    ensures
      var t := Decoded(nBits);
      proof.Value() ==
      if (Signed(nBits) && t != 0) || t >= Pow2(256) || t == 0 then 0 else Pow2(256) / (t + 1)
  {
    hide Val, Weight, Pow2, Decoded;
    var target := new BaseUint(8);
    var negative, overflow := SetCompact(target, nBits);
    LimitIs(target);
    ghost var t := Decoded(nBits);
    var zero := new BaseUint(8);
    var c := target.CompareTo(zero);
    if !overflow {
      DivModUnique(t, Pow2(256), 0, t);
    }
    if negative || overflow || c == 0 {
      return zero;
    }
    NotAllOnes(nBits);
    var one := new BaseUint(8);
    Assign(one, 1);
    proof := target.Complement();
    LimitIs(proof);
    target.AddAssign(one);
    DivModUnique(t + 1, Pow2(256), 0, t + 1);
    var ok := proof.DivAssign(target);
    WorkQuotient(t, Pow2(256));
    proof.AddAssign(one);
    DivModUnique(Pow2(256) / (t + 1), Pow2(256), 0, Pow2(256) / (t + 1));
  }

  /** A target decoded from the compact form is never the largest 256-bit number. */
  lemma NotAllOnes(nBits: nat)
    requires nBits < B
    ensures Decoded(nBits) != Pow2(256) - 1
  {
    hide Pow2;
    var size, word := nBits / 0x100_0000, nBits % 0x80_0000;
    NextPower(0, 255);
    if size <= 3 {
      SmallWord(word, 8 * (3 - size));
      Powers();
      Pow2Mono(24, 256);
    } else {
      var e := 8 * (size - 3);
      NextPower(word, e - 1);
    }
  }

  /** The division that avoids 2^256 itself. */
  lemma WorkQuotient(t: nat, m: nat)
    requires 1 <= t && t + 1 < m
    ensures (m - 1 - t) / (t + 1) + 1 == m / (t + 1) < m
  {
    var d := t + 1;
    var q, r := (m - d) / d, (m - d) % d;
    Euclid(m - d, d);
    MulSum(q, 1, d);
    DivModUnique(m, d, q + 1, r);
    MulLess(1, d, q + 1);
  }
}
