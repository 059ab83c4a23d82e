/**
 cashaddr strings with fewer than eight values after the prefix, where Decode
 (src/cashaddr.cpp) steps back eight places from the end of a shorter buffer:
 when one passes every test before that, and for which prefixes none does.
 */
module CashShort {
  import opened CashPoly
  import opened CashAddr

  ghost function PrefixOf(str: Text, defaultPrefix: Text): Text {
    if ColonAt(str) == 0 then defaultPrefix else Lowered(str[..ColonAt(str)])
  }

  /** What follows the separator. */
  ghost function RestOf(str: Text): Text {
    if ColonAt(str) == 0 then str else str[ColonAt(str) + 1..]
  }

  /** Decode leaves its buffer exactly for these strings, so never when eight characters or more follow the separator. */
  lemma UndefinedExactly(str: Text, defaultPrefix: Text)
    ensures Decoded(str, defaultPrefix) == Undefined <==>
              && WellFormed(str) && |RestOf(str)| < 8 && Readable(RestOf(str))
              && Verified(PrefixOf(str, defaultPrefix), ValuesOf(RestOf(str)))
  {
    hide WellFormed, Readable, Verified;
  }

  /** One prefix has, up to case, at most one such string of each length. */
  lemma ShortUnique(prefix: Text, rest: Text, rest': Text)
    requires DecodeParts(prefix, rest) == DecodeParts(prefix, rest') == Undefined && |rest| == |rest'|
    ensures Lowered(rest) == Lowered(rest')
  {
    hide Expanded, CharsetRev, CharsetAt, LowerCase;
    var e, v, v' := Expanded(prefix), ValuesOf(rest), ValuesOf(rest');
    forall i | 0 <= i < |rest|
      ensures v[i] < 32 && CharsetAt(v[i]) == LowerCase(rest[i]) && v'[i] < 32 && CharsetAt(v'[i]) == LowerCase(rest'[i])
    {
      CharsetCovers(rest[i]);
      CharsetCovers(rest'[i]);
    }
    if v != v' {
      var i :| 0 <= i < |v| && v[i] != v'[i];
      assert (e + v)[|e| + i] != (e + v')[|e| + i];
      BurstDetected(1, e + v, e + v', |e|, |v|);
    }
  }

  // ---- Which prefixes have one

  /** What n values must add to the remainder of the prefix. */
  ghost function Wanted(prefix: Text, n: nat): bv40 {
    Xor(Fold(1, Expanded(prefix) + Zeros(n)), 1)
  }

  lemma VerifiedIs(prefix: Text, v: Data)
    ensures Verified(prefix, v) <==> Fold(0, v) == Wanted(prefix, |v|)
  {
    hide Fold, Xor, Expanded;
    var c, zeros := Fold(1, Expanded(prefix)), Zeros(|v|);
    FoldConcat(1, Expanded(prefix), v);
    FoldConcat(1, Expanded(prefix), zeros);
    DifferenceZero(v);
    XorSelf(c);
    FoldLinear(c, 0, zeros, v);
    var a, b := Fold(c, zeros), Fold(0, v);
    XorSolves(a, b);
  }

  lemma XorSolves(a: bv40, b: bv40)
    ensures Xor(a, b) == 1 <==> b == Xor(a, 1)
  {
    hide Xor;
    XorAssoc(a, a, b);
    XorAssoc(a, a, 1);
    XorSelf(a);
    XorSelf(b);
    XorSelf(1);
  }

  /** A prefix has such a string of n values exactly when what is wanted fits in n values. */
  lemma ShortExists(prefix: Text, n: nat)
    requires n < 8
    ensures (exists rest :: |rest| == n && DecodeParts(prefix, rest) == Undefined) <==> Fits(Wanted(prefix, n), n)
  {
    hide Verified, Wanted, Fits, Readable, CharsetRev;
    if rest :| |rest| == n && DecodeParts(prefix, rest) == Undefined {
      var v := ValuesOf(rest);
      ReadableValues(rest);
      VerifiedIs(prefix, v);
      FoldShort(v);
    }
    if Fits(Wanted(prefix, n), n) {
      var v := LastValues(Wanted(prefix, n), n);
      VerifiedIs(prefix, v);
      CharsRead(v);
      assert DecodeParts(prefix, Chars(v)) == Undefined;
    }
  }

  lemma ReadableValues(rest: Text)
    requires Readable(rest)
    ensures FiveBit(ValuesOf(rest))
  {
    hide CharsetRev, CharsetAt;
    forall i | 0 <= i < |rest|
      ensures CharsetRev(rest[i]) < 32
    {
      CharsetCovers(rest[i]);
    }
  }

  lemma CharsRead(v: Data)
    requires FiveBit(v)
    ensures Readable(Chars(v)) && ValuesOf(Chars(v)) == v
  {
    hide CharsetRev, CharsetAt;
    forall i | 0 <= i < |v|
      ensures CharsetRev(CharsetAt(v[i])) == v[i] < 32
    {
      CharsetInverse(v[i]);
    }
  }

  /** What fits in n values is the packing of n values. */
  lemma LastValues(m: bv40, n: nat) returns (v: Data)
    requires n < 8 && Fits(m, n)
    ensures |v| == n && FiveBit(v) && Fold(0, v) == m
  {
    hide Fold, Unpack, Drop, Fits;
    var all := Unpack(m);
    v := all[8 - n..];
    FoldUnpack(m, 8);
    DropAll(m);
    FoldUnpack(m, 8 - n);
    FitsDrop(m, n);
    FoldConcat(0, all[..8 - n], v);
    assert all[..8] == all == all[..8 - n] + v;
  }

  lemma {:induction false} FitsDrop(m: bv40, n: nat)
    requires n < 8 && Fits(m, n)
    ensures Drop(m, n) == 0
  {
    if n == 0 {
    } else {
      hide Fits, Drop, Shr5;
      FitsShr(m, n);
      DropInner(m, n);
      FitsDrop(Shr5(m), n - 1);
    }
  }

  lemma FitsShr(m: bv40, n: nat)
    requires 0 < n < 8 && Fits(m, n)
    ensures Fits(Shr5(m), n - 1)
  {
    if n == 1 {} else if n == 2 {} else if n == 3 {} else if n == 4 {} else if n == 5 {} else if n == 6 {}
  }

  lemma {:induction false} DropInner(m: bv40, n: nat)
    requires n > 0
    ensures Drop(m, n) == Drop(Shr5(m), n - 1)
  {
    hide Shr5;
    if n > 1 {
      DropInner(m, n - 1);
    }
  }

  // ---- Particular prefixes

  lemma FoldNext(v: Data, d: bv8, c: bv40, c': bv40) returns (w: Data)
    requires Fold(1, v) == c && Xor(Shift(c), Wide(d)) == c'
    ensures w == v + [d] && Fold(1, w) == c'
  {
    hide Shift, Xor, Wide;
    w := v + [d];
    assert w[..|v|] == v;
  }

  const SHORT: Text := [0x63, 0x3a, 0x71, 0x76, 0x64, 0x79, 0x32, 0x7a, 0x33]

  /** "c:qvdy2z3", whatever the default prefix. */
  lemma ShortString(defaultPrefix: Text)
    ensures Decoded(SHORT, defaultPrefix) == Undefined
  {
    hide Verified, WellFormed, ColonAt, Readable;
    ShortWellFormed();
    ShortColon();
    ShortValues();
    ShortVerified();
  }

  lemma ShortWellFormed()
    ensures WellFormed(SHORT)
  {
    assert forall i :: 0 <= i < |SHORT| ==> !IsUpper(SHORT[i]) && (SHORT[i] == COLON <==> i == 1);
  }

  lemma ShortColon()
    ensures ColonAt(SHORT) == 1 && Lowered(SHORT[..1]) == [0x63]
  {
    hide ColonAt;
    assert SHORT[1] == COLON;
  }

  lemma ShortValues()
    ensures Readable(SHORT[2..]) && ValuesOf(SHORT[2..]) == [0, 12, 13, 4, 10, 2, 17]
  {
    assert SHORT[2..] == [0x71, 0x76, 0x64, 0x79, 0x32, 0x7a, 0x33];
  }

  lemma ShortVerified()
    ensures Verified([0x63], [0, 12, 13, 4, 10, 2, 17])
  {
    hide Fold;
    assert Fold(1, []) == 1 by { FoldNone(); }
    var v: Data := [];
    v := FoldNext(v, 3, 0x1, 0x23);
    v := FoldNext(v, 0, 0x23, 0x460);
    v := FoldNext(v, 0, 0x460, 0x8c00);
    v := FoldNext(v, 12, 0x8c00, 0x11800c);
    v := FoldNext(v, 13, 0x11800c, 0x230018d);
    v := FoldNext(v, 4, 0x230018d, 0x460031a4);
    v := FoldNext(v, 10, 0x460031a4, 0x8c006348a);
    v := FoldNext(v, 2, 0x8c006348a, 0x80f27a1f23);
    v := FoldNext(v, 17, 0x80f27a1f23, 0x1);
    assert Expanded([0x63]) + [0, 12, 13, 4, 10, 2, 17] == v;
  }

  lemma FoldNone()
    ensures Fold(1, []) == 1
  {
  }

  /** Shifting c up to seven times never leaves what fits in as many values. */
  predicate NeverFits(c: bv40) {
    && !Fits(Xor(c, 1), 0)
    && var c1 := Shift(c);
    !Fits(Xor(c1, 1), 1)
    && var c2 := Shift(c1);
    !Fits(Xor(c2, 1), 2)
    && var c3 := Shift(c2);
    !Fits(Xor(c3, 1), 3)
    && var c4 := Shift(c3);
    !Fits(Xor(c4, 1), 4)
    && var c5 := Shift(c4);
    !Fits(Xor(c5, 1), 5)
    && var c6 := Shift(c5);
    !Fits(Xor(c6, 1), 6) && !Fits(Xor(Shift(c6), 1), 7)
  }

  lemma {:induction false} FoldShifts(c: bv40, n: nat)
    ensures n > 0 ==> Fold(c, Zeros(n)) == Shift(Fold(c, Zeros(n - 1)))
    ensures Fold(c, Zeros(0)) == c
  {
    hide Shift, Xor, Wide;
    if n > 0 {
      assert Zeros(n)[..n - 1] == Zeros(n - 1);
      WideZero();
      XorSelf(Shift(Fold(c, Zeros(n - 1))));
    }
  }

  lemma PrefixNever(prefix: Text, rest: Text)
    requires NeverFits(Fold(1, Expanded(prefix)))
    ensures DecodeParts(prefix, rest) != Undefined
  {
    hide Fold, Shift, Xor, Fits, Expanded, DecodeParts;
    var c, n := Fold(1, Expanded(prefix)), |rest|;
    if n < 8 {
      FoldShifts(c, 1);
      FoldShifts(c, 2);
      FoldShifts(c, 3);
      FoldShifts(c, 4);
      FoldShifts(c, 5);
      FoldShifts(c, 6);
      FoldShifts(c, 7);
      FoldConcat(1, Expanded(prefix), Zeros(n));
      assert !Fits(Wanted(prefix, n), n);
      ShortExists(prefix, n);
    } else {
      LongDefined(prefix, rest);
    }
  }

  lemma LongDefined(prefix: Text, rest: Text)
    requires |rest| >= 8
    ensures DecodeParts(prefix, rest) != Undefined
  {
    hide Verified, Readable;
  }

  const ERGON: Text := [0x65, 0x72, 0x67, 0x6f, 0x6e]
  const BCHTEST: Text := [0x62, 0x63, 0x68, 0x74, 0x65, 0x73, 0x74]
  const BCHREG: Text := [0x62, 0x63, 0x68, 0x72, 0x65, 0x67]

  /** The prefixes of the networks (src/chainparams.cpp) have no such string. */
  lemma NetworkPrefixesDefined(prefix: Text, rest: Text)
    requires prefix in {ERGON, BCHTEST, BCHREG}
    ensures DecodeParts(prefix, rest) != Undefined
  {
    hide Fold, NeverFits, DecodeParts, Expanded;
    if prefix == ERGON {
      MainRemainder();
    } else if prefix == BCHTEST {
      TestRemainder();
    } else {
      RegtestRemainder();
    }
    PrefixNever(prefix, rest);
  }

  lemma MainRemainder()
    ensures NeverFits(Fold(1, Expanded(ERGON)))
  {
    hide Fold;
    FoldNone();
    var v: Data := [];
    v := FoldNext(v, 5, 0x1, 0x25);
    v := FoldNext(v, 18, 0x25, 0x4b2);
    v := FoldNext(v, 7, 0x4b2, 0x9647);
    v := FoldNext(v, 15, 0x9647, 0x12c8ef);
    v := FoldNext(v, 14, 0x12c8ef, 0x2591dee);
    v := FoldNext(v, 0, 0x2591dee, 0x4b23bdc0);
    assert Expanded(ERGON) == v;
  }

  lemma TestRemainder()
    ensures NeverFits(Fold(1, Expanded(BCHTEST)))
  {
    hide Fold;
    var v := TestHalf();
    v := FoldNext(v, 5, 0x110d14, 0x221a285);
    v := FoldNext(v, 19, 0x221a285, 0x443450b3);
    v := FoldNext(v, 20, 0x443450b3, 0x8868a1674);
    v := FoldNext(v, 0, 0x8868a1674, 0x8823fe40e1);
    assert v == [2, 3, 8, 20, 5, 19, 20, 0];
    TestExpanded();
  }

  lemma TestHalf() returns (v: Data)
    ensures v == [2, 3, 8, 20] && Fold(1, v) == 0x110d14
  {
    hide Fold;
    FoldNone();
    v := [];
    v := FoldNext(v, 2, 0x1, 0x22);
    v := FoldNext(v, 3, 0x22, 0x443);
    v := FoldNext(v, 8, 0x443, 0x8868);
    v := FoldNext(v, 20, 0x8868, 0x110d14);
  }

  lemma TestExpanded()
    ensures Expanded(BCHTEST) == [2, 3, 8, 20, 5, 19, 20, 0]
  {
  }

  lemma RegtestRemainder()
    ensures NeverFits(Fold(1, Expanded(BCHREG)))
  {
    hide Fold;
    FoldNone();
    var v: Data := [];
    v := FoldNext(v, 2, 0x1, 0x22);
    v := FoldNext(v, 3, 0x22, 0x443);
    v := FoldNext(v, 8, 0x443, 0x8868);
    v := FoldNext(v, 18, 0x8868, 0x110d12);
    v := FoldNext(v, 5, 0x110d12, 0x221a245);
    v := FoldNext(v, 7, 0x221a245, 0x443448a7);
    v := FoldNext(v, 0, 0x443448a7, 0x8868914e0);
    assert Expanded(BCHREG) == v;
  }
}
