/**
 Which strings Decode (src/cashaddr.cpp) accepts: exactly those that Encode
 writes, and the same in capital letters.
 */
module CashExact {
  import opened CashPoly
  import opened CashAddr

  /** CHARSET is "qpzry9x8gf2tvdw0s3jn54khce6mua7l". */
  lemma CharsetText()
    ensures Chars([0, 1, 2, 3, 4, 5, 6, 7]) == [0x71, 0x70, 0x7a, 0x72, 0x79, 0x39, 0x78, 0x38]
    ensures Chars([8, 9, 10, 11, 12, 13, 14, 15]) == [0x67, 0x66, 0x32, 0x74, 0x76, 0x64, 0x77, 0x30]
    ensures Chars([16, 17, 18, 19, 20, 21, 22, 23]) == [0x73, 0x33, 0x6a, 0x6e, 0x35, 0x34, 0x6b, 0x68]
    ensures Chars([24, 25, 26, 27, 28, 29, 30, 31]) == [0x63, 0x65, 0x36, 0x6d, 0x75, 0x61, 0x37, 0x6c]
  {
  }

  function UpperCase(c: bv8): bv8 {
    if 0x61 <= c <= 0x7a then c - 0x20 else c
  }

  ghost function Uppered(t: Text): (r: Text)
    ensures |r| == |t| && forall i :: 0 <= i < |t| ==> r[i] == UpperCase(t[i])
  {
    seq(|t|, i requires 0 <= i < |t| => UpperCase(t[i]))
  }

  ghost predicate Letters(t: Text) {
    forall i :: 0 <= i < |t| ==> 0x61 <= t[i] <= 0x7a
  }

  /** The text as it stands or in capitals. */
  ghost predicate InOneCase(str: Text, t: Text) {
    str == t || str == Uppered(t)
  }

  lemma CaseFacts(c: bv8)
    requires Allowed(c)
    ensures !IsUpper(c) ==> LowerCase(c) == c
    ensures !IsLower(c) ==> UpperCase(LowerCase(c)) == c
    ensures Allowed(LowerCase(c)) && !IsUpper(LowerCase(c))
    ensures (LowerCase(c) == COLON <==> c == COLON) && (IsDigit(LowerCase(c)) <==> IsDigit(c))
    ensures CharsetRev(LowerCase(c)) == CharsetRev(c)
  {
  }

  lemma UpperFacts(c: bv8)
    requires Allowed(c) && !IsUpper(c)
    ensures Allowed(UpperCase(c)) && !IsLower(UpperCase(c)) && LowerCase(UpperCase(c)) == c
  {
  }

  /** A text of allowed characters is one in lower case or the same in capitals, unless both cases are mixed. */
  lemma OneCase(str: Text)
    requires forall i :: 0 <= i < |str| ==> Allowed(str[i])
    ensures InOneCase(str, Lowered(str)) <==>
            !((exists i :: 0 <= i < |str| && IsLower(str[i])) && (exists i :: 0 <= i < |str| && IsUpper(str[i])))
  {
    hide Allowed, IsLower, IsUpper, LowerCase, UpperCase;
    forall i | 0 <= i < |str|
      ensures !IsUpper(str[i]) ==> LowerCase(str[i]) == str[i]
      ensures !IsLower(str[i]) ==> UpperCase(LowerCase(str[i])) == str[i]
      ensures IsUpper(str[i]) ==> LowerCase(str[i]) != str[i]
      ensures IsLower(str[i]) ==> UpperCase(LowerCase(str[i])) != str[i]
    {
      CaseFacts(str[i]);
      CaseMoves(str[i]);
    }
  }

  lemma CaseMoves(c: bv8)
    ensures IsUpper(c) ==> LowerCase(c) != c
    ensures IsLower(c) ==> UpperCase(LowerCase(c)) != c
  {
  }

  ghost predicate AllAllowed(str: Text) {
    forall i :: 0 <= i < |str| ==> Allowed(str[i])
  }

  lemma {:induction false} ColonLowered(str: Text)
    requires AllAllowed(str)
    ensures ColonAt(Lowered(str)) == ColonAt(str)
  {
    hide Allowed, LowerCase;
    if |str| > 1 {
      var n := |str| - 1;
      ColonLowered(str[..n]);
      assert Lowered(str)[..n] == Lowered(str[..n]);
      CaseFacts(str[n]);
    }
  }

  lemma PlacedLowered(str: Text)
    requires AllAllowed(str)
    ensures WellFormed(Lowered(str)) <==> WellPlaced(str)
  {
    hide Allowed, LowerCase, IsDigit, IsLower, IsUpper;
    var low := Lowered(str);
    forall i | 0 <= i < |str|
      ensures Allowed(low[i]) && !IsUpper(low[i])
      ensures (low[i] == COLON <==> str[i] == COLON) && (IsDigit(low[i]) <==> IsDigit(str[i]))
    {
      CaseFacts(str[i]);
    }
  }

  lemma PartsLowered(prefix: Text, rest: Text)
    requires AllAllowed(rest)
    ensures DecodeParts(prefix, Lowered(rest)) == DecodeParts(prefix, rest)
  {
    hide Allowed, LowerCase, CharsetRev, Verified;
    forall i | 0 <= i < |rest|
      ensures CharsetRev(Lowered(rest)[i]) == CharsetRev(rest[i])
    {
      CaseFacts(rest[i]);
    }
    assert ValuesOf(Lowered(rest)) == ValuesOf(rest);
  }

  /** Case does not matter, as long as it is not mixed. */
  lemma CaseBlind(str: Text, defaultPrefix: Text)
    requires AllAllowed(str) && InOneCase(str, Lowered(str))
    ensures Decoded(str, defaultPrefix) == Decoded(Lowered(str), defaultPrefix)
  {
    hide Allowed, LowerCase, DecodeParts, InOneCase, WellPlaced;
    ColonLowered(str);
    PlacedLowered(str);
    OneCase(str);
    var low, k := Lowered(str), ColonAt(str);
    if k == 0 {
      PartsLowered(defaultPrefix, str);
    } else {
      PartsLowered(Lowered(str[..k]), str[k + 1..]);
      assert low[k + 1..] == Lowered(str[k + 1..]);
      LoweredTwice(str, k);
    }
  }

  lemma LoweredTwice(str: Text, k: nat)
    requires AllAllowed(str) && k <= |str|
    ensures Lowered(Lowered(str)[..k]) == Lowered(str[..k])
  {
    hide Allowed, LowerCase;
    forall i | 0 <= i < k
      ensures LowerCase(LowerCase(str[i])) == LowerCase(str[i])
    {
      CaseFacts(str[i]);
      CaseFacts(LowerCase(str[i]));
    }
  }

  /** The capitals of a text in lower case. */
  lemma CapitalsOf(t: Text)
    requires AllAllowed(t) && forall i :: 0 <= i < |t| ==> !IsUpper(t[i])
    ensures AllAllowed(Uppered(t)) && Lowered(Uppered(t)) == t && Lowered(t) == t
  {
    hide Allowed, LowerCase, UpperCase, IsUpper;
    forall i | 0 <= i < |t|
      ensures Allowed(UpperCase(t[i])) && LowerCase(UpperCase(t[i])) == t[i] && LowerCase(t[i]) == t[i]
    {
      UpperFacts(t[i]);
      CaseFacts(t[i]);
    }
  }

  /** With a prefix of its own, a string is accepted exactly if it is an encoding, as it stands or in capitals. */
  lemma DecodedExactly(str: Text, defaultPrefix: Text, prefix: Text, payload: Data)
    ensures Decoded(str, defaultPrefix) == Success(prefix, payload) && ColonAt(str) != 0 <==>
            prefix != [] && Letters(prefix) && FiveBit(payload) && InOneCase(str, Encoded(prefix, payload))
  {
    if Decoded(str, defaultPrefix) == Success(prefix, payload) && ColonAt(str) != 0 {
      AcceptedForm(str, defaultPrefix);
    }
    if prefix != [] && Letters(prefix) && FiveBit(payload) && InOneCase(str, Encoded(prefix, payload)) {
      EncodedAccepted(str, defaultPrefix, prefix, payload);
    }
  }

  lemma AcceptedForm(str: Text, defaultPrefix: Text)
    requires Decoded(str, defaultPrefix).Success? && ColonAt(str) != 0
    ensures
      var d := Decoded(str, defaultPrefix);
      d.prefix != [] && Letters(d.prefix) && FiveBit(d.payload) && InOneCase(str, Encoded(d.prefix, d.payload))
  {
    hide LowerCase, Verified, Readable, InOneCase, Encoded;
    EncodeDecode(str, defaultPrefix);
    OneCase(str);
    var k := ColonAt(str);
    forall i | 0 <= i < k
      ensures 0x61 <= Lowered(str[..k])[i] <= 0x7a
    {
      LetterLowered(str[i]);
    }
  }

  lemma LetterLowered(c: bv8)
    requires Allowed(c) && c != COLON && !IsDigit(c)
    ensures 0x61 <= LowerCase(c) <= 0x7a
  {
  }

  lemma EncodedAccepted(str: Text, defaultPrefix: Text, prefix: Text, payload: Data)
    requires prefix != [] && Letters(prefix) && FiveBit(payload) && InOneCase(str, Encoded(prefix, payload))
    ensures Decoded(str, defaultPrefix) == Success(prefix, payload) && ColonAt(str) != 0
  {
    hide Decoded, Encoded, Allowed, WellPlaced;
    var t := Encoded(prefix, payload);
    DecodeEncode(prefix, payload, defaultPrefix);
    EncodedShape(prefix, payload);
    EncodedLower(prefix, payload);
    CapitalsOf(t);
    ColonLowered(str);
    CaseBlind(str, defaultPrefix);
  }

  lemma EncodedLower(prefix: Text, payload: Data)
    requires prefix != [] && Letters(prefix) && FiveBit(payload)
    ensures
      var t := Encoded(prefix, payload);
      AllAllowed(t) && ColonAt(t) == |prefix| && forall i :: 0 <= i < |t| ==> !IsUpper(t[i])
  {
    hide Checksum, CharsetAt;
    var t := Encoded(prefix, payload);
    EncodedShape(prefix, payload);
    forall i | 0 <= i < |t|
      ensures !IsUpper(t[i])
    {
      if i > |prefix| {
        CharsetInverse((payload + Checksum(prefix, payload))[i - |prefix| - 1]);
      }
    }
  }

  /** Without one, exactly if it is what follows the separator in an encoding for the default prefix. */
  lemma DecodedWithDefault(str: Text, defaultPrefix: Text, payload: Data)
    ensures Decoded(str, defaultPrefix) == Success(defaultPrefix, payload) && ColonAt(str) == 0 <==>
            FiveBit(payload) && InOneCase(str, Chars(payload + Checksum(defaultPrefix, payload)))
  {
    if Decoded(str, defaultPrefix) == Success(defaultPrefix, payload) && ColonAt(str) == 0 {
      BareForm(str, defaultPrefix);
    }
    if FiveBit(payload) && InOneCase(str, Chars(payload + Checksum(defaultPrefix, payload))) {
      BareAccepted(str, defaultPrefix, payload);
    }
  }

  lemma BareForm(str: Text, defaultPrefix: Text)
    requires Decoded(str, defaultPrefix).Success? && ColonAt(str) == 0
    ensures
      var d := Decoded(str, defaultPrefix);
      d.prefix == defaultPrefix && FiveBit(d.payload) && InOneCase(str, Chars(d.payload + Checksum(defaultPrefix, d.payload)))
  {
    hide Checksum, Readable, ValuesOf, Chars, Lowered, LowerCase, Verified, InOneCase;
    OneCase(str);
    RestForm(defaultPrefix, str);
  }

  /** Values that verify and are eight or more are a payload and its checksum. */
  lemma RestForm(prefix: Text, rest: Text)
    requires Readable(rest) && Verified(prefix, ValuesOf(rest)) && |rest| >= 8
    ensures
      var payload := ValuesOf(rest)[..|rest| - 8];
      FiveBit(payload) && Chars(payload + Checksum(prefix, payload)) == Lowered(rest)
  {
    hide Checksum, CharsetAt, CharsetRev, LowerCase, Verified;
    var v := ValuesOf(rest);
    forall i | 0 <= i < |v|
      ensures v[i] < 32 && CharsetAt(v[i]) == LowerCase(rest[i])
    {
      CharsetCovers(rest[i]);
    }
    var n := |v| - 8;
    assert v == v[..n] + v[n..];
    ChecksumUnique(prefix, v[..n], v[n..]);
    assert Chars(v) == Lowered(rest);
  }

  lemma BareAccepted(str: Text, defaultPrefix: Text, payload: Data)
    requires FiveBit(payload) && InOneCase(str, Chars(payload + Checksum(defaultPrefix, payload)))
    ensures Decoded(str, defaultPrefix) == Success(defaultPrefix, payload) && ColonAt(str) == 0
  {
    hide Checksum, Decoded, Allowed, IsUpper;
    var combined := payload + Checksum(defaultPrefix, payload);
    var t := Chars(combined);
    CharsPlain(combined);
    BareDecodes(defaultPrefix, payload);
    CapitalsOf(t);
    ColonLowered(str);
    CaseBlind(str, defaultPrefix);
  }

  lemma CharsPlain(v: Data)
    requires FiveBit(v)
    ensures
      var t := Chars(v);
      && AllAllowed(t)
      && forall i :: 0 <= i < |t| ==> !IsUpper(t[i]) && t[i] != COLON && CharsetRev(t[i]) == v[i] < 32
  {
    hide CharsetAt, CharsetRev;
    forall i | 0 <= i < |v|
      ensures CharsetRev(CharsetAt(v[i])) == v[i] && (IsLower(CharsetAt(v[i])) || IsDigit(CharsetAt(v[i])))
    {
      CharsetInverse(v[i]);
    }
  }

  lemma BareDecodes(prefix: Text, payload: Data)
    requires FiveBit(payload)
    ensures
      var t := Chars(payload + Checksum(prefix, payload));
      Decoded(t, prefix) == Success(prefix, payload) && ColonAt(t) == 0
  {
    hide Checksum, CharsetAt, CharsetRev, IsUpper, IsLower, IsDigit, Allowed, Verified;
    var combined := payload + Checksum(prefix, payload);
    var t := Chars(combined);
    CharsPlain(combined);
    CreatedVerifies(prefix, payload);
    assert ValuesOf(t) == combined;
    assert combined[..|combined| - 8] == payload;
  }
}
