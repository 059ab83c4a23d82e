/** cashaddr strings (src/cashaddr.cpp): encoding and decoding, on bytes of ASCII text. */
module CashAddr {
  import opened CashPoly

  type Text = seq<bv8>

  const COLON: bv8 := 0x3a

  /** CHARSET: the character for a five-bit value. */
  function CharsetAt(c: bv8): bv8
    requires c < 32
  {
    if c < 8 then
      if c == 0 then 0x71 else if c == 1 then 0x70 else if c == 2 then 0x7a else if c == 3 then 0x72 else
      if c == 4 then 0x79 else if c == 5 then 0x39 else if c == 6 then 0x78 else 0x38
    else if c < 16 then
      if c == 8 then 0x67 else if c == 9 then 0x66 else if c == 10 then 0x32 else if c == 11 then 0x74 else
      if c == 12 then 0x76 else if c == 13 then 0x64 else if c == 14 then 0x77 else 0x30
    else if c < 24 then
      if c == 16 then 0x73 else if c == 17 then 0x33 else if c == 18 then 0x6a else if c == 19 then 0x6e else
      if c == 20 then 0x35 else if c == 21 then 0x34 else if c == 22 then 0x6b else 0x68
    else
      if c == 24 then 0x63 else if c == 25 then 0x65 else if c == 26 then 0x36 else if c == 27 then 0x6d else
      if c == 28 then 0x75 else if c == 29 then 0x61 else if c == 30 then 0x37 else 0x6c
  }

  /** CHARSET_REV: the value of a character of either case; 0xff is the table's -1. */
  function CharsetRev(c: bv8): bv8 {
    if IsDigit(c) then DigitRev(c & 0x0f) else if IsLower(c) || IsUpper(c) then LetterRev(c & 0x1f) else 0xff
  }

  /** The values of the digits. */
  function DigitRev(c: bv8): bv8 {
    if c == 0 then 15 else if c == 1 then 0xff else if c == 2 then 10 else if c == 3 then 17 else
    if c == 4 then 21 else if c == 5 then 20 else if c == 6 then 26 else if c == 7 then 30 else
    if c == 8 then 7 else 5
  }

  /** The values of the letters, numbered from 1. */
  function LetterRev(c: bv8): bv8 {
    if c < 14 then
      if c == 1 then 29 else if c == 2 then 0xff else if c == 3 then 24 else if c == 4 then 13 else
      if c == 5 then 25 else if c == 6 then 9 else if c == 7 then 8 else if c == 8 then 23 else
      if c == 9 then 0xff else if c == 10 then 18 else if c == 11 then 22 else if c == 12 then 31 else 27
    else
      if c == 14 then 19 else if c == 15 then 0xff else if c == 16 then 1 else if c == 17 then 0 else
      if c == 18 then 3 else if c == 19 then 16 else if c == 20 then 11 else if c == 21 then 28 else
      if c == 22 then 12 else if c == 23 then 14 else if c == 24 then 6 else if c == 25 then 4 else 2
  }

  predicate IsLower(c: bv8) {
    0x61 <= c <= 0x7a
  }

  predicate IsUpper(c: bv8) {
    0x41 <= c <= 0x5a
  }

  predicate IsDigit(c: bv8) {
    0x30 <= c <= 0x39
  }

  function LowerCase(c: bv8): bv8 {
    c | 0x20
  }

  lemma CharsetInverse(c: bv8)
    requires c < 32
    ensures CharsetRev(CharsetAt(c)) == c && (IsLower(CharsetAt(c)) || IsDigit(CharsetAt(c)))
  {
  }

  lemma CharsetCovers(c: bv8)
    requires CharsetRev(c) != 0xff
    ensures CharsetRev(c) < 32 && CharsetAt(CharsetRev(c)) == LowerCase(c)
  {
  }

  // ---- Checksums

  /** The prefix as values, followed by a zero. */
  function Expanded(prefix: Text): (v: Data)
    ensures |v| == |prefix| + 1 && FiveBit(v)
  {
    LowBitsFive();
    seq(|prefix|, i requires 0 <= i < |prefix| => prefix[i] & 0x1f) + [0]
  }

  lemma LowBitsFive()
    ensures forall c: bv8 {:trigger c & 0x1f} :: c & 0x1f < 32
  {
  }

  method ExpandPrefix(prefix: Text) returns (r: Data)
    ensures r == Expanded(prefix)
  {
    r := seq(|prefix| + 1, i => 0);
    for i := 0 to |prefix|
      invariant |r| == |prefix| + 1 && r[..i] == Expanded(prefix)[..i] && forall j :: i <= j < |r| ==> r[j] == 0
    {
      r := r[i := prefix[i] & 0x1f];
      assert r[..i + 1] == r[..i] + [r[i]];
    }
    r := r[|prefix| := 0];
  }

  ghost predicate Verified(prefix: Text, payload: Data) {
    Fold(1, Expanded(prefix) + payload) == 1
  }

  ghost function Checksum(prefix: Text, payload: Data): (sum: Data)
    ensures |sum| == 8 && FiveBit(sum)
  {
    Unpack(Xor(Fold(1, Expanded(prefix) + payload + Zeros(8)), 1))
  }

  method VerifyChecksum(prefix: Text, payload: Data) returns (ok: bool)
    ensures ok <==> Verified(prefix, payload)
  {
    hide Fold, Xor;
    var expanded := ExpandPrefix(prefix);
    var mod := PolyMod(expanded + payload);
    XorEqual(Fold(1, expanded + payload), 1);
    return mod == 0;
  }

  method CreateChecksum(prefix: Text, payload: Data) returns (sum: Data)
    ensures sum == Checksum(prefix, payload)
  {
    hide Fold, Xor, Drop, Last;
    var enc := ExpandPrefix(prefix);
    enc := enc + payload + Zeros(8);
    var mod := PolyMod(enc);
    sum := seq(8, i => 0);
    for i := 0 to 8
      invariant |sum| == 8 && forall j :: 0 <= j < i ==> sum[j] == Unpack(mod)[j]
    {
      sum := sum[i := Last(Drop(mod, 7 - i))];
    }
    assert sum == Unpack(mod);
  }

  /** A checksum that was created is accepted, for every prefix and payload. */
  lemma CreatedVerifies(prefix: Text, payload: Data)
    ensures Verified(prefix, payload + Checksum(prefix, payload))
  {
    hide Fold, Xor, Unpack;
    var v := Expanded(prefix) + payload;
    ChecksumHolds(v);
    assert Expanded(prefix) + (payload + Checksum(prefix, payload)) == v + Checksum(prefix, payload);
  }

  /** No other checksum is accepted. */
  lemma ChecksumUnique(prefix: Text, payload: Data, sum: Data)
    requires FiveBit(payload) && FiveBit(sum) && |sum| == 8 && Verified(prefix, payload + sum)
    ensures sum == Checksum(prefix, payload)
  {
    hide Fold, Xor, Unpack, Expanded;
    CreatedVerifies(prefix, payload);
    var v, right := Expanded(prefix) + payload, Checksum(prefix, payload);
    assert Expanded(prefix) + (payload + sum) == v + sum;
    assert Expanded(prefix) + (payload + right) == v + right;
    if sum != right {
      var i :| 0 <= i < 8 && sum[i] != right[i];
      assert (v + sum)[|v| + i] != (v + right)[|v| + i];
      BurstDetected(1, v + sum, v + right, |v|, 8);
    }
  }

  // ---- Strings

  ghost function Chars(v: Data): (t: Text)
    requires FiveBit(v)
    ensures |t| == |v| && forall i :: 0 <= i < |v| ==> t[i] == CharsetAt(v[i])
  {
    seq(|v|, i requires 0 <= i < |v| => CharsetAt(v[i]))
  }

  ghost function Encoded(prefix: Text, payload: Data): Text
    requires FiveBit(payload)
  {
    prefix + [COLON] + Chars(payload + Checksum(prefix, payload))
  }

  method Encode(prefix: Text, payload: Data) returns (str: Text)
    requires FiveBit(payload)
    ensures str == Encoded(prefix, payload)
  {
    hide Checksum, CharsetAt;
    var sum := CreateChecksum(prefix, payload);
    var combined := payload + sum;
    str := prefix + [COLON];
    for i := 0 to |combined|
      invariant str == prefix + [COLON] + Chars(combined)[..i]
    {
      str := str + [CharsetAt(combined[i])];
    }
  }

  /** Failure is the source's empty result. A verified string of fewer than eight values makes it step before its buffer. */
  datatype Decoding = Failure | Undefined | Success(prefix: Text, payload: Data)

  predicate Allowed(c: bv8) {
    IsLower(c) || IsUpper(c) || IsDigit(c) || c == COLON
  }

  /** Only letters, digits and at most one separator, which has at least one letter and nothing else before it. */
  ghost predicate WellPlaced(str: Text) {
    && (forall i :: 0 <= i < |str| ==> Allowed(str[i]))
    && (forall i :: 0 <= i < |str| && str[i] == COLON ==> i > 0)
    && (forall i, j :: 0 <= j < i < |str| && str[i] == COLON ==> str[j] != COLON && !IsDigit(str[j]))
  }

  /** Well placed and not in mixed case. */
  ghost predicate WellFormed(str: Text) {
    && WellPlaced(str)
    && !((exists i :: 0 <= i < |str| && IsLower(str[i])) && (exists i :: 0 <= i < |str| && IsUpper(str[i])))
  }

  /** The position of the separator, or 0. */
  ghost function ColonAt(str: Text): (k: nat)
    ensures k == 0 || (k < |str| && str[k] == COLON)
    ensures k == 0 ==> forall i :: 0 < i < |str| ==> str[i] != COLON
    ensures forall i :: 0 < i < k ==> str[i] != COLON
  {
    if |str| <= 1 then 0
    else
      var k := ColonAt(str[..|str| - 1]);
      if k != 0 then k else if str[|str| - 1] == COLON then |str| - 1 else 0
  }

  ghost function Lowered(t: Text): (r: Text)
    ensures |r| == |t| && forall i :: 0 <= i < |t| ==> r[i] == LowerCase(t[i])
  {
    seq(|t|, i requires 0 <= i < |t| => LowerCase(t[i]))
  }

  ghost predicate Readable(t: Text) {
    forall i :: 0 <= i < |t| ==> CharsetRev(t[i]) != 0xff
  }

  ghost function ValuesOf(t: Text): (v: Data)
    ensures |v| == |t| && forall i :: 0 <= i < |t| ==> v[i] == CharsetRev(t[i])
  {
    seq(|t|, i requires 0 <= i < |t| => CharsetRev(t[i]))
  }

  ghost function DecodeParts(prefix: Text, rest: Text): Decoding {
    if !Readable(rest) || !Verified(prefix, ValuesOf(rest)) then Failure
    else if |rest| < 8 then Undefined
    else Success(prefix, ValuesOf(rest)[..|rest| - 8])
  }

  ghost function Decoded(str: Text, defaultPrefix: Text): Decoding {
    var k := ColonAt(str);
    if !WellFormed(str) then Failure
    else if k == 0 then DecodeParts(defaultPrefix, str)
    else DecodeParts(Lowered(str[..k]), str[k + 1..])
  }

  /** Decoding inverts encoding for every non-empty prefix of lower-case letters. */
  lemma DecodeEncode(prefix: Text, payload: Data, defaultPrefix: Text)
    requires FiveBit(payload) && prefix != [] && forall i :: 0 <= i < |prefix| ==> IsLower(prefix[i])
    ensures Decoded(Encoded(prefix, payload), defaultPrefix) == Success(prefix, payload)
  {
    hide Checksum, CharsetAt, CharsetRev, IsLower, IsUpper, IsDigit, LowerCase, Verified;
    var combined := payload + Checksum(prefix, payload);
    var str, k := Encoded(prefix, payload), |prefix|;
    EncodedShape(prefix, payload);
    assert ColonAt(str) == k;
    assert str[k + 1..] == Chars(combined);
    forall i | 0 <= i < |combined|
      ensures CharsetRev(Chars(combined)[i]) == combined[i] < 32
    {
      CharsetInverse(combined[i]);
    }
    assert ValuesOf(str[k + 1..]) == combined;
    CreatedVerifies(prefix, payload);
    forall i | 0 <= i < k
      ensures LowerCase(prefix[i]) == prefix[i]
    {
      LowerStays(prefix[i]);
    }
    assert Lowered(str[..k]) == prefix;
    assert combined[..|combined| - 8] == payload;
  }

  lemma LowerStays(c: bv8)
    requires IsLower(c) || IsDigit(c) || c == COLON
    ensures LowerCase(c) == c
  {
  }

  lemma Classes(c: bv8)
    ensures IsLower(c) ==> !IsUpper(c) && !IsDigit(c) && c != COLON
    ensures IsDigit(c) ==> !IsUpper(c) && c != COLON
    ensures c == COLON ==> !IsUpper(c)
  {
  }

  /** An encoding consists of lower-case letters and digits around one separator. */
  lemma EncodedShape(prefix: Text, payload: Data)
    requires FiveBit(payload) && prefix != [] && forall i :: 0 <= i < |prefix| ==> IsLower(prefix[i])
    ensures
      var str := Encoded(prefix, payload);
      && WellFormed(str) && str[|prefix|] == COLON
      && forall i :: 0 <= i < |str| && i != |prefix| ==> str[i] != COLON
  {
    hide Checksum, CharsetAt, CharsetRev, IsLower, IsUpper, IsDigit;
    var combined := payload + Checksum(prefix, payload);
    var str, k := Encoded(prefix, payload), |prefix|;
    forall i | 0 <= i < |str|
      ensures i < k ==> IsLower(str[i])
      ensures i > k ==> IsLower(str[i]) || IsDigit(str[i])
      ensures i == k ==> str[i] == COLON
      ensures i != k ==> str[i] != COLON
      ensures !IsUpper(str[i]) && Allowed(str[i])
      ensures i < k ==> !IsDigit(str[i])
    {
      if i > k {
        CharsetInverse(combined[i - k - 1]);
      }
      Classes(str[i]);
    }
  }

  /** What decodes with its own prefix is, up to case, the one encoding of what it decodes to. */
  lemma EncodeDecode(str: Text, defaultPrefix: Text)
    requires Decoded(str, defaultPrefix).Success? && ColonAt(str) != 0
    ensures
      var d := Decoded(str, defaultPrefix);
      FiveBit(d.payload) && Encoded(d.prefix, d.payload) == Lowered(str)
  {
    hide Checksum, CharsetAt, CharsetRev, IsLower, IsUpper, IsDigit, LowerCase, Verified, WellFormed;
    var d, k := Decoded(str, defaultPrefix), ColonAt(str);
    var rest := str[k + 1..];
    var v := ValuesOf(rest);
    forall i | 0 <= i < |v|
      ensures v[i] < 32 && CharsetAt(v[i]) == LowerCase(rest[i])
    {
      CharsetCovers(rest[i]);
    }
    var n := |v| - 8;
    assert v == v[..n] + v[n..];
    ChecksumUnique(d.prefix, v[..n], v[n..]);
    LowerStays(COLON);
    var low := Lowered(str);
    assert Chars(v) == low[k + 1..];
    assert low == low[..k] + [low[k]] + low[k + 1..];
    assert low[..k] == d.prefix;
  }

  method Decode(str: Text, defaultPrefix: Text) returns (r: Decoding)
    ensures r == Decoded(str, defaultPrefix)
  {
    hide CharsetRev, IsLower, IsUpper, IsDigit, LowerCase, Verified;
    var prefixSize := ScanPrefix(str);
    if prefixSize < 0 {
      return Failure;
    }
    var prefix := defaultPrefix;
    var from := prefixSize;
    if prefixSize != 0 {
      prefix := LowerPrefix(str, prefixSize);
      from := from + 1;
    }
    r := DecodeValues(prefix, str[from..]);
  }

  /** The first pass: the size of the prefix, or -1 if the string is not well formed. */
  method ScanPrefix(str: Text) returns (size: int)
    ensures size == if WellFormed(str) then ColonAt(str) else -1
  {
    hide IsLower, IsUpper, IsDigit;
    var lower, upper, hasNumber := false, false, false;
    size := 0;
    for i := 0 to |str|
      invariant lower <==> exists j :: 0 <= j < i && IsLower(str[j])
      invariant upper <==> exists j :: 0 <= j < i && IsUpper(str[j])
      invariant hasNumber <==> exists j :: 0 <= j < i && IsDigit(str[j])
      invariant WellPlaced(str[..i]) && size == ColonAt(str[..i])
    {
      var c := str[i];
      Classes(c);
      ScanStep(str, i);
      if IsLower(c) {
        lower := true;
      } else if IsUpper(c) {
        upper := true;
      } else if IsDigit(c) {
        hasNumber := true;
      } else if c == COLON {
        if hasNumber || i == 0 || size != 0 {
          return -1;
        }
        size := i;
      } else {
        return -1;
      }
    }
    assert str[..|str|] == str;
    if upper && lower {
      return -1;
    }
  }

  /** Reading one more character. */
  lemma ScanStep(str: Text, i: nat)
    requires i < |str| && WellPlaced(str[..i])
    ensures
      var c := str[i];
      var ok := Allowed(c) && (c == COLON ==>
        i > 0 && ColonAt(str[..i]) == 0 && !exists j :: 0 <= j < i && IsDigit(str[j]));
      && (ok ==> WellPlaced(str[..i + 1])) && (!ok ==> !WellPlaced(str))
      && ColonAt(str[..i + 1]) == if ColonAt(str[..i]) == 0 && c == COLON then i else ColonAt(str[..i])
  {
    hide IsLower, IsUpper, IsDigit;
    var head := str[..i];
    assert str[..i + 1][..i] == head;
    assert forall j :: 0 <= j < i ==> head[j] == str[j];
    assert ColonAt(head) == 0 ==> forall j :: 0 <= j < i ==> head[j] != COLON;
    assert ColonAt(head) != 0 ==> str[ColonAt(head)] == COLON;
  }

  method LowerPrefix(str: Text, size: nat) returns (prefix: Text)
    requires size <= |str|
    ensures prefix == Lowered(str[..size])
  {
    hide LowerCase;
    prefix := [];
    for i := 0 to size
      invariant prefix == Lowered(str[..size])[..i]
    {
      prefix := prefix + [LowerCase(str[i])];
    }
  }

  method DecodeValues(prefix: Text, rest: Text) returns (r: Decoding)
    ensures r == DecodeParts(prefix, rest)
  {
    hide CharsetRev, Verified;
    var values: Data := seq(|rest|, i => 0);
    for i := 0 to |rest|
      invariant |values| == |rest| && forall j :: 0 <= j < i ==> values[j] == CharsetRev(rest[j]) != 0xff
    {
      if CharsetRev(rest[i]) == 0xff {
        return Failure;
      }
      values := values[i := CharsetRev(rest[i])];
    }
    assert values == ValuesOf(rest);
    var ok := VerifyChecksum(prefix, values);
    if !ok {
      return Failure;
    }
    if |values| < 8 {
      return Undefined;
    }
    return Success(prefix, values[..|values| - 8]);
  }
}
