/** Base58 (src/base58.cpp): conversion between byte strings and text by repeated multiply-and-add in a buffer. */
module Base58 {
  import opened Options
  import opened Radix

  /** pszBase58: the character of a digit. */
  function CharOf(d: nat): (c: nat)
    requires d < 58
    ensures DigitOf(c) == d
  {
    if d < 9 then 49 + d              // 1-9
    else if d < 17 then 65 + (d - 9)  // A-H
    else if d < 22 then 74 + (d - 17) // J-N
    else if d < 33 then 80 + (d - 22) // P-Z
    else if d < 44 then 97 + (d - 33) // a-k
    else 109 + (d - 44)               // m-z
  }

  /** mapBase58: the digit of a character, or -1. */
  function DigitOf(c: nat): (d: int)
    ensures -1 <= d < 58 && (d == 0 <==> c == 49)
  {
    if 49 <= c <= 57 then c - 49
    else if 65 <= c <= 72 then c - 65 + 9
    else if 74 <= c <= 78 then c - 74 + 17
    else if 80 <= c <= 90 then c - 80 + 22
    else if 97 <= c <= 107 then c - 97 + 33
    else if 109 <= c <= 122 then c - 109 + 44
    else -1
  }

  lemma CharOfDigit(c: nat)
    requires DigitOf(c) >= 0
    ensures CharOf(DigitOf(c)) == c
  {
  }

  predicate IsSpace(c: nat) {
    c == 32 || 9 <= c <= 13
  }

  /** The letters and digits but 0, I, O and l, in the order of their codes; six other characters are blanks. */
  lemma Alphabet(c: nat, d: nat)
    ensures DigitOf(c) >= 0 <==>
            (48 <= c <= 57 || 65 <= c <= 90 || 97 <= c <= 122) && c != 48 && c != 73 && c != 79 && c != 108
    ensures c < d && DigitOf(c) >= 0 && DigitOf(d) >= 0 ==> DigitOf(c) < DigitOf(d)
    ensures IsSpace(c) <==> c in {9, 10, 11, 12, 13, 32}
  {
  }

  // ---- The buffer

  /** The buffer holds value v in its last length digits, and zeros before them. */
  ghost predicate Holds(b: nat, s: seq<nat>, length: nat, v: nat) {
    && length <= |s| && AllBelow(b, s) && Value(b, s) == v
    && forall i :: 0 <= i < |s| - length ==> s[i] == 0
  }

  /** Replaces the value v by v * mult + carry, from the last digit up; it does not run over if the result fits. */
  method MulAdd(buf: array<nat>, b: nat, mult: nat, digit: nat, length: nat, ghost v: nat) returns (newLength: nat)
    requires b >= 2 && Holds(b, buf[..], length, v) && v * mult + digit < Pow(b, buf.Length)
    modifies buf
    ensures Holds(b, buf[..], newLength, v * mult + digit)
  {
    hide Value, Pow, Holds, Converting;
    ghost var was := buf[..];
    var carry: nat, i, size := digit, 0, buf.Length;
    ConvertStart(b, was, mult, digit, length, v);
    while (carry != 0 || i < length) && i < size
      invariant i <= size && |buf[..]| == size && Converting(b, was, buf[..], mult, digit, carry, i)
      decreases size - i
    {
      ConvertStep(b, was, buf[..], mult, digit, carry, i);
      ghost var now := buf[..];
      carry := carry + mult * buf[size - 1 - i];
      var d: nat := carry % b;
      buf[size - 1 - i] := d;
      assert buf[..] == now[size - 1 - i := d];
      carry := carry / b;
      i := i + 1;
    }
    ConvertDone(b, was, buf[..], mult, digit, carry, i, length, v);
    assert carry == 0;
    newLength := i;
  }

  /** The last i digits have been replaced: they and the carry hold the new value of what was in them. */
  ghost predicate Converting(b: nat, was: seq<nat>, now: seq<nat>, mult: nat, digit: nat, carry: nat, i: nat) {
    && i <= |was| == |now| && AllBelow(b, now)
    && now[..|was| - i] == was[..|was| - i]
    && Value(b, now[|was| - i..]) + carry * Pow(b, i) == Value(b, was[|was| - i..]) * mult + digit
  }

  lemma ConvertStart(b: nat, was: seq<nat>, mult: nat, digit: nat, length: nat, v: nat)
    requires Holds(b, was, length, v)
    ensures length <= |was| && Converting(b, was, was, mult, digit, digit, 0)
  {
    Nothing(b);
    assert was[|was|..] == [];
  }

  lemma ConvertStep(b: nat, was: seq<nat>, now: seq<nat>, mult: nat, digit: nat, carry: nat, i: nat)
    requires b >= 2 && i < |was| && Converting(b, was, now, mult, digit, carry, i)
    ensures
      var at := |was| - 1 - i;
      var n := carry + mult * now[at];
      n % b >= 0 && n / b >= 0 && Converting(b, was, now[at := n % b], mult, digit, n / b, i + 1)
  {
    hide Value, Pow;
    var at := |was| - 1 - i;
    assert now[at] == now[..at + 1][at] == was[..at + 1][at] == was[at];
    var n := carry + mult * now[at];
    Quotient(n, b);
    var next := now[at := n % b];
    assert next[at..] == [n % b] + now[at + 1..] && was[at..] == [was[at]] + was[at + 1..];
    assert next[..at] == now[..at + 1][..at] && was[..at] == was[..at + 1][..at];
    DigitStep(b, now[at + 1..], was[at + 1..], was[at], mult, digit, carry, i);
  }

  lemma Quotient(n: nat, b: nat)
    requires b > 0
    ensures 0 <= n % b < b && n / b >= 0
  {
  }

  lemma ConvertDone(b: nat, was: seq<nat>, now: seq<nat>, mult: nat, digit: nat, carry: nat, i: nat, length: nat, v: nat)
    requires Holds(b, was, length, v) && Converting(b, was, now, mult, digit, carry, i)
    requires length <= i && (carry == 0 || i == |was|) && v * mult + digit < Pow(b, |was|)
    ensures carry == 0 && Holds(b, now, i, v * mult + digit)
  {
    hide Value, Pow;
    var n := |was|;
    assert forall j :: 0 <= j < n - i ==> now[j] == now[..n - i][j] == was[..n - i][j] == was[j] == 0;
    TailValue(b, was, i);
    TailValue(b, now, i);
    NoOverflow(b, carry, i);
  }

  lemma Nothing(b: nat)
    ensures Value(b, []) == 0 && Pow(b, 0) == 1
  {
  }

  lemma TailValue(b: nat, s: seq<nat>, i: nat)
    requires i <= |s| && forall j :: 0 <= j < |s| - i ==> s[j] == 0
    ensures Value(b, s) == Value(b, s[|s| - i..])
  {
    hide Value;
    assert s == s[..|s| - i] + s[|s| - i..];
    ValueZeros(b, s[..|s| - i], s[|s| - i..]);
  }

  lemma NoOverflow(b: nat, carry: nat, i: nat)
    ensures carry > 0 ==> carry * Pow(b, i) >= Pow(b, i)
  {
    if carry > 0 {
      ProductMono(1, carry, Pow(b, i), Pow(b, i));
    }
  }

  lemma DigitStep(b: nat, low: seq<nat>, was: seq<nat>, d: nat, mult: nat, digit: nat, carry: nat, i: nat)
    requires b >= 2 && |low| == |was| == i
    requires Value(b, low) + carry * Pow(b, i) == Value(b, was) * mult + digit
    ensures
      var n := carry + mult * d;
      Value(b, [n % b] + low) + (n / b) * Pow(b, i + 1) == Value(b, [d] + was) * mult + digit
  {
    hide Value;
    var n, p := carry + mult * d, Pow(b, i);
    ValueCons(b, n % b, low);
    ValueCons(b, d, was);
    Recompose(n, b);
    Carried(n / b, n % b, b, p, carry, mult, d);
    assert (d * p + Value(b, was)) * mult == (mult * d) * p + Value(b, was) * mult;
  }

  lemma Carried(q: nat, r: nat, b: nat, p: nat, carry: nat, mult: nat, d: nat)
    requires q * b + r == carry + mult * d
    ensures r * p + q * (b * p) == carry * p + (mult * d) * p
  {
    assert (q * b + r) * p == (q * b) * p + r * p;
    assert (q * b) * p == q * (b * p);
    assert (carry + mult * d) * p == carry * p + (mult * d) * p;
  }

  // ---- The size estimates

  lemma EncodeFits(n: nat)
    ensures Pow(256, n) <= Pow(58, n * 138 / 100 + 1)
  {
    assert Pow(256, 8) <= Pow(58, 11) by {
      assert Pow(256, 4) == 0x1_0000_0000;
      assert Pow(58, 5) == 656356768;
      PowAdd(256, 4, 4);
      PowAdd(58, 5, 6);
      assert Pow(58, 6) == 38068692544;
    }
    hide Pow;
    Enough(256, 58, 8, 11, n, n * 138 / 100 + 1);
  }

  lemma DecodeFits(n: nat)
    ensures Pow(58, n) <= Pow(256, n * 733 / 1000 + 1)
  {
    BlockOf71();
    hide Pow;
    Enough(58, 256, 71, 52, n, n * 733 / 1000 + 1);
  }

  /** The two numbers are computed by repeated squaring. */
  lemma BlockOf71()
    ensures Pow(58, 71) <= Pow(256, 52)
  {
    var a8, a16, a32 := 0x7479027ea100, 0x34fde3761da26b26e1410000,
      0xaf820335d9b3d9cf58b911d87035677fb7f528100000000;
    var c13, c26 := 0x100000000000000000000000000, 0x10000000000000000000000000000000000000000000000000000;
    assert Pow(58, 4) == 11316496 && Pow(58, 7) == 2207984167552;
    PowAdd(58, 4, 4);
    assert Pow(58, 8) == a8;
    PowAdd(58, 8, 8);
    assert Pow(58, 16) == a16;
    PowAdd(58, 16, 16);
    assert Pow(58, 32) == a32;
    PowAdd(58, 32, 32);
    PowAdd(58, 64, 7);
    assert Pow(256, 6) == 0x1_0000_0000_0000 && Pow(256, 7) == 0x100_0000_0000_0000;
    PowAdd(256, 6, 7);
    assert Pow(256, 13) == c13;
    PowAdd(256, 13, 13);
    assert Pow(256, 26) == c26;
    PowAdd(256, 26, 26);
  }

  // ---- Encoding

  /** How many leading elements equal x. */
  function Leading(s: seq<nat>, x: nat): (k: nat)
    ensures k <= |s| && (forall i :: 0 <= i < k ==> s[i] == x) && (k < |s| ==> s[k] != x)
  {
    if s == [] || s[0] != x then 0 else 1 + Leading(s[1..], x)
  }

  lemma LeadingIs(s: seq<nat>, x: nat, k: nat)
    requires k <= |s| && (forall i :: 0 <= i < k ==> s[i] == x) && (k < |s| ==> s[k] != x)
    ensures Leading(s, x) == k
  {
  }

  function Repeat(x: nat, k: nat): (s: seq<nat>)
    ensures |s| == k && forall i :: 0 <= i < k ==> s[i] == x
  {
    seq(k, i => x)
  }

  ghost function Chars(ds: seq<nat>): (s: seq<nat>)
    requires AllBelow(58, ds)
    ensures |s| == |ds| && forall i :: 0 <= i < |ds| ==> s[i] == CharOf(ds[i])
  {
    seq(|ds|, i requires 0 <= i < |ds| => CharOf(ds[i]))
  }

  /** A 1 for each leading zero byte, then the digits of the number. */
  ghost function Encoded(v: seq<nat>): seq<nat> {
    Repeat(49, Leading(v, 0)) + Chars(Digits(58, Value(256, v)))
  }

  /** The digits of a buffer without its leading zeros. */
  method Strip(buf: array<nat>, b: nat, length: nat, ghost v: nat) returns (ds: seq<nat>)
    requires b >= 2 && Holds(b, buf[..], length, v)
    ensures ds == Digits(b, v)
  {
    hide Value, Digits;
    var it := buf.Length - length;
    while it != buf.Length && buf[it] == 0
      invariant 0 <= it <= buf.Length && forall j :: 0 <= j < it ==> buf[j] == 0
    {
      it := it + 1;
    }
    ds := buf[it..];
    TailValue(b, buf[..], buf.Length - it);
    assert buf[..][it..] == ds;
    DigitsOfValue(b, ds);
  }

  /** Converts digits of one base, none of them leading zeros, by multiplying and adding. */
  method Convert(ds: seq<nat>, from: nat, b: nat, size: nat) returns (r: seq<nat>)
    requires b >= 2 && from >= 1 && AllBelow(from, ds) && Pow(from, |ds|) <= Pow(b, size)
    ensures r == Digits(b, Value(from, ds))
  {
    hide Value, Pow, Holds, Digits;
    var buf := new nat[size](i => 0);
    var length := 0;
    EmptyHolds(b, buf[..]);
    Nothing(from);
    for k := 0 to |ds|
      invariant Holds(b, buf[..], length, Value(from, ds[..k])) && fresh(buf)
    {
      StaysBelow(from, ds, k);
      length := MulAdd(buf, b, from, ds[k], length, Value(from, ds[..k]));
    }
    assert ds[..|ds|] == ds;
    r := Strip(buf, b, length, Value(from, ds));
  }

  lemma EmptyHolds(b: nat, zeros: seq<nat>)
    requires b >= 2 && forall i :: 0 <= i < |zeros| ==> zeros[i] == 0
    ensures Holds(b, zeros, 0, 0)
  {
    Nothing(b);
    assert zeros + [] == zeros;
    ValueZeros(b, zeros, []);
  }

  lemma StaysBelow(from: nat, ds: seq<nat>, k: nat)
    requires from >= 1 && AllBelow(from, ds) && k < |ds|
    ensures Value(from, ds[..k]) * from + ds[k] == Value(from, ds[..k + 1]) < Pow(from, |ds|)
  {
    hide Value, Pow;
    assert ds[..k + 1] == ds[..k] + [ds[k]];
    ValueSnoc(from, ds[..k], ds[k]);
    ValueBound(from, ds[..k + 1]);
    PowMono(from, k + 1, |ds|);
  }

  method EncodeBase58(v: seq<nat>) returns (str: seq<nat>)
    requires AllBelow(256, v)
    ensures str == Encoded(v)
  {
    hide Value, Pow, Digits, CharOf, DigitOf, Leading;
    var zeroes := 0;
    while zeroes < |v| && v[zeroes] == 0
      invariant zeroes <= |v| && forall i :: 0 <= i < zeroes ==> v[i] == 0
    {
      zeroes := zeroes + 1;
    }
    LeadingIs(v, 0, zeroes);
    var rest := v[zeroes..];
    EncodeFits(|rest|);
    var ds := Convert(rest, 256, 58, |rest| * 138 / 100 + 1);
    assert v == v[..zeroes] + rest;
    ValueZeros(256, v[..zeroes], rest);
    str := Repeat(49, zeroes);
    for i := 0 to |ds|
      invariant str == Repeat(49, zeroes) + Chars(ds)[..i]
    {
      str := str + [CharOf(ds[i])];
      assert Chars(ds)[..i + 1] == Chars(ds)[..i] + [CharOf(ds[i])];
    }
    assert Chars(ds)[..|ds|] == Chars(ds);
  }

  // ---- Decoding

  function LeadingSpaces(s: seq<nat>): (k: nat)
    ensures k <= |s| && (forall i :: 0 <= i < k ==> IsSpace(s[i])) && (k < |s| ==> !IsSpace(s[k]))
  {
    if s == [] || !IsSpace(s[0]) then 0 else 1 + LeadingSpaces(s[1..])
  }

  function LeadingWord(s: seq<nat>): (k: nat)
    ensures k <= |s| && (forall i :: 0 <= i < k ==> !IsSpace(s[i])) && (k < |s| ==> IsSpace(s[k]))
  {
    if s == [] || IsSpace(s[0]) then 0 else 1 + LeadingWord(s[1..])
  }

  ghost predicate ValidChars(s: seq<nat>) {
    forall i :: 0 <= i < |s| ==> DigitOf(s[i]) >= 0
  }

  ghost function DigitsOf(s: seq<nat>): (ds: seq<nat>)
    requires ValidChars(s)
    ensures |ds| == |s| && AllBelow(58, ds) && forall i :: 0 <= i < |s| ==> ds[i] == DigitOf(s[i])
  {
    seq(|s|, i requires 0 <= i < |s| => DigitOf(s[i]))
  }

  /** A zero byte for each leading 1, then the bytes of the number. */
  ghost function WordDecoded(word: seq<nat>): Option<seq<nat>> {
    if ValidChars(word)
    then Some(Repeat(0, Leading(word, 49)) + Digits(256, Value(58, DigitsOf(word))))
    else None
  }

  /** One word, with nothing but spaces around it. */
  ghost function TextDecoded(psz: seq<nat>): Option<seq<nat>> {
    var text := psz[LeadingSpaces(psz)..];
    var k := LeadingWord(text);
    if LeadingSpaces(text[k..]) == |text| - k then WordDecoded(text[..k]) else None
  }

  /** c_str: a string as far as its first zero byte. */
  ghost function BeforeNul(str: seq<nat>): (t: seq<nat>)
    ensures t <= str && 0 !in t && (t != str ==> str[|t|] == 0)
  {
    if str == [] || str[0] == 0 then [] else [str[0]] + BeforeNul(str[1..])
  }

  /** What follows a zero byte is never looked at. */
  ghost function Decoded(str: seq<nat>): Option<seq<nat>> {
    TextDecoded(BeforeNul(str))
  }

  lemma NoNul(s: seq<nat>)
    requires ValidChars(s)
    ensures BeforeNul(s) == s
  {
    assert DigitOf(0) == -1;
  }

  lemma ZerosThenDigits(b: nat, z: nat, n: nat)
    requires b >= 2
    ensures Leading(Repeat(0, z) + Digits(b, n), 0) == z
    ensures Value(b, Repeat(0, z) + Digits(b, n)) == n
  {
    hide Value, Digits;
    LeadingIs(Repeat(0, z) + Digits(b, n), 0, z);
    ValueZeros(b, Repeat(0, z), Digits(b, n));
    ValueOfDigits(b, n);
  }

  /** Digits with a given number of leading zeros are determined by that number and their value. */
  lemma Recovered(b: nat, s: seq<nat>)
    requires b >= 2 && AllBelow(b, s)
    ensures Repeat(0, Leading(s, 0)) + Digits(b, Value(b, s)) == s
  {
    hide Value, Digits;
    var z := Leading(s, 0);
    assert s == Repeat(0, z) + s[z..];
    ValueZeros(b, Repeat(0, z), s[z..]);
    DigitsOfValue(b, s[z..]);
  }

  lemma NoSpaces(s: seq<nat>)
    requires ValidChars(s)
    ensures LeadingSpaces(s) == 0 && LeadingWord(s) == |s| && s[0..] == s && s[..|s|] == s && LeadingSpaces(s[|s|..]) == 0
    ensures BeforeNul(s) == s
  {
    NoNul(s);
    assert forall c: nat {:trigger IsSpace(c)} :: IsSpace(c) ==> DigitOf(c) == -1;
  }

  /** Decoding inverts encoding on every byte string. */
  lemma DecodeEncode(v: seq<nat>)
    requires AllBelow(256, v)
    ensures Decoded(Encoded(v)) == Some(v)
  {
    hide Value, Digits, Leading, CharOf, DigitOf;
    var z, n := Leading(v, 0), Value(256, v);
    var str, ds := Encoded(v), Digits(58, n);
    forall i | 0 <= i < |str|
      ensures DigitOf(str[i]) == (Repeat(0, z) + ds)[i]
    {
      if i < z {
        OneIsZero();
      }
    }
    assert DigitsOf(str) == Repeat(0, z) + ds;
    ZerosThenDigits(58, z, n);
    LeadingOnes(str);
    Recovered(256, v);
    NoSpaces(str);
  }

  lemma OneIsZero()
    ensures DigitOf(49) == 0
  {
  }

  lemma LeadingOnes(s: seq<nat>)
    requires ValidChars(s)
    ensures Leading(s, 49) == Leading(DigitsOf(s), 0)
  {
    LeadingIs(DigitsOf(s), 0, Leading(s, 49));
  }

  /** Encoding inverts decoding on every word of valid characters. */
  lemma EncodeDecode(s: seq<nat>)
    requires ValidChars(s)
    ensures Decoded(s).Some? && Encoded(Decoded(s).value) == s
  {
    hide Value, Digits, Leading, CharOf, DigitOf;
    NoSpaces(s);
    var ds := DigitsOf(s);
    var z, n := Leading(s, 49), Value(58, ds);
    LeadingOnes(s);
    Recovered(58, ds);
    ZerosThenDigits(256, z, n);
    assert Encoded(Decoded(s).value) == Repeat(49, z) + Chars(Digits(58, n));
    forall i | 0 <= i < |s|
      ensures (Repeat(49, z) + Chars(Digits(58, n)))[i] == s[i]
    {
      assert ds[i] == (Repeat(0, z) + Digits(58, n))[i];
      CharOfDigit(s[i]);
    }
  }

  method SkipSpaces(str: seq<nat>) returns (p: nat)
    ensures p == LeadingSpaces(str)
  {
    p := 0;
    while p < |str| && IsSpace(str[p])
      invariant p <= |str| && forall i :: 0 <= i < p ==> IsSpace(str[i])
    {
      p := p + 1;
    }
    SpacesAre(str, p);
  }

  lemma SpacesAre(s: seq<nat>, k: nat)
    requires k <= |s| && (forall i :: 0 <= i < k ==> IsSpace(s[i])) && (k < |s| ==> !IsSpace(s[k]))
    ensures LeadingSpaces(s) == k
  {
  }

  lemma WordIs(s: seq<nat>, k: nat)
    requires k <= |s| && (forall i :: 0 <= i < k ==> !IsSpace(s[i])) && (k < |s| ==> IsSpace(s[k]))
    ensures LeadingWord(s) == k
  {
  }

  method DecodeBase58(str: seq<nat>) returns (r: Option<seq<nat>>)
    ensures r == Decoded(str)
  {
    hide TextDecoded, BeforeNul;
    var n: nat := 0;
    while n < |str| && str[n] != 0
      invariant n <= |str| && 0 !in str[..n]
    {
      n := n + 1;
    }
    assert str[..n] == BeforeNul(str) by { NulAt(str, n); }
    r := DecodeText(str[..n]);
  }

  lemma {:induction false} NulAt(str: seq<nat>, n: nat)
    requires n <= |str| && 0 !in str[..n] && (n < |str| ==> str[n] == 0)
    ensures str[..n] == BeforeNul(str)
  {
    if n > 0 {
      assert str[..n][0] == str[0] && str[1..][..n - 1] == str[..n][1..];
      NulAt(str[1..], n - 1);
    }
  }

  /** The same for a C string, which ends at its zero byte. */
  method DecodeText(psz: seq<nat>) returns (r: Option<seq<nat>>)
    ensures r == TextDecoded(psz)
  {
    hide Value, Pow, Digits, DigitOf, IsSpace, WordDecoded;
    var p := SkipSpaces(psz);
    var text := psz[p..];
    var k;
    r, k := DecodeWord(text);
    if r.Some? {
      var q := SkipSpaces(text[k..]);
      if k + q != |text| {
        r := None;
      }
    }
  }

  /** Decodes the first word of a text. */
  method DecodeWord(text: seq<nat>) returns (r: Option<seq<nat>>, k: nat)
    ensures r == WordDecoded(text[..LeadingWord(text)])
    ensures r.Some? ==> k == LeadingWord(text)
  {
    hide Value, Pow, Digits, DigitOf, IsSpace, Holds;
    var zeroes, length := 0, 0;
    while zeroes < |text| && text[zeroes] == 49
      invariant zeroes <= |text| && forall i :: 0 <= i < zeroes ==> text[i] == 49
    {
      zeroes := zeroes + 1;
    }
    var size := (|text| - zeroes) * 733 / 1000 + 1;
    DecodeFits(|text| - zeroes);
    var buf := new nat[size](i => 0);
    EmptyHolds(256, buf[..]);
    Nothing(58);
    k := zeroes;
    ghost var ds: seq<nat> := [];
    while k < |text| && !IsSpace(text[k])
      invariant zeroes <= k <= |text| && fresh(buf) && forall i :: zeroes <= i < k ==> !IsSpace(text[i])
      invariant |ds| == k - zeroes && AllBelow(58, ds) && forall i :: 0 <= i < |ds| ==> ds[i] == DigitOf(text[zeroes + i])
      invariant Holds(256, buf[..], length, Value(58, ds))
    {
      var carry := DigitOf(text[k]);
      if carry == -1 {
        BadWord(text, k, zeroes);
        return None, k;
      }
      ghost var next := ds + [carry];
      assert next[..|ds|] == ds && next[|ds|] == carry;
      StaysBelow(58, next, |ds|);
      assert next[..|ds| + 1] == next;
      PowMono(58, |next|, |text| - zeroes);
      length := MulAdd(buf, 256, 58, carry, length, Value(58, ds));
      ds := next;
      k := k + 1;
    }
    GoodWord(text, k, zeroes, ds);
    var bytes := Strip(buf, 256, length, Value(58, ds));
    r := Some(Repeat(0, zeroes) + bytes);
  }

  lemma OnesAreWords(text: seq<nat>, zeroes: nat)
    requires zeroes <= |text| && forall i :: 0 <= i < zeroes ==> text[i] == 49
    ensures forall i :: 0 <= i < zeroes ==> !IsSpace(text[i]) && DigitOf(text[i]) == 0
  {
  }

  lemma BadWord(text: seq<nat>, k: nat, zeroes: nat)
    requires zeroes <= k < |text| && (forall i :: 0 <= i < zeroes ==> text[i] == 49)
    requires (forall i :: zeroes <= i <= k ==> !IsSpace(text[i])) && DigitOf(text[k]) == -1
    ensures WordDecoded(text[..LeadingWord(text)]) == None
  {
    hide DigitOf, IsSpace;
    OnesAreWords(text, zeroes);
    var l := LeadingWord(text);
    assert l > k;
    assert text[..l][k] == text[k];
  }

  lemma GoodWord(text: seq<nat>, k: nat, zeroes: nat, ds: seq<nat>)
    requires zeroes <= k <= |text| && (forall i :: 0 <= i < zeroes ==> text[i] == 49)
    requires (k < |text| ==> IsSpace(text[k])) && forall i :: zeroes <= i < k ==> !IsSpace(text[i])
    requires zeroes < |text| ==> text[zeroes] != 49
    requires |ds| == k - zeroes && AllBelow(58, ds) && forall i :: 0 <= i < |ds| ==> ds[i] == DigitOf(text[zeroes + i])
    ensures k == LeadingWord(text)
    ensures WordDecoded(text[..k]) == Some(Repeat(0, zeroes) + Digits(256, Value(58, ds)))
  {
    hide DigitOf, IsSpace, Value, Digits;
    OnesAreWords(text, zeroes);
    WordIs(text, k);
    var word := text[..k];
    LeadingIs(word, 49, zeroes);
    assert ValidChars(word) by {
      forall i | 0 <= i < k
        ensures DigitOf(word[i]) >= 0
      {
        assert i >= zeroes ==> ds[i - zeroes] == DigitOf(text[i]);
      }
    }
    assert DigitsOf(word) == Repeat(0, zeroes) + ds;
    ValueZeros(58, Repeat(0, zeroes), ds);
  }
}
