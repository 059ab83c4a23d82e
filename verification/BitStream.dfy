/** Bit streams over bytes (src/streams.h): most significant bit first, padded with zeros to whole bytes. */
module BitStream {
  import opened Numbers
  import opened Options

  // ---- Numbers as bits

  /** The n lowest bits of x, most significant first. */
  ghost function BitsOf(x: nat, n: nat): (s: seq<bool>)
    ensures |s| == n
    decreases n
  {
    if n == 0 then [] else BitsOf(x / 2, n - 1) + [x % 2 == 1]
  }

  ghost function NumberOf(s: seq<bool>): nat {
    if s == [] then 0 else 2 * NumberOf(s[..|s| - 1]) + if s[|s| - 1] then 1 else 0
  }

  /** The bit at a position is that of the power of two of its distance from the end. */
  lemma {:induction false} BitAt(x: nat, n: nat, i: nat)
    requires i < n
    ensures BitsOf(x, n)[i] <==> (x / Pow2(n - 1 - i)) % 2 == 1
    decreases n
  {
    if i < n - 1 {
      BitAt(x / 2, n - 1, i);
      HalfFirst(x, Pow2(n - 2 - i));
    }
  }

  lemma HalfFirst(x: nat, d: nat)
    requires d >= 1
    ensures (x / 2) / d == x / (2 * d)
  {
    var h := x / 2;
    var q, r := h / d, h % d;
    Euclid(h, d);
    assert x == 2 * d * q + (2 * r + x % 2) by { assert 2 * (d * q) == 2 * d * q; }
    DivModUnique(x, 2 * d, q, 2 * r + x % 2);
  }

  lemma {:induction false} NumberOfBits(x: nat, n: nat)
    requires x < Pow2(n)
    ensures NumberOf(BitsOf(x, n)) == x
    decreases n
  {
    if n > 0 {
      NumberOfBits(x / 2, n - 1);
      assert BitsOf(x, n)[..n - 1] == BitsOf(x / 2, n - 1);
    }
  }

  lemma {:induction false} BitsOfNumber(s: seq<bool>)
    ensures NumberOf(s) < Pow2(|s|) && BitsOf(NumberOf(s), |s|) == s
  {
    if s != [] {
      BitsOfNumber(s[..|s| - 1]);
    }
  }

  /** High bits, then low bits. */
  lemma {:induction false} BitsConcat(hi: nat, lo: nat, a: nat, b: nat)
    requires lo < Pow2(b)
    ensures BitsOf(hi * Pow2(b) + lo, a + b) == BitsOf(hi, a) + BitsOf(lo, b)
    decreases b
  {
    if b > 0 {
      BitsConcat(hi, lo / 2, a, b - 1);
      HalfSum(hi, Pow2(b - 1), lo);
    }
  }

  lemma HalfSum(hi: nat, p: nat, lo: nat)
    ensures (hi * (2 * p) + lo) / 2 == hi * p + lo / 2 && (hi * (2 * p) + lo) % 2 == lo % 2
  {
    assert hi * (2 * p) == 2 * (hi * p);
  }

  lemma {:induction false} BitsLow(x: nat, y: nat, n: nat)
    ensures BitsOf(x * Pow2(n) + y, n) == BitsOf(y, n)
    decreases n
  {
    if n > 0 {
      HalfSum(x, Pow2(n - 1), y);
      BitsLow(x, y / 2, n - 1);
    }
  }

  lemma NumberSnoc(s: seq<bool>, b: bool)
    ensures NumberOf(s + [b]) == 2 * NumberOf(s) + if b then 1 else 0
  {
    assert (s + [b])[..|s|] == s;
  }

  lemma {:induction false} NumberConcat(s: seq<bool>, t: seq<bool>)
    ensures NumberOf(s + t) == NumberOf(s) * Pow2(|t|) + NumberOf(t)
    decreases |t|
  {
    if t == [] {
      assert s + t == s;
    } else {
      var n := |t| - 1;
      assert Pow2(n + 1) == 2 * Pow2(n);
      hide NumberOf, Pow2;
      NumberConcat(s, t[..n]);
      NumberSnoc(s + t[..n], t[n]);
      NumberSnoc(t[..n], t[n]);
      assert s + t == s + t[..n] + [t[n]] && t == t[..n] + [t[n]];
      Doubled(NumberOf(s), Pow2(n), NumberOf(t[..n]));
    }
  }

  lemma Doubled(x: nat, p: nat, y: nat)
    ensures 2 * (x * p + y) == x * (2 * p) + 2 * y
  {
    Regroup(x, 2, p);
    MulSwap(x, 2, p);
  }

  /** All bits of a sequence of bytes. */
  ghost function ByteBits(bytes: seq<nat>): (s: seq<bool>)
    ensures |s| == 8 * |bytes|
  {
    if bytes == [] then [] else ByteBits(bytes[..|bytes| - 1]) + BitsOf(bytes[|bytes| - 1], 8)
  }

  lemma ByteBitsAdd(bytes: seq<nat>, b: nat)
    ensures ByteBits(bytes + [b]) == ByteBits(bytes) + BitsOf(b, 8)
  {
    assert (bytes + [b])[..|bytes|] == bytes;
  }

  // ---- Writing

  /** The next take bits out of the n lowest bits of data. */
  ghost function Chunk(data: nat, n: nat, take: nat): nat
    requires take <= n
  {
    Quot(data % Pow2(n), Pow2(n - take))
  }

  lemma ChunkBits(data: nat, n: nat, take: nat)
    requires take <= n
    ensures Chunk(data, n, take) < Pow2(take)
    ensures BitsOf(data, n) == BitsOf(Chunk(data, n, take), take) + BitsOf(data, n - take)
  {
    hide Pow2, BitsOf;
    var p, r, t := Pow2(n), Pow2(n - take), Pow2(take);
    Pow2Add(take, n - take);
    ChunkParts(data, p, r, t);
    var low := data % p;
    var hi, lo := low / r, low % r;
    BitsLow(data / p, low, n);
    BitsConcat(hi, lo, take, n - take);
    BitsLow((data / p) * t + hi, lo, n - take);
  }

  lemma ChunkParts(data: nat, p: nat, r: nat, t: nat)
    requires p == t * r && r > 0 && t > 0
    ensures
      var low := data % p;
      var hi, lo := low / r, low % r;
      && data == (data / p) * p + low && low == hi * r + lo && 0 <= lo < r && 0 <= hi < t && data / p >= 0
      && data == ((data / p) * t + hi) * r + lo
  {
    Euclid(data, p);
    var q, low := data / p, data % p;
    Euclid(low, r);
    var hi, lo := low / r, low % r;
    if hi >= t {
      MulMono(t, hi, r);
    }
    MulSum(q * t, hi, r);
    Regroup(q, t, r);
  }

  /** The shifts of Write cut out the next bits and align them behind those already in the buffer. */
  lemma ShiftedChunk(data: nat, n: nat, offset: nat, take: nat)
    requires 1 <= n <= 64 && offset < 8 && take == Min(8 - offset, n)
    ensures ((data * Pow2(64 - n)) % UINT64) / Pow2(56 + offset) == Chunk(data, n, take) * Pow2(8 - offset - take)
  {
    hide Pow2;
    Pow2Of64();
    var p, s, low := Pow2(n), Pow2(64 - n), data % Pow2(n);
    Pow2Add(n, 64 - n);
    LeftAligned(data, p, s);
    if take == n {
      Pow2Add(56 + offset, 8 - offset - n);
      assert Pow2(n - take) == 1 by { Pow2Values(); }
      Regroup(low, Pow2(8 - offset - n), Pow2(56 + offset));
      DivModUnique(low * s, Pow2(56 + offset), low * Pow2(8 - offset - n), 0);
    } else {
      var r := Pow2(n - take);
      Pow2Add(n - take, 64 - n);
      assert Pow2(8 - offset - take) == 1 by { Pow2Values(); }
      ScaledQuotient(low, r, s);
    }
  }

  lemma ScaledQuotient(x: nat, r: nat, s: nat)
    requires r > 0 && s > 0
    ensures (x * s) / (r * s) == x / r
  {
    Euclid(x, r);
    var q, t := x / r, x % r;
    MulSum(r * q, t, s);
    MulSwap(r, q, s);
    MulLess(t, r, s);
    DivModUnique(x * s, r * s, q, t * s);
  }

  /** Whole bytes, and a buffer with offset bits in its high end. */
  ghost predicate Sound(out: seq<nat>, buffer: nat, offset: nat) {
    && offset < 8 && buffer < 256 && buffer % Pow2(8 - offset) == 0
    && forall i :: 0 <= i < |out| ==> out[i] < 256
  }

  /** All bits written so far. */
  ghost function Contents(out: seq<nat>, buffer: nat, offset: nat): seq<bool> {
    ByteBits(out) + if offset < 8 then BitsOf(Quot(buffer, Pow2(8 - offset)), offset) else []
  }

  lemma FreshBuffer(out: seq<nat>)
    requires forall i :: 0 <= i < |out| ==> out[i] < 256
    ensures Sound(out, 0, 0) && Contents(out, 0, 0) == ByteBits(out)
  {
    ZeroQuotient(Pow2(8));
  }

  lemma FlushContents(out: seq<nat>, buffer: nat, offset: nat)
    requires Sound(out, buffer, offset)
    ensures offset == 0 ==> Contents(out, buffer, offset) == Padded(Contents(out, buffer, offset))
    ensures offset != 0 ==> Sound(out + [buffer], 0, 0)
    ensures offset != 0 ==> Contents(out + [buffer], 0, 0) == Padded(Contents(out, buffer, offset))
  {
    hide Pow2, BitsOf, Padded, Zeros;
    var rest := BitsOf(Quot(buffer, Pow2(8 - offset)), offset);
    PaddedEnd(ByteBits(out), rest);
    if offset != 0 {
      PaddingBits(buffer, offset);
      ByteBitsAdd(out, buffer);
      FreshBuffer(out + [buffer]);
    }
  }

  lemma PutContents(out: seq<nat>, buffer: nat, offset: nat, chunk: nat, take: nat)
    requires Sound(out, buffer, offset) && 1 <= take <= 8 - offset && chunk < Pow2(take)
    ensures
      var now := Or(buffer, chunk * Pow2(8 - offset - take));
      var all := Contents(out, buffer, offset) + BitsOf(chunk, take);
      if offset + take < 8 then Sound(out, now, offset + take) && Contents(out, now, offset + take) == all
      else Sound(out + [now], 0, 0) && Contents(out + [now], 0, 0) == all
  {
    hide Pow2, BitsOf, Or;
    BufferStep(buffer, offset, chunk, take);
    if offset + take == 8 {
      var now := Or(buffer, chunk * Pow2(8 - offset - take));
      Pow2Values();
      ByteBitsAdd(out, now);
      FreshBuffer(out + [now]);
    }
  }

  class BitStreamWriter {
    var out: seq<nat>
    var buffer: nat
    var offset: nat

    ghost predicate Valid()
      reads this
    {
      Sound(out, buffer, offset)
    }

    ghost function Bits(): seq<bool>
      reads this
    {
      Contents(out, buffer, offset)
    }

    constructor (out: seq<nat>)
      requires forall i :: 0 <= i < |out| ==> out[i] < 256
      ensures Valid() && Bits() == ByteBits(out) && this.out == out
    {
      this.out, buffer, offset := out, 0, 0;
      FreshBuffer(out);
    }

    /** Writes out what is left, padded with zeros to a whole byte. */
    method Flush()
      requires Valid()
      modifies this
      ensures Valid() && offset == 0 && Bits() == Padded(old(Bits()))
    {
      hide Sound, Contents, Padded;
      FlushContents(out, buffer, offset);
      if offset == 0 {
        return;
      }
      out := out + [buffer];
      buffer, offset := 0, 0;
    }

    /** Writes the nbits lowest bits of data; the source throws on a count that is out of range. */
    method Write(data: nat, nbits: nat) returns (ok: bool)
      requires Valid() && data < UINT64
      modifies this
      ensures Valid() && (ok <==> nbits <= 64)
      ensures Bits() == if ok then old(Bits()) + BitsOf(data, nbits) else old(Bits())
    {
      hide Pow2, BitsOf, Or, Sound, Contents, Chunk;
      if nbits > 64 {
        return false;
      }
      var n: nat := nbits;
      ghost var done: seq<bool> := [];
      while n > 0
        invariant Valid() && n <= nbits
        invariant Bits() == old(Bits()) + done && BitsOf(data, nbits) == done + BitsOf(data, n)
        decreases n
      {
        SoundOffset(out, buffer, offset);
        var take: nat := Min(8 - offset, n);
        ghost var chunk := Chunk(data, n, take);
        ChunkBits(data, n, take);
        ShiftedChunk(data, n, offset, take);
        PutContents(out, buffer, offset, chunk, take);
        buffer := Or(buffer, Quot((data * Pow2(64 - n)) % UINT64, Pow2(56 + offset)));
        offset := offset + take;
        n := n - take;
        if offset == 8 {
          out := out + [buffer];
          buffer, offset := 0, 0;
        }
        Onward(old(Bits()), done, BitsOf(chunk, take), BitsOf(data, n));
        done := done + BitsOf(chunk, take);
      }
      NoBits(data);
      return true;
    }
  }

  lemma SoundOffset(out: seq<nat>, buffer: nat, offset: nat)
    requires Sound(out, buffer, offset)
    ensures offset < 8
  {
  }

  lemma Onward(a: seq<bool>, b: seq<bool>, c: seq<bool>, d: seq<bool>)
    ensures a + b + c == a + (b + c) && b + (c + d) == b + c + d
  {
  }

  lemma NoBits(x: nat)
    ensures BitsOf(x, 0) == []
  {
  }

  lemma ZeroQuotient(p: nat)
    requires p > 0
    ensures 0 / p == 0 && 0 % p == 0
  {
  }

  lemma BufferStep(buffer: nat, offset: nat, chunk: nat, take: nat)
    requires offset < 8 && buffer < 256 && buffer % Pow2(8 - offset) == 0
    requires 1 <= take <= 8 - offset && chunk < Pow2(take)
    ensures
      var e := Pow2(8 - offset - take);
      var now := buffer + chunk * e;
      && Or(buffer, chunk * e) == now < 256 && now % e == 0
      && BitsOf(Quot(now, e), offset + take) == BitsOf(Quot(buffer, Pow2(8 - offset)), offset) + BitsOf(chunk, take)
  {
    hide Pow2, BitsOf, Or;
    var d, e, t := Pow2(8 - offset), Pow2(8 - offset - take), Pow2(take);
    Pow2Add(take, 8 - offset - take);
    AlignedSum(buffer, chunk, d, e, t);
    OrDisjoint(chunk * e, buffer, 8 - offset);
    BitsConcat(buffer / d, chunk, offset, take);
    BelowByte(buffer, offset, chunk * e);
  }

  lemma AlignedSum(buffer: nat, chunk: nat, d: nat, e: nat, t: nat)
    requires d == t * e && e > 0 && chunk < t && buffer % d == 0
    ensures chunk * e < d && buffer / d >= 0
    ensures (buffer + chunk * e) % e == 0 && (buffer + chunk * e) / e == (buffer / d) * t + chunk
  {
    MulLess(chunk, t, e);
    Euclid(buffer, d);
    var x := buffer / d;
    MulSum(x * t, chunk, e);
    Regroup(x, t, e);
    DivModUnique(buffer + chunk * e, e, x * t + chunk, 0);
  }

  lemma BelowByte(buffer: nat, offset: nat, more: nat)
    requires offset < 8 && buffer < 256 && buffer % Pow2(8 - offset) == 0 && more < Pow2(8 - offset)
    ensures buffer + more < 256
  {
    hide Pow2;
    var d, t := Pow2(8 - offset), Pow2(offset);
    Pow2Add(offset, 8 - offset);
    assert Pow2(8) == 256 by { Pow2Values(); }
    Euclid(buffer, d);
    var x := buffer / d;
    if x >= t {
      MulMono(t, x, d);
    } else {
      MulLess(x, t, d);
    }
  }

  ghost function Zeros(n: nat): (s: seq<bool>)
    ensures |s| == n && forall i :: 0 <= i < n ==> !s[i]
  {
    seq(n, i => false)
  }

  /** Filled up with zeros to a multiple of eight. */
  ghost function Padded(s: seq<bool>): (t: seq<bool>)
    ensures |t| == (|s| + 7) / 8 * 8 && s <= t && forall i :: |s| <= i < |t| ==> !t[i]
  {
    s + Zeros((8 - |s| % 8) % 8)
  }

  lemma PaddedEnd(a: seq<bool>, s: seq<bool>)
    requires |a| % 8 == 0 && |s| < 8
    ensures s != [] ==> Padded(a + s) == a + (s + Zeros(8 - |s|))
    ensures s == [] ==> Padded(a + s) == a
  {
    assert |a + s| % 8 == |s|;
  }

  lemma {:induction false} ZeroBits(n: nat)
    ensures BitsOf(0, n) == Zeros(n)
  {
    if n > 0 {
      ZeroBits(n - 1);
    }
  }

  lemma PaddingBits(buffer: nat, offset: nat)
    requires 0 < offset < 8 && buffer % Pow2(8 - offset) == 0
    ensures BitsOf(buffer, 8) == BitsOf(Quot(buffer, Pow2(8 - offset)), offset) + Zeros(8 - offset)
  {
    hide Pow2, BitsOf;
    var d := Pow2(8 - offset);
    Euclid(buffer, d);
    BitsConcat(buffer / d, 0, offset, 8 - offset);
    ZeroBits(8 - offset);
  }

  // ---- Reading

  lemma {:induction false} ByteAt(bytes: seq<nat>, k: nat)
    requires k < |bytes|
    ensures ByteBits(bytes)[8 * k..8 * k + 8] == BitsOf(bytes[k], 8)
  {
    hide BitsOf;
    var n := |bytes| - 1;
    var rest := ByteBits(bytes[..n]);
    assert ByteBits(bytes) == rest + BitsOf(bytes[n], 8);
    if k < n {
      ByteAt(bytes[..n], k);
      assert ByteBits(bytes)[8 * k..8 * k + 8] == rest[8 * k..8 * k + 8];
    }
  }

  /** The shifts of Read cut out the next bits of the buffer. */
  lemma ReadChunk(buffer: nat, offset: nat, take: nat)
    requires buffer < 256 && 1 <= take && offset + take <= 8
    ensures Quot((buffer * Pow2(offset)) % 256, Pow2(8 - take)) == Chunk(buffer, 8 - offset, take) < Pow2(take)
    ensures BitsOf(buffer, 8)[offset..offset + take] == BitsOf(Chunk(buffer, 8 - offset, take), take)
  {
    hide Pow2, BitsOf, Chunk;
    ChunkBits(buffer, 8, offset);
    ChunkBits(buffer, 8 - offset, take);
    ReadShift(buffer, offset, take);
  }

  lemma ReadShift(buffer: nat, offset: nat, take: nat)
    requires buffer < 256 && 1 <= take && offset + take <= 8
    ensures Quot((buffer * Pow2(offset)) % 256, Pow2(8 - take)) == Chunk(buffer, 8 - offset, take)
  {
    hide Pow2;
    var n := 8 - offset;
    var p, s, r := Pow2(n), Pow2(offset), Pow2(n - take);
    Pow2Add(n, offset);
    Pow2Values();
    Pow2Add(n - take, offset);
    LeftAligned(buffer, p, s);
    ScaledQuotient(buffer % p, r, s);
  }

  lemma LeftAligned(x: nat, p: nat, s: nat)
    requires p > 0 && s > 0
    ensures (x * s) % (p * s) == (x % p) * s
  {
    Euclid(x, p);
    var q, low := x / p, x % p;
    MulSum(p * q, low, s);
    MulSwap(p, q, s);
    MulLess(low, p, s);
    DivModUnique(x * s, p * s, q, low * s);
  }

  class BitStreamReader {
    const bytes: seq<nat>
    var pos: nat
    var buffer: nat
    var offset: nat

    ghost predicate Valid()
      reads this
    {
      && (forall i :: 0 <= i < |bytes| ==> bytes[i] < 256)
      && pos <= |bytes| && 1 <= offset <= 8 && (offset < 8 ==> pos >= 1 && buffer == bytes[pos - 1])
    }

    /** How many bits of the stream have been used. */
    ghost function Used(): (u: int)
      reads this
      ensures Valid() ==> 0 <= u <= 8 * |bytes|
    {
      8 * pos - 8 + offset
    }

    constructor (bytes: seq<nat>)
      requires forall i :: 0 <= i < |bytes| ==> bytes[i] < 256
      ensures Valid() && this.bytes == bytes && Used() == 0
    {
      this.bytes := bytes;
      pos, buffer, offset := 0, 0, 8;
    }

    /** No byte is left unread. */
    predicate Empty()
      reads this
    {
      pos == |bytes|
    }

    /** Reads nbits bits as a number; the source throws past the end and on a count that is out of range. */
    method Read(nbits: nat) returns (r: Option<nat>)
      requires Valid()
      modifies this
      ensures Valid()
      ensures r.Some? <==> nbits <= 64 && old(Used()) + nbits <= 8 * |bytes|
      ensures r.Some? ==> Used() == old(Used()) + nbits
      ensures r.Some? ==> r.value == NumberOf(ByteBits(bytes)[old(Used())..old(Used()) + nbits])
    {
      hide Pow2, BitsOf, Or, ByteBits, NumberOf, Chunk;
      if nbits > 64 {
        return None;
      }
      ghost var all, from := ByteBits(bytes), Used();
      var data: nat, n: nat := 0, nbits;
      NoNumber();
      assert all[from..from] == [];
      while n > 0
        invariant Valid() && n <= nbits && Used() == from + (nbits - n) <= 8 * |bytes|
        invariant data == NumberOf(all[from..Used()])
        decreases n
      {
        if offset == 8 {
          if pos == |bytes| {
            return None;
          }
          buffer := bytes[pos];
          pos := pos + 1;
          offset := 0;
        }
        var take: nat := Min(8 - offset, n);
        ReadChunk(buffer, offset, take);
        ReadStep(bytes, pos - 1, offset, take, from, nbits - n, data);
        data := Or((data * Pow2(take)) % UINT64, Quot((buffer * Pow2(offset)) % 256, Pow2(8 - take)));
        offset := offset + take;
        n := n - take;
      }
      return Some(data);
    }
  }

  lemma NoNumber()
    ensures NumberOf([]) == 0
  {
  }

  lemma SliceOfSlice(s: seq<bool>, a: nat, b: nat, i: nat, j: nat)
    requires a <= b <= |s| && i <= j <= b - a
    ensures s[a..b][i..j] == s[a + i..a + j]
  {
    forall k | 0 <= k < j - i
      ensures s[a..b][i..j][k] == s[a + i..a + j][k]
    {
      assert s[a..b][i + k] == s[a + i + k];
    }
  }

  lemma ReadStep(bytes: seq<nat>, k: nat, offset: nat, take: nat, from: nat, got: nat, data: nat)
    requires k < |bytes| && bytes[k] < 256 && 1 <= take && offset + take <= 8
    requires from + got == 8 * k + offset && got + take <= 64
    requires data == NumberOf(ByteBits(bytes)[from..from + got])
    ensures
      var chunk := Chunk(bytes[k], 8 - offset, take);
      Or((data * Pow2(take)) % UINT64, chunk) == NumberOf(ByteBits(bytes)[from..from + got + take])
  {
    hide Pow2, BitsOf, Or, ByteBits, NumberOf, Chunk;
    var all, at := ByteBits(bytes), from + got;
    var chunk := Chunk(bytes[k], 8 - offset, take);
    ByteAt(bytes, k);
    ReadChunk(bytes[k], offset, take);
    SliceOfSlice(all, 8 * k, 8 * k + 8, offset, offset + take);
    NumberOfBits(chunk, take);
    NumberConcat(all[from..at], all[at..at + take]);
    assert all[from..at] + all[at..at + take] == all[from..at + take];
    BitsOfNumber(all[from..at]);
    ShiftIn(data, got, chunk, take);
  }

  lemma ShiftIn(data: nat, got: nat, chunk: nat, take: nat)
    requires data < Pow2(got) && got + take <= 64 && chunk < Pow2(take)
    ensures Or((data * Pow2(take)) % UINT64, chunk) == data * Pow2(take) + chunk
  {
    hide Pow2, Or;
    Pow2Of64();
    NoWrap(data, got, take);
    DivModUnique(data * Pow2(take), Pow2(take), data, 0);
    OrDisjoint(chunk, data * Pow2(take), take);
  }

  lemma NoWrap(data: nat, got: nat, take: nat)
    requires data < Pow2(got) && got + take <= 64
    ensures (data * Pow2(take)) % Pow2(64) == data * Pow2(take)
  {
    hide Pow2;
    var p := data * Pow2(take);
    Pow2Add(got, take);
    MulLess(data, Pow2(got), Pow2(take));
    Pow2Mono(got + take, 64);
    DivModUnique(p, Pow2(64), 0, p);
  }
}
