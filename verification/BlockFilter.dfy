/** Golomb-coded sets (src/blockfilter.cpp): building a filter, reading one, and matching against it. */
module BlockFilter {
  import opened BitStream
  import opened GolombRice
  import opened Numbers
  import opened Options
  import opened Slices

  type Element = nat

  /** P, M and the keyed 64-bit hash. */
  datatype Params = Params(p: nat, m: nat, hash: Element -> nat)

  ghost predicate GoodParams(params: Params) {
    params.p < 64 && params.m < UINT32 && forall e :: params.hash(e) < UINT64
  }

  /** A filter: the number of elements, the range and the coded bytes. */
  datatype Filter = Filter(params: Params, n: nat, f: nat, encoded: seq<nat>)

  // ---- Hashing into a range

  lemma SplitWord(x: nat)
    requires x < UINT64
    ensures x == (x / UINT32) * UINT32 + x % UINT32 && 0 <= x / UINT32 < UINT32
  {
  }

  lemma WordProduct(a: nat, b: nat)
    requires a < UINT32 && b < UINT32
    ensures a * b <= (UINT32 - 1) * (UINT32 - 1)
  {
    MulMono(a, UINT32 - 1, b);
  }

  /** The high half of the 128-bit product, computed from 32-bit halves without overflow. */
  method MapIntoRange(x: nat, n: nat) returns (r: nat)
    requires x < UINT64 && n < UINT64
    ensures r == (x * n) / UINT64
  {
    SplitWord(x);
    SplitWord(n);
    var xHi: nat, xLo := x / UINT32, x % UINT32;
    var nHi: nat, nLo := n / UINT32, n % UINT32;
    WordProduct(xHi, nHi);
    WordProduct(xHi, nLo);
    WordProduct(xLo, nHi);
    WordProduct(xLo, nLo);
    var ac: nat, ad: nat, bc: nat, bd: nat := xHi * nHi, xHi * nLo, xLo * nHi, xLo * nLo;
    assert ac < UINT64 && ad < UINT64 && bc < UINT64 && bd < UINT64;
    var mid34 := bd / UINT32 + bc % UINT32 + ad % UINT32;
    assert mid34 < UINT64;
    r := ac + bc / UINT32 + ad / UINT32 + mid34 / UINT32;
    Schoolbook(xHi, xLo, nHi, nLo);
    HighHalf(ac, ad, bc, bd);
  }

  lemma Schoolbook(a: nat, b: nat, c: nat, d: nat)
    ensures (a * UINT32 + b) * (c * UINT32 + d) == (a * c) * UINT64 + (a * d + b * c) * UINT32 + b * d
  {
    MulSum(a * UINT32, b, c * UINT32 + d);
    assert (a * UINT32) * (c * UINT32 + d) == (a * c) * UINT64 + (a * d) * UINT32;
    assert b * (c * UINT32 + d) == (b * c) * UINT32 + b * d;
  }

  lemma HighHalf(ac: nat, ad: nat, bc: nat, bd: nat)
    ensures (ac * UINT64 + (ad + bc) * UINT32 + bd) / UINT64 ==
            ac + bc / UINT32 + ad / UINT32 + (bd / UINT32 + bc % UINT32 + ad % UINT32) / UINT32
  {
    var mid := bd / UINT32 + bc % UINT32 + ad % UINT32;
    var q := ac + bc / UINT32 + ad / UINT32 + mid / UINT32;
    var r := (mid % UINT32) * UINT32 + bd % UINT32;
    DivModUnique(ac * UINT64 + (ad + bc) * UINT32 + bd, UINT64, q, r);
  }

  /** The value an element is stored as. */
  ghost function Hashed(params: Params, f: nat, e: Element): nat {
    (params.hash(e) * f) / UINT64
  }

  lemma HashedBelow(params: Params, f: nat, e: Element)
    requires GoodParams(params) && f < UINT64
    ensures 0 <= Hashed(params, f, e) < UINT64
  {
    MulLess(params.hash(e), UINT64, f);
  }

  ghost function HashedAll(params: Params, f: nat, es: seq<Element>): (s: seq<nat>)
    ensures |s| == |es| && forall i :: 0 <= i < |es| ==> s[i] == Hashed(params, f, es[i])
  {
    seq(|es|, i requires 0 <= i < |es| => Hashed(params, f, es[i]))
  }

  ghost predicate Ascending(s: seq<nat>) {
    forall i, j :: 0 <= i < j < |s| ==> s[i] <= s[j]
  }

  ghost predicate SixtyFour(s: seq<nat>) {
    forall i :: 0 <= i < |s| ==> s[i] < UINT64
  }

  method InsertSorted(s: seq<nat>, x: nat) returns (t: seq<nat>)
    requires Ascending(s)
    ensures Ascending(t) && multiset(t) == multiset(s) + multiset{x}
  {
    var i: nat := |s|;
    while i > 0 && s[i - 1] > x
      invariant i <= |s| && forall j :: i <= j < |s| ==> s[j] > x
    {
      i := i - 1;
    }
    t := s[..i] + [x] + s[i..];
    Inserted(s, i, x, t);
  }

  lemma Inserted(s: seq<nat>, i: nat, x: nat, t: seq<nat>)
    requires Ascending(s) && i <= |s| && t == s[..i] + [x] + s[i..]
    requires (i > 0 ==> s[i - 1] <= x) && (forall j :: i <= j < |s| ==> s[j] > x)
    ensures Ascending(t) && multiset(t) == multiset(s) + multiset{x}
  {
    hide Ascending;
    AscendingParts(s, i);
    Joined(s[..i], [x]);
    Joined(s[..i] + [x], s[i..]);
    assert s == s[..i] + s[i..];
  }

  lemma AscendingParts(s: seq<nat>, i: nat)
    requires Ascending(s) && i <= |s|
    ensures Ascending(s[..i]) && Ascending(s[i..]) && (i > 0 ==> forall j :: 0 <= j < i ==> s[j] <= s[i - 1])
  {
  }

  lemma Joined(a: seq<nat>, b: seq<nat>)
    requires Ascending(a) && (Ascending(b) || |b| == 1)
    requires forall j, k :: 0 <= j < |a| && 0 <= k < |b| ==> a[j] <= b[k]
    ensures Ascending(a + b)
  {
  }

  /** The hashed elements in ascending order. */
  method BuildHashedSet(params: Params, f: nat, es: seq<Element>) returns (s: seq<nat>)
    requires GoodParams(params) && f < UINT64
    ensures Ascending(s) && SixtyFour(s) && multiset(s) == multiset(HashedAll(params, f, es))
  {
    hide Ascending;
    s := [];
    assert Ascending(s) by { Nothing(); }
    for i := 0 to |es|
      invariant Ascending(s) && multiset(s) == multiset(HashedAll(params, f, es)[..i])
    {
      var h := MapIntoRange(params.hash(es[i]), f);
      s := InsertSorted(s, h);
      assert HashedAll(params, f, es)[..i + 1] == HashedAll(params, f, es)[..i] + [h];
    }
    assert HashedAll(params, f, es)[..|es|] == HashedAll(params, f, es);
    forall i | 0 <= i < |s|
      ensures s[i] < UINT64
    {
      assert s[i] in multiset(HashedAll(params, f, es));
      var j :| 0 <= j < |es| && s[i] == HashedAll(params, f, es)[j];
      HashedBelow(params, f, es[j]);
    }
  }

  lemma Nothing()
    ensures Ascending([])
  {
  }

  // ---- The coded list

  ghost function Delta(vals: seq<nat>, i: nat): nat
    requires i < |vals|
  {
    var last := if i == 0 then 0 else vals[i - 1];
    if vals[i] >= last then vals[i] - last else 0
  }

  /** Each value as its difference from the one before. */
  ghost function Coded(p: nat, vals: seq<nat>): seq<bool> {
    if vals == [] then [] else Coded(p, vals[..|vals| - 1]) + Golomb(p, Delta(vals, |vals| - 1))
  }

  lemma CodedNext(p: nat, vals: seq<nat>, i: nat)
    requires i < |vals|
    ensures Coded(p, vals[..i + 1]) == Coded(p, vals[..i]) + Golomb(p, Delta(vals, i))
  {
    hide Golomb;
    assert vals[..i + 1][..i] == vals[..i];
  }

  lemma {:induction false} CodedPrefix(p: nat, vals: seq<nat>, i: nat)
    requires i <= |vals|
    ensures Coded(p, vals[..i]) <= Coded(p, vals)
    decreases |vals| - i
  {
    hide Golomb, Coded;
    if i == |vals| {
      assert vals[..i] == vals;
    } else {
      CodedPrefix(p, vals, i + 1);
      CodedNext(p, vals, i);
    }
  }

  /** Decoded values, and where their code ends. */
  datatype Listing = Listing(vals: seq<nat>, end: nat)

  ghost function Last(vals: seq<nat>): nat {
    if vals == [] then 0 else vals[|vals| - 1]
  }

  /** The list with one more difference read. */
  ghost function Extended(bits: seq<bool>, p: nat, l: Listing): Option<Listing> {
    if l.end > |bits| then None
    else match DecodeAt(bits, l.end, p)
         case None => None
         case Some(d) => Some(Listing(l.vals + [(Last(l.vals) + d.value) % UINT64], d.end))
  }

  /** The values coded at the start of a bit string. */
  ghost function Values(bits: seq<bool>, p: nat, n: nat): Option<Listing>
    decreases n
  {
    if n == 0 then Some(Listing([], 0))
    else match Values(bits, p, n - 1)
         case None => None
         case Some(l) => Extended(bits, p, l)
  }

  /** A coded list decodes to itself, whatever follows it. */
  lemma {:induction false} CodedDecodes(bits: seq<bool>, p: nat, vals: seq<nat>, i: nat)
    requires p < 64 && Ascending(vals) && SixtyFour(vals) && Coded(p, vals) <= bits && i <= |vals|
    ensures Values(bits, p, i) == Some(Listing(vals[..i], |Coded(p, vals[..i])|))
    decreases i
  {
    hide Coded, Extended, Ascending, SixtyFour, Values;
    if i == 0 {
      CodedNone(p, vals);
      ValuesNone(bits, p);
    } else {
      CodedDecodes(bits, p, vals, i - 1);
      CodedStep(bits, p, vals, i - 1);
      ValuesStep(bits, p, i - 1);
    }
  }

  lemma ValuesNone(bits: seq<bool>, p: nat)
    ensures Values(bits, p, 0) == Some(Listing([], 0))
  {
  }

  lemma ValuesStep(bits: seq<bool>, p: nat, i: nat)
    ensures Values(bits, p, i + 1) ==
            match Values(bits, p, i) { case None => None case Some(l) => Extended(bits, p, l) }
  {
    hide Extended;
  }

  lemma CodedStep(bits: seq<bool>, p: nat, vals: seq<nat>, i: nat)
    requires p < 64 && Ascending(vals) && SixtyFour(vals) && Coded(p, vals) <= bits && i < |vals|
    ensures Extended(bits, p, Listing(vals[..i], |Coded(p, vals[..i])|)) ==
            Some(Listing(vals[..i + 1], |Coded(p, vals[..i + 1])|))
  {
    hide Golomb, DecodeAt, Coded, HasAt, Ascending, SixtyFour, Delta;
    CodedStands(bits, p, vals, i);
    CodedNext(p, vals, i);
    DeltaBack(vals, i);
    HasAtSlice(bits, |Coded(p, vals[..i])|, Golomb(p, Delta(vals, i)));
    GolombInverse(bits, |Coded(p, vals[..i])|, p, Delta(vals, i));
    assert vals[..i + 1] == vals[..i] + [vals[i]];
  }

  lemma DeltaBack(vals: seq<nat>, i: nat)
    requires i < |vals| && Ascending(vals) && SixtyFour(vals)
    ensures (Last(vals[..i]) + Delta(vals, i)) % UINT64 == vals[i] && Delta(vals, i) < UINT64
  {
  }

  lemma CodedStands(bits: seq<bool>, p: nat, vals: seq<nat>, i: nat)
    requires Coded(p, vals) <= bits && i < |vals|
    ensures HasAt(bits, |Coded(p, vals[..i])|, Golomb(p, Delta(vals, i)))
  {
    hide Golomb, Coded;
    CodedNext(p, vals, i);
    CodedPrefix(p, vals, i + 1);
    PrefixHas(bits, Coded(p, vals[..i]), Golomb(p, Delta(vals, i)));
  }

  lemma PrefixHas(s: seq<bool>, a: seq<bool>, b: seq<bool>)
    requires a + b <= s
    ensures HasAt(s, |a|, b)
  {
    assert s[..|a| + |b|] == a + b;
    assert s[|a|..|a| + |b|] == (a + b)[|a|..];
  }

  // ---- Filters

  ghost predicate AllBytes(s: seq<nat>) {
    forall i :: 0 <= i < |s| ==> s[i] < 256
  }

  /** The values a filter stores. */
  ghost function Stored(filter: Filter): Option<Listing> {
    Values(ByteBits(filter.encoded), filter.params.p, filter.n)
  }

  /** The filter holds exactly the hashed elements, in order. */
  ghost predicate Represents(filter: Filter, es: seq<Element>, vals: seq<nat>) {
    && GoodParams(filter.params) && AllBytes(filter.encoded)
    && filter.n == |es| < UINT32 && filter.f == Times(filter.n, filter.params.m)
    && Ascending(vals) && SixtyFour(vals) && multiset(vals) == multiset(HashedAll(filter.params, filter.f, es))
    && ByteBits(filter.encoded) == Padded(Coded(filter.params.p, vals))
  }

  /** What building a filter and reading one both give: all of its values can be decoded. */
  ghost predicate Usable(filter: Filter) {
    && GoodParams(filter.params) && AllBytes(filter.encoded) && Stored(filter).Some?
    && filter.n < UINT32 && filter.f == Times(filter.n, filter.params.m)
  }

  lemma RangeFits(n: nat, m: nat)
    requires n < UINT32 && m < UINT32
    ensures Times(n, m) < UINT64
  {
    WordProduct(n, m);
  }

  /** Builds a filter from the elements of a set; the source throws if there are too many. */
  method BuildFilter(params: Params, es: seq<Element>) returns (r: Option<Filter>, ghost vals: seq<nat>)
    requires GoodParams(params)
    ensures r.Some? <==> |es| < UINT32
    ensures r.Some? ==> r.value.params == params && Represents(r.value, es, vals)
  {
    hide Ascending, SixtyFour, Coded, Padded, ByteBits, Golomb, Sound, Contents;
    vals := [];
    var n := |es|;
    if n >= UINT32 {
      return None, vals;
    }
    RangeFits(n, params.m);
    var f := Times(n, params.m);
    var hashed := BuildHashedSet(params, f, es);
    vals := hashed;
    assert AllBytes([]);
    var w := new BitStreamWriter([]);
    var last := 0;
    CodedNone(params.p, hashed);
    for i := 0 to |hashed|
      invariant w.Valid() && fresh(w) && w.Bits() == Coded(params.p, hashed[..i])
      invariant last == Last(hashed[..i])
    {
      DeltaIs(hashed, i);
      GolombRiceEncode(w, params.p, hashed[i] - last);
      CodedNext(params.p, hashed, i);
      last := hashed[i];
    }
    assert hashed[..|hashed|] == hashed;
    w.Flush();
    Flushed(w.out, w.buffer);
    r := Some(Filter(params, n, f, w.out));
  }

  lemma CodedNone(p: nat, vals: seq<nat>)
    ensures Coded(p, vals[..0]) == [] && ByteBits([]) == []
  {
  }

  lemma DeltaIs(vals: seq<nat>, i: nat)
    requires i < |vals| && Ascending(vals) && SixtyFour(vals)
    ensures 0 <= vals[i] - Last(vals[..i]) == Delta(vals, i) < UINT64
  {
  }

  lemma Flushed(out: seq<nat>, buffer: nat)
    requires Sound(out, buffer, 0)
    ensures AllBytes(out) && Contents(out, buffer, 0) == ByteBits(out)
  {
  }

  /** A built filter stores its sorted hashes. */
  lemma BuiltStores(filter: Filter, es: seq<Element>, vals: seq<nat>)
    requires Represents(filter, es, vals)
    ensures Stored(filter) == Some(Listing(vals, |Coded(filter.params.p, vals)|))
  {
    hide Ascending, SixtyFour, Coded, Padded, ByteBits, Values;
    var p := filter.params.p;
    SameSize(vals, HashedAll(filter.params, filter.f, es));
    CodedDecodes(ByteBits(filter.encoded), p, vals, |vals|);
    assert vals[..|vals|] == vals;
  }

  lemma SameSize(a: seq<nat>, b: seq<nat>)
    requires multiset(a) == multiset(b)
    ensures |a| == |b|
  {
    assert |multiset(a)| == |a| && |multiset(b)| == |b|;
  }

  /** The bits are the code of n values, padded to whole bytes. */
  ghost predicate Whole(bits: seq<bool>, p: nat, n: nat) {
    match Values(bits, p, n)
    case None => false
    case Some(l) => (l.end + 7) / 8 * 8 == |bits|
  }

  /** Reads a filter that anyone may have written, and accepts it only if it holds its values and no byte more. */
  method ReadFilter(params: Params, n: nat, encoded: seq<nat>) returns (r: Option<Filter>)
    requires GoodParams(params) && AllBytes(encoded)
    ensures r == if n < UINT32 && Whole(ByteBits(encoded), params.p, n)
                 then Some(Filter(params, n, Times(n, params.m), encoded)) else None
    ensures r.Some? ==> Usable(r.value)
  {
    hide ByteBits, DecodeAt;
    if n >= UINT32 {
      return None;
    }
    RangeFits(n, params.m);
    var reader := new BitStreamReader(encoded);
    ghost var bits := ByteBits(encoded);
    for i := 0 to n
      invariant reader.Valid() && fresh(reader) && reader.bytes == encoded
      invariant Values(bits, params.p, i).Some? && Values(bits, params.p, i).value.end == reader.Used()
    {
      var x := GolombRiceDecode(reader, params.p);
      if x == None {
        ValuesStop(bits, params.p, i + 1, n);
        return None;
      }
    }
    if !reader.Empty() {
      return None;
    }
    r := Some(Filter(params, n, Times(n, params.m), encoded));
  }

  lemma {:induction false} ValuesStop(bits: seq<bool>, p: nat, i: nat, n: nat)
    requires i <= n && Values(bits, p, i) == None
    ensures Values(bits, p, n) == None
    decreases n
  {
    hide Extended, Values;
    if i < n {
      ValuesStop(bits, p, i, n - 1);
      ValuesStep(bits, p, n - 1);
    }
  }

  /** What was built is accepted. */
  lemma BuiltIsReadable(filter: Filter, es: seq<Element>, vals: seq<nat>)
    requires Represents(filter, es, vals)
    ensures Whole(ByteBits(filter.encoded), filter.params.p, filter.n)
  {
    hide Coded, ByteBits, Values, Ascending, SixtyFour;
    BuiltStores(filter, es, vals);
  }

  // ---- Matching

  ghost predicate Meets(a: seq<nat>, b: seq<nat>) {
    exists i, j :: 0 <= i < |a| && 0 <= j < |b| && a[i] == b[j]
  }

  /** The largest of the first n values. */
  ghost function Peak(vals: seq<nat>, n: nat): (m: nat)
    requires n <= |vals|
    ensures forall k :: 0 <= k < n ==> vals[k] <= m
    ensures n == 0 ==> m == 0
  {
    if n == 0 then 0 else Max(Peak(vals, n - 1), vals[n - 1])
  }

  /** Value i is not below an earlier one. */
  ghost predicate Leads(vals: seq<nat>, i: nat)
    requires i < |vals|
  {
    Peak(vals, i) <= vals[i]
  }

  /** Some value that is not below an earlier one is among the queries. */
  ghost predicate Reaches(vals: seq<nat>, queries: seq<nat>) {
    exists i :: 0 <= i < |vals| && Leads(vals, i) && vals[i] in queries
  }

  /** In ascending values every one leads. */
  lemma AscendingReaches(vals: seq<nat>, queries: seq<nat>)
    requires Ascending(vals)
    ensures Reaches(vals, queries) <==> Meets(vals, queries)
  {
    forall i | 0 <= i < |vals|
      ensures Leads(vals, i)
    {
      PeakBelow(vals, i, vals[i]);
    }
    if Meets(vals, queries) {
      var i, j :| 0 <= i < |vals| && 0 <= j < |queries| && vals[i] == queries[j];
      assert Leads(vals, i) && vals[i] in queries;
    }
  }

  lemma {:induction false} PeakBelow(vals: seq<nat>, n: nat, bound: nat)
    requires n <= |vals| && forall k :: 0 <= k < n ==> vals[k] <= bound
    ensures Peak(vals, n) <= bound
  {
    if n > 0 {
      PeakBelow(vals, n - 1, bound);
    }
  }

  lemma {:induction false} PeakMono(vals: seq<nat>, m: nat, n: nat)
    requires m <= n <= |vals|
    ensures Peak(vals, m) <= Peak(vals, n)
  {
    if m < n {
      PeakMono(vals, m, n - 1);
    }
  }

  /** No leading value before i is queried. */
  ghost predicate Unqueried(vals: seq<nat>, queries: seq<nat>, i: nat)
    requires i <= |vals|
  {
    forall k :: 0 <= k < i && Leads(vals, k) ==> vals[k] !in queries
  }

  ghost predicate Below(queries: seq<nat>, h: nat, top: nat)
    requires h <= |queries|
  {
    forall j :: 0 <= j < h ==> queries[j] < top
  }

  /** Moreover the queries before h are below top, and the next is not below a value before i. */
  ghost predicate Swept(vals: seq<nat>, queries: seq<nat>, i: nat, h: nat, top: nat) {
    && i <= |vals| && h <= |queries| && Unqueried(vals, queries, i) && Below(queries, h, top)
    && (h < |queries| ==> Peak(vals, i) <= queries[h])
  }

  lemma SweepStart(vals: seq<nat>, queries: seq<nat>)
    ensures Swept(vals, queries, 0, 0, Peak(vals, 0))
  {
  }

  lemma SweepValue(vals: seq<nat>, queries: seq<nat>, i: nat, h: nat)
    requires i < |vals| && Swept(vals, queries, i, h, Peak(vals, i))
    ensures Swept(vals, queries, i, h, Peak(vals, i + 1))
  {
    hide Unqueried;
  }

  lemma SkipQuery(vals: seq<nat>, queries: seq<nat>, i: nat, h: nat)
    requires i < |vals| && Swept(vals, queries, i, h, Peak(vals, i + 1)) && Ascending(queries)
    requires h < |queries| && queries[h] < vals[i]
    ensures Swept(vals, queries, i, h + 1, Peak(vals, i + 1))
  {
    hide Unqueried;
  }

  /** A value between the queries passed and the rest is none of them. */
  lemma Between(queries: seq<nat>, h: nat, x: nat)
    requires Ascending(queries) && h < |queries| && Below(queries, h, x) && x < queries[h]
    ensures x !in queries
  {
  }

  lemma SkipValue(vals: seq<nat>, queries: seq<nat>, i: nat, h: nat)
    requires i < |vals| && Swept(vals, queries, i, h, Peak(vals, i + 1)) && Ascending(queries)
    requires h < |queries| && queries[h] > vals[i]
    ensures Swept(vals, queries, i + 1, h, Peak(vals, i + 1))
  {
    hide Peak, Ascending, Below, Unqueried;
    PeakNext(vals, i);
    if Leads(vals, i) {
      Between(queries, h, vals[i]);
    }
    UnqueriedNext(vals, queries, i);
  }

  lemma UnqueriedNext(vals: seq<nat>, queries: seq<nat>, i: nat)
    requires i < |vals| && Unqueried(vals, queries, i) && (Leads(vals, i) ==> vals[i] !in queries)
    ensures Unqueried(vals, queries, i + 1)
  {
    hide Leads;
  }

  lemma PeakNext(vals: seq<nat>, i: nat)
    requires i < |vals|
    ensures Peak(vals, i + 1) == Max(Peak(vals, i), vals[i])
  {
  }

  lemma NoneReached(vals: seq<nat>, queries: seq<nat>, i: nat, h: nat, top: nat)
    requires Swept(vals, queries, i, h, top)
    requires i == |vals| || (h == |queries| && i < |vals| && top == Peak(vals, i + 1))
    ensures !Reaches(vals, queries)
  {
    hide Peak;
    forall k | 0 <= k < |vals| && Leads(vals, k)
      ensures vals[k] !in queries
    {
      if i < k {
        PeakMono(vals, i + 1, k);
      } else if i == k {
        PeakNext(vals, i);
      }
    }
  }

  lemma QueryReached(vals: seq<nat>, queries: seq<nat>, i: nat, h: nat, top: nat)
    requires i < |vals| && Swept(vals, queries, i, h, top) && h < |queries| && queries[h] == vals[i]
    ensures Reaches(vals, queries)
  {
    hide Unqueried, Below;
    assert Leads(vals, i);
  }

  /**
   The merge of the stored values with the sorted queries; None when the filter cannot be decoded.
   A queried value is found unless a larger one is stored before it, which takes differences that wrap around.
   */
  method MatchInternal(filter: Filter, queries: seq<nat>, ghost vals: seq<nat>) returns (r: Option<bool>)
    requires GoodParams(filter.params) && AllBytes(filter.encoded) && Ascending(queries)
    requires Stored(filter).Some? && Stored(filter).value.vals == vals
    ensures r == Some(Reaches(vals, queries))
  {
    hide ByteBits, DecodeAt, Ascending, Swept, Values, Reaches, Peak;
    var reader := new BitStreamReader(filter.encoded);
    ghost var bits, p := ByteBits(filter.encoded), filter.params.p;
    var value, h := 0, 0;
    MatchStart(bits, p, filter.n, vals);
    SweepStart(vals, queries);
    for i := 0 to filter.n
      invariant reader.Valid() && fresh(reader) && reader.bytes == filter.encoded
      invariant h <= |queries| && i <= filter.n == |vals| && Swept(vals, queries, i, h, Peak(vals, i))
      invariant Values(bits, p, i) == Some(Listing(vals[..i], reader.Used())) && value == Last(vals[..i])
    {
      ValueNext(bits, p, filter.n, i, vals, reader.Used());
      var delta := GolombRiceDecode(reader, filter.params.p);
      if delta == None {
        return None;
      }
      value := (value + delta.value) % UINT64;
      SweepValue(vals, queries, i, h);
      while true
        invariant h <= |queries| && Swept(vals, queries, i, h, Peak(vals, i + 1))
        decreases |queries| - h
        modifies {}
      {
        if h == |queries| {
          NoneReached(vals, queries, i, h, Peak(vals, i + 1));
          return Some(false);
        } else if queries[h] == value {
          QueryReached(vals, queries, i, h, Peak(vals, i + 1));
          return Some(true);
        } else if queries[h] > value {
          SkipValue(vals, queries, i, h);
          break;
        }
        SkipQuery(vals, queries, i, h);
        h := h + 1;
      }
    }
    NoneReached(vals, queries, filter.n, h, Peak(vals, filter.n));
    return Some(false);
  }

  lemma {:induction false} ValuesPrefix(bits: seq<bool>, p: nat, i: nat, n: nat)
    requires i <= n && Values(bits, p, n).Some?
    ensures Values(bits, p, i).Some? && |Values(bits, p, n).value.vals| == n
    ensures Values(bits, p, i).value.vals == Values(bits, p, n).value.vals[..i]
    decreases n
  {
    hide DecodeAt;
    if n > 0 {
      ValuesPrefix(bits, p, if i < n then i else n - 1, n - 1);
    }
  }

  lemma MatchStart(bits: seq<bool>, p: nat, n: nat, vals: seq<nat>)
    requires Values(bits, p, n).Some? && Values(bits, p, n).value.vals == vals
    ensures |vals| == n
    ensures Values(bits, p, 0) == Some(Listing(vals[..0], 0)) && Last(vals[..0]) == 0
  {
    ValuesPrefix(bits, p, 0, n);
  }

  lemma ValueNext(bits: seq<bool>, p: nat, n: nat, i: nat, vals: seq<nat>, used: nat)
    requires Values(bits, p, n).Some? && Values(bits, p, n).value.vals == vals && i < n == |vals| && used <= |bits|
    requires Values(bits, p, i) == Some(Listing(vals[..i], used))
    ensures
      var d := DecodeAt(bits, used, p);
      && d.Some? && Values(bits, p, i + 1) == Some(Listing(vals[..i + 1], d.value.end))
      && vals[i] == (Last(vals[..i]) + d.value.value) % UINT64 == Last(vals[..i + 1])
  {
    hide DecodeAt, Last;
    ValuesPrefix(bits, p, i + 1, n);
    assert vals[..i + 1][i] == vals[i];
    LastOf(vals, i);
  }

  lemma LastOf(vals: seq<nat>, i: nat)
    requires i < |vals|
    ensures Last(vals[..i + 1]) == vals[i]
  {
  }

  /** Whether any of the queried elements is in the filter, as far as the filter can tell. */
  method MatchAny(filter: Filter, qs: seq<Element>) returns (r: Option<bool>)
    requires Usable(filter)
    ensures r == Some(Reaches(Stored(filter).value.vals, HashedAll(filter.params, filter.f, qs)))
  {
    hide Ascending, ByteBits, Values, Reaches;
    RangeFits(filter.n, filter.params.m);
    var queries := BuildHashedSet(filter.params, filter.f, qs);
    r := MatchInternal(filter, queries, Stored(filter).value.vals);
    ReachesAnyOrder(Stored(filter).value.vals, queries, HashedAll(filter.params, filter.f, qs));
    ReachesAnyOrder(Stored(filter).value.vals, HashedAll(filter.params, filter.f, qs), queries);
  }

  /** Whether one element is in the filter, as far as the filter can tell. */
  method Match(filter: Filter, e: Element) returns (r: Option<bool>)
    requires Usable(filter)
    ensures r == Some(Reaches(Stored(filter).value.vals, HashedAll(filter.params, filter.f, [e])))
  {
    hide Ascending, ByteBits, Values, Reaches;
    RangeFits(filter.n, filter.params.m);
    var query := MapIntoRange(filter.params.hash(e), filter.f);
    assert Ascending([query]) by { Single(query); }
    r := MatchInternal(filter, [query], Stored(filter).value.vals);
    assert HashedAll(filter.params, filter.f, [e]) == [query];
  }

  /** For a built filter the answer is exact: some element and some query have one hash. */
  lemma BuiltMatches(filter: Filter, es: seq<Element>, vals: seq<nat>, qs: seq<Element>)
    requires Represents(filter, es, vals)
    ensures Usable(filter)
    ensures Reaches(Stored(filter).value.vals, HashedAll(filter.params, filter.f, qs)) <==> Collides(filter, es, qs)
  {
    hide Ascending, SixtyFour, Coded, Padded, ByteBits, Values, Reaches;
    BuiltStores(filter, es, vals);
    AscendingReaches(vals, HashedAll(filter.params, filter.f, qs));
    MeetsIsCollides(filter, es, vals, qs, HashedAll(filter.params, filter.f, qs));
  }

  lemma ReachesAnyOrder(vals: seq<nat>, queries: seq<nat>, hashed: seq<nat>)
    requires multiset(queries) == multiset(hashed)
    ensures Reaches(vals, queries) ==> Reaches(vals, hashed)
  {
    if Reaches(vals, queries) {
      var i :| 0 <= i < |vals| && Leads(vals, i) && vals[i] in queries;
      assert vals[i] in multiset(hashed);
    }
  }

  /** Two differences that wrap around: 5, and then 3, which the loop does not find. */
  method MissedValue(params: Params) returns (filter: Filter, r: Option<bool>)
    requires GoodParams(params)
    ensures Usable(filter) && Whole(ByteBits(filter.encoded), params.p, filter.n)
    ensures Stored(filter).value.vals == [5, 3] && r == Some(false)
  {
    hide Coded, Padded, ByteBits, Golomb, Sound, Contents, Values;
    assert AllBytes([]);
    var w := new BitStreamWriter([]);
    CodedNone(params.p, []);
    GolombRiceEncode(w, params.p, 5);
    GolombRiceEncode(w, params.p, UINT64 - 2);
    ghost var bits := w.Bits();
    w.Flush();
    Flushed(w.out, w.buffer);
    RangeFits(2, params.m);
    filter := Filter(params, 2, Times(2, params.m), w.out);
    PaddedAfter(bits);
    TwoCodes(ByteBits(w.out), params.p, 5, UINT64 - 2);
    assert |bits| == |Golomb(params.p, 5)| + |Golomb(params.p, UINT64 - 2)|;
    assert Ascending([3]) by { Single(3); }
    r := MatchInternal(filter, [3], [5, 3]);
    assert !Leads([5, 3], 1);
  }

  lemma PaddedAfter(bits: seq<bool>)
    ensures bits <= Padded(bits) && |Padded(bits)| == (|bits| + 7) / 8 * 8
  {
  }

  lemma TwoCodes(bits: seq<bool>, p: nat, a: nat, b: nat)
    requires p < 64 && a < UINT64 && b < UINT64 && Golomb(p, a) + Golomb(p, b) <= bits
    ensures Values(bits, p, 2) == Some(Listing([a, (a + b) % UINT64], |Golomb(p, a)| + |Golomb(p, b)|))
  {
    hide Golomb, Values, Extended;
    assert [] + Golomb(p, a) == Golomb(p, a);
    PrefixHas(bits, [], Golomb(p, a));
    PrefixHas(bits, Golomb(p, a), Golomb(p, b));
    ValuesNone(bits, p);
    ValuesStep(bits, p, 0);
    ExtendedBy(bits, p, [], 0, a);
    assert Values(bits, p, 1) == Some(Listing([] + [a], |Golomb(p, a)|));
    ValuesStep(bits, p, 1);
    ExtendedBy(bits, p, [] + [a], |Golomb(p, a)|, b);
    assert [] + [a] + [(a + b) % UINT64] == [a, (a + b) % UINT64];
  }

  lemma ExtendedBy(bits: seq<bool>, p: nat, vals: seq<nat>, end: nat, x: nat)
    requires p < 64 && x < UINT64 && HasAt(bits, end, Golomb(p, x))
    ensures Extended(bits, p, Listing(vals, end)) == Some(Listing(vals + [(Last(vals) + x) % UINT64], end + |Golomb(p, x)|))
  {
    hide Golomb, DecodeAt;
    GolombInverse(bits, end, p, x);
  }

  lemma Single(x: nat)
    ensures Ascending([x])
  {
  }

  /** Some queried element and some element of the filter have the same hash. */
  ghost predicate Collides(filter: Filter, es: seq<Element>, qs: seq<Element>) {
    Meets(HashedAll(filter.params, filter.f, es), HashedAll(filter.params, filter.f, qs))
  }

  lemma MeetsIsCollides(filter: Filter, es: seq<Element>, vals: seq<nat>, qs: seq<Element>, queries: seq<nat>)
    requires multiset(vals) == multiset(HashedAll(filter.params, filter.f, es))
    requires multiset(queries) == multiset(HashedAll(filter.params, filter.f, qs))
    ensures Meets(vals, queries) <==> Collides(filter, es, qs)
  {
    hide HashedAll, Meets;
    var a, b := HashedAll(filter.params, filter.f, es), HashedAll(filter.params, filter.f, qs);
    if Meets(vals, queries) {
      MeetsPermuted(vals, a, queries, b);
    }
    if Meets(a, b) {
      MeetsPermuted(a, vals, b, queries);
    }
  }

  lemma MeetsPermuted(a: seq<nat>, c: seq<nat>, b: seq<nat>, d: seq<nat>)
    requires multiset(a) == multiset(c) && multiset(b) == multiset(d) && Meets(a, b)
    ensures Meets(c, d)
  {
    var i, j :| 0 <= i < |a| && 0 <= j < |b| && a[i] == b[j];
    assert a[i] in multiset(c) && b[j] in multiset(d);
    var k :| 0 <= k < |c| && c[k] == a[i];
    var l :| 0 <= l < |d| && d[l] == b[j];
  }

  /** No false negatives: an element of the filter always matches. */
  lemma MembersMatch(filter: Filter, es: seq<Element>, qs: seq<Element>, e: Element)
    requires e in es && e in qs
    ensures Collides(filter, es, qs)
  {
    var i :| 0 <= i < |es| && es[i] == e;
    var j :| 0 <= j < |qs| && qs[j] == e;
    assert HashedAll(filter.params, filter.f, es)[i] == HashedAll(filter.params, filter.f, qs)[j];
  }
}
