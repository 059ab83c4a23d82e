/**
 What becomes of the entries of any file that is read (CAddrMan::Unserialize, src/addrman.h): every
 slot goes to the entry listed for it first, in the tried table, in the new table, and where the
 bucket data cannot be used, in the bucket of its source.
 */
module AddrFirst {
  import opened AddrTypes
  import opened AddrState
  import opened AddrCodec
  import opened AddrIntake
  import opened AddrRepeats

  // ---- Tried entries

  predicate SameTriedSlot(env: Env, key: int, s: Service, s': Service) {
    TriedBucket(env, key, s) == TriedBucket(env, key, s') && TriedPosition(env, key, s) == TriedPosition(env, key, s')
  }

  /** No entry listed before the n-th has its slot. */
  ghost predicate FirstTried(env: Env, key: int, fs: seq<Entry>, n: nat)
    requires n < |fs|
  {
    forall m :: 0 <= m < n ==> !SameTriedSlot(env, key, fs[m].svc, fs[n].svc)
  }

  /** How many have a slot of their own. */
  ghost function TriedKept(env: Env, key: int, fs: seq<Entry>): nat {
    if fs == [] then 0
    else TriedKept(env, key, fs[..|fs| - 1]) + if FirstTried(env, key, fs, |fs| - 1) then 1 else 0
  }

  ghost predicate Asked(env: Env, key: int, fs: seq<Entry>, svc: Service) {
    exists n :: 0 <= n < |fs| && SameTriedSlot(env, key, fs[n].svc, svc)
  }

  /** The slot of the n-th is taken, by itself if it is the first. */
  ghost predicate Seated(env: Env, from: int, fs: seq<Entry>, u: State, n: nat)
    requires n < |fs|
  {
    var id := TriedAt(env, u, fs[n].svc);
    && from <= id < u.idCount && id in u.info && u.info[id].inTried
    && (FirstTried(env, u.key, fs, n) ==> u.info[id].entry == fs[n])
  }

  /** Each slot listed holds the first entry listed for it, no other is taken, and so many are kept. */
  ghost predicate TriedByOrder(env: Env, from: int, fs: seq<Entry>, u: State) {
    && IsTable(u.triedT, TRIED_BUCKETS) && u.idCount == from + TriedKept(env, u.key, fs)
    && (forall n :: 0 <= n < |fs| ==> Seated(env, from, fs, u, n))
    && (forall svc: Service :: TriedAt(env, u, svc) != -1 ==> Asked(env, u.key, fs, svc))
  }

  ghost predicate NoneTried(env: Env, t: State) {
    IsTable(t.triedT, TRIED_BUCKETS) && forall svc: Service :: TriedAt(env, t, svc) == -1
  }

  lemma {:induction false} TriedFirst(env: Env, t: State, fs: seq<Entry>)
    requires NoneTried(env, t) && t.idCount >= 0
    ensures
      var u := TriedRead(env, t, fs);
      TriedByOrder(env, t.idCount, fs, u) && u.key == t.key && u.newT == t.newT && u.nNew == t.nNew
  {
    hide TriedAt, TriedByOrder, LoadedTried;
    if fs == [] {
      assert TriedByOrder(env, t.idCount, fs, t) by { NoTriedListed(env, t); }
    } else {
      var n := |fs| - 1;
      TriedFirst(env, t, fs[..n]);
      var u := TriedRead(env, t, fs[..n]);
      assert fs == fs[..n] + [fs[n]];
      TriedNext(env, t.idCount, fs[..n], u, fs[n]);
    }
  }

  lemma NoTriedListed(env: Env, t: State)
    requires NoneTried(env, t)
    ensures TriedByOrder(env, t.idCount, [], t)
  {
    hide TriedAt;
  }

  lemma TriedNext(env: Env, from: int, fs: seq<Entry>, u: State, f: Entry)
    requires TriedByOrder(env, from, fs, u) && from >= 0
    ensures
      var w := if TriedAt(env, u, f.svc) == -1 then LoadedTried(env, u, f) else u;
      TriedByOrder(env, from, fs + [f], w) && w.key == u.key && w.newT == u.newT && w.nNew == u.nNew
  {
    hide TriedByOrder, TriedAt, LoadedTried;
    if TriedAt(env, u, f.svc) == -1 {
      TriedTaken(env, from, fs, u, f);
    } else {
      TriedLost(env, from, fs, u, f);
    }
  }

  lemma OneMoreFirst(env: Env, key: int, fs: seq<Entry>, f: Entry)
    ensures forall m :: 0 <= m < |fs| ==> (FirstTried(env, key, fs + [f], m) <==> FirstTried(env, key, fs, m))
    ensures TriedKept(env, key, fs + [f]) == TriedKept(env, key, fs) + if FirstTried(env, key, fs + [f], |fs|) then 1 else 0
  {
    hide SameTriedSlot;
    assert (fs + [f])[..|fs|] == fs;
  }

  lemma AskedStill(env: Env, key: int, fs: seq<Entry>, f: Entry, svc: Service)
    ensures Asked(env, key, fs + [f], svc) <==> Asked(env, key, fs, svc) || SameTriedSlot(env, key, f.svc, svc)
  {
    hide SameTriedSlot;
    var gs := fs + [f];
    assert gs[|fs|] == f && forall n :: 0 <= n < |fs| ==> gs[n] == fs[n];
  }

  lemma TriedLost(env: Env, from: int, fs: seq<Entry>, u: State, f: Entry)
    requires TriedByOrder(env, from, fs, u) && TriedAt(env, u, f.svc) != -1
    ensures TriedByOrder(env, from, fs + [f], u)
  {
    hide TriedKept, FirstTried, SameTriedSlot, TriedAt, Asked;
    var gs := fs + [f];
    OneMoreFirst(env, u.key, fs, f);
    var k := SomeAsk(env, u.key, fs, f.svc);
    assert gs[k] == fs[k] && Seated(env, from, fs, u, k);
    NotFirst(env, u.key, gs, k, |fs|);
    SameTriedAt(env, u, fs[k].svc, f.svc);
    forall n | 0 <= n < |gs|
      ensures Seated(env, from, gs, u, n)
    {
      assert n < |fs| ==> gs[n] == fs[n] && Seated(env, from, fs, u, n);
    }
    forall svc: Service | TriedAt(env, u, svc) != -1
      ensures Asked(env, u.key, gs, svc)
    {
      AskedStill(env, u.key, fs, f, svc);
    }
  }

  lemma SomeAsk(env: Env, key: int, fs: seq<Entry>, svc: Service) returns (k: nat)
    requires Asked(env, key, fs, svc)
    ensures k < |fs| && SameTriedSlot(env, key, fs[k].svc, svc)
  {
    hide SameTriedSlot;
    k :| k < |fs| && SameTriedSlot(env, key, fs[k].svc, svc);
  }

  lemma NotFirst(env: Env, key: int, fs: seq<Entry>, m: nat, n: nat)
    requires m < n < |fs| && SameTriedSlot(env, key, fs[m].svc, fs[n].svc)
    ensures !FirstTried(env, key, fs, n)
  {
    hide SameTriedSlot;
  }

  lemma TriedTaken(env: Env, from: int, fs: seq<Entry>, u: State, f: Entry)
    requires TriedByOrder(env, from, fs, u) && from >= 0 && TriedAt(env, u, f.svc) == -1
    ensures
      var w := LoadedTried(env, u, f);
      TriedByOrder(env, from, fs + [f], w) && w.key == u.key && w.newT == u.newT && w.nNew == u.nNew
  {
    hide TriedKept, FirstTried, SameTriedSlot, TriedAt, LoadedTried, Asked;
    var gs, w := fs + [f], LoadedTried(env, u, f);
    OneMoreFirst(env, u.key, fs, f);
    LoadedTriedAt(env, u, f);
    IsFirst(env, from, fs, u, f);
    forall n | 0 <= n < |gs|
      ensures Seated(env, from, gs, w, n)
    {
      if n < |fs| {
        assert gs[n] == fs[n] && Seated(env, from, fs, u, n);
        SameTriedAt(env, u, fs[n].svc, f.svc);
      } else {
        SameTriedAt(env, w, f.svc, f.svc);
      }
    }
    forall svc: Service | TriedAt(env, w, svc) != -1
      ensures Asked(env, u.key, gs, svc)
    {
      AskedStill(env, u.key, fs, f, svc);
    }
  }

  lemma LoadedTriedAt(env: Env, u: State, f: Entry)
    requires IsTable(u.triedT, TRIED_BUCKETS)
    ensures
      var w := LoadedTried(env, u, f);
      && IsTable(w.triedT, TRIED_BUCKETS) && w.key == u.key && w.newT == u.newT && w.nNew == u.nNew
      && w.idCount == u.idCount + 1
      && (forall svc: Service :: TriedAt(env, w, svc) ==
            if SameTriedSlot(env, u.key, f.svc, svc) then u.idCount else TriedAt(env, u, svc))
      && u.idCount in w.info && w.info[u.idCount].inTried && w.info[u.idCount].entry == f
      && forall i :: i in u.info && i != u.idCount ==> i in w.info && w.info[i] == u.info[i]
  {
    hide TriedBucket, TriedPosition;
  }

  lemma SameTriedAt(env: Env, u: State, svc: Service, svc': Service)
    ensures SameTriedSlot(env, u.key, svc, svc)
    ensures SameTriedSlot(env, u.key, svc, svc') <==> SameTriedSlot(env, u.key, svc', svc)
    ensures SameTriedSlot(env, u.key, svc, svc') ==> TriedAt(env, u, svc) == TriedAt(env, u, svc')
  {
  }

  lemma IsFirst(env: Env, from: int, fs: seq<Entry>, u: State, f: Entry)
    requires TriedByOrder(env, from, fs, u) && from >= 0 && TriedAt(env, u, f.svc) == -1
    ensures FirstTried(env, u.key, fs + [f], |fs|)
  {
    hide SameTriedSlot, TriedAt, TriedKept, Asked;
    forall m | 0 <= m < |fs|
      ensures !SameTriedSlot(env, u.key, fs[m].svc, f.svc)
    {
      assert Seated(env, from, fs, u, m);
      SameTriedAt(env, u, fs[m].svc, f.svc);
    }
  }

  // ---- New entries without usable buckets

  /** No entry listed before the n-th has the same slot in the bucket of its source. */
  ghost predicate FirstNew(env: Env, key: int, es: seq<Entry>, n: nat)
    requires n < |es|
  {
    forall m :: 0 <= m < n ==> !SameSlot(env, key, es[m], es[n])
  }

  /** The slot in the bucket of the entry's source. */
  function SourceAt(env: Env, u: State, e: Entry): int {
    NewAt(env, u, e.svc, NewBucket(env, u.key, e.svc, e.source))
  }

  ghost predicate Placed(env: Env, es: seq<Entry>, u: State, i: nat)
    requires i < |es|
  {
    && i in u.info && !u.info[i].inTried && u.info[i].entry == es[i]
    && if FirstNew(env, u.key, es, i) then u.info[i].refCount == 1 && SourceAt(env, u, es[i]) == i
       else u.info[i].refCount == 0
  }

  /** Exactly the entries listed first for their slot have one, and just that. */
  ghost predicate NewByOrder(env: Env, es: seq<Entry>, u: State) {
    && IsTable(u.newT, NEW_BUCKETS)
    && (forall i :: 0 <= i < |es| ==> Placed(env, es, u, i))
    && (forall e: Entry :: SourceAt(env, u, e) != -1 <==> exists n :: 0 <= n < |es| && SameSlot(env, u.key, es[n], e))
  }

  lemma {:induction false} NewFirst(env: Env, t: State, es: seq<Entry>)
    requires IsTable(t.newT, NEW_BUCKETS) && t.info == map[] && forall e: Entry :: SourceAt(env, t, e) == -1
    ensures
      var u := NewRead(env, t, es, false);
      NewByOrder(env, es, u) && u.key == t.key && u.nNew == t.nNew && forall i :: i in u.info <==> 0 <= i < |es|
  {
    hide SourceAt, NewByOrder, LoadedBySource, SameSlot;
    if es == [] {
      assert NewByOrder(env, es, t) by { NoNewListed(env, t); }
    } else {
      var n := |es| - 1;
      NewFirst(env, t, es[..n]);
      var u := NewRead(env, t, es[..n], false);
      assert es == es[..n] + [es[n]];
      NewNext(env, es[..n], u, es[n]);
    }
  }

  lemma NoNewListed(env: Env, t: State)
    requires IsTable(t.newT, NEW_BUCKETS) && forall e: Entry :: SourceAt(env, t, e) == -1
    ensures NewByOrder(env, [], t)
  {
    hide SourceAt;
  }

  lemma NewNext(env: Env, es: seq<Entry>, u: State, e: Entry)
    requires NewByOrder(env, es, u) && |es| !in u.info
    ensures
      var w := LoadedBySource(env, u, |es|, e);
      NewByOrder(env, es + [e], w) && w.key == u.key && w.nNew == u.nNew && w.info.Keys == u.info.Keys + {|es|}
  {
    hide SourceAt, SameSlot, LoadedBySource, FirstNew;
    var ds, n := es + [e], |es|;
    var w := LoadedBySource(env, u, n, e);
    LoadedSourceAt(env, u, n, e);
    OneMoreNew(env, u, es, e);
    forall m | 0 <= m < |ds|
      ensures Placed(env, ds, w, m)
    {
      SameSourceAt(env, u, e, ds[m]);
      assert m < n ==> ds[m] == es[m] && Placed(env, es, u, m);
    }
    forall d: Entry
      ensures SourceAt(env, w, d) != -1 <==> exists m :: 0 <= m < |ds| && SameSlot(env, u.key, ds[m], d)
    {
      SameSourceAt(env, u, e, d);
      ListedStill(env, u.key, es, e, d);
    }
  }

  lemma LoadedSourceAt(env: Env, u: State, n: nat, e: Entry)
    requires IsTable(u.newT, NEW_BUCKETS) && n !in u.info
    ensures
      var w, free := LoadedBySource(env, u, n, e), SourceAt(env, u, e) == -1;
      && IsTable(w.newT, NEW_BUCKETS) && w.key == u.key && w.nNew == u.nNew && w.info.Keys == u.info.Keys + {n}
      && (forall d: Entry :: SourceAt(env, w, d) == if free && SameSlot(env, u.key, e, d) then n else SourceAt(env, u, d))
      && w.info[n].entry == e && !w.info[n].inTried && w.info[n].refCount == (if free then 1 else 0)
      && forall i :: i in u.info ==> w.info[i] == u.info[i]
  {
    hide NewBucket, Position;
  }

  lemma SameSourceAt(env: Env, u: State, e: Entry, d: Entry)
    ensures SameSlot(env, u.key, e, e) && (SameSlot(env, u.key, e, d) ==> SourceAt(env, u, e) == SourceAt(env, u, d))
  {
  }

  lemma OneMoreNew(env: Env, u: State, es: seq<Entry>, e: Entry)
    requires NewByOrder(env, es, u)
    ensures FirstNew(env, u.key, es + [e], |es|) <==> SourceAt(env, u, e) == -1
    ensures forall m :: 0 <= m < |es| ==> (FirstNew(env, u.key, es + [e], m) <==> FirstNew(env, u.key, es, m))
  {
    hide SourceAt, SameSlot, Placed;
    assert forall m :: 0 <= m < |es| ==> (es + [e])[m] == es[m];
  }

  lemma ListedStill(env: Env, key: int, es: seq<Entry>, e: Entry, d: Entry)
    ensures
      var ds := es + [e];
      (exists m :: 0 <= m < |ds| && SameSlot(env, key, ds[m], d)) <==>
      (exists m :: 0 <= m < |es| && SameSlot(env, key, es[m], d)) || SameSlot(env, key, e, d)
  {
    hide SameSlot;
    var ds := es + [e];
    assert ds[|es|] == e && forall m :: 0 <= m < |es| ==> ds[m] == es[m];
  }

  // ---- The buckets of the new table

  /** Entry i is referred to in bucket c. */
  predicate Refers(env: Env, w: State, i: int, c: nat) {
    i in w.info && NewAt(env, w, w.info[i].entry.svc, c) == i
  }

  /** The buckets below b that refer to it. */
  function RefsBelow(env: Env, w: State, i: int, b: nat): nat {
    if b == 0 then 0 else RefsBelow(env, w, i, b - 1) + if Refers(env, w, i, b - 1) then 1 else 0
  }

  /** Index i is in range, p is its place in bucket b, and fewer than eight buckets below refer to it. */
  ghost predicate MayTake(env: Env, w: State, i: int, b: nat, p: nat) {
    0 <= i < w.nNew && i in w.info && Position(env, w.key, w.info[i].entry.svc, true, b) == p && RefsBelow(env, w, i, b) < 8
  }

  ghost predicate NoneMay(env: Env, w: State, row: seq<int>, b: nat, p: nat) {
    forall j :: 0 <= j < |row| ==> !MayTake(env, w, row[j], b, p)
  }

  /** A place is free if no index listed may take it, and otherwise holds the first one listed that may. */
  ghost predicate PlaceByOrder(env: Env, w: State, row: seq<int>, b: nat, p: nat) {
    if At(w.newT, b, p) == -1 then NoneMay(env, w, row, b, p)
    else exists k ::
      0 <= k < |row| && row[k] == At(w.newT, b, p) && MayTake(env, w, row[k], b, p) && NoneMay(env, w, row[..k], b, p)
  }

  ghost predicate BucketByOrder(env: Env, w: State, row: seq<int>, b: nat) {
    forall p: nat :: p < BUCKET_SIZE ==> PlaceByOrder(env, w, row, b, p)
  }

  ghost predicate SameEntries(u: State, w: State) {
    && w.key == u.key && w.nNew == u.nNew && w.triedT == u.triedT && w.info.Keys == u.info.Keys
    && forall i :: i in u.info ==> w.info[i].entry == u.info[i].entry && w.info[i].inTried == u.info[i].inTried
  }

  /** The two states differ in bucket b and in reference counts only. */
  ghost predicate OnlyBucket(u: State, w: State, b: nat) {
    SameEntries(u, w) && forall c: nat, p: nat :: c != b ==> At(w.newT, c, p) == At(u.newT, c, p)
  }

  /** Every entry has as many references as the buckets below b say. */
  ghost predicate Tallies(env: Env, w: State, b: nat) {
    forall i :: 0 <= i < w.nNew && i in w.info ==> w.info[i].refCount == RefsBelow(env, w, i, b)
  }

  ghost predicate EmptyFrom(w: State, b: nat) {
    IsTable(w.newT, NEW_BUCKETS) && forall c: nat, p: nat :: c >= b ==> At(w.newT, c, p) == -1
  }

  lemma {:induction false} RefsSame(env: Env, u: State, w: State, i: int, b: nat, c: nat)
    requires OnlyBucket(u, w, b) && c <= b
    ensures RefsBelow(env, w, i, c) == RefsBelow(env, u, i, c)
  {
    hide At;
    if c > 0 {
      RefsSame(env, u, w, i, b, c - 1);
    }
  }

  lemma MaySame(env: Env, u: State, w: State, i: int, b: nat, c: nat, p: nat)
    requires OnlyBucket(u, w, b) && c <= b
    ensures MayTake(env, w, i, c, p) <==> MayTake(env, u, i, c, p)
  {
    RefsSame(env, u, w, i, b, c);
  }

  /** What is in a bucket depends on the buckets below and itself. */
  lemma PlaceSame(env: Env, u: State, w: State, row: seq<int>, b: nat, c: nat, p: nat)
    requires OnlyBucket(u, w, b) && c <= b && At(w.newT, c, p) == At(u.newT, c, p) && PlaceByOrder(env, u, row, c, p)
    ensures PlaceByOrder(env, w, row, c, p)
  {
    hide MayTake, At, OnlyBucket;
    forall i
      ensures MayTake(env, w, i, c, p) <==> MayTake(env, u, i, c, p)
    {
      MaySame(env, u, w, i, b, c, p);
    }
  }

  lemma ListedLater(env: Env, w: State, row: seq<int>, b: nat, p: nat, i: int)
    requires PlaceByOrder(env, w, row, b, p) && (MayTake(env, w, i, b, p) ==> At(w.newT, b, p) != -1)
    ensures PlaceByOrder(env, w, row + [i], b, p)
  {
    hide MayTake, At;
    if At(w.newT, b, p) != -1 {
      var k :|
        0 <= k < |row| && row[k] == At(w.newT, b, p) && MayTake(env, w, row[k], b, p) && NoneMay(env, w, row[..k], b, p);
      assert (row + [i])[..k] == row[..k] && (row + [i])[k] == row[k];
    }
  }

  lemma ListedFirst(env: Env, w: State, row: seq<int>, b: nat, p: nat, i: int)
    requires NoneMay(env, w, row, b, p) && MayTake(env, w, i, b, p) && At(w.newT, b, p) == i != -1
    ensures PlaceByOrder(env, w, row + [i], b, p)
  {
    hide MayTake, At;
    assert (row + [i])[..|row|] == row && (row + [i])[|row|] == i;
  }

  /** An index that is read takes its place exactly if it may and the place is free. */
  lemma TakesExactly(env: Env, w: State, b: nat, i: int)
    requires Tallies(env, w, b + 1) && i in w.info
    ensures
      var p := Position(env, w.key, w.info[i].entry.svc, true, b);
      LoadedIndex(env, w, b, i, true) ==
      if MayTake(env, w, i, b, p) && At(w.newT, b, p) == -1 then Occupied(env, w, i, b) else w
  {
    hide Position, At, Occupied;
  }

  lemma Occupies(env: Env, w: State, b: nat, i: int)
    requires IsTable(w.newT, NEW_BUCKETS) && b < NEW_BUCKETS && i in w.info
    ensures
      var x, p := Occupied(env, w, i, b), Position(env, w.key, w.info[i].entry.svc, true, b);
      && OnlyBucket(w, x, b) && IsTable(x.newT, NEW_BUCKETS)
      && At(x.newT, b, p) == i && (forall q: nat :: q != p ==> At(x.newT, b, q) == At(w.newT, b, q))
      && x.info[i].refCount == w.info[i].refCount + 1 && forall j :: j in w.info && j != i ==> x.info[j] == w.info[j]
  {
    hide Position;
  }

  lemma TalliesTaken(env: Env, w: State, b: nat, i: int)
    requires IsTable(w.newT, NEW_BUCKETS) && b < NEW_BUCKETS && i in w.info && i >= 0 && Tallies(env, w, b + 1)
    requires At(w.newT, b, Position(env, w.key, w.info[i].entry.svc, true, b)) == -1
    ensures Tallies(env, Occupied(env, w, i, b), b + 1)
  {
    hide Position, At, Occupied;
    var x := Occupied(env, w, i, b);
    Occupies(env, w, b, i);
    forall j | 0 <= j < x.nNew && j in x.info
      ensures x.info[j].refCount == RefsBelow(env, x, j, b + 1)
    {
      assert w.info[j].refCount == RefsBelow(env, w, j, b + 1);
      RefsSame(env, w, x, j, b, b);
    }
  }

  lemma PlacesTaken(env: Env, w: State, row: seq<int>, b: nat, i: int)
    requires IsTable(w.newT, NEW_BUCKETS) && b < NEW_BUCKETS && BucketByOrder(env, w, row, b)
    requires
      i in w.info &&
      var p := Position(env, w.key, w.info[i].entry.svc, true, b);
      MayTake(env, w, i, b, p) && At(w.newT, b, p) == -1
    ensures BucketByOrder(env, Occupied(env, w, i, b), row + [i], b)
  {
    hide Position, At, Occupied, OnlyBucket, PlaceByOrder, NoneMay, RefsBelow;
    var x, p := Occupied(env, w, i, b), Position(env, w.key, w.info[i].entry.svc, true, b);
    Occupies(env, w, b, i);
    forall q: nat | q < BUCKET_SIZE
      ensures PlaceByOrder(env, x, row + [i], b, q)
    {
      MaySame(env, w, x, i, b, b, q);
      if q == p {
        assert NoneMay(env, w, row, b, p) by { FreePlace(env, w, row, b, p); }
        NoneSame(env, w, x, row, b, p);
        ListedFirst(env, x, row, b, p, i);
      } else {
        PlaceSame(env, w, x, row, b, b, q);
        ListedLater(env, x, row, b, q, i);
      }
    }
  }

  lemma FreePlace(env: Env, w: State, row: seq<int>, b: nat, p: nat)
    requires PlaceByOrder(env, w, row, b, p) && At(w.newT, b, p) == -1
    ensures NoneMay(env, w, row, b, p)
  {
  }

  lemma NoneSame(env: Env, u: State, w: State, row: seq<int>, b: nat, p: nat)
    requires OnlyBucket(u, w, b) && NoneMay(env, u, row, b, p)
    ensures NoneMay(env, w, row, b, p)
  {
    hide MayTake, OnlyBucket;
    forall j | 0 <= j < |row|
      ensures !MayTake(env, w, row[j], b, p)
    {
      MaySame(env, u, w, row[j], b, b, p);
    }
  }

  lemma NextIndex(env: Env, w: State, row: seq<int>, b: nat, i: int)
    requires IsTable(w.newT, NEW_BUCKETS) && b < NEW_BUCKETS && BucketByOrder(env, w, row, b) && Tallies(env, w, b + 1)
    ensures
      var x := LoadedIndex(env, w, b, i, true);
      && OnlyBucket(w, x, b) && IsTable(x.newT, NEW_BUCKETS)
      && BucketByOrder(env, x, row + [i], b) && Tallies(env, x, b + 1)
  {
    hide Position, At, Occupied, PlaceByOrder, Tallies, RefsBelow;
    if i in w.info {
      TakesExactly(env, w, b, i);
      var p := Position(env, w.key, w.info[i].entry.svc, true, b);
      if MayTake(env, w, i, b, p) && At(w.newT, b, p) == -1 {
        Occupies(env, w, b, i);
        TalliesTaken(env, w, b, i);
        PlacesTaken(env, w, row, b, i);
        return;
      }
    }
    forall p: nat | p < BUCKET_SIZE
      ensures PlaceByOrder(env, w, row + [i], b, p)
    {
      ListedLater(env, w, row, b, p, i);
    }
  }

  lemma {:induction false} RowFirst(env: Env, u: State, row: seq<int>, b: nat)
    requires EmptyFrom(u, b) && b < NEW_BUCKETS && Tallies(env, u, b)
    ensures
      var w := RowRead(env, u, b, row, true);
      && OnlyBucket(u, w, b) && IsTable(w.newT, NEW_BUCKETS) && BucketByOrder(env, w, row, b) && Tallies(env, w, b + 1)
  {
    hide LoadedIndex, Position, PlaceByOrder, BucketByOrder, Tallies;
    if row == [] {
      NothingListed(env, u, b);
    } else {
      var k := |row| - 1;
      RowFirst(env, u, row[..k], b);
      assert row == row[..k] + [row[k]];
      NextIndex(env, RowRead(env, u, b, row[..k], true), row[..k], b, row[k]);
    }
  }

  lemma NothingListed(env: Env, u: State, b: nat)
    requires EmptyFrom(u, b) && Tallies(env, u, b)
    ensures BucketByOrder(env, u, [], b) && Tallies(env, u, b + 1)
  {
    hide Position, At;
  }

  /** Read row by row, each bucket ends as its own row and the buckets below it say. */
  lemma {:induction false} RowsFirst(env: Env, t: State, rows: seq<seq<int>>)
    requires EmptyFrom(t, 0) && |rows| <= NEW_BUCKETS
    requires forall i :: 0 <= i < t.nNew && i in t.info ==> t.info[i].refCount == 0
    ensures
      var w := RowsRead(env, t, rows, true);
      && SameEntries(t, w) && EmptyFrom(w, |rows|) && Tallies(env, w, |rows|)
      && forall b :: 0 <= b < |rows| ==> BucketByOrder(env, w, rows[b], b)
  {
    hide RowRead, At, BucketByOrder;
    if rows != [] {
      var n := |rows| - 1;
      RowsFirst(env, t, rows[..n]);
      var u := RowsRead(env, t, rows[..n], true);
      RowFirst(env, u, rows[n], n);
      var w := RowRead(env, u, n, rows[n], true);
      forall b | 0 <= b < n
        ensures BucketByOrder(env, w, rows[b], b)
      {
        assert rows[..n][b] == rows[b];
        BucketSame(env, u, w, rows[b], n, b);
      }
    }
  }

  lemma BucketSame(env: Env, u: State, w: State, row: seq<int>, n: nat, b: nat)
    requires OnlyBucket(u, w, n) && b < n && BucketByOrder(env, u, row, b)
    ensures BucketByOrder(env, w, row, b)
  {
    hide PlaceByOrder, At;
    forall p: nat | p < BUCKET_SIZE
      ensures PlaceByOrder(env, w, row, b, p)
    {
      PlaceSame(env, u, w, row, n, b, p);
    }
  }

  // ---- Whole files

  lemma {:induction false} NewReadPlain(env: Env, t: State, es: seq<Entry>)
    requires t.info == map[]
    ensures
      var u := NewRead(env, t, es, true);
      && u.newT == t.newT && u.nNew == t.nNew && (forall i :: i in u.info <==> 0 <= i < |es|)
      && forall i :: 0 <= i < |es| ==> u.info[i].entry == es[i] && !u.info[i].inTried && u.info[i].refCount == 0
  {
    if es != [] {
      NewReadPlain(env, t, es[..|es| - 1]);
    }
  }

  lemma {:induction false} RowsIgnored(env: Env, t: State, rows: seq<seq<int>>)
    ensures RowsRead(env, t, rows, false) == t
  {
    if rows != [] {
      RowsIgnored(env, t, rows[..|rows| - 1]);
      RowIgnored(env, t, |rows| - 1, rows[|rows| - 1]);
    }
  }

  lemma {:induction false} RowIgnored(env: Env, t: State, b: nat, row: seq<int>)
    ensures RowRead(env, t, b, row, false) == t
  {
    if row != [] {
      RowIgnored(env, t, b, row[..|row| - 1]);
    }
  }

  lemma TriedSame(env: Env, from: int, fs: seq<Entry>, u: State, w: State)
    requires TriedByOrder(env, from, fs, u) && SameEntries(u, w) && w.idCount == u.idCount
    ensures TriedByOrder(env, from, fs, w)
  {
    hide TriedKept, Asked, FirstTried, TriedBucket, TriedPosition;
    assert forall svc: Service :: TriedAt(env, w, svc) == TriedAt(env, u, svc);
    forall n | 0 <= n < |fs|
      ensures Seated(env, from, fs, w, n)
    {
      assert Seated(env, from, fs, u, n);
    }
  }

  /** What the new entries of a file say of themselves. */
  ghost predicate NewListed(es: seq<Entry>, u: State) {
    forall i :: 0 <= i < |es| ==> i in u.info && u.info[i].entry == es[i] && !u.info[i].inTried
  }

  ghost predicate NewSettled(env: Env, es: seq<Entry>, u: State, usable: bool) {
    && NewListed(es, u)
    && if usable then EmptyFrom(u, 0) && forall i :: 0 <= i < |es| ==> u.info[i].refCount == 0
       else forall i :: 0 <= i < |es| ==> (InUse(u.info[i]) <==> FirstNew(env, u.key, es, i))
  }

  lemma NewOfFile(env: Env, t: State, es: seq<Entry>, usable: bool)
    requires Blank(t)
    ensures
      var u := NewRead(env, t, es, usable);
      && NewSettled(env, es, u, usable) && u.key == t.key && u.nNew == t.nNew && u.triedT == t.triedT
      && Covered(u) && forall i :: i in u.info <==> 0 <= i < |es|
  {
    hide NewRead, SameSlot, Covered, NewBucket, Position;
    BlankCovered(t);
    NewReadCovered(env, t, es, usable);
    NewReadKeepsTried(env, t, es, usable);
    if usable {
      NewReadPlain(env, t, es);
    } else {
      NewFirst(env, t, es);
      var u := NewRead(env, t, es, false);
      forall i | 0 <= i < |es|
        ensures !u.info[i].inTried && u.info[i].entry == es[i] && (InUse(u.info[i]) <==> FirstNew(env, u.key, es, i))
      {
        assert Placed(env, es, u, i);
      }
    }
  }

  lemma BlankTried(env: Env, t: State)
    requires Blank(t)
    ensures NoneTried(env, t)
  {
    hide TriedBucket, TriedPosition;
  }

  // The parts of a file.

  ghost function NewOf(stream: seq<Token>): (es: seq<Entry>)
    requires Accepts(stream)
    ensures |es| == Count(stream[3].i)
  {
    EntriesOf(stream, 6, Count(stream[3].i))
  }

  ghost function TriedOf(stream: seq<Token>): (fs: seq<Entry>)
    requires Accepts(stream)
    ensures |fs| == Count(stream[4].i)
  {
    EntriesOf(stream, 6 + Count(stream[3].i), Count(stream[4].i))
  }

  ghost function BucketsOf(stream: seq<Token>): (rows: seq<seq<int>>)
    requires Accepts(stream)
    ensures |rows| == Count(BucketCount(stream))
  {
    RowsAt(stream, 6 + Count(stream[3].i) + Count(stream[4].i), Count(BucketCount(stream))).rows
  }

  lemma EnteredByOrder(env: Env, t: State, stream: seq<Token>)
    requires Blank(t) && Accepts(stream) && CountersOk(stream)
    ensures
      var es, fs, w := NewOf(stream), TriedOf(stream), Entered(env, t, stream);
      && NewSettled(env, es, w, Usable(stream)) && TriedByOrder(env, |es|, fs, w) && w.nNew == |es|
      && w.key == stream[2].k && w.nTried == TriedKept(env, w.key, fs)
  {
    hide NewRead, TriedRead, RowsAt, TriedByOrder, Covered, FirstNew, TriedAt, NewOf, TriedOf;
    var es, fs := NewOf(stream), TriedOf(stream);
    var start := t.(key := stream[2].k, nNew := |es|, nTried := |fs|);
    NewOfFile(env, start, es, Usable(stream));
    BlankTried(env, start);
    var u := NewRead(env, start, es, Usable(stream)).(idCount := |es|);
    NoneTriedSame(env, start, u);
    TriedFirst(env, u, fs);
    CoveredSame(NewRead(env, start, es, Usable(stream)), u);
    TriedReadCovered(env, u, fs);
    var v := TriedRead(env, u, fs);
    TriedCount(env, |es|, fs, v);
    TriedSameTally(env, |es|, fs, v, v.idCount - |es|);
    EnteredIs(env, t, stream);
  }

  lemma EnteredIs(env: Env, t: State, stream: seq<Token>)
    requires Accepts(stream) && CountersOk(stream)
    ensures
      var es, fs := NewOf(stream), TriedOf(stream);
      var start := t.(key := stream[2].k, nNew := |es|, nTried := |fs|);
      var v := TriedRead(env, NewRead(env, start, es, Usable(stream)).(idCount := |es|), fs);
      Entered(env, t, stream) == v.(nTried := v.idCount - |es|)
  {
    hide NewRead, TriedRead, RowsAt;
  }

  lemma NoneTriedSame(env: Env, t: State, u: State)
    requires NoneTried(env, t) && u.triedT == t.triedT && u.key == t.key
    ensures NoneTried(env, u)
  {
    hide TriedBucket, TriedPosition;
    assert forall svc: Service :: TriedAt(env, u, svc) == TriedAt(env, t, svc);
  }

  lemma TriedCount(env: Env, from: int, fs: seq<Entry>, v: State)
    requires TriedByOrder(env, from, fs, v)
    ensures v.idCount - from == TriedKept(env, v.key, fs)
  {
    hide TriedKept, Asked, Seated, TriedAt;
  }

  lemma TriedSameTally(env: Env, from: int, fs: seq<Entry>, v: State, n: int)
    requires TriedByOrder(env, from, fs, v)
    ensures TriedByOrder(env, from, fs, v.(nTried := n))
  {
    TriedSame(env, from, fs, v, v.(nTried := n));
  }

  /** With usable buckets, a new entry is kept for the buckets in which it is the first; without, for that of its source. */
  ghost predicate NewKept(env: Env, es: seq<Entry>, rows: seq<seq<int>>, w: State, usable: bool) {
    if usable then
      && (forall b :: 0 <= b < |rows| ==> BucketByOrder(env, w, rows[b], b))
      && forall i :: 0 <= i < |es| ==> i in w.info && w.info[i].refCount == RefsBelow(env, w, i, |rows|)
    else
      forall i :: 0 <= i < |es| ==> i in w.info && (InUse(w.info[i]) <==> FirstNew(env, w.key, es, i))
  }

  /** What any accepted file with sound counters leaves, before the new entries without a place are pruned. */
  lemma FileByOrder(env: Env, t: State, stream: seq<Token>)
    requires Blank(t) && Accepts(stream) && CountersOk(stream)
    ensures
      var es, fs, w := NewOf(stream), TriedOf(stream), Intake(env, t, stream);
      && w.key == stream[2].k && w.nNew == |es| && w.nTried == TriedKept(env, w.key, fs)
      && NewListed(es, w) && TriedByOrder(env, |es|, fs, w) && NewKept(env, es, BucketsOf(stream), w, Usable(stream))
  {
    hide RowsAt, TriedByOrder, TriedKept, FirstNew, BucketByOrder, RefsBelow, Entered, RowsRead, NewOf, TriedOf;
    var es, fs, rows := NewOf(stream), TriedOf(stream), BucketsOf(stream);
    EnteredByOrder(env, t, stream);
    var v := Entered(env, t, stream);
    RowsReadKeepsIds(env, v, rows, Usable(stream));
    if Usable(stream) {
      RowsFirst(env, v, rows);
      TriedSame(env, |es|, fs, v, RowsRead(env, v, rows, true));
    } else {
      RowsIgnored(env, v, rows);
    }
  }
}
