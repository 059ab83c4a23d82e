/**
 Reading address files that no consistent manager need have written: old
 versions, other bucket counts, slots taken twice, references that lead nowhere,
 addresses listed twice (CAddrMan::Unserialize, src/addrman.h). Whatever is read,
 every index but mapAddr comes out right; mapAddr does exactly when no address
 that is listed twice keeps a place.
 */
module AddrIntake {
  import opened AddrTypes
  import opened AddrState
  import opened AddrView
  import opened AddrCodec

  // ---- What the parts of a file do

  /** A new entry placed in the bucket of its own source, if that slot is free. */
  function LoadedBySource(env: Env, t: State, n: int, e: Entry): State {
    var u := LoadedNew(t, n, e);
    var b := NewBucket(env, t.key, e.svc, e.source);
    if NewAt(env, u, e.svc, b) == -1 then Occupied(env, u, n, b) else u
  }

  /** A reference to entry i in new bucket b; out of range, in a taken slot or beyond eight it is ignored. */
  function LoadedIndex(env: Env, t: State, b: nat, i: int, usable: bool): State {
    if && 0 <= i < t.nNew && i in t.info && usable
       && NewAt(env, t, t.info[i].entry.svc, b) == -1 && t.info[i].refCount < NEW_BUCKETS_PER_ADDRESS
    then Occupied(env, t, i, b) else t
  }

  /** The new entries of a file, numbered in the order of reading. */
  function NewRead(env: Env, t: State, es: seq<Entry>, usable: bool): State {
    if es == [] then t
    else
      var n := |es| - 1;
      var u := NewRead(env, t, es[..n], usable);
      if usable then LoadedNew(u, n, es[n]) else LoadedBySource(env, u, n, es[n])
  }

  /** The tried entries; one whose slot is taken is left out. */
  function TriedRead(env: Env, t: State, es: seq<Entry>): State {
    if es == [] then t
    else
      var n := |es| - 1;
      var u := TriedRead(env, t, es[..n]);
      if TriedAt(env, u, es[n].svc) == -1 then LoadedTried(env, u, es[n]) else u
  }

  /** The references of one new bucket. */
  function RowRead(env: Env, t: State, b: nat, row: seq<int>, usable: bool): State {
    if row == [] then t
    else LoadedIndex(env, RowRead(env, t, b, row[..|row| - 1], usable), b, row[|row| - 1], usable)
  }

  function RowsRead(env: Env, t: State, rows: seq<seq<int>>, usable: bool): State {
    if rows == [] then t
    else
      var b := |rows| - 1;
      RowRead(env, RowsRead(env, t, rows[..b], usable), b, rows[b], usable)
  }

  // ---- The indexes other than mapAddr

  /** The first cnt identifiers are in use, those below nNew for new entries. */
  ghost predicate Numbered(t: State, cnt: nat, nNew: int) {
    && (forall i :: i in t.info <==> 0 <= i < cnt)
    && (forall i :: i in t.info ==> (t.info[i].inTried <==> i >= nNew))
  }

  /** The indexes are wired, with cnt entries read and new entries possibly not referenced. */
  ghost predicate Sturdy(env: Env, t: State, cnt: nat, nNew: int) {
    Wired(env, Tallied(t, cnt, nNew), Below(nNew), {}) && Numbered(t, cnt, nNew)
  }

  lemma CreatedWired(env: Env, s: State, e: Entry, zero: set<int>)
    requires Wired(env, s, zero, {})
    ensures Wired(env, Created(s, e), zero, {s.idCount})
  {
    hide Counted, Ordered, NewSlots, TriedSlots;
    CreatedOrdered(s, e);
    CreatedSlots(env, s, e);
    CreatedReferenced(env, s, e, zero, {});
    CreatedCounts(s, e, {});
    assert {} + {s.idCount} == {s.idCount};
  }

  lemma CreatedOrdered(s: State, e: Entry)
    requires Ordered(s) && s.idCount !in s.info
    ensures Ordered(Created(s, e))
  {
    var t := Created(s, e);
    forall i | 0 <= i < |t.random|
      ensures t.random[i] in t.info && t.info[t.random[i]].randomPos == i
    {
      if i < |s.random| {
        assert s.random[i] in s.info;
      }
    }
  }

  lemma CreatedSlots(env: Env, s: State, e: Entry)
    requires Shaped(s) && NewSlots(env, s) && TriedSlots(env, s) && s.idCount !in s.info
    ensures NewSlots(env, Created(s, e)) && TriedSlots(env, Created(s, e))
  {
  }

  lemma UnshelvedWired(env: Env, s: State, n: int, zero: set<int>, limbo: set<int>)
    requires Wired(env, s, zero, limbo) && n in limbo
    ensures Wired(env, s.(nNew := s.nNew + 1), zero + {n}, limbo - {n})
  {
    hide Counted;
    var t := s.(nNew := s.nNew + 1);
    UnshelvedCounts(s, n, limbo);
    ReferencedKept(env, s, t, zero, limbo, zero + {n}, limbo - {n});
    SlotsKept(env, s, t);
    OrderedKept(s, t);
  }

  lemma PromotedWired(env: Env, s: State, n: int, zero: set<int>, limbo: set<int>)
    requires Wired(env, s, zero, limbo) && n in limbo && TriedAt(env, s, s.info[n].entry.svc) == -1
    ensures Wired(env, Promoted(env, s, n), zero, limbo - {n})
  {
    hide Counted, NewSlots, TriedSlots, Ordered;
    var t := Promoted(env, s, n);
    assert Buckets(env, s, n) == {};
    PromotedSlots(env, s, n);
    PromotedReferenced(env, s, n, zero, limbo);
    PromotedCounts(env, s, n, limbo);
    OrderedKept(s, t);
  }

  lemma OccupiedWired(env: Env, s: State, n: int, b: nat, zero: set<int>)
    requires Wired(env, s, zero, {}) && n in s.info && !s.info[n].inTried
    requires b < NEW_BUCKETS && NewAt(env, s, s.info[n].entry.svc, b) == -1
    requires s.info[n].refCount < NEW_BUCKETS_PER_ADDRESS
    ensures Wired(env, Occupied(env, s, n, b), zero - {n}, {})
  {
    hide Counted, NewSlots, Referenced, TriedSlots, Ordered;
    var t := Occupied(env, s, n, b);
    OccupiedTables(env, s, n, b, zero, {});
    OrderedKept(s, t);
    TriedSlotsKept(env, s, t);
    CountsKept(s, t, {});
  }

  /** More or fewer new entries may be unreferenced, as long as those that are may be. */
  lemma Excused(env: Env, t: State, zero: set<int>, zero': set<int>)
    requires Wired(env, t, zero, {})
    requires forall n :: n in t.info && n in zero ==> n in zero' || t.info[n].inTried || t.info[n].refCount != 0
    ensures Wired(env, t, zero', {})
  {
    hide Counted, NewSlots, TriedSlots, Ordered;
    forall n | n in t.info && !t.info[n].inTried && n !in zero'
      ensures t.info[n].refCount >= 1
    {
    }
  }

  lemma SturdyStart(env: Env, t: State, nNew: int)
    requires Shaped(t) && t.info == map[] && t.addrs == map[] && t.random == [] && nNew >= 0
    requires forall b: nat, p: nat :: b < NEW_BUCKETS && p < BUCKET_SIZE ==> t.newT[b][p] == -1
    requires forall b: nat, p: nat :: b < TRIED_BUCKETS && p < BUCKET_SIZE ==> t.triedT[b][p] == -1
    ensures Sturdy(env, t, 0, nNew)
  {
    hide Counted, View;
    EmptyConsistent(env, Tallied(t, 0, nNew));
  }

  lemma SturdyNew(env: Env, t: State, cnt: nat, nNew: int, e: Entry)
    requires Sturdy(env, t, cnt, nNew) && cnt < nNew
    ensures Sturdy(env, LoadedNew(t, cnt, e), cnt + 1, nNew)
  {
    hide Wired, Below;
    var v := Tallied(t, cnt, nNew);
    CreatedWired(env, v, e, Below(nNew));
    UnshelvedWired(env, Created(v, e), cnt, Below(nNew), {cnt});
    assert Below(nNew) + {cnt} == Below(nNew) && {cnt} - {cnt} == {};
    WiredNeedsNoAddress(env, Created(v, e).(nNew := v.nNew + 1), Tallied(LoadedNew(t, cnt, e), cnt + 1, nNew), Below(nNew));
  }

  lemma WiredNeedsNoAddress(env: Env, s: State, t: State, zero: set<int>)
    requires Wired(env, s, zero, {}) && t.(addrs := s.addrs) == s
    ensures Wired(env, t, zero, {})
  {
    hide Counted;
    CountsKept(s, t, {});
    ReferencedKept(env, s, t, zero, {}, zero, {});
    SlotsKept(env, s, t);
    OrderedKept(s, t);
  }

  lemma SturdyTried(env: Env, t: State, cnt: nat, nNew: int, e: Entry)
    requires Sturdy(env, t, cnt, nNew) && 0 <= nNew <= cnt == t.idCount && TriedAt(env, t, e.svc) == -1
    ensures Sturdy(env, LoadedTried(env, t, e), cnt + 1, nNew)
  {
    hide Wired, Below;
    var v := Tallied(t, cnt, nNew);
    CreatedWired(env, v, e, Below(nNew));
    PromotedWired(env, Created(v, e), cnt, Below(nNew), {cnt});
    assert {cnt} - {cnt} == {};
    assert Tallied(LoadedTried(env, t, e), cnt + 1, nNew) == Promoted(env, Created(v, e), cnt);
  }

  lemma SturdyOccupied(env: Env, t: State, cnt: nat, nNew: int, n: int, b: nat)
    requires Sturdy(env, t, cnt, nNew) && n in t.info && n < nNew && b < NEW_BUCKETS
    requires NewAt(env, t, t.info[n].entry.svc, b) == -1 && t.info[n].refCount < NEW_BUCKETS_PER_ADDRESS
    ensures Sturdy(env, Occupied(env, t, n, b), cnt, nNew)
  {
    hide Wired, Below, Position, At, SetSlot;
    var v := Tallied(t, cnt, nNew);
    OccupiedWired(env, v, n, b, Below(nNew));
    Excused(env, Occupied(env, v, n, b), Below(nNew) - {n}, Below(nNew));
    assert Tallied(Occupied(env, t, n, b), cnt, nNew) == Occupied(env, v, n, b);
  }

  lemma SturdyBySource(env: Env, t: State, cnt: nat, nNew: int, e: Entry)
    requires Sturdy(env, t, cnt, nNew) && cnt < nNew
    ensures Sturdy(env, LoadedBySource(env, t, cnt, e), cnt + 1, nNew)
  {
    hide Wired, Below, Position, At, SetSlot, NewBucket, Sturdy, Occupied;
    SturdyNew(env, t, cnt, nNew, e);
    var u := LoadedNew(t, cnt, e);
    var b := NewBucket(env, t.key, e.svc, e.source);
    if NewAt(env, u, e.svc, b) == -1 {
      SturdyOccupied(env, u, cnt + 1, nNew, cnt, b);
    }
  }

  lemma {:induction false} NewReadSturdy(env: Env, t: State, es: seq<Entry>, usable: bool, nNew: int)
    requires Sturdy(env, t, 0, nNew) && |es| <= nNew
    ensures Sturdy(env, NewRead(env, t, es, usable), |es|, nNew)
    ensures NewRead(env, t, es, usable).nNew == t.nNew && NewRead(env, t, es, usable).nTried == t.nTried
  {
    hide Sturdy, NewBucket, At, SetSlot, Position;
    if es != [] {
      var n := |es| - 1;
      NewReadSturdy(env, t, es[..n], usable, nNew);
      var u := NewRead(env, t, es[..n], usable);
      SturdyNew(env, u, n, nNew, es[n]);
      SturdyBySource(env, u, n, nNew, es[n]);
    }
  }

  lemma {:induction false} TriedReadSturdy(env: Env, t: State, es: seq<Entry>, nNew: int)
    requires 0 <= nNew == t.idCount && Sturdy(env, t, t.idCount, nNew)
    ensures
      var u := TriedRead(env, t, es);
      nNew <= u.idCount <= nNew + |es| && Sturdy(env, u, u.idCount, nNew) && u.nNew == t.nNew && u.nTried == t.nTried
  {
    hide Sturdy, TriedAt, SetSlot, TriedBucket;
    if es != [] {
      var n := |es| - 1;
      TriedReadSturdy(env, t, es[..n], nNew);
      var u := TriedRead(env, t, es[..n]);
      if TriedAt(env, u, es[n].svc) == -1 {
        SturdyTried(env, u, u.idCount, nNew, es[n]);
      }
    }
  }

  lemma {:induction false} RowReadSturdy(env: Env, t: State, cnt: nat, b: nat, row: seq<int>, usable: bool)
    requires Sturdy(env, t, cnt, t.nNew) && (usable ==> b < NEW_BUCKETS)
    ensures
      var u := RowRead(env, t, b, row, usable);
      Sturdy(env, u, cnt, t.nNew) && u.nNew == t.nNew && u.nTried == t.nTried && u.idCount == t.idCount
  {
    hide Sturdy, Position, At, SetSlot;
    if row != [] {
      var i := row[|row| - 1];
      RowReadSturdy(env, t, cnt, b, row[..|row| - 1], usable);
      var u := RowRead(env, t, b, row[..|row| - 1], usable);
      if && 0 <= i < u.nNew && i in u.info && usable
         && NewAt(env, u, u.info[i].entry.svc, b) == -1 && u.info[i].refCount < NEW_BUCKETS_PER_ADDRESS {
        SturdyOccupied(env, u, cnt, u.nNew, i, b);
      }
    }
  }

  lemma {:induction false} RowsReadSturdy(env: Env, t: State, cnt: nat, rows: seq<seq<int>>, usable: bool)
    requires Sturdy(env, t, cnt, t.nNew) && (usable ==> |rows| <= NEW_BUCKETS)
    ensures
      var u := RowsRead(env, t, rows, usable);
      Sturdy(env, u, cnt, t.nNew) && u.nNew == t.nNew && u.nTried == t.nTried && u.idCount == t.idCount
  {
    hide Sturdy;
    if rows != [] {
      var b := |rows| - 1;
      RowsReadSturdy(env, t, cnt, rows[..b], usable);
      RowReadSturdy(env, RowsRead(env, t, rows[..b], usable), cnt, b, rows[b], usable);
    }
  }

  // ---- mapAddr

  /** Every entry's address is known, and leads to an entry with that address. */
  ghost predicate Covered(t: State) {
    && (forall n :: n in t.info ==> t.info[n].entry.svc.addr in t.addrs)
    && (forall a :: a in t.addrs ==> t.addrs[a] in t.info && t.info[t.addrs[a]].entry.svc.addr == a)
  }

  lemma CoveredMore(t: State, u: State, n: int, e: Entry)
    requires Covered(t) && n !in t.info && n in u.info && u.info[n].entry == e
    requires u.addrs == t.addrs[e.svc.addr := n] && u.info.Keys == t.info.Keys + {n}
    requires forall k :: k in t.info ==> u.info[k].entry == t.info[k].entry
    ensures Covered(u)
  {
    forall a | a in u.addrs
      ensures u.addrs[a] in u.info && u.info[u.addrs[a]].entry.svc.addr == a
    {
      if a != e.svc.addr {
        var k := t.addrs[a];
        assert k in t.info && u.info[k].entry == t.info[k].entry;
      }
    }
    forall k | k in u.info
      ensures u.info[k].entry.svc.addr in u.addrs
    {
      assert k != n ==> k in t.info;
    }
  }

  lemma CoveredSame(t: State, u: State)
    requires Covered(t) && u.addrs == t.addrs && u.info.Keys == t.info.Keys
    requires forall k :: k in t.info ==> u.info[k].entry == t.info[k].entry
    ensures Covered(u)
  {
    forall a | a in u.addrs
      ensures u.addrs[a] in u.info && u.info[u.addrs[a]].entry.svc.addr == a
    {
      var k := t.addrs[a];
      assert k in t.info && u.info[k].entry == t.info[k].entry;
    }
    forall k | k in u.info
      ensures u.info[k].entry.svc.addr in u.addrs
    {
      assert k in t.info && u.info[k].entry == t.info[k].entry;
    }
  }

  lemma LoadedFacts(env: Env, t: State, n: int, e: Entry, usable: bool)
    requires n !in t.info
    ensures
      var u := if usable then LoadedNew(t, n, e) else LoadedBySource(env, t, n, e);
      && u.addrs == t.addrs[e.svc.addr := n] && u.info.Keys == t.info.Keys + {n} && u.info[n].entry == e
      && forall k :: k in t.info ==> u.info[k] == t.info[k]
  {
    hide NewBucket, At, SetSlot, Position;
  }

  lemma {:induction false} NewReadCovered(env: Env, t: State, es: seq<Entry>, usable: bool)
    requires Covered(t) && t.info == map[]
    ensures
      var u := NewRead(env, t, es, usable);
      Covered(u) && (forall i :: i in u.info <==> 0 <= i < |es|) && forall i :: 0 <= i < |es| ==> u.info[i].entry == es[i]
  {
    hide Covered, LoadedBySource, LoadedNew;
    if es != [] {
      var n := |es| - 1;
      NewReadCovered(env, t, es[..n], usable);
      var u := NewRead(env, t, es[..n], usable);
      LoadedFacts(env, u, n, es[n], usable);
      CoveredMore(u, NewRead(env, t, es, usable), n, es[n]);
    }
  }

  lemma {:induction false} TriedReadCovered(env: Env, t: State, es: seq<Entry>)
    requires Covered(t) && t.idCount >= 0 && forall i :: i in t.info <==> 0 <= i < t.idCount
    ensures
      var u := TriedRead(env, t, es);
      && Covered(u) && t.idCount <= u.idCount && (forall i :: i in u.info <==> 0 <= i < u.idCount)
      && (forall i :: i in t.info ==> u.info[i] == t.info[i])
      && (forall i :: i in u.info && i !in t.info ==> u.info[i].entry in es)
  {
    hide Covered, TriedAt, SetSlot, TriedBucket;
    if es != [] {
      var n := |es| - 1;
      TriedReadCovered(env, t, es[..n]);
      var u := TriedRead(env, t, es[..n]);
      assert forall e :: e in es[..n] ==> e in es;
      if TriedAt(env, u, es[n].svc) == -1 {
        var v := LoadedTried(env, u, es[n]);
        assert v.info.Keys == u.info.Keys + {u.idCount};
        CoveredMore(u, v, u.idCount, es[n]);
      }
    }
  }

  lemma {:induction false} RowReadSame(env: Env, t: State, b: nat, row: seq<int>, usable: bool)
    ensures
      var u := RowRead(env, t, b, row, usable);
      u.addrs == t.addrs && u.info.Keys == t.info.Keys && forall k :: k in t.info ==> u.info[k].entry == t.info[k].entry
  {
    hide Position, At, SetSlot;
    if row != [] {
      RowReadSame(env, t, b, row[..|row| - 1], usable);
    }
  }

  lemma {:induction false} RowsReadSame(env: Env, t: State, rows: seq<seq<int>>, usable: bool)
    ensures
      var u := RowsRead(env, t, rows, usable);
      u.addrs == t.addrs && u.info.Keys == t.info.Keys && forall k :: k in t.info ==> u.info[k].entry == t.info[k].entry
  {
    hide RowRead;
    if rows != [] {
      var b := |rows| - 1;
      RowsReadSame(env, t, rows[..b], usable);
      RowReadSame(env, RowsRead(env, t, rows[..b], usable), b, rows[b], usable);
    }
  }

  // ---- Pruning

  predicate InUse(i: Info) {
    i.inTried || i.refCount != 0
  }

  /** No address that two entries have is kept by either. */
  ghost predicate Unclashed(t: State) {
    forall i, j :: i in t.info && j in t.info && i != j && t.info[i].entry.svc.addr == t.info[j].entry.svc.addr ==>
      !InUse(t.info[i]) && !InUse(t.info[j])
  }

  /** u is t without the entries that are not in use, and without the addresses they had. */
  ghost predicate PrunedFrom(t: State, u: State) {
    && (forall n :: n in u.info <==> n in t.info && InUse(t.info[n]))
    && (forall n :: n in u.info ==> u.info[n].entry == t.info[n].entry)
    && (forall a :: a in u.addrs <==>
          a in t.addrs && forall n :: n in t.info && !InUse(t.info[n]) ==> t.info[n].entry.svc.addr != a)
    && (forall a :: a in u.addrs ==> u.addrs[a] == t.addrs[a])
  }

  lemma LinkedIsWired(env: Env, u: State, zero: set<int>)
    ensures Linked(env, u, zero, {}) <==> Wired(env, u, zero, {}) && Indexed(u)
  {
    hide Counted, NewSlots, TriedSlots, Ordered, Referenced;
  }

  /** What is left after pruning is consistent exactly when nothing clashed. */
  lemma ConsistentIffUnclashed(env: Env, t: State, u: State)
    requires Covered(t) && PrunedFrom(t, u) && Wired(env, u, {}, {})
    ensures Consistent(env, u) <==> Unclashed(t)
  {
    hide Wired, Linked;
    LinkedIsWired(env, u, {});
    assert Wired(env, u, {}, {}) ==> Ranged(u) by { WiredRanged(env, u); }
    if Unclashed(t) {
      forall n | n in u.info
        ensures u.info[n].entry.svc.addr in u.addrs && u.addrs[u.info[n].entry.svc.addr] == n
      {
        var a := t.info[n].entry.svc.addr;
        assert t.addrs[a] == n;
      }
      forall a | a in u.addrs
        ensures u.addrs[a] in u.info && u.info[u.addrs[a]].entry.svc.addr == a
      {
        assert t.addrs[a] in t.info;
      }
    }
    if Indexed(u) {
      forall i, j | i in t.info && j in t.info && i != j && t.info[i].entry.svc.addr == t.info[j].entry.svc.addr
        ensures !InUse(t.info[i])
      {
        OneEach(u, i, j, t.info[i].entry.svc.addr);
      }
    }
  }

  lemma OneEach(u: State, i: int, j: int, a: NetAddr)
    requires Indexed(u)
    ensures i in u.info && u.info[i].entry.svc.addr == a ==> a in u.addrs
    ensures i in u.info && j in u.info && u.info[i].entry.svc.addr == a && u.info[j].entry.svc.addr == a ==> i == j
  {
  }

  lemma WiredRanged(env: Env, u: State)
    requires Wired(env, u, {}, {})
    ensures Ranged(u)
  {
    hide Counted, NewSlots, TriedSlots, Ordered, Referenced;
  }

  lemma SwappedWired(env: Env, s: State, i: nat, j: nat, zero: set<int>)
    requires Wired(env, s, zero, {}) && i < |s.random| && j < |s.random|
    ensures Wired(env, Swapped(s, i, j), zero, {})
  {
    hide Counted, NewSlots, TriedSlots, Referenced, Ordered;
    SwappedOrdered(s, i, j);
    SwappedSame(s, i, j);
    var t := Swapped(s, i, j);
    SlotsKept(env, s, t);
    ReferencedKept(env, s, t, zero, {}, zero, {});
    SwappedTried(s, i, j);
    CountsKept(s, t, {});
  }

  lemma SwappedTried(s: State, i: nat, j: nat)
    ensures
      var t := Swapped(s, i, j);
      SameTried(s, t) && s.nTried == t.nTried && s.nNew == t.nNew && t.idCount == s.idCount && (Ranged(s) ==> Ranged(t))
  {
  }

  lemma DroppedWired(env: Env, s: State, n: int, zero: set<int>)
    requires Wired(env, s, zero, {}) && n in s.info && s.info[n].randomPos == |s.random| - 1 && !InUse(s.info[n])
    ensures Wired(env, Dropped(s, n), zero - {n}, {})
  {
    hide Counted;
    assert Buckets(env, s, n) == {};
    DroppedOrdered(s, n);
    DroppedSlots(env, s, n);
    DroppedReferenced(env, s, n, zero, {});
    DroppedCounts(s, n, {});
  }

  lemma DroppedOrdered(t: State, n: int)
    requires Ordered(t) && n in t.info && t.info[n].randomPos == |t.random| - 1
    ensures Ordered(Dropped(t, n))
  {
    var u := Dropped(t, n);
    forall i | 0 <= i < |u.random|
      ensures u.random[i] in u.info && u.info[u.random[i]].randomPos == i
    {
      var m := t.random[i];
      assert m in t.info && m != n;
    }
  }

  lemma SwappedToEnd(s: State, n: int)
    requires Ordered(s) && n in s.info
    ensures var t := Swapped(s, s.info[n].randomPos, |s.random| - 1);
            && n in t.info && t.info[n].randomPos == |t.random| - 1 && t.info.Keys == s.info.Keys
            && t.info[n].inTried == s.info[n].inTried && t.info[n].refCount == s.info[n].refCount
    ensures 0 <= s.info[n].randomPos < |s.random|
  {
  }

  lemma DeletedWired(env: Env, s: State, n: int, zero: set<int>)
    requires Wired(env, s, zero, {}) && n in s.info && !InUse(s.info[n])
    ensures Wired(env, Deleted(s, n), zero - {n}, {})
  {
    hide Wired, Swapped;
    assert Ordered(s) by { WiredOrdered(env, s, zero); }
    SwappedToEnd(s, n);
    SwappedWired(env, s, s.info[n].randomPos, |s.random| - 1, zero);
    DroppedWired(env, Swapped(s, s.info[n].randomPos, |s.random| - 1), n, zero);
  }

  lemma WiredOrdered(env: Env, s: State, zero: set<int>)
    requires Wired(env, s, zero, {})
    ensures Ordered(s)
  {
    hide Counted, NewSlots, TriedSlots, Referenced;
  }

  // ---- What a file says

  function Count(i: int): nat {
    if i < 0 then 0 else i
  }

  predicate HeaderOk(stream: seq<Token>) {
    && |stream| >= 6 && stream[0].U8? && stream[1] == U8(32) && stream[2].Key?
    && stream[3].I32? && stream[4].I32? && stream[5].I32?
    && stream[3].i <= NEW_BUCKETS * BUCKET_SIZE && stream[4].i <= TRIED_BUCKETS * BUCKET_SIZE
  }

  /** The number of buckets; version 0 wrote it plainly. */
  function BucketCount(stream: seq<Token>): int
    requires HeaderOk(stream)
  {
    if stream[0].n != 0 then Xor30(stream[5].i) else stream[5].i
  }

  /** Can the bucket data be used as they are? */
  predicate Usable(stream: seq<Token>)
    requires HeaderOk(stream)
  {
    stream[0].n == 1 && BucketCount(stream) == NEW_BUCKETS
  }

  ghost predicate ItemsAt(stream: seq<Token>, pos: nat, n: nat) {
    pos + n <= |stream| && forall i :: pos <= i < pos + n ==> stream[i].Item?
  }

  ghost function EntriesOf(stream: seq<Token>, pos: nat, n: nat): (es: seq<Entry>)
    requires ItemsAt(stream, pos, n)
    ensures |es| == n && forall i :: 0 <= i < n ==> es[i] == Persist(stream[pos + i].e)
  {
    seq(n, i requires 0 <= i < n => Persist(stream[pos + i].e))
  }

  ghost predicate RowAt(stream: seq<Token>, pos: nat) {
    && pos < |stream| && stream[pos].I32? && pos + 1 + Count(stream[pos].i) <= |stream|
    && forall i :: pos < i < pos + 1 + Count(stream[pos].i) ==> stream[i].I32?
  }

  ghost function RowOf(stream: seq<Token>, pos: nat): (row: seq<int>)
    requires RowAt(stream, pos)
    ensures |row| == Count(stream[pos].i) && forall i :: 0 <= i < |row| ==> row[i] == stream[pos + 1 + i].i
  {
    seq(Count(stream[pos].i), i requires 0 <= i < Count(stream[pos].i) => stream[pos + 1 + i].i)
  }

  datatype Parsed = Bad | Parsed(rows: seq<seq<int>>, end: nat)

  /** The rows of the first n buckets. */
  ghost function RowsAt(stream: seq<Token>, pos: nat, n: nat): (p: Parsed)
    ensures p.Parsed? ==> |p.rows| == n
  {
    if n == 0 then Parsed([], pos)
    else
      match RowsAt(stream, pos, n - 1)
      case Bad => Bad
      case Parsed(rows, end) =>
        if RowAt(stream, end) then Parsed(rows + [RowOf(stream, end)], end + 1 + Count(stream[end].i)) else Bad
  }

  /** The file is read to its end without an exception. */
  ghost predicate Accepts(stream: seq<Token>) {
    && HeaderOk(stream)
    && var nNew, nTried := Count(stream[3].i), Count(stream[4].i);
       ItemsAt(stream, 6, nNew) && ItemsAt(stream, 6 + nNew, nTried) &&
       RowsAt(stream, 6 + nNew + nTried, Count(BucketCount(stream))).Parsed?
  }

  /** The entries of both tables read into the cleared manager t. */
  ghost function Entered(env: Env, t: State, stream: seq<Token>): State
    requires Accepts(stream)
  {
    var nNew, nTried := Count(stream[3].i), Count(stream[4].i);
    var start := t.(key := stream[2].k, nNew := stream[3].i, nTried := stream[4].i);
    var u := NewRead(env, start, EntriesOf(stream, 6, nNew), Usable(stream));
    var v := TriedRead(env, u.(idCount := stream[3].i), EntriesOf(stream, 6 + nNew, nTried));
    v.(nTried := stream[4].i - (nTried - (v.idCount - stream[3].i)))
  }

  /** All that is read into the cleared manager t, before pruning. */
  ghost function Intake(env: Env, t: State, stream: seq<Token>): State
    requires Accepts(stream)
  {
    var nNew, nTried := Count(stream[3].i), Count(stream[4].i);
    RowsRead(env, Entered(env, t, stream), RowsAt(stream, 6 + nNew + nTried, Count(BucketCount(stream))).rows, Usable(stream))
  }

  ghost predicate CountersOk(stream: seq<Token>) {
    HeaderOk(stream) && stream[3].i >= 0 && stream[4].i >= 0
  }

  ghost predicate Blank(t: State) {
    && Shaped(t) && t.info == map[] && t.addrs == map[] && t.random == []
    && (forall b: nat, p: nat :: b < NEW_BUCKETS && p < BUCKET_SIZE ==> t.newT[b][p] == -1)
    && (forall b: nat, p: nat :: b < TRIED_BUCKETS && p < BUCKET_SIZE ==> t.triedT[b][p] == -1)
  }

  /** Whatever a file with sound counters says, all indexes but mapAddr come out wired. */
  lemma IntakeWired(env: Env, t: State, stream: seq<Token>)
    requires Blank(t) && Accepts(stream) && CountersOk(stream)
    ensures
      var u := Intake(env, t, stream);
      Wired(env, u, u.info.Keys, {}) && Covered(u) && u.nNew == stream[3].i
  {
    hide Wired, RowsAt, Sturdy, Covered, NewRead, TriedRead, RowsRead, Below;
    var nNew, nTried := stream[3].i, stream[4].i;
    var start := t.(key := stream[2].k, nNew := nNew, nTried := nTried);
    var es, fs := EntriesOf(stream, 6, nNew), EntriesOf(stream, 6 + nNew, nTried);
    var rows := RowsAt(stream, 6 + nNew + nTried, Count(BucketCount(stream))).rows;
    SturdyStart(env, start, nNew);
    NewReadSturdy(env, start, es, Usable(stream), nNew);
    BlankCovered(start);
    NewReadCovered(env, start, es, Usable(stream));
    var u := NewRead(env, start, es, Usable(stream)).(idCount := nNew);
    CoveredSame(NewRead(env, start, es, Usable(stream)), u);
    SturdyCounters(env, NewRead(env, start, es, Usable(stream)), u, nNew, nNew);
    TriedReadSturdy(env, u, fs, nNew);
    TriedReadCovered(env, u, fs);
    var v := TriedRead(env, u, fs);
    var w := Entered(env, t, stream);
    CoveredSame(v, w);
    SturdyCounters(env, v, w, w.idCount, nNew);
    RowsReadSturdy(env, w, w.idCount, rows, Usable(stream));
    RowsReadSame(env, w, rows, Usable(stream));
    CoveredSame(w, Intake(env, t, stream));
    SturdyDone(env, Intake(env, t, stream), w.idCount);
  }

  lemma BlankCovered(t: State)
    requires t.info == map[] && t.addrs == map[]
    ensures Covered(t)
  {
  }

  lemma SturdyCounters(env: Env, t: State, u: State, cnt: nat, nNew: int)
    requires Sturdy(env, t, cnt, nNew) && u.(idCount := t.idCount, nTried := t.nTried) == t
    ensures Sturdy(env, u, cnt, nNew)
  {
    hide Wired, Below;
    assert Tallied(u, cnt, nNew) == Tallied(t, cnt, nNew);
  }

  lemma SturdyDone(env: Env, t: State, cnt: nat)
    requires Sturdy(env, t, cnt, t.nNew) && 0 <= t.nNew <= cnt == t.idCount && t.nTried == cnt - t.nNew
    ensures Wired(env, t, t.info.Keys, {})
  {
    hide Wired, Below;
    assert Tallied(t, cnt, t.nNew) == t;
    Excused(env, t, Below(t.nNew), t.info.Keys);
  }

  // ---- Reading a file piece by piece

  lemma EntriesOneMore(stream: seq<Token>, start: nat, n: nat)
    requires ItemsAt(stream, start, n) && start + n < |stream| && stream[start + n].Item?
    ensures ItemsAt(stream, start, n + 1) && EntriesOf(stream, start, n + 1)[..n] == EntriesOf(stream, start, n)
  {
  }

  lemma NothingRead(env: Env, t: State, stream: seq<Token>, start: nat, usable: bool)
    requires start <= |stream|
    ensures ItemsAt(stream, start, 0) && RowsAt(stream, start, 0) == Parsed([], start)
    ensures NewRead(env, t, EntriesOf(stream, start, 0), usable) == t && TriedRead(env, t, EntriesOf(stream, start, 0)) == t
    ensures RowsRead(env, t, RowsAt(stream, start, 0).rows, usable) == t
  {
  }

  lemma NewReadNext(env: Env, t: State, stream: seq<Token>, start: nat, n: nat, usable: bool)
    requires ItemsAt(stream, start, n) && start + n < |stream| && stream[start + n].Item?
    ensures ItemsAt(stream, start, n + 1)
    ensures
      var u, e := NewRead(env, t, EntriesOf(stream, start, n), usable), Persist(stream[start + n].e);
      NewRead(env, t, EntriesOf(stream, start, n + 1), usable) == if usable then LoadedNew(u, n, e) else LoadedBySource(env, u, n, e)
  {
    hide LoadedNew, LoadedBySource, Persist;
    EntriesOneMore(stream, start, n);
  }

  lemma TriedReadNext(env: Env, t: State, stream: seq<Token>, start: nat, n: nat)
    requires ItemsAt(stream, start, n) && start + n < |stream| && stream[start + n].Item?
    ensures ItemsAt(stream, start, n + 1)
    ensures
      var u, e := TriedRead(env, t, EntriesOf(stream, start, n)), Persist(stream[start + n].e);
      TriedRead(env, t, EntriesOf(stream, start, n + 1)) == if TriedAt(env, u, e.svc) == -1 then LoadedTried(env, u, e) else u
  {
    hide LoadedTried, TriedAt, Persist;
    EntriesOneMore(stream, start, n);
  }

  /** The first n references of the row at start. */
  ghost predicate IndicesRead(stream: seq<Token>, start: nat, n: nat) {
    start + 1 + n <= |stream| && forall i :: start < i < start + 1 + n ==> stream[i].I32?
  }

  ghost function IndicesOf(stream: seq<Token>, start: nat, n: nat): (row: seq<int>)
    requires IndicesRead(stream, start, n)
    ensures |row| == n && forall i :: 0 <= i < n ==> row[i] == stream[start + 1 + i].i
  {
    seq(n, i requires 0 <= i < n => stream[start + 1 + i].i)
  }

  lemma IndicesOneMore(stream: seq<Token>, start: nat, n: nat)
    requires IndicesRead(stream, start, n) && start + 1 + n < |stream| && stream[start + 1 + n].I32?
    ensures IndicesRead(stream, start, n + 1) && IndicesOf(stream, start, n + 1)[..n] == IndicesOf(stream, start, n)
  {
  }

  lemma RowsOneMore(stream: seq<Token>, start: nat, n: nat)
    requires RowsAt(stream, start, n).Parsed?
    ensures
      var p := RowsAt(stream, start, n);
      RowsAt(stream, start, n + 1) ==
      if RowAt(stream, p.end) then Parsed(p.rows + [RowOf(stream, p.end)], p.end + 1 + Count(stream[p.end].i)) else Bad
  {
  }

  lemma RowsReadNext(env: Env, t: State, stream: seq<Token>, start: nat, n: nat, usable: bool)
    requires RowsAt(stream, start, n).Parsed? && RowAt(stream, RowsAt(stream, start, n).end)
    ensures
      var p := RowsAt(stream, start, n);
      && RowsAt(stream, start, n + 1).Parsed?
      && RowsRead(env, t, RowsAt(stream, start, n + 1).rows, usable) ==
         RowRead(env, RowsRead(env, t, p.rows, usable), n, RowOf(stream, p.end), usable)
  {
    hide RowsAt, RowAt, RowRead;
    RowsOneMore(stream, start, n);
    var rows := RowsAt(stream, start, n).rows;
    assert RowsAt(stream, start, n + 1).rows[..n] == rows;
  }

  lemma {:induction false} BadStays(stream: seq<Token>, start: nat, n: nat, k: nat)
    requires n <= k && RowsAt(stream, start, n).Bad?
    ensures RowsAt(stream, start, k).Bad?
    decreases k
  {
    if n < k {
      BadStays(stream, start, n, k - 1);
    }
  }

  lemma {:induction false} RowReadKeepsIds(env: Env, t: State, b: nat, row: seq<int>, usable: bool)
    ensures RowRead(env, t, b, row, usable).idCount == t.idCount && RowRead(env, t, b, row, usable).nTried == t.nTried
  {
    hide Position, At, SetSlot;
    if row != [] {
      RowReadKeepsIds(env, t, b, row[..|row| - 1], usable);
    }
  }

  lemma {:induction false} RowsReadKeepsIds(env: Env, t: State, rows: seq<seq<int>>, usable: bool)
    ensures RowsRead(env, t, rows, usable).idCount == t.idCount && RowsRead(env, t, rows, usable).nTried == t.nTried
  {
    hide RowRead;
    if rows != [] {
      var b := |rows| - 1;
      RowsReadKeepsIds(env, t, rows[..b], usable);
      RowReadKeepsIds(env, RowsRead(env, t, rows[..b], usable), b, rows[b], usable);
    }
  }
}
