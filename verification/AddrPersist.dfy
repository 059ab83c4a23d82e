/**
 CAddrMan::Serialize and CAddrMan::Unserialize (src/addrman.h). Reading back
 what a consistent manager wrote restores its address book and loses nothing;
 reading anything else never trips an assertion.
 */
module AddrPersist {
  import opened Collections
  import opened AddrTypes
  import opened AddrState
  import opened AddrView
  import opened AddrCodec
  import opened AddrIntake
  import opened AddrGenuine
  import opened AddrMan
  import B = AddrBook

  // ---- Writing

  /** The keys of a std::map in iteration order. */
  method InOrder(keys: set<int>) returns (q: seq<int>)
    ensures q == Sorted(keys)
  {
    hide Sorted;
    q := [];
    var rest := keys;
    while rest != {}
      invariant q + Sorted(rest) == Sorted(keys)
      decreases |rest|
    {
      B.HasLeast(rest);
      var x :| x in rest && forall y :: y in rest ==> x <= y;
      SortedFrom(rest, x);
      SplitAgain(q, x, Sorted(rest - {x}));
      q, rest := q + [x], rest - {x};
    }
    SortedNone();
  }

  lemma SortedFrom(s: set<int>, x: int)
    requires x in s && forall y :: y in s ==> x <= y
    ensures Sorted(s) == [x] + Sorted(s - {x})
  {
    hide Sorted;
    assert B.Least(s) == x;
    SortedNext(s);
  }

  lemma SplitAgain(q: seq<int>, x: int, rest: seq<int>)
    ensures q + ([x] + rest) == q + [x] + rest
  {
  }

  lemma SortedNone()
    ensures Sorted({}) == []
  {
  }

  lemma KeepSnoc(s: State, ids: seq<int>, tried: bool)
    requires ids != [] && forall j :: 0 <= j < |ids| ==> ids[j] in s.info
    ensures Keep(s, ids[..|ids| - 1], tried) <= Keep(s, ids, tried)
  {
  }

  lemma {:induction false} KeepPrefix(s: State, ids: seq<int>, i: nat, tried: bool)
    requires (forall j :: 0 <= j < |ids| ==> ids[j] in s.info) && i <= |ids|
    ensures Keep(s, ids[..i], tried) <= Keep(s, ids, tried)
    decreases |ids|
  {
    hide Keep;
    if i < |ids| {
      KeepPrefix(s, ids[..|ids| - 1], i, tried);
      KeepSnoc(s, ids, tried);
      assert ids[..|ids| - 1][..i] == ids[..i];
    } else {
      assert ids[..i] == ids;
    }
  }

  lemma KeepNext(s: State, ids: seq<int>, i: nat, tried: bool)
    requires (forall j :: 0 <= j < |ids| ==> ids[j] in s.info) && i < |ids|
    ensures Keep(s, ids[..i + 1], tried) ==
            if s.info[ids[i]].inTried == tried then Keep(s, ids[..i], tried) + [ids[i]] else Keep(s, ids[..i], tried)
    ensures s.info[ids[i]].inTried == tried ==>
              |Keep(s, ids[..i], tried)| < |Keep(s, ids, tried)| && Keep(s, ids, tried)[|Keep(s, ids[..i], tried)|] == ids[i]
  {
    assert ids[..i + 1][..i] == ids[..i];
    KeepPrefix(s, ids, i + 1, tried);
  }

  lemma EntriesNext(s: State, ids: seq<int>, n: int)
    requires (forall i :: 0 <= i < |ids| ==> ids[i] in s.info) && n in s.info
    ensures Entries(s, ids + [n]) == Entries(s, ids) + [Item(Persist(s.info[n].entry))]
  {
  }

  /** The entries of the new table in key order, and the index given to each. */
  method WriteNew(m: AddrMan, keys: seq<int>) returns (out: seq<Token>, unkIds: map<int, int>)
    requires m.Valid() && keys == Sorted(m.mapInfo.Keys)
    ensures out == Entries(m.St(), NewOrder(m.St()))
    ensures forall n :: n in NewOrder(m.St()) ==> n in unkIds && unkIds[n] == IndexOf(NewOrder(m.St()), n)
  {
    hide Linked, AddrMan.Mirrored, Sorted, Keep, Entries, IndexOf;
    ghost var s := m.St();
    CountedFacts(m.env, s);
    EntriesNone(s, keys, false);
    out, unkIds := [], map[];
    var nIds := 0;
    ghost var done: seq<int> := [];
    for i := 0 to |keys|
      invariant done == Keep(s, keys[..i], false) && nIds == |done|
      invariant out == Entries(s, done)
      invariant forall n :: n in done ==> n in unkIds && unkIds[n] == IndexOf(NewOrder(s), n)
    {
      var n := keys[i];
      WriteStep(s, keys, i, false);
      unkIds := unkIds[n := nIds];
      if m.mapInfo[n].refCount != 0 {
        assert nIds != m.nNew;
        out := out + [Item(Persist(m.mapInfo[n].entry))];
        nIds := nIds + 1;
        done := done + [n];
      }
    }
    assert keys[..|keys|] == keys;
  }

  /** The entries of the tried table in key order. */
  method WriteTried(m: AddrMan, keys: seq<int>) returns (out: seq<Token>)
    requires m.Valid() && keys == Sorted(m.mapInfo.Keys)
    ensures out == Entries(m.St(), TriedOrder(m.St()))
  {
    hide Linked, AddrMan.Mirrored, Sorted, Keep, Entries, IndexOf;
    ghost var s := m.St();
    TriedFacts(m.env, s);
    EntriesNone(s, keys, true);
    out := [];
    var nIds := 0;
    ghost var done: seq<int> := [];
    for i := 0 to |keys|
      invariant done == Keep(s, keys[..i], true) && nIds == |done|
      invariant out == Entries(s, done)
    {
      var n := keys[i];
      WriteStep(s, keys, i, true);
      if m.mapInfo[n].inTried {
        assert nIds != m.nTried;
        out := out + [Item(Persist(m.mapInfo[n].entry))];
        nIds := nIds + 1;
        done := done + [n];
      }
    }
    assert keys[..|keys|] == keys;
  }

  lemma WriteStep(s: State, keys: seq<int>, i: nat, tried: bool)
    requires (forall j :: 0 <= j < |keys| ==> keys[j] in s.info) && i < |keys|
    requires Distinct(Keep(s, keys, tried))
    ensures var done := Keep(s, keys[..i], tried);
            var n := keys[i];
            if s.info[n].inTried == tried then
              && Keep(s, keys[..i + 1], tried) == done + [n]
              && Entries(s, done + [n]) == Entries(s, done) + [Item(Persist(s.info[n].entry))]
              && |done| < |Keep(s, keys, tried)|
              && n in Keep(s, keys, tried) && IndexOf(Keep(s, keys, tried), n) == |done|
              && n !in done
            else
              && Keep(s, keys[..i + 1], tried) == done
              && n !in done
  {
    KeepNext(s, keys, i, tried);
    var done := Keep(s, keys[..i], tried);
    if s.info[keys[i]].inTried == tried {
      EntriesNext(s, done, keys[i]);
      IndexIs(Keep(s, keys, tried), |done|);
      KeepPrefix(s, keys, i, tried);
    }
  }

  lemma EntriesNone(s: State, keys: seq<int>, tried: bool)
    requires forall i :: 0 <= i < |keys| ==> keys[i] in s.info
    ensures Keep(s, keys[..0], tried) == [] && Entries(s, []) == []
  {
  }

  lemma TriedFacts(env: Env, s: State)
    requires Consistent(env, s)
    ensures |TriedOrder(s)| == s.nTried && Distinct(TriedOrder(s))
    ensures forall i :: 0 <= i < |Sorted(s.info.Keys)| ==> Sorted(s.info.Keys)[i] in s.info
  {
    hide NewSlots, TriedSlots, Ordered, Indexed, Sorted, Keep;
    OrderFacts(s);
    KeysOrdered(s);
  }

  method WriteRow(m: AddrMan, unkIds: map<int, int>, bucket: nat) returns (out: seq<Token>)
    requires m.Valid() && bucket < NEW_BUCKETS && bucket < |m.newT|
    requires forall n :: n in NewOrder(m.St()) ==> n in unkIds && unkIds[n] == IndexOf(NewOrder(m.St()), n)
    ensures var indices := Indices(NewOrder(m.St()), m.newT[bucket]);
            out == [I32(|indices|)] + indices
  {
    hide Linked, AddrMan.Mirrored, IndexOf, NewOrder, Indices;
    ghost var s := m.St();
    ghost var order, row := NewOrder(s), m.newT[bucket];
    NewSlotFacts(m.env, s);
    IndicesNone(order, row);
    var nSize := 0;
    for i := 0 to BUCKET_SIZE
      invariant nSize == |Indices(order, row[..i])|
    {
      IndicesNext(order, row, i);
      var n := m.GetNew(bucket, i);
      if n != -1 {
        nSize := nSize + 1;
      }
    }
    out := [I32(nSize)];
    for i := 0 to BUCKET_SIZE
      invariant out == [I32(nSize)] + Indices(order, row[..i])
    {
      IndicesNext(order, row, i);
      var n := m.GetNew(bucket, i);
      if n != -1 {
        out := out + [I32(unkIds[n])];
      }
    }
    assert row[..BUCKET_SIZE] == row;
  }

  lemma IndicesNone(order: seq<int>, row: seq<int>)
    ensures Indices(order, row[..0]) == []
  {
  }

  method Serialize(m: AddrMan) returns (out: seq<Token>)
    requires m.Valid()
    ensures out == Encode(m.St())
    ensures |out| >= 6 && out[..6] == [U8(1), U8(32), Key(m.nKey), I32(m.nNew), I32(m.nTried), I32(1_073_742_848)]
  {
    hide Linked, NewOrder, TriedOrder, Entries, Indices, Sorted;
    ghost var s := m.St();
    var keys := InOrder(m.mapInfo.Keys);
    out := [U8(1), U8(32), Key(m.nKey), I32(m.nNew), I32(m.nTried), I32(Xor30(NEW_BUCKETS))];
    var news, unkIds := WriteNew(m, keys);
    var tried := WriteTried(m, keys);
    out := out + news + tried;
    for bucket := 0 to NEW_BUCKETS
      invariant out + Rows(s, bucket) == Encode(s)
    {
      var row := WriteRow(m, unkIds, bucket);
      assert out + (row + Rows(s, bucket + 1)) == (out + row) + Rows(s, bucket + 1);
      out := out + row;
    }
    assert Rows(s, NEW_BUCKETS) == [];
  }

  // ---- Reading

  lemma LoadedNewOrdered(t: State, n: int, e: Entry)
    requires Ordered(t) && n !in t.info
    ensures Ordered(LoadedNew(t, n, e))
  {
    LoadedOrdered(t, LoadedNew(t, n, e), n);
  }

  lemma LoadedTriedOrdered(env: Env, t: State, e: Entry)
    requires Ordered(t) && t.idCount !in t.info
    ensures Ordered(LoadedTried(env, t, e))
  {
    LoadedOrdered(t, LoadedTried(env, t, e), t.idCount);
  }

  lemma LoadedOrdered(t: State, u: State, n: int)
    requires Ordered(t) && n !in t.info && n in u.info
    requires u.info == t.info[n := u.info[n]] && u.info[n].randomPos == |t.random| && u.random == t.random + [n]
    ensures Ordered(u)
  {
    forall i | 0 <= i < |u.random|
      ensures u.random[i] in u.info && u.info[u.random[i]].randomPos == i
    {
      var m := u.random[i];
      if i < |t.random| {
        assert m in t.info;
      }
    }
  }

  /** The n-th new entry enters the indexes; without usable bucket data it is placed by its own source. */
  method LoadNew(m: AddrMan, n: int, e: Entry, usable: bool)
    requires m.Mirrored() && Ordered(m.St()) && n !in m.mapInfo
    modifies m`mapInfo, m`mapAddr, m`vRandom, m`newT, m.vvNew
    ensures m.Mirrored() && Ordered(m.St()) && m.mapInfo.Keys == old(m.mapInfo.Keys) + {n}
    ensures m.St() == if usable then LoadedNew(old(m.St()), n, e) else LoadedBySource(m.env, old(m.St()), n, e)
  {
    hide AddrMan.Mirrored, Ordered, At, SetSlot, Position, NewBucket;
    LoadedNewOrdered(m.St(), n, e);
    m.mapInfo := m.mapInfo[n := Info(e, 0, false, -1)];
    m.mapAddr := m.mapAddr[e.svc.addr := n];
    m.mapInfo := m.mapInfo[n := m.mapInfo[n].(randomPos := |m.vRandom|)];
    m.vRandom := m.vRandom + [n];
    ghost var t := m.St();
    assert t == LoadedNew(old(m.St()), n, e);
    if !usable {
      var uBucket := NewBucket(m.env, m.nKey, e.svc, e.source);
      var uPos := Position(m.env, m.nKey, e.svc, true, uBucket);
      var held := m.GetNew(uBucket, uPos);
      if held == -1 {
        m.SetNew(uBucket, uPos, n);
        m.mapInfo := m.mapInfo[n := m.mapInfo[n].(refCount := m.mapInfo[n].refCount + 1)];
        OrderedKept(t, m.St());
      }
    }
  }

  method ReadNew(m: AddrMan, stream: seq<Token>, start: nat, usable: bool) returns (ok: bool, pos: nat)
    requires m.Mirrored() && Ordered(m.St()) && m.mapInfo == map[] && start <= |stream|
    modifies m`mapInfo, m`mapAddr, m`vRandom, m`newT, m.vvNew
    ensures m.Mirrored() && Ordered(m.St()) && pos <= |stream|
    ensures ok ==> forall i :: i in m.mapInfo <==> 0 <= i < m.nNew
    ensures ok <==> ItemsAt(stream, start, Count(m.nNew))
    ensures ok ==> pos == start + Count(m.nNew)
    ensures ok ==> m.St() == NewRead(m.env, old(m.St()), EntriesOf(stream, start, Count(m.nNew)), usable)
  {
    hide AddrMan.Mirrored, Ordered, LoadedNew, LoadedBySource, NewRead;
    pos := start;
    NothingRead(m.env, m.St(), stream, start, usable);
    var n := 0;
    while n < m.nNew
      invariant m.Mirrored() && Ordered(m.St()) && pos <= |stream| && 0 <= n && (n <= m.nNew || n == 0)
      invariant forall i :: i in m.mapInfo <==> 0 <= i < n
      invariant pos == start + n && ItemsAt(stream, start, n)
      invariant m.St() == NewRead(m.env, old(m.St()), EntriesOf(stream, start, n), usable)
    {
      if pos >= |stream| || !stream[pos].Item? {
        return false, pos;
      }
      NewReadNext(m.env, old(m.St()), stream, start, n, usable);
      LoadNew(m, n, Persist(stream[pos].e), usable);
      pos := pos + 1;
      n := n + 1;
    }
    ok := true;
  }

  method ReadTried(m: AddrMan, stream: seq<Token>, start: nat) returns (ok: bool, pos: nat, nLost: nat)
    requires m.Mirrored() && Ordered(m.St()) && start <= |stream|
    requires forall i :: i in m.mapInfo ==> i < m.nIdCount
    modifies m`mapInfo, m`mapAddr, m`vRandom, m`triedT, m`nIdCount, m.vvTried
    ensures m.Mirrored() && Ordered(m.St()) && pos <= |stream|
    ensures old(m.mapInfo.Keys) <= m.mapInfo.Keys
    ensures ok <==> ItemsAt(stream, start, Count(m.nTried))
    ensures ok ==> pos == start + Count(m.nTried) && nLost == Count(m.nTried) - (m.nIdCount - old(m.nIdCount))
    ensures ok ==> m.St() == TriedRead(m.env, old(m.St()), EntriesOf(stream, start, Count(m.nTried)))
  {
    hide AddrMan.Mirrored, Ordered, At, SetSlot, Position, TriedBucket, TriedRead;
    pos, nLost := start, 0;
    NothingRead(m.env, m.St(), stream, start, false);
    var n := 0;
    while n < m.nTried
      invariant m.Mirrored() && Ordered(m.St()) && pos <= |stream| && 0 <= n && (n <= m.nTried || n == 0)
      invariant old(m.mapInfo.Keys) <= m.mapInfo.Keys
      invariant forall i :: i in m.mapInfo ==> i < m.nIdCount
      invariant pos == start + n && ItemsAt(stream, start, n) && nLost == n - (m.nIdCount - old(m.nIdCount))
      invariant m.St() == TriedRead(m.env, old(m.St()), EntriesOf(stream, start, n))
    {
      if pos >= |stream| || !stream[pos].Item? {
        return false, pos, nLost;
      }
      TriedReadNext(m.env, old(m.St()), stream, start, n);
      var e := Persist(stream[pos].e);
      var kBucket := TriedBucket(m.env, m.nKey, e.svc);
      var kPos := Position(m.env, m.nKey, e.svc, false, kBucket);
      var held := m.GetTried(kBucket, kPos);
      if held == -1 {
        LoadTried(m, e, kBucket, kPos);
      } else {
        nLost := nLost + 1;
      }
      pos := pos + 1;
      n := n + 1;
    }
    ok := true;
  }

  /** A tried entry enters the indexes and its slot. */
  method LoadTried(m: AddrMan, e: Entry, kBucket: nat, kPos: nat)
    requires m.Mirrored() && Ordered(m.St()) && m.nIdCount !in m.mapInfo
    requires kBucket == TriedBucket(m.env, m.nKey, e.svc) && kPos == Position(m.env, m.nKey, e.svc, false, kBucket)
    modifies m`mapInfo, m`mapAddr, m`vRandom, m`triedT, m`nIdCount, m.vvTried
    ensures m.Mirrored() && Ordered(m.St()) && m.St() == LoadedTried(m.env, old(m.St()), e)
  {
    hide AddrMan.Mirrored, Ordered, At, SetSlot, Position, TriedBucket;
    LoadedTriedOrdered(m.env, m.St(), e);
    var info := Info(e, 0, false, |m.vRandom|).(inTried := true);
    m.vRandom := m.vRandom + [m.nIdCount];
    m.mapInfo := m.mapInfo[m.nIdCount := info];
    m.mapAddr := m.mapAddr[e.svc.addr := m.nIdCount];
    m.SetTried(kBucket, kPos, m.nIdCount);
    m.nIdCount := m.nIdCount + 1;
  }

  // ---- Bucket data

  /** One index of bucket b: the entry takes its slot there, if that is free and its count allows. */
  method LoadIndex(m: AddrMan, bucket: nat, nIndex: int, usable: bool)
    requires m.Mirrored() && Ordered(m.St()) && (usable ==> bucket < NEW_BUCKETS)
    requires forall i :: 0 <= i < m.nNew ==> i in m.mapInfo
    modifies m`mapInfo, m`newT, m.vvNew
    ensures m.Mirrored() && Ordered(m.St()) && m.mapInfo.Keys == old(m.mapInfo.Keys)
    ensures m.St() == LoadedIndex(m.env, old(m.St()), bucket, nIndex, usable)
  {
    hide AddrMan.Mirrored, Ordered, At, SetSlot, Position;
    if 0 <= nIndex < m.nNew {
      var uPos := Position(m.env, m.nKey, m.mapInfo[nIndex].entry.svc, true, bucket);
      if usable {
        var held := m.GetNew(bucket, uPos);
        if held == -1 && m.mapInfo[nIndex].refCount < NEW_BUCKETS_PER_ADDRESS {
          m.mapInfo := m.mapInfo[nIndex := m.mapInfo[nIndex].(refCount := m.mapInfo[nIndex].refCount + 1)];
          m.SetNew(bucket, uPos, nIndex);
          OrderedKept(old(m.St()), m.St());
          assert m.St() == Occupied(m.env, old(m.St()), nIndex, bucket);
        }
      }
    }
  }

  method ReadRow(m: AddrMan, stream: seq<Token>, start: nat, bucket: nat, usable: bool) returns (ok: bool, pos: nat)
    requires m.Mirrored() && Ordered(m.St()) && start <= |stream| && (usable ==> bucket < NEW_BUCKETS)
    requires forall i :: 0 <= i < m.nNew ==> i in m.mapInfo
    modifies m`mapInfo, m`newT, m.vvNew
    ensures m.Mirrored() && Ordered(m.St()) && m.mapInfo.Keys == old(m.mapInfo.Keys) && pos <= |stream|
    ensures ok <==> RowAt(stream, start)
    ensures ok ==> pos == start + 1 + Count(stream[start].i) && m.St() == RowRead(m.env, old(m.St()), bucket, RowOf(stream, start), usable)
  {
    hide AddrMan.Mirrored, Ordered, LoadedIndex;
    pos := start;
    if pos >= |stream| || !stream[pos].I32? {
      return false, pos;
    }
    var nSize := stream[pos].i;
    pos := pos + 1;
    assert IndicesOf(stream, start, 0) == [];
    var n := 0;
    while n < nSize
      invariant m.Mirrored() && Ordered(m.St()) && m.mapInfo.Keys == old(m.mapInfo.Keys) && pos <= |stream|
      invariant 0 <= n <= Count(nSize) && pos == start + 1 + n && IndicesRead(stream, start, n)
      invariant m.St() == RowRead(m.env, old(m.St()), bucket, IndicesOf(stream, start, n), usable)
    {
      if pos >= |stream| || !stream[pos].I32? {
        return false, pos;
      }
      IndicesOneMore(stream, start, n);
      LoadIndex(m, bucket, stream[pos].i, usable);
      pos := pos + 1;
      n := n + 1;
    }
    ok := true;
    assert IndicesOf(stream, start, n) == RowOf(stream, start);
  }

  method ReadRows(m: AddrMan, stream: seq<Token>, start: nat, nUBuckets: int, usable: bool) returns (ok: bool, pos: nat)
    requires m.Mirrored() && Ordered(m.St()) && start <= |stream| && (usable ==> nUBuckets == NEW_BUCKETS)
    requires forall i :: 0 <= i < m.nNew ==> i in m.mapInfo
    modifies m`mapInfo, m`newT, m.vvNew
    ensures m.Mirrored() && Ordered(m.St()) && m.mapInfo.Keys == old(m.mapInfo.Keys) && pos <= |stream|
    ensures ok <==> RowsAt(stream, start, Count(nUBuckets)).Parsed?
    ensures ok ==>
              var p := RowsAt(stream, start, Count(nUBuckets));
              pos == p.end && m.St() == RowsRead(m.env, old(m.St()), p.rows, usable)
  {
    hide AddrMan.Mirrored, Ordered, RowRead, RowAt, RowsAt, RowsRead;
    pos := start;
    NothingRead(m.env, m.St(), stream, start, usable);
    var bucket := 0;
    while bucket < nUBuckets
      invariant m.Mirrored() && Ordered(m.St()) && m.mapInfo.Keys == old(m.mapInfo.Keys) && pos <= |stream|
      invariant 0 <= bucket <= Count(nUBuckets)
      invariant RowsAt(stream, start, bucket).Parsed? && pos == RowsAt(stream, start, bucket).end
      invariant m.St() == RowsRead(m.env, old(m.St()), RowsAt(stream, start, bucket).rows, usable)
    {
      RowsOneMore(stream, start, bucket);
      if RowAt(stream, pos) {
        RowsReadNext(m.env, old(m.St()), stream, start, bucket, usable);
      }
      ok, pos := ReadRow(m, stream, pos, bucket, usable);
      if !ok {
        BadStays(stream, start, bucket + 1, Count(nUBuckets));
        return false, pos;
      }
      bucket := bucket + 1;
    }
    ok := true;
  }

  // ---- Pruning

  lemma SwappedLast(s: State, n: int)
    requires Ordered(s) && n in s.info
    ensures var t := Swapped(s, s.info[n].randomPos, |s.random| - 1);
            Ordered(t) && n in t.info && t.info[n].randomPos == |t.random| - 1 && t.info.Keys == s.info.Keys
  {
    hide Swapped, Ordered;
    SwappedToEnd(s, n);
    SwappedOrdered(s, s.info[n].randomPos, |s.random| - 1);
    SwappedSame(s, s.info[n].randomPos, |s.random| - 1);
  }

  lemma DeletedOrdered(s: State, n: int)
    requires Ordered(s) && n in s.info
    ensures Ordered(Deleted(s, n)) && Deleted(s, n).info.Keys == s.info.Keys - {n}
  {
    hide Swapped, Ordered;
    SwappedLast(s, n);
    var t := Swapped(s, s.info[n].randomPos, |s.random| - 1);
    DroppedOrdered(t, n);
  }

  /** Only the place in vRandom may differ. */
  ghost predicate Kept(info: map<int, Info>, n: int, i: Info) {
    n in info && info[n].(randomPos := 0) == i.(randomPos := 0)
  }

  lemma DeletedRest(s: State, n: int)
    requires n in s.info
    ensures Deleted(s, n).nNew == s.nNew - 1 && Deleted(s, n).info.Keys == s.info.Keys - {n}
    ensures Deleted(s, n).addrs == s.addrs - {s.info[n].entry.svc.addr}
    ensures forall k :: k in s.info && k != n ==> Kept(Deleted(s, n).info, k, s.info[k])
  {
  }

  /** The first i keys are dealt with: entries in use stay as they were, the others are gone and counted. */
  ghost predicate Pruning(t: State, keys: seq<int>, i: nat, u: State, lost: nat) {
    && i <= |keys| && u.info.Keys <= t.info.Keys
    && (forall n :: n in u.info ==> Kept(t.info, n, u.info[n]))
    && (forall j :: 0 <= j < |keys| && keys[j] in t.info ==> (keys[j] in u.info <==> j >= i || InUse(t.info[keys[j]])))
    && lost + |u.info.Keys| == |t.info.Keys| && u.nNew == t.nNew - lost
  }

  /** The addresses of the first i keys are forgotten where the entry is not in use. */
  ghost predicate Forgetting(t: State, keys: seq<int>, i: nat, addrs: map<NetAddr, int>) {
    && i <= |keys|
    && (forall a :: a in addrs <==> a in t.addrs && forall j :: 0 <= j < i && keys[j] in t.info && !InUse(t.info[keys[j]]) ==>
                                                       t.info[keys[j]].entry.svc.addr != a)
    && (forall a :: a in addrs ==> addrs[a] == t.addrs[a])
  }

  lemma PruneStep(t: State, keys: seq<int>, i: nat, s: State, lost: nat)
    requires i < |keys| && Distinct(keys) && Pruning(t, keys, i, s, lost) && keys[i] in t.info
    ensures keys[i] in s.info && (InUse(s.info[keys[i]]) <==> InUse(t.info[keys[i]])) && s.info[keys[i]].entry == t.info[keys[i]].entry
    ensures if InUse(s.info[keys[i]]) then Pruning(t, keys, i + 1, s, lost)
            else Pruning(t, keys, i + 1, Deleted(s, keys[i]), lost + 1)
  {
    hide Deleted;
    var n := keys[i];
    assert n in s.info && Kept(t.info, n, s.info[n]);
    if !InUse(s.info[n]) {
      DeletedRest(s, n);
      assert |s.info.Keys - {n}| == |s.info.Keys| - 1;
    }
  }

  lemma ForgetStep(t: State, keys: seq<int>, i: nat, s: State)
    requires i < |keys| && Forgetting(t, keys, i, s.addrs) && keys[i] in t.info
    requires keys[i] in s.info && (InUse(s.info[keys[i]]) <==> InUse(t.info[keys[i]])) && s.info[keys[i]].entry == t.info[keys[i]].entry
    ensures if InUse(s.info[keys[i]]) then Forgetting(t, keys, i + 1, s.addrs)
            else Forgetting(t, keys, i + 1, Deleted(s, keys[i]).addrs)
  {
    hide Deleted;
    DeletedRest(s, keys[i]);
  }

  ghost function Left(keys: seq<int>, i: nat): set<int>
    requires i <= |keys|
  {
    set n | n in keys[i..]
  }

  lemma PruneWired(env: Env, t: State, keys: seq<int>, i: nat)
    requires i < |keys| && keys[i] in t.info && Wired(env, t, Left(keys, i), {})
    ensures if InUse(t.info[keys[i]]) then Wired(env, t, Left(keys, i + 1), {})
            else Wired(env, Deleted(t, keys[i]), Left(keys, i + 1), {})
  {
    hide Wired, Deleted;
    var n := keys[i];
    assert keys[i..] == [n] + keys[i + 1..];
    assert forall k :: k in Left(keys, i) ==> k == n || k in Left(keys, i + 1);
    if InUse(t.info[n]) {
      Excused(env, t, Left(keys, i), Left(keys, i + 1));
    } else {
      DeletedWired(env, t, n, Left(keys, i));
      Excused(env, Deleted(t, n), Left(keys, i) - {n}, Left(keys, i + 1));
    }
  }

  lemma LeftAll(keys: seq<int>, ids: set<int>)
    requires forall n :: n in keys <==> n in ids
    ensures Left(keys, 0) == ids && Left(keys, |keys|) == {}
  {
    assert keys[0..] == keys;
    forall n
      ensures n in Left(keys, 0) <==> n in ids
    {
    }
  }

  /** Entries left without any reference are deleted. */
  method Prune(m: AddrMan, ghost wired: bool) returns (nLostUnk: nat)
    requires m.Mirrored() && Ordered(m.St())
    requires wired ==> Wired(m.env, m.St(), m.mapInfo.Keys, {})
    modifies m`mapInfo, m`vRandom, m`mapAddr, m`nNew
    ensures m.Mirrored() && Ordered(m.St())
    ensures PrunedFrom(old(m.St()), m.St()) && forall n :: n in m.mapInfo ==> Kept(old(m.mapInfo), n, m.mapInfo[n])
    ensures nLostUnk == |old(m.mapInfo).Keys| - |m.mapInfo.Keys| && m.nNew == old(m.nNew) - nLostUnk
    ensures wired ==> Wired(m.env, m.St(), {}, {})
    ensures (forall n :: n in old(m.mapInfo) ==> InUse(old(m.mapInfo)[n])) ==> nLostUnk == 0 && m.St() == old(m.St())
  {
    hide AddrMan.Mirrored, Ordered, Deleted, Sorted, Kept, Pruning, Forgetting, Wired, Left, Distinct, PrunedFrom;
    nLostUnk := 0;
    ghost var t := m.St();
    ghost var kept := forall n :: n in t.info ==> InUse(t.info[n]);
    var keys := InOrder(m.mapInfo.Keys);
    SortedDistinct(m.mapInfo.Keys);
    PruneStart(t, keys);
    LeftAll(keys, m.mapInfo.Keys);
    for i := 0 to |keys|
      invariant m.Mirrored() && Ordered(m.St())
      invariant Pruning(t, keys, i, m.St(), nLostUnk) && Forgetting(t, keys, i, m.mapAddr)
      invariant wired ==> Wired(m.env, m.St(), Left(keys, i), {})
      invariant kept ==> nLostUnk == 0 && m.St() == t
    {
      var n := keys[i];
      PruneStep(t, keys, i, m.St(), nLostUnk);
      ForgetStep(t, keys, i, m.St());
      if wired {
        PruneWired(m.env, m.St(), keys, i);
      }
      if !m.mapInfo[n].inTried && m.mapInfo[n].refCount == 0 {
        DeletedOrdered(m.St(), n);
        m.Delete(n);
        nLostUnk := nLostUnk + 1;
      }
    }
    PruneEnd(t, keys, m.St(), nLostUnk);
  }

  lemma PruneStart(t: State, keys: seq<int>)
    ensures Pruning(t, keys, 0, t, 0) && Forgetting(t, keys, 0, t.addrs)
  {
  }

  lemma PruneEnd(t: State, keys: seq<int>, u: State, lost: nat)
    requires Pruning(t, keys, |keys|, u, lost) && Forgetting(t, keys, |keys|, u.addrs) && forall n :: n in t.info ==> n in keys
    ensures PrunedFrom(t, u) && forall n :: n in u.info ==> Kept(t.info, n, u.info[n])
    ensures lost == |t.info.Keys| - |u.info.Keys| && u.nNew == t.nNew - lost
  {
    hide InUse, Forgetting, Kept;
    forall n | n in u.info
      ensures u.info[n].entry == t.info[n].entry && InUse(t.info[n])
    {
      KeptEntry(t.info, n, u.info[n]);
    }
    assert forall n :: n in u.info <==> n in t.info && InUse(t.info[n]);
    AllForgotten(t, keys, u.addrs);
  }

  lemma KeptEntry(info: map<int, Info>, n: int, i: Info)
    requires Kept(info, n, i)
    ensures n in info && i.entry == info[n].entry
  {
  }

  lemma AllForgotten(t: State, keys: seq<int>, addrs: map<NetAddr, int>)
    requires Forgetting(t, keys, |keys|, addrs) && forall n :: n in t.info ==> n in keys
    ensures forall a :: a in addrs <==>
              a in t.addrs && forall n :: n in t.info && !InUse(t.info[n]) ==> t.info[n].entry.svc.addr != a
    ensures forall a :: a in addrs ==> addrs[a] == t.addrs[a]
  {
    hide InUse;
    forall a
      ensures a in addrs <==> a in t.addrs && forall n :: n in t.info && !InUse(t.info[n]) ==> t.info[n].entry.svc.addr != a
    {
      forall n | n in t.info && a in addrs && !InUse(t.info[n])
        ensures t.info[n].entry.svc.addr != a
      {
        var j :| 0 <= j < |keys| && keys[j] == n;
      }
      if a in t.addrs && forall n :: n in t.info && !InUse(t.info[n]) ==> t.info[n].entry.svc.addr != a {
        assert forall j :: 0 <= j < |keys| && keys[j] in t.info && !InUse(t.info[keys[j]]) ==>
            t.info[keys[j]].entry.svc.addr != a;
      }
    }
  }

  lemma SortedDistinct(keys: set<int>)
    ensures Distinct(Sorted(keys)) && forall j :: 0 <= j < |Sorted(keys)| ==> Sorted(keys)[j] in keys
  {
    assert forall j :: 0 <= j < |Sorted(keys)| ==> Sorted(keys)[j] in Sorted(keys);
  }

  // ---- The whole

  lemma ClearedBlank(key: int, collisions: set<int>)
    ensures Blank(ClearedState(key, collisions))
  {
  }

  /** The fixed fields at the front of the stream, with the checks made on them. */
  method ReadHeader(m: AddrMan, stream: seq<Token>) returns (ok: bool, usable: bool, nUBuckets: int)
    modifies m`nKey, m`nNew, m`nTried
    ensures ok <==> HeaderOk(stream)
    ensures ok ==> usable == Usable(stream) && nUBuckets == BucketCount(stream)
    ensures ok ==> m.nKey == stream[2].k && m.nNew == stream[3].i && m.nTried == stream[4].i
  {
    ok, usable, nUBuckets := false, false, 0;
    if |stream| < 2 || !stream[0].U8? || !stream[1].U8? || stream[1].n != 32 {
      return;
    }
    var nVersion := stream[0].n;
    if |stream| < 6 || !stream[2].Key? || !stream[3].I32? || !stream[4].I32? || !stream[5].I32? {
      return;
    }
    m.nKey, m.nNew, m.nTried := stream[2].k, stream[3].i, stream[4].i;
    nUBuckets := stream[5].i;
    if nVersion != 0 {
      nUBuckets := Xor30(nUBuckets);
    }
    if m.nNew > NEW_BUCKETS * BUCKET_SIZE || m.nTried > TRIED_BUCKETS * BUCKET_SIZE {
      return;
    }
    usable := nVersion == 1 && nUBuckets == NEW_BUCKETS;
    ok := true;
  }

  /** The entries of both tables, and the identifiers and the counter that follow from them. */
  method ReadEntries(m: AddrMan, stream: seq<Token>, usable: bool) returns (ok: bool, pos: nat, nLost: nat)
    requires m.Mirrored() && Ordered(m.St()) && m.mapInfo == map[] && 6 <= |stream|
    modifies m`mapInfo, m`mapAddr, m`vRandom, m`newT, m`triedT, m`nIdCount, m`nTried, m.vvNew, m.vvTried
    ensures m.Mirrored() && Ordered(m.St()) && pos <= |stream| && m.nTried <= old(m.nTried)
    ensures ok ==> forall i :: 0 <= i < m.nNew ==> i in m.mapInfo
    ensures ok <==> ItemsAt(stream, 6, Count(m.nNew)) && ItemsAt(stream, 6 + Count(m.nNew), Count(old(m.nTried)))
    ensures ok ==>
              var u := NewRead(m.env, old(m.St()), EntriesOf(stream, 6, Count(m.nNew)), usable);
              var v := TriedRead(m.env, u.(idCount := m.nNew), EntriesOf(stream, 6 + Count(m.nNew), Count(old(m.nTried))));
              && pos == 6 + Count(m.nNew) + Count(old(m.nTried)) && nLost == Count(old(m.nTried)) - (v.idCount - m.nNew)
              && m.St() == v.(nTried := old(m.nTried) - nLost)
  {
    hide AddrMan.Mirrored, Ordered, NewRead, TriedRead, ItemsAt;
    nLost := 0;
    ok, pos := ReadNew(m, stream, 6, usable);
    if !ok {
      return;
    }
    SameOrder(m.St(), m.St().(idCount := m.nNew));
    m.nIdCount := m.nNew;
    ok, pos, nLost := ReadTried(m, stream, pos);
    if !ok {
      return;
    }
    SameOrder(m.St(), m.St().(nTried := m.nTried - nLost));
    m.nTried := m.nTried - nLost;
  }

  lemma CountersNotNegative(env: Env, s: State)
    requires Consistent(env, s)
    ensures s.nNew >= 0 && s.nTried >= 0
  {
    hide NewSlots, TriedSlots, Referenced, Ordered, Indexed;
  }

  /** Header, entries and bucket data, read into a cleared manager. */
  method ReadAll(m: AddrMan, stream: seq<Token>) returns (ok: bool, nLost: nat)
    requires m.Mirrored() && Blank(m.St())
    modifies m`mapInfo, m`mapAddr, m`vRandom, m`newT, m`triedT, m`nIdCount, m`nNew, m`nTried, m`nKey, m.vvNew, m.vvTried
    ensures m.Mirrored() && Ordered(m.St())
    ensures ok <==> Accepts(stream)
    ensures ok ==> m.St() == Intake(m.env, old(m.St()), stream)
    ensures ok ==> m.nNew == stream[3].i && m.nTried == stream[4].i - nLost
  {
    hide AddrMan.Mirrored, Ordered, NewRead, TriedRead, RowsRead, RowsAt, ItemsAt;
    nLost := 0;
    var usable, nUBuckets, pos;
    ok, usable, nUBuckets := ReadHeader(m, stream);
    EmptyOrdered(m.St());
    if !ok {
      return;
    }
    ok, pos, nLost := ReadEntries(m, stream, usable);
    if !ok {
      return;
    }
    ok, pos := ReadRows(m, stream, pos, nUBuckets, usable);
  }

  /**
   Reading into manager m; s is any state that may have written the stream. A file is read exactly when
   it is accepted, and leaves a consistent manager exactly when its counters are not negative and no
   address that it lists twice keeps a place.
   */
  method Unserialize(m: AddrMan, stream: seq<Token>, randomKey: int, ghost s: State)
    returns (ok: bool, nLost: nat, nLostUnk: nat)
    requires m.Mirrored()
    modifies m, m.vvNew, m.vvTried
    ensures m.Mirrored() && Ordered(m.St()) && m.triedCollisions == old(m.triedCollisions)
    ensures ok <==> Accepts(stream)
    ensures ok ==> PrunedFrom(Intake(m.env, ClearedState(randomKey, m.triedCollisions), stream), m.St())
    ensures ok ==> (m.Valid() <==> CountersOk(stream) && Unclashed(Intake(m.env, ClearedState(randomKey, m.triedCollisions), stream)))
    ensures Genuine(m.env, s, stream) ==>
              && ok && nLost == 0 && nLostUnk == 0 && m.Valid()
              && m.nKey == s.key && m.nNew == s.nNew && m.nTried == s.nTried
              && Restores(View(m.env, s), m.Recs(), Order(s)) && ComesBack(View(m.env, s), m.Recs())
  {
    hide Linked, View, Loading, AddrMan.Mirrored, Ordered, Order, Encode, Restores, ComesBack,
         Intake, RowsAt, ItemsAt, Blank, Wired, PrunedFrom, Unclashed, Covered;
    nLostUnk := 0;
    m.Clear(randomKey);
    ClearedBlank(randomKey, m.triedCollisions);
    ghost var blank := m.St();
    if Genuine(m.env, s, stream) {
      GenuineIntake(m.env, s, blank);
    }
    ok, nLost := ReadAll(m, stream);
    if !ok {
      return;
    }
    ghost var t := m.St();
    ghost var sound := CountersOk(stream);
    if sound {
      IntakeWired(m.env, blank, stream);
    }
    nLostUnk := Prune(m, sound);
    if sound {
      ConsistentIffUnclashed(m.env, t, m.St());
    } else if m.Valid() {
      CountersNotNegative(m.env, m.St());
    }
    if Genuine(m.env, s, stream) {
      RestoresAll(View(m.env, s), m.Recs(), Order(s));
    }
  }

  lemma EmptyOrdered(t: State)
    requires t.info == map[] && t.random == []
    ensures Ordered(t)
  {
  }

  lemma SameOrder(t: State, u: State)
    requires Ordered(t) && u.info == t.info && u.random == t.random
    ensures Ordered(u)
  {
    OrderedKept(t, u);
  }

  /** Writing a consistent manager and reading it into another one, which may hold anything. */
  method RoundTrip(from: AddrMan, to: AddrMan, randomKey: int)
    requires from.Valid() && to.Mirrored() && from.env == to.env
    requires from != to && from.vvNew != to.vvNew && from.vvTried != to.vvTried
    requires from.vvNew != to.vvTried && from.vvTried != to.vvNew
    modifies to, to.vvNew, to.vvTried
    ensures to.Valid() && to.nKey == from.nKey && to.nNew == from.nNew && to.nTried == from.nTried
    ensures ComesBack(from.Recs(), to.Recs())
    ensures Restores(from.Recs(), to.Recs(), Order(from.St()))
  {
    hide Linked, View, AddrMan.Mirrored, Restores, ComesBack, Order, Encode;
    var stream := Serialize(from);
    var ok, nLost, nLostUnk := Unserialize(to, stream, randomKey, from.St());
  }
}
