/**
 Address files that list an address twice, or whose counters are negative. The
 reader refuses neither (CAddrMan::Unserialize, src/addrman.h): a negative
 counter, or a repeated address of which an entry keeps a place, leaves indexes
 that are not consistent, while a tried entry repeated with its port is lost to
 the slot its first copy took and does no harm.
 */
module AddrRepeats {
  import opened AddrTypes
  import opened AddrState
  import opened AddrCodec
  import opened AddrIntake

  /** No address is listed twice, except among the tried entries and then with one port. */
  ghost predicate Harmless(es: seq<Entry>, fs: seq<Entry>) {
    && (forall i, j :: 0 <= i < j < |es| ==> es[i].svc.addr != es[j].svc.addr)
    && (forall i, j :: 0 <= i < |es| && 0 <= j < |fs| ==> es[i].svc.addr != fs[j].svc.addr)
    && (forall i, j :: 0 <= i < j < |fs| && fs[i].svc.addr == fs[j].svc.addr ==> fs[i].svc == fs[j].svc)
  }

  lemma {:induction false} NewReadKeepsTried(env: Env, t: State, es: seq<Entry>, usable: bool)
    requires IsTable(t.triedT, TRIED_BUCKETS)
    ensures NewRead(env, t, es, usable).triedT == t.triedT && NewRead(env, t, es, usable).key == t.key
  {
    hide NewBucket, Position, At, SetSlot;
    if es != [] {
      NewReadKeepsTried(env, t, es[..|es| - 1], usable);
    }
  }

  /** No two entries have one address; each is one of those read, and the slots of the tried ones are taken. */
  ghost predicate Apart(env: Env, u: State, es: seq<Entry>, fs: seq<Entry>) {
    && IsTable(u.triedT, TRIED_BUCKETS) && |es| <= u.idCount
    && (forall n :: n in u.info ==> 0 <= n < u.idCount)
    && (forall n :: n in u.info ==> if n < |es| then u.info[n].entry == es[n] else u.info[n].entry in fs)
    && (forall m, n :: m in u.info && n in u.info && m != n ==> u.info[m].entry.svc.addr != u.info[n].entry.svc.addr)
    && (forall k :: 0 <= k < |fs| ==> TriedAt(env, u, fs[k].svc) != -1)
  }

  lemma {:induction false} TriedReadApart(env: Env, t: State, es: seq<Entry>, fs: seq<Entry>)
    requires Apart(env, t, es, []) && Harmless(es, fs)
    ensures Apart(env, TriedRead(env, t, fs), es, fs)
  {
    hide Apart, Harmless, TriedAt, LoadedTried;
    if fs != [] {
      var n := |fs| - 1;
      HarmlessPrefix(es, fs, n);
      TriedReadApart(env, t, es, fs[..n]);
      var u := TriedRead(env, t, fs[..n]);
      assert fs == fs[..n] + [fs[n]];
      if TriedAt(env, u, fs[n].svc) == -1 {
        TakesSlot(env, u, fs[n], es, fs[..n]);
      } else {
        FindsTaken(env, u, fs[n], es, fs[..n]);
      }
    }
  }

  lemma HarmlessPrefix(es: seq<Entry>, fs: seq<Entry>, n: nat)
    requires Harmless(es, fs) && n <= |fs|
    ensures Harmless(es, fs[..n])
  {
    assert forall j :: 0 <= j < n ==> fs[..n][j] == fs[j];
  }

  lemma FindsTaken(env: Env, u: State, f: Entry, es: seq<Entry>, fs: seq<Entry>)
    requires Apart(env, u, es, fs) && TriedAt(env, u, f.svc) != -1
    ensures Apart(env, u, es, fs + [f])
  {
    hide TriedAt;
  }

  lemma TakesSlot(env: Env, u: State, f: Entry, es: seq<Entry>, fs: seq<Entry>)
    requires Apart(env, u, es, fs) && Harmless(es, fs + [f]) && TriedAt(env, u, f.svc) == -1
    ensures Apart(env, LoadedTried(env, u, f), es, fs + [f])
  {
    hide TriedBucket, TriedPosition;
    var v := LoadedTried(env, u, f);
    forall n | n in u.info
      ensures u.info[n].entry.svc.addr != f.svc.addr
    {
      if n < |es| {
        assert (fs + [f])[|fs|] == f;
      } else {
        var j :| 0 <= j < |fs| && fs[j] == u.info[n].entry;
        assert (fs + [f])[j] == fs[j] && (fs + [f])[|fs|] == f;
      }
    }
  }

  /** A file whose repeats are harmless leaves no clash, whatever its buckets say. */
  lemma HarmlessUnclashed(env: Env, t: State, stream: seq<Token>)
    requires Blank(t) && Accepts(stream) && CountersOk(stream)
    requires Harmless(EntriesOf(stream, 6, stream[3].i), EntriesOf(stream, 6 + stream[3].i, stream[4].i))
    ensures Unclashed(Intake(env, t, stream))
  {
    hide RowsAt, NewRead, TriedRead, RowsRead, Covered, TriedAt;
    var nNew, nTried := stream[3].i, stream[4].i;
    var start := t.(key := stream[2].k, nNew := nNew, nTried := nTried);
    var es, fs := EntriesOf(stream, 6, nNew), EntriesOf(stream, 6 + nNew, nTried);
    BlankCovered(start);
    NewReadCovered(env, start, es, Usable(stream));
    NewReadKeepsTried(env, start, es, Usable(stream));
    var u := NewRead(env, start, es, Usable(stream)).(idCount := nNew);
    TriedReadApart(env, u, es, fs);
    var w := Entered(env, t, stream);
    RowsReadSame(env, w, RowsAt(stream, 6 + nNew + nTried, Count(BucketCount(stream))).rows, Usable(stream));
  }

  // ---- Witnesses

  function Header(version: nat, key: int, nNew: int, nTried: int, buckets: int): seq<Token> {
    [U8(version), U8(32), Key(key), I32(nNew), I32(nTried), I32(buckets)]
  }

  /** Every negative counter passes the tests of the header. */
  lemma NegativeCounterAccepted(key: int, nNew: int, nTried: int)
    requires nNew <= 0 && nTried <= 0 && (nNew < 0 || nTried < 0)
    ensures
      var stream := Header(1, key, nNew, nTried, Xor30(0));
      Accepts(stream) && !CountersOk(stream)
  {
    Xor30Twice(0);
  }

  /** Entries e and f have one new slot. */
  predicate SameSlot(env: Env, key: int, e: Entry, f: Entry) {
    var b, c := NewBucket(env, key, e.svc, e.source), NewBucket(env, key, f.svc, f.source);
    b == c && Position(env, key, e.svc, true, b) == Position(env, key, f.svc, true, c)
  }

  lemma TwoRead(env: Env, t: State, e: Entry, f: Entry)
    requires Blank(t)
    ensures
      var u := NewRead(env, t, [e, f], false);
      && u.info.Keys == {0, 1} && u.info[0].entry == e && u.info[1].entry == f
      && InUse(u.info[0]) && (InUse(u.info[1]) <==> !SameSlot(env, t.key, e, f))
  {
    hide NewBucket, Position;
    assert [e, f][..1] == [e] && [e][..0] == [];
    assert NewRead(env, t, [], false) == t;
    var one := NewRead(env, t, [e], false);
    assert one == LoadedBySource(env, t, 0, e);
    assert one.info == map[0 := Info(e, 1, false, 0)];
  }

  /** Two new entries of one address: both are read, the first keeps its slot, and so does the second if it has another. */
  lemma RepeatedNewClashes(env: Env, t: State, key: int, e: Entry, f: Entry)
    requires Blank(t) && e.svc.addr == f.svc.addr
    ensures
      var stream := Header(0, key, 2, 0, 0) + [Item(e), Item(f)];
      && Accepts(stream) && CountersOk(stream) && !Unclashed(Intake(env, t, stream))
      && var u := Intake(env, t, stream);
         u.info.Keys == {0, 1} && InUse(u.info[0]) && (InUse(u.info[1]) <==> !SameSlot(env, key, e, f))
  {
    hide SameSlot, NewRead, LoadedBySource;
    var stream := Header(0, key, 2, 0, 0) + [Item(e), Item(f)];
    assert EntriesOf(stream, 6, 2) == [Persist(e), Persist(f)];
    assert EntriesOf(stream, 8, 0) == [];
    var start := t.(key := key, nNew := 2, nTried := 0);
    TwoRead(env, start, Persist(e), Persist(f));
    SlotPersists(env, key, e, f);
    var u := Intake(env, t, stream);
    assert u.info == NewRead(env, start, [Persist(e), Persist(f)], false).info;
    assert u.info[0].entry.svc.addr == u.info[1].entry.svc.addr;
  }

  lemma SlotPersists(env: Env, key: int, e: Entry, f: Entry)
    ensures SameSlot(env, key, Persist(e), Persist(f)) == SameSlot(env, key, e, f)
  {
  }

  /** A tried entry listed twice: the second is lost to the slot of the first, and nothing clashes. */
  lemma RepeatedTriedHarmless(env: Env, t: State, key: int, e: Entry)
    requires Blank(t)
    ensures
      var stream := Header(0, key, 0, 2, 0) + [Item(e), Item(e)];
      && Accepts(stream) && CountersOk(stream) && Unclashed(Intake(env, t, stream))
      && |Intake(env, t, stream).info| == 1
  {
    hide TriedBucket, TriedPosition;
    var stream := Header(0, key, 0, 2, 0) + [Item(e), Item(e)];
    assert EntriesOf(stream, 6, 0) == [];
    assert EntriesOf(stream, 6, 2) == [Persist(e), Persist(e)];
    HarmlessUnclashed(env, t, stream);
    var start := t.(key := key, nNew := 0, nTried := 2, idCount := 0);
    var one := LoadedTried(env, start, Persist(e));
    assert [Persist(e), Persist(e)][..1] == [Persist(e)] && [Persist(e)][..0] == [];
    assert TriedRead(env, start, [Persist(e)]) == one;
    assert TriedRead(env, start, [Persist(e), Persist(e)]) == one;
    assert Intake(env, t, stream).info == one.info == map[0 := Info(Persist(e), 0, true, 0)];
  }
}
