/**
 Collisions recorded before CAddrMan::Clear (src/addrman.h). Clear starts the
 identifiers again from 0 and does not empty m_tried_collisions, so a recorded
 identifier comes to name another address, whose tried slot may be empty; then
 SelectTriedCollision_ (src/addrman.cpp) looks up the slot's -1 among the
 entries. Without records no run after Clear gets there; with any record some
 run of announcements does.
 */
module AddrStale {
  import opened AddrTypes
  import opened Numbers
  import B = AddrBook
  import opened AddrSafety
  import opened AddrRuns
  import S = AddrState
  import V = AddrView
  import M = AddrMan

  ghost function Cleared(key: int, collisions: set<int>): B.Book {
    B.Book(key, 0, map[], collisions, 1)
  }

  /** SelectTriedCollision_ may pick an entry whose tried slot is empty. */
  ghost predicate LookupFails(env: Env, book: B.Book) {
    exists id :: id in book.collisions && B.HasId(book.recs, id) &&
                 !B.TriedTaken(env, book.key, book.recs, book.recs[B.WithId(book.recs, id)].entry.svc)
  }

  /** No run from this book comes to a failing lookup. */
  ghost predicate RunsSafely(env: Env, book: B.Book) {
    forall ops: seq<Op>, books: seq<B.Book>, i: nat ::
      Trace(env, ops, books) && books[0] == book && i < |books| ==> !LookupFails(env, books[i])
  }

  // ---- A run that reaches an identifier

  /** Different routable addresses, announced without a time. */
  ghost predicate Arrivals(env: Env, ads: seq<Address>) {
    && (forall i :: 0 <= i < |ads| ==> env.routable(ads[i].svc.addr) && ads[i].time == 0)
    && (forall i, j :: 0 <= i < j < |ads| ==> ads[i].svc.addr != ads[j].svc.addr)
  }

  /** The first n of them were announced to an empty book: the last is in it, and nobody is tried. */
  ghost predicate Arrived(book: B.Book, ads: seq<Address>, n: nat) {
    && n <= |ads| && book.nextId == n
    && (forall a :: a in book.recs ==> !book.recs[a].tried && book.recs[a].entry.time == 0 && book.recs[a].entry.lastTry == 0)
    && (forall a :: a in book.recs ==> exists i :: 0 <= i < n && ads[i].svc.addr == a)
    && (n > 0 ==> ads[n - 1].svc.addr in book.recs && book.recs[ads[n - 1].svc.addr].id == n - 1)
  }

  /** An entry without a time is terrible, so each newcomer gets its slot. */
  lemma ArriveOne(env: Env, book: B.Book, ads: seq<Address>, n: nat, source: NetAddr, now: int)
    requires Arrivals(env, ads) && Arrived(book, ads, n) && n < |ads|
    ensures
      var book' := B.Add(env, book, ads[n], source, 0, now, 0);
      Arrived(book', ads, n + 1) && book'.key == book.key && book'.collisions == book.collisions
  {
    hide NewBucket, Position;
    var a := ads[n].svc.addr;
    assert a !in book.recs;
    var book' := B.Add(env, book, ads[n], source, 0, now, 0);
    forall x | x in book'.recs
      ensures exists i :: 0 <= i < n + 1 && ads[i].svc.addr == x
    {
      if x != a {
        var i :| 0 <= i < n && ads[i].svc.addr == x;
      } else {
        assert ads[n].svc.addr == x;
      }
    }
  }

  lemma {:induction false} Arrive(env: Env, cleared: B.Book, ads: seq<Address>, n: nat, source: NetAddr, now: int)
    returns (ops: seq<Op>, books: seq<B.Book>)
    requires Arrivals(env, ads) && n <= |ads| && cleared == Cleared(cleared.key, cleared.collisions)
    ensures |ops| == n && forall i :: 0 <= i < n ==> ops[i] == Add(ads[i], source, 0, now, 0)
    ensures Trace(env, ops, books) && books[0] == cleared
    ensures Arrived(books[n], ads, n) && books[n].key == cleared.key && books[n].collisions == cleared.collisions
  {
    hide Arrivals, Arrived, B.Add;
    if n == 0 {
      ops, books := [], [cleared];
      ArriveNone(cleared, ads);
    } else {
      var ops', books' := Arrive(env, cleared, ads, n - 1, source, now);
      ArriveOne(env, books'[n - 1], ads, n - 1, source, now);
      var op := Add(ads[n - 1], source, 0, now, 0);
      var book := B.Add(env, books'[n - 1], ads[n - 1], source, 0, now, 0);
      ops, books := ops' + [op], books' + [book];
      assert ops[..n - 1] == ops' && ops[..n] == ops;
      TraceNext(env, ops, books', n - 1, book);
    }
  }

  lemma ArriveNone(cleared: B.Book, ads: seq<Address>)
    requires cleared == Cleared(cleared.key, cleared.collisions)
    ensures Arrived(cleared, ads, 0)
  {
  }

  lemma ArrivedFails(env: Env, book: B.Book, ads: seq<Address>, n: nat)
    requires Arrived(book, ads, n) && n > 0 && n - 1 in book.collisions
    ensures LookupFails(env, book)
  {
    assert B.HasId(book.recs, n - 1);
  }

  /** Every recorded k is given to the address of the k-th of these announcements, whose tried slot is empty. */
  lemma StaleIdentifier(env: Env, key: int, collisions: set<int>, k: nat, ads: seq<Address>, source: NetAddr, now: int)
    returns (ops: seq<Op>, books: seq<B.Book>)
    requires k in collisions && k < |ads| && Arrivals(env, ads)
    ensures |ops| == k + 1 && forall i :: 0 <= i < |ops| ==> ops[i] == Add(ads[i], source, 0, now, 0)
    ensures Trace(env, ops, books) && books[0] == Cleared(key, collisions)
    ensures
      var book := books[k + 1];
      var a := ads[k].svc.addr;
      && k in book.collisions && a in book.recs && book.recs[a].id == k
      && !B.TriedTaken(env, key, book.recs, book.recs[a].entry.svc) && LookupFails(env, book)
  {
    hide Arrivals, Follows;
    ops, books := Arrive(env, Cleared(key, collisions), ads, k + 1, source, now);
    ArrivedFails(env, books[k + 1], ads, k + 1);
  }

  /** A book whose collisions are safe has no failing lookup. */
  lemma SafeLooksUp(env: Env, book: B.Book)
    requires CollisionsSafe(env, book)
    ensures !LookupFails(env, book)
  {
    hide B.TriedTaken;
    SelectSafe(env, book);
  }

  /** After Clear every run looks up occupied slots only, exactly when no collision was recorded before. */
  lemma ClearedSafeExactly(env: Env, key: int, collisions: set<int>, ads: seq<Address>)
    requires Arrivals(env, ads) && forall id :: id in collisions ==> 0 <= id < |ads|
    ensures RunsSafely(env, Cleared(key, collisions)) <==> collisions == {}
  {
    hide Arrivals, Follows, LookupFails, CollisionsSafe, Sound;
    var cleared := Cleared(key, collisions);
    if collisions == {} {
      NothingRecorded(env, key);
      forall ops: seq<Op>, books: seq<B.Book>, i: nat | Trace(env, ops, books) && books[0] == cleared && i < |books|
        ensures !LookupFails(env, books[i])
      {
        TraceSafe(env, ops, books, i);
        SafeLooksUp(env, books[i]);
      }
    } else {
      var k := B.Member(collisions);
      var ops, books := StaleIdentifier(env, key, collisions, k, ads, ads[k].svc.addr, 0);
    }
  }

  lemma NothingRecorded(env: Env, key: int)
    ensures Sound(env, Cleared(key, {})) && CollisionsSafe(env, Cleared(key, {}))
  {
  }

  // ---- The same on the manager

  /** Different addresses that share a tried slot. */
  ghost predicate Rivals(env: Env, key: int, h: Service, a: Service) {
    && env.routable(h.addr) && env.routable(a.addr) && h.addr != a.addr
    && TriedBucket(env, key, h) == TriedBucket(env, key, a) && TriedPosition(env, key, h) == TriedPosition(env, key, a)
  }

  /** An address is announced to a book without new entries, where its slot is free. */
  lemma AnnouncedThere(env: Env, book: B.Book, a: Address, source: NetAddr, now: int)
    requires env.routable(a.svc.addr) && a.svc.addr !in book.recs
    requires forall x :: x in book.recs ==> book.recs[x].buckets == {}
    ensures
      var book' := B.Add(env, book, a, source, 0, now, 0);
      && book'.recs.Keys == book.recs.Keys + {a.svc.addr} && book' == book.(recs := book'.recs, nextId := book.nextId + 1)
      && (forall x :: x in book.recs ==> book'.recs[x] == book.recs[x])
      && var r := book'.recs[a.svc.addr];
         r.entry.svc == a.svc && !r.tried && r.id == book.nextId
  {
    hide NewBucket, Position, IsTerrible, ToTime;
    var b := NewBucket(env, book.key, a.svc, source);
    var e := Entry(a.svc, a.services, ToTime(Max(0, a.time)), source, 0, 0, 0, 0);
    var recs := book.recs[a.svc.addr := B.Rec(book.nextId, e, false, {})];
    assert !B.NewTaken(env, book.key, recs, b, Position(env, book.key, a.svc, true, b));
  }

  /** A connection to the only address there makes it tried. */
  lemma FirstTried(env: Env, book: B.Book, h: Service, now: int)
    requires book.recs.Keys == {h.addr} && book.recs[h.addr].entry.svc == h && !book.recs[h.addr].tried
    ensures
      var book' := B.Good(env, book, h, true, now);
      && book'.recs.Keys == {h.addr} && book'.(recs := book.recs, lastGood := book.lastGood) == book
      && var r := book'.recs[h.addr];
         r.entry.svc == h && r.tried && r.buckets == {}
  {
    hide B.Shed, TriedBucket, TriedPosition;
  }

  /** A connection to a second address with the tried slot of the first records its identifier. */
  lemma SecondRecorded(env: Env, book: B.Book, h: Service, a: Service, now: int)
    requires Rivals(env, book.key, h, a) && h.addr in book.recs && a.addr in book.recs && book.collisions == {}
    requires book.recs[h.addr].entry.svc == h && book.recs[h.addr].tried
    requires book.recs[a.addr].entry.svc == a && !book.recs[a.addr].tried
    ensures B.Good(env, book, a, true, now).collisions == {book.recs[a.addr].id}
  {
    hide B.MakeTried, TriedBucket, TriedPosition;
    var r := book.recs[a.addr];
    var recs := book.recs[a.addr := r.(entry := r.entry.(lastSuccess := now, lastTry := now, attempts := 0))];
    assert B.HoldsTried(env, book.key, recs[h.addr], a);
    assert B.Good(env, book, a, true, now).collisions == {} + {r.id};
  }

  /** Two rivals connected to one after the other leave a recorded collision. */
  method RecordCollision(env: Env, key: int, h: Address, a: Address, source: NetAddr, now: int) returns (m: M.AddrMan)
    requires Rivals(env, key, h.svc, a.svc)
    ensures fresh(m) && fresh(m.vvNew) && fresh(m.vvTried) && m.Valid() && m.env == env && m.triedCollisions == {1}
  {
    hide M.AddrMan.Mirrored, S.Linked, V.View, B.Add, B.Good, Rivals;
    m := new M.AddrMan(env, key);
    RivalsRoutable(env, key, h.svc, a.svc);
    AnnouncedThere(env, m.Abs(), h, source, now);
    var isNew := m.Add_(h, source, 0, now, 0);
    FirstTried(env, m.Abs(), h.svc, now);
    m.Good_(h.svc, true, now, 0);
    AnnouncedThere(env, m.Abs(), a, source, now);
    isNew := m.Add_(a, source, 0, now, 0);
    SecondRecorded(env, m.Abs(), h.svc, a.svc, now);
    m.Good_(a.svc, true, now, 0);
  }

  lemma RivalsRoutable(env: Env, key: int, h: Service, a: Service)
    requires Rivals(env, key, h, a)
    ensures env.routable(h.addr) && env.routable(a.addr) && h.addr != a.addr
  {
  }

  /** From a new manager: a recorded collision, Clear, two announcements, and a lookup of -1. */
  method StaleLookup(env: Env, key: int, newKey: int, h: Address, a: Address, ads: seq<Address>, source: NetAddr, now: int)
    returns (m: M.AddrMan)
    requires Rivals(env, key, h.svc, a.svc) && Arrivals(env, ads) && |ads| == 2
    ensures !m.Valid() && -1 in m.mapInfo
  {
    hide M.AddrMan.Mirrored, S.Linked, V.View, B.Add, Arrivals, Arrived, Rivals;
    m := RecordCollision(env, key, h, a, source, now);
    m.Clear(newKey);
    ArriveNone(m.Abs(), ads);
    ArriveOne(env, m.Abs(), ads, 0, source, now);
    var isNew := m.Add_(ads[0], source, 0, now, 0);
    ArriveOne(env, m.Abs(), ads, 1, source, now);
    isNew := m.Add_(ads[1], source, 0, now, 0);
    ArrivedFails(env, m.Abs(), ads, 2);
    var idNew, r := m.SelectTriedCollision_();
  }
}
