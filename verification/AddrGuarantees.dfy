/**
 What the operations of the address manager mean for the addresses in its book:
 who can be lost, who can lose the status of being tried, and to whom. All of it
 holds for any sound book, and over whole runs.
 */
module AddrGuarantees {
  import opened Numbers
  import opened AddrTypes
  import opened AddrSafety
  import opened AddrSound
  import opened AddrRuns
  import opened B = AddrBook

  ghost predicate Lost(recs: Recs, recs': Recs, x: NetAddr) {
    x in recs && x !in recs'
  }

  ghost predicate Demoted(recs: Recs, recs': Recs, x: NetAddr) {
    x in recs && recs[x].tried && !(x in recs' && recs'[x].tried)
  }

  // ---- Announcements

  /** Placing an address loses at most one other, which was terrible and had no other slot. */
  lemma PlaceLoses(env: Env, key: int, recs: Recs, nextId: int, a: NetAddr, source: NetAddr, now: int)
    requires Fine(env, key, recs, nextId, {a}) && a in recs && !recs[a].tried
    ensures
      var recs' := Place(env, key, recs, a, source, now);
      && recs'.Keys <= recs.Keys
      && (forall x :: x != a && Lost(recs, recs', x) ==> !recs[x].tried && |recs[x].buckets| == 1 && IsTerrible(recs[x].entry, now))
      && (forall x, y :: x != a && y != a && Lost(recs, recs', x) && Lost(recs, recs', y) ==> x == y)
      && (forall x :: x in recs && recs[x].tried ==> x in recs' && recs'[x] == recs[x])
      && (Lost(recs, recs', a) ==> recs[a].buckets == {})
  {
    hide IsTerrible;
    var r := recs[a];
    var b := NewBucket(env, key, r.entry.svc, source);
    var p := Position(env, key, r.entry.svc, true, b);
    if b !in r.buckets && Displaces(env, key, recs, a, b, p, now) {
      var shed := Shed(env, key, recs, b, p);
      forall x | x != a && Lost(recs, shed, x)
        ensures |recs[x].buckets| == 1 && IsTerrible(recs[x].entry, now)
      {
        assert NewTaken(env, key, recs, b, p);
        assert x == NewHolder(env, key, recs, b, p);
      }
    }
  }

  /** An announcement never costs a tried address, or one that is not terrible, its place in the book. */
  lemma AddLosesOnlyTerrible(env: Env, book: Book, addr: Address, source: NetAddr, penalty: int, now: int, rnd: nat)
    requires Sound(env, book) && book.nextId >= 0
    ensures
      var recs, recs' := book.recs, B.Add(env, book, addr, source, penalty, now, rnd).recs;
      && (forall x :: x in recs' ==> x in recs || x == addr.svc.addr)
      && (forall x :: Lost(recs, recs', x) ==> !recs[x].tried && |recs[x].buckets| == 1 && IsTerrible(recs[x].entry, now))
      && (forall x, y :: Lost(recs, recs', x) && Lost(recs, recs', y) ==> x == y)
      && (forall x :: x in recs && recs[x].tried ==> x in recs' && recs'[x].tried)
  {
    hide IsTerrible, Place, Sound, Fine;
    var a := addr.svc.addr;
    var pen := if a == source then 0 else penalty;
    SoundIsFine(env, book);
    if env.routable(a) {
      if a in book.recs {
        var r := book.recs[a];
        var e := Refreshed(r.entry, addr, pen, now);
        var recs := book.recs[a := r.(entry := e)];
        TouchedFine(env, book.key, book.recs, book.nextId, a, e);
        MoreExempted(env, book.key, recs, book.nextId, {a});
        if !r.tried {
          HasBucket(env, book.key, book.recs, book.nextId, a);
          PlaceLoses(env, book.key, recs, book.nextId, a, source, now);
          forall x | Lost(book.recs, Place(env, book.key, recs, a, source, now), x)
            ensures x != a && recs[x] == book.recs[x] && Lost(recs, Place(env, book.key, recs, a, source, now), x)
          {
          }
        }
      } else {
        var e := Entry(addr.svc, addr.services, ToTime(Max(0, addr.time - pen)), source, 0, 0, 0, 0);
        var recs := book.recs[a := Rec(book.nextId, e, false, {})];
        NewcomerFine(env, book.key, book.recs, book.nextId, e);
        PlaceLoses(env, book.key, recs, book.nextId + 1, a, source, now);
        forall x | Lost(book.recs, Place(env, book.key, recs, a, source, now), x)
          ensures x != a && recs[x] == book.recs[x] && Lost(recs, Place(env, book.key, recs, a, source, now), x)
        {
        }
      }
    }
  }

  lemma HasBucket(env: Env, key: int, recs: Recs, nextId: int, a: NetAddr)
    requires Fine(env, key, recs, nextId, {}) && a in recs && !recs[a].tried
    ensures recs[a].buckets != {}
  {
    hide HoldsNew, HoldsTried;
  }

  /** The slot an announcement asks for is held by an address that is not terrible and has no other slot. */
  ghost predicate Defended(env: Env, book: Book, addr: Address, source: NetAddr, now: int) {
    var b := NewBucket(env, book.key, addr.svc, source);
    exists h :: h in book.recs && HoldsNew(env, book.key, book.recs[h], b, Position(env, book.key, addr.svc, true, b)) &&
                !IsTerrible(book.recs[h].entry, now) && |book.recs[h].buckets| == 1
  }

  /** An unknown address is announced as new and yet not kept exactly when its slot is defended. */
  lemma AddDroppedExactly(env: Env, book: Book, addr: Address, source: NetAddr, penalty: int, now: int, rnd: nat)
    requires Sound(env, book) && env.routable(addr.svc.addr) && addr.svc.addr !in book.recs
    ensures addr.svc.addr !in B.Add(env, book, addr, source, penalty, now, rnd).recs <==> Defended(env, book, addr, source, now)
  {
    hide IsTerrible, NewBucket, Position;
    var a := addr.svc.addr;
    var pen := if a == source then 0 else penalty;
    var e := Entry(addr.svc, addr.services, ToTime(Max(0, addr.time - pen)), source, 0, 0, 0, 0);
    var recs := book.recs[a := Rec(book.nextId, e, false, {})];
    var b := NewBucket(env, book.key, addr.svc, source);
    var p := Position(env, book.key, addr.svc, true, b);
    assert a in B.Add(env, book, addr, source, penalty, now, rnd).recs <==> Displaces(env, book.key, recs, a, b, p, now);
    if NewTaken(env, book.key, recs, b, p) {
      var h := NewHolder(env, book.key, recs, b, p);
      assert h != a && recs[h] == book.recs[h] && HoldsNew(env, book.key, book.recs[h], b, p);
      assert recs[h].buckets != {};
      forall y | y in book.recs && HoldsNew(env, book.key, book.recs[y], b, p)
        ensures y == h
      {
      }
    } else {
      forall y | y in book.recs
        ensures !HoldsNew(env, book.key, book.recs[y], b, p)
      {
        assert recs[y] == book.recs[y];
      }
    }
  }

  /** Announced just now with one slot, h keeps it against a: what is answered as new is not there afterwards. */
  lemma NewcomerDropped(env: Env, key: int, h: Address, a: Address, source: NetAddr, now: int, rnd: nat)
    requires env.routable(h.svc.addr) && env.routable(a.svc.addr) && h.svc.addr != a.svc.addr
    requires 0 < now < 0x1_0000_0000 && h.time == now
    requires
      var b := NewBucket(env, key, h.svc, source);
      && NewBucket(env, key, a.svc, source) == b
      && Position(env, key, a.svc, true, b) == Position(env, key, h.svc, true, b)
    ensures
      var book := B.Add(env, Book(key, 0, map[], {}, 1), h, source, 0, now, rnd);
      && Sound(env, book) && a.svc.addr !in book.recs && Defended(env, book, a, source, now)
      && a.svc.addr !in B.Add(env, book, a, source, 0, now, rnd).recs
  {
    hide NewBucket, Position;
    var b := NewBucket(env, key, h.svc, source);
    var fresh_ := Book(key, 0, map[], {}, 1);
    var book := B.Add(env, fresh_, h, source, 0, now, rnd);
    assert book.recs.Keys == {h.svc.addr} && book.recs[h.svc.addr].buckets == {b};
    assert !IsTerrible(book.recs[h.svc.addr].entry, now);
    assert HoldsNew(env, key, book.recs[h.svc.addr], b, Position(env, key, a.svc, true, b));
    AddrSound.AddSound(env, fresh_, h, source, 0, now, rnd);
    AddDroppedExactly(env, book, a, source, 0, now, rnd);
  }

  /** With few buckets in play this does happen: two addresses of one group, announced at time 1. */
  lemma SomeNewcomerDropped()
    ensures exists env: Env, book: Book, a: Address, source: NetAddr ::
              && Sound(env, book) && env.routable(a.svc.addr) && a.svc.addr !in book.recs
              && a.svc.addr !in B.Add(env, book, a, source, 0, 1, 0).recs
  {
    hide Sound, B.Add, Defended;
    var env := Env((x: Preimage) => 0, (x: NetAddr) => 0, (x: NetAddr) => true, (x: NetAddr) => true);
    var h, a := Address(Service(NetAddr(1), 8333), {}, 1), Address(Service(NetAddr(2), 8333), {}, 1);
    NewcomerDropped(env, 0, h, a, NetAddr(1), 1, 0);
    assert env.routable(a.svc.addr);
  }

  // ---- Promotions

  /** The only slot of x is the new slot that h, which holds the tried slot of svc, gets when it is demoted. */
  ghost predicate Ousts(env: Env, key: int, recs: Recs, svc: Service, h: NetAddr, x: NetAddr) {
    && h in recs && x in recs && HoldsTried(env, key, recs[h], svc) && !recs[x].tried
    && var e := recs[h].entry;
       var b := NewBucket(env, key, e.svc, e.source);
       HoldsNew(env, key, recs[x], b, Position(env, key, e.svc, true, b)) && recs[x].buckets == {b}
  }

  /** Who may lose what when an address is promoted. */
  ghost predicate Promotion(env: Env, key: int, recs: Recs, recs': Recs, a: NetAddr)
    requires a in recs
  {
    && a in recs' && recs'[a].tried && recs'.Keys <= recs.Keys
    && (forall x :: Lost(recs, recs', x) ==> exists h :: Ousts(env, key, recs, recs[a].entry.svc, h, x))
    && (forall x, y :: Lost(recs, recs', x) && Lost(recs, recs', y) ==> x == y)
    && (forall x :: Demoted(recs, recs', x) ==> HoldsTried(env, key, recs[x], recs[a].entry.svc) && x in recs' && |recs'[x].buckets| == 1)
    && (forall x :: x != a && x in recs' && recs'[x].tried ==> x in recs && recs'[x] == recs[x])
    && (!TriedTaken(env, key, recs, recs[a].entry.svc) ==> recs'.Keys == recs.Keys)
  }

  lemma MakeTriedPromotes(env: Env, key: int, recs: Recs, nextId: int, a: NetAddr)
    requires Fine(env, key, recs, nextId, {}) && a in recs && !recs[a].tried
    ensures Promotion(env, key, recs, MakeTried(env, key, recs, a), a)
  {
    hide Position, NewBucket;
    var out := recs[a := recs[a].(buckets := {})];
    var svc := recs[a].entry.svc;
    assert TriedTaken(env, key, out, svc) <==> TriedTaken(env, key, recs, svc) by {
      if TriedTaken(env, key, recs, svc) {
        var h := TriedHolder(env, key, recs, svc);
        assert HoldsTried(env, key, out[h], svc);
      }
      if TriedTaken(env, key, out, svc) {
        var h := TriedHolder(env, key, out, svc);
        assert HoldsTried(env, key, recs[h], svc);
      }
    }
    if TriedTaken(env, key, out, svc) {
      var h := TriedHolder(env, key, out, svc);
      var r := out[h].(tried := false, buckets := {});
      var b := NewBucket(env, key, r.entry.svc, r.entry.source);
      var p := Position(env, key, r.entry.svc, true, b);
      var shed := Shed(env, key, out[h := r], b, p);
      forall x | Lost(recs, MakeTried(env, key, recs, a), x)
        ensures x != a && x != h && Ousts(env, key, recs, svc, h, x)
      {
      }
    }
  }

  /** A connection that must not evict untested demotes nobody and loses nobody. */
  lemma TestedGoodKeepsAll(env: Env, book: Book, svc: Service, time: int)
    requires Sound(env, book)
    ensures
      var recs, recs' := book.recs, B.Good(env, book, svc, true, time).recs;
      recs'.Keys == recs.Keys && forall x :: !Demoted(recs, recs', x)
  {
    hide MakeTried, Sound, Fine, TriedTaken;
    SoundIsFine(env, book);
    if Knows(book, svc) && !book.recs[svc.addr].tried {
      var r := book.recs[svc.addr];
      var e := r.entry.(lastSuccess := time, lastTry := time, attempts := 0);
      var recs := book.recs[svc.addr := r.(entry := e)];
      TouchedFine(env, book.key, book.recs, book.nextId, svc.addr, e);
      if !TriedTaken(env, book.key, recs, e.svc) {
        MakeTriedPromotes(env, book.key, recs, book.nextId, svc.addr);
        FreeSlot(env, book.key, recs, MakeTried(env, book.key, recs, svc.addr), svc.addr);
      }
    }
  }

  lemma FreeSlot(env: Env, key: int, recs: Recs, recs': Recs, a: NetAddr)
    requires a in recs && Promotion(env, key, recs, recs', a) && !TriedTaken(env, key, recs, recs[a].entry.svc)
    ensures recs'.Keys == recs.Keys && forall x :: x in recs && recs[x].tried ==> x in recs' && recs'[x].tried
  {
    forall x | x in recs && recs[x].tried
      ensures x in recs' && recs'[x].tried
    {
      var held := HoldsTried(env, key, recs[x], recs[a].entry.svc);
      assert Demoted(recs, recs', x) ==> held;
    }
  }

  /** x competes with svc for one tried slot. */
  ghost predicate InTheWay(env: Env, book: Book, svc: Service, x: NetAddr) {
    x in book.recs && HoldsTried(env, book.key, book.recs[x], svc)
  }

  /** A connection leaves every tried address as it is, but for its own and the holder of its tried slot. */
  lemma GoodSpares(env: Env, book: Book, svc: Service, test: bool, time: int, x: NetAddr)
    requires Sound(env, book) && x in book.recs && book.recs[x].tried && x != svc.addr
    ensures
      var recs' := B.Good(env, book, svc, test, time).recs;
      && x in recs'
      && (recs'[x] == book.recs[x] ||
          (!test && Knows(book, svc) && !book.recs[svc.addr].tried && InTheWay(env, book, svc, x)))
  {
    hide MakeTried, Sound, Fine, TriedTaken;
    SoundIsFine(env, book);
    if Knows(book, svc) && !book.recs[svc.addr].tried {
      var r := book.recs[svc.addr];
      var e := r.entry.(lastSuccess := time, lastTry := time, attempts := 0);
      var recs := book.recs[svc.addr := r.(entry := e)];
      TouchedFine(env, book.key, book.recs, book.nextId, svc.addr, e);
      MakeTriedPromotes(env, book.key, recs, book.nextId, svc.addr);
      if !TriedTaken(env, book.key, recs, e.svc) {
        FreeSlot(env, book.key, recs, MakeTried(env, book.key, recs, svc.addr), svc.addr);
      }
    }
  }

  lemma TriedStays(env: Env, book: Book, svc: Service, test: bool, time: int)
    requires svc.addr in book.recs && book.recs[svc.addr].tried
    ensures svc.addr in B.Good(env, book, svc, test, time).recs && B.Good(env, book, svc, test, time).recs[svc.addr].tried
  {
  }

  lemma OustsAlike(env: Env, key: int, recs: Recs, was: Recs, svc: Service, h: NetAddr, x: NetAddr)
    requires Ousts(env, key, recs, svc, h, x) && svc.addr in recs && was.Keys == recs.Keys
    requires forall y :: y in recs && y != svc.addr ==> recs[y] == was[y]
    requires recs[svc.addr].tried == was[svc.addr].tried && recs[svc.addr].buckets == was[svc.addr].buckets
    requires recs[svc.addr].entry.svc == was[svc.addr].entry.svc && recs[svc.addr].entry.source == was[svc.addr].entry.source
    ensures Ousts(env, key, was, svc, h, x)
  {
  }

  /** A connection loses nobody, but for the one in the new slot of the address it demotes. */
  lemma GoodLoses(env: Env, book: Book, svc: Service, test: bool, time: int, x: NetAddr)
    requires Sound(env, book) && Lost(book.recs, B.Good(env, book, svc, test, time).recs, x)
    ensures !test && Knows(book, svc) && !book.recs[svc.addr].tried
    ensures exists h :: Ousts(env, book.key, book.recs, svc, h, x)
  {
    hide MakeTried, Sound, Fine, TriedTaken, HoldsTried, HoldsNew;
    SoundIsFine(env, book);
    if test {
      TestedGoodKeepsAll(env, book, svc, time);
    }
    var r := book.recs[svc.addr];
    var e := r.entry.(lastSuccess := time, lastTry := time, attempts := 0);
    var recs := book.recs[svc.addr := r.(entry := e)];
    TouchedFine(env, book.key, book.recs, book.nextId, svc.addr, e);
    MakeTriedPromotes(env, book.key, recs, book.nextId, svc.addr);
    assert Lost(recs, MakeTried(env, book.key, recs, svc.addr), x);
    var h :| Ousts(env, book.key, recs, svc, h, x);
    OustsAlike(env, book.key, recs, book.recs, svc, h, x);
  }

  // ---- Settling collisions

  /** The last success of an entry is too long ago for it to be safe from eviction. */
  predicate Stale(e: Entry, adjusted: int) {
    adjusted - e.lastSuccess >= REPLACEMENT_SECONDS
  }

  /**
   Settling a collision leaves every tried address as it is, unless its last success is stale and it is
   in the way of the recorded address.
   */
  lemma ResolveOneSpares(env: Env, book: Book, id: int, adjusted: int, clock: (int, nat) -> int, x: NetAddr)
    requires Sound(env, book) && x in book.recs && book.recs[x].tried
    ensures
      var recs' := ResolveOne(env, book, id, adjusted, clock).0.recs;
      && x in recs'
      && (recs'[x] == book.recs[x] ||
          (Stale(book.recs[x].entry, adjusted) && HasId(book.recs, id) &&
           InTheWay(env, book, book.recs[WithId(book.recs, id)].entry.svc, x)))
  {
    hide B.Good, HasId;
    if HasId(book.recs, id) {
      var a := WithId(book.recs, id);
      var svc := book.recs[a].entry.svc;
      if TriedTaken(env, book.key, book.recs, svc) {
        var h := TriedHolder(env, book.key, book.recs, svc);
        assert InTheWay(env, book, svc, x) ==> x == h;
        if x != a {
          GoodSpares(env, book, svc, false, clock(id, 1), x);
        } else {
          assert HoldsTried(env, book.key, book.recs[x], svc);
          TriedStays(env, book, svc, false, clock(id, 1));
        }
      } else {
        assert !InTheWay(env, book, svc, x);
        assert HoldsTried(env, book.key, book.recs[x], book.recs[x].entry.svc);
        GoodSpares(env, book, svc, false, adjusted, x);
      }
    }
  }

  /** Identifiers and services never change, and no address is added. */
  ghost predicate Keeps(recs: Recs, recs': Recs) {
    forall a :: a in recs' ==> a in recs && recs'[a].id == recs[a].id && recs'[a].entry.svc == recs[a].entry.svc
  }

  lemma GoodKeeps(env: Env, book: Book, svc: Service, time: int)
    ensures Keeps(book.recs, B.Good(env, book, svc, false, time).recs)
    ensures B.Good(env, book, svc, false, time).key == book.key
  {
    hide MakeTried, TriedTaken;
    if Knows(book, svc) {
      var r := book.recs[svc.addr];
      var recs := book.recs[svc.addr := r.(entry := r.entry.(lastSuccess := time, lastTry := time, attempts := 0))];
      MakeTriedKeepsIds(env, book.key, recs, svc.addr);
    }
  }

  lemma ResolveOneKeeps(env: Env, book: Book, id: int, adjusted: int, clock: (int, nat) -> int)
    ensures Keeps(book.recs, ResolveOne(env, book, id, adjusted, clock).0.recs)
    ensures ResolveOne(env, book, id, adjusted, clock).0.key == book.key
  {
    hide B.Good, HasId, TriedTaken;
    if HasId(book.recs, id) {
      var svc := book.recs[WithId(book.recs, id)].entry.svc;
      GoodKeeps(env, book, svc, clock(id, 1));
      GoodKeeps(env, book, svc, adjusted);
    }
  }

  /** A recorded address competes with x, whose last success is stale. */
  ghost predicate Challenged(env: Env, book: Book, todo: set<int>, adjusted: int, x: NetAddr) {
    && x in book.recs && Stale(book.recs[x].entry, adjusted)
    && exists a :: a in book.recs && book.recs[a].id in todo && InTheWay(env, book, book.recs[a].entry.svc, x)
  }

  /** Settling all collisions leaves every tried address as it is, unless it is challenged. */
  lemma {:induction false} ResolveSpares(env: Env, book: Book, todo: set<int>, adjusted: int, clock: (int, nat) -> int, x: NetAddr)
    requires Sound(env, book) && x in book.recs && book.recs[x].tried
    ensures
      var recs' := Resolve(env, book, todo, adjusted, clock).recs;
      (x in recs' && recs'[x] == book.recs[x]) || Challenged(env, book, todo, adjusted, x)
    decreases |todo|
  {
    hide Sound, ResolveOne, HasId, Stale;
    if todo != {} {
      var id := Least(todo);
      var (book', drop) := ResolveOne(env, book, id, adjusted, clock);
      var next := if drop then book'.(collisions := book'.collisions - {id}) else book';
      ResolveOneSpares(env, book, id, adjusted, clock, x);
      ResolveOneSound(env, book, id, adjusted, clock);
      ResolveOneKeeps(env, book, id, adjusted, clock);
      ForgetSound(env, book', book'.collisions - {id});
      if book'.recs[x] == book.recs[x] {
        ResolveSpares(env, next, todo - {id}, adjusted, clock, x);
        if Challenged(env, next, todo - {id}, adjusted, x) {
          var a :| a in next.recs && next.recs[a].id in todo - {id} && InTheWay(env, next, next.recs[a].entry.svc, x);
          assert InTheWay(env, book, book.recs[a].entry.svc, x);
        }
      } else {
        assert InTheWay(env, book, book.recs[WithId(book.recs, id)].entry.svc, x);
      }
    }
  }

  /** Settling a collision ousts nobody, unless the holder of the slot is stale. */
  ghost predicate OustedBySettling(env: Env, book: Book, id: int, adjusted: int, x: NetAddr) {
    && HasId(book.recs, id)
    && exists h :: Ousts(env, book.key, book.recs, book.recs[WithId(book.recs, id)].entry.svc, h, x) &&
                   Stale(book.recs[h].entry, adjusted)
  }

  lemma ResolveOneLoses(env: Env, book: Book, id: int, adjusted: int, clock: (int, nat) -> int, x: NetAddr)
    requires Sound(env, book) && Lost(book.recs, ResolveOne(env, book, id, adjusted, clock).0.recs, x)
    ensures OustedBySettling(env, book, id, adjusted, x)
  {
    hide B.Good, HasId, Sound, HoldsNew, HoldsTried;
    var svc := book.recs[WithId(book.recs, id)].entry.svc;
    var taken := TriedTaken(env, book.key, book.recs, svc);
    var time := if taken then clock(id, 1) else adjusted;
    GoodLoses(env, book, svc, false, time, x);
    var h :| Ousts(env, book.key, book.recs, svc, h, x);
    SlotHolder(env, book, svc, h);
  }

  lemma SlotHolder(env: Env, book: Book, svc: Service, h: NetAddr)
    requires Sound(env, book) && h in book.recs && HoldsTried(env, book.key, book.recs[h], svc)
    ensures TriedTaken(env, book.key, book.recs, svc) && h == TriedHolder(env, book.key, book.recs, svc)
  {
  }

  /** While the collisions are settled one by one, x loses its only slot to a stale address that is demoted. */
  ghost predicate OustedSettling(env: Env, book: Book, todo: set<int>, adjusted: int, clock: (int, nat) -> int, x: NetAddr)
    decreases |todo|
  {
    todo != {} &&
    var id := Least(todo);
    var (book', drop) := ResolveOne(env, book, id, adjusted, clock);
    || OustedBySettling(env, book, id, adjusted, x)
    || OustedSettling(env, if drop then book'.(collisions := book'.collisions - {id}) else book', todo - {id}, adjusted, clock, x)
  }

  lemma {:induction false} ResolveLoses(env: Env, book: Book, todo: set<int>, adjusted: int, clock: (int, nat) -> int, x: NetAddr)
    requires Sound(env, book) && Lost(book.recs, Resolve(env, book, todo, adjusted, clock).recs, x)
    ensures OustedSettling(env, book, todo, adjusted, clock, x)
    decreases |todo|
  {
    hide Sound, ResolveOne, HasId, OustedBySettling;
    if todo != {} {
      var id := Least(todo);
      var (book', drop) := ResolveOne(env, book, id, adjusted, clock);
      var next := if drop then book'.(collisions := book'.collisions - {id}) else book';
      ResolveOneSound(env, book, id, adjusted, clock);
      ForgetSound(env, book', book'.collisions - {id});
      if x in next.recs {
        ResolveLoses(env, next, todo - {id}, adjusted, clock, x);
      } else {
        ResolveOneLoses(env, book, id, adjusted, clock, x);
      }
    }
  }

  // ---- Whole runs

  /** The operation may cost x the status of being tried. */
  ghost predicate Threatens(env: Env, book: Book, op: Op, x: NetAddr) {
    match op
    case Good(svc, test, _, _) => !test && Knows(book, svc) && !book.recs[svc.addr].tried && InTheWay(env, book, svc, x)
    case ResolveCollisions(adjusted, _, _) => Challenged(env, book, book.collisions, adjusted, x)
    case _ => false
  }

  /** An operation that does not threaten a tried address leaves it tried. */
  lemma StaysTried(env: Env, book: Book, op: Op, book': Book, x: NetAddr)
    requires Sound(env, book) && book.nextId >= 0 && Follows(env, book, op, book')
    requires x in book.recs && book.recs[x].tried && !Threatens(env, book, op, x)
    ensures x in book'.recs && book'.recs[x].tried
  {
    hide Sound, B.Add, B.Good, Resolve, HasId, Challenged, InTheWay;
    match op
    case Add(addr, source, penalty, now, rnd) => AddLosesOnlyTerrible(env, book, addr, source, penalty, now, rnd);
    case Good(svc, test, time, _) =>
      if x == svc.addr {
        TriedStays(env, book, svc, test, time);
      } else {
        GoodSpares(env, book, svc, test, time, x);
      }
    case ResolveCollisions(adjusted, clock, _) => ResolveSpares(env, book, book.collisions, adjusted, clock, x);
    case _ =>
  }

  /** In any run, a tried address stays tried until an operation threatens it. */
  lemma {:induction false} RunSpares(env: Env, ops: seq<Op>, books: seq<Book>, x: NetAddr, lo: nat, hi: nat)
    requires Trace(env, ops, books) && Sound(env, books[0]) && books[0].nextId >= 0 && lo <= hi <= |ops|
    requires x in books[lo].recs && books[lo].recs[x].tried
    requires forall i :: lo <= i < hi ==> !Threatens(env, books[i], ops[i], x)
    ensures x in books[hi].recs && books[hi].recs[x].tried
    decreases hi
  {
    hide Sound, Follows, Threatens;
    if lo < hi {
      RunSpares(env, ops, books, x, lo, hi - 1);
      TraceSound(env, ops, books, hi - 1);
      StaysTried(env, books[hi - 1], ops[hi - 1], books[hi], x);
    }
  }

  /** x is dropped by an announcement, as an address that is terrible at that time and has one slot only. */
  ghost predicate DroppedAsTerrible(book: Book, op: Op, x: NetAddr) {
    op.Add? && x in book.recs && !book.recs[x].tried && |book.recs[x].buckets| == 1 && IsTerrible(book.recs[x].entry, op.now)
  }

  /** x loses its only slot to an address that is demoted without having been tested. */
  ghost predicate OustedIn(env: Env, book: Book, op: Op, x: NetAddr) {
    match op
    case Good(svc, test, _, _) =>
      !test && Knows(book, svc) && !book.recs[svc.addr].tried && exists h :: Ousts(env, book.key, book.recs, svc, h, x)
    case ResolveCollisions(adjusted, clock, _) => OustedSettling(env, book, book.collisions, adjusted, clock, x)
    case _ => false
  }

  lemma StaysKnown(env: Env, book: Book, op: Op, book': Book, x: NetAddr)
    requires Sound(env, book) && book.nextId >= 0 && Follows(env, book, op, book') && x in book.recs
    ensures x in book'.recs || DroppedAsTerrible(book, op, x) || OustedIn(env, book, op, x)
  {
    hide Sound, B.Add, B.Good, Resolve, HasId, IsTerrible, Ousts, OustedSettling;
    match op
    case Add(addr, source, penalty, now, rnd) =>
      AddLosesOnlyTerrible(env, book, addr, source, penalty, now, rnd);
      assert x !in book'.recs ==> Lost(book.recs, book'.recs, x);
    case Good(svc, test, time, _) =>
      if x !in book'.recs {
        GoodLoses(env, book, svc, test, time, x);
      }
    case ResolveCollisions(adjusted, clock, _) =>
      if x !in book'.recs {
        ResolveLoses(env, book, book.collisions, adjusted, clock, x);
      }
    case _ =>
  }

  /** In any run, an address leaves the book only by being dropped as terrible or ousted from its only slot. */
  lemma {:induction false} RunKeeps(env: Env, ops: seq<Op>, books: seq<Book>, x: NetAddr, lo: nat, hi: nat)
    requires Trace(env, ops, books) && Sound(env, books[0]) && books[0].nextId >= 0 && lo <= hi <= |ops|
    requires x in books[lo].recs
    ensures x in books[hi].recs ||
            exists i :: lo <= i < hi && (DroppedAsTerrible(books[i], ops[i], x) || OustedIn(env, books[i], ops[i], x))
    decreases hi
  {
    hide Sound, Follows, DroppedAsTerrible, OustedIn;
    if lo < hi {
      RunKeeps(env, ops, books, x, lo, hi - 1);
      TraceSound(env, ops, books, hi - 1);
      if x in books[hi - 1].recs {
        StaysKnown(env, books[hi - 1], ops[hi - 1], books[hi], x);
      }
    }
  }

  /** Nothing evicts untested: connections are tested, and no collisions are settled. */
  predicate Gentle(op: Op) {
    !op.ResolveCollisions? && (op.Good? ==> op.testBeforeEvict)
  }

  /** In a run that evicts nothing untested, being dropped as terrible is the only way to leave the book. */
  lemma GentleRunKeeps(env: Env, ops: seq<Op>, books: seq<Book>, x: NetAddr, lo: nat, hi: nat)
    requires Trace(env, ops, books) && Sound(env, books[0]) && books[0].nextId >= 0 && lo <= hi <= |ops|
    requires (forall i :: lo <= i < hi ==> Gentle(ops[i])) && x in books[lo].recs
    ensures x in books[hi].recs || exists i :: lo <= i < hi && DroppedAsTerrible(books[i], ops[i], x)
  {
    hide Sound, Follows, DroppedAsTerrible;
    RunKeeps(env, ops, books, x, lo, hi);
    assert forall i :: lo <= i < hi ==> !OustedIn(env, books[i], ops[i], x);
  }
}
