/**
 Properties of whole runs of the address manager: the recorded collisions
 always point at an occupied tried slot, and one address group reaches only a
 bounded number of buckets.
 */
module AddrSafety {
  import opened Numbers
  import opened Collections
  import opened AddrTypes
  import opened AddrBook
  import S = AddrState
  import V = AddrView

  // ---- What consistent indexes say about the book

  /** No two addresses share a slot, and every address is in exactly one of the tables. */
  ghost predicate Sound(env: Env, book: Book) {
    && (forall a :: a in book.recs ==>
          && book.recs[a].entry.svc.addr == a && 0 <= book.recs[a].id < book.nextId
          && (book.recs[a].tried ==> book.recs[a].buckets == {})
          && (!book.recs[a].tried ==> 1 <= |book.recs[a].buckets| <= NEW_BUCKETS_PER_ADDRESS))
    && (forall a, a' :: a in book.recs && a' in book.recs && book.recs[a].id == book.recs[a'].id ==> a == a')
    && (forall a, a', b: nat, p: nat | a in book.recs && a' in book.recs ::
          HoldsNew(env, book.key, book.recs[a], b, p) && HoldsNew(env, book.key, book.recs[a'], b, p) ==> a == a')
    && (forall a, a', svc | a in book.recs && a' in book.recs ::
          HoldsTried(env, book.key, book.recs[a], svc) && HoldsTried(env, book.key, book.recs[a'], svc) ==> a == a')
  }

  lemma ConsistentIsSound(env: Env, s: S.State)
    requires S.Consistent(env, s)
    ensures Sound(env, Book(s.key, s.idCount, V.View(env, s), s.collisions, s.lastGood))
  {
    hide S.Linked, HoldsNew, HoldsTried, V.View;
    var recs := V.View(env, s);
    forall a | a in recs
      ensures recs[a].entry.svc.addr == a && 0 <= recs[a].id < s.idCount
      ensures recs[a].id in s.info && s.info[recs[a].id].entry.svc.addr == a
      ensures recs[a].tried ==> recs[a].buckets == {}
      ensures !recs[a].tried ==> 1 <= |recs[a].buckets| <= NEW_BUCKETS_PER_ADDRESS
    {
      RecordSound(env, s, a);
    }
    forall a, a', b: nat, p: nat |
      && a in recs && a' in recs && HoldsNew(env, s.key, recs[a], b, p) && HoldsNew(env, s.key, recs[a'], b, p)
      ensures a == a'
    {
      NewSlotUnshared(env, s, a, a', b, p);
    }
    forall a, a', svc |
      && a in recs && a' in recs && HoldsTried(env, s.key, recs[a], svc) && HoldsTried(env, s.key, recs[a'], svc)
      ensures a == a'
    {
      TriedSlotUnshared(env, s, a, a', svc);
    }
  }

  lemma RecordSound(env: Env, s: S.State, a: NetAddr)
    requires S.Consistent(env, s) && a in V.View(env, s)
    ensures var r := V.View(env, s)[a];
            && r.entry.svc.addr == a && 0 <= r.id < s.idCount
            && r.id in s.info && s.info[r.id].entry.svc.addr == a
            && (r.tried ==> r.buckets == {})
            && (!r.tried ==> 1 <= |r.buckets| <= NEW_BUCKETS_PER_ADDRESS)
  {
    hide S.Counted, S.NewSlots, S.TriedSlots, S.Ordered;
    V.ViewId(env, s, a);
  }

  lemma NewSlotUnshared(env: Env, s: S.State, a: NetAddr, a': NetAddr, b: nat, p: nat)
    requires S.Consistent(env, s) && a in V.View(env, s) && a' in V.View(env, s)
    requires HoldsNew(env, s.key, V.View(env, s)[a], b, p) && HoldsNew(env, s.key, V.View(env, s)[a'], b, p)
    ensures a == a'
  {
    hide S.Counted, S.NewSlots, S.TriedSlots, S.Ordered, S.Referenced, V.View;
    V.ViewId(env, s, a);
    V.ViewId(env, s, a');
  }

  lemma TriedSlotUnshared(env: Env, s: S.State, a: NetAddr, a': NetAddr, svc: Service)
    requires S.Consistent(env, s) && a in V.View(env, s) && a' in V.View(env, s)
    requires HoldsTried(env, s.key, V.View(env, s)[a], svc) && HoldsTried(env, s.key, V.View(env, s)[a'], svc)
    ensures a == a'
  {
    hide S.Counted, S.NewSlots, S.TriedSlots, S.Ordered, V.View;
    V.ViewId(env, s, a);
    V.ViewId(env, s, a');
  }

  // ---- Recorded collisions

  /**
   At most ten collisions are recorded, and each recorded identifier that still
   names an address competes for a tried slot that is occupied.
   */
  ghost predicate CollisionsSafe(env: Env, book: Book) {
    && |book.collisions| <= TRIED_COLLISION_SIZE
    && (forall id :: id in book.collisions ==> 0 <= id < book.nextId)
    && (forall a :: a in book.recs && book.recs[a].id in book.collisions ==>
          TriedTaken(env, book.key, book.recs, book.recs[a].entry.svc))
  }

  ghost predicate TriedHaveNoBuckets(recs: map<NetAddr, Rec>) {
    forall a :: a in recs && recs[a].tried ==> recs[a].buckets == {}
  }

  /** Occupied tried slots stay occupied; addresses keep service and identifier; other identifiers are unused ones. */
  ghost predicate Evolves(env: Env, key: int, recs: map<NetAddr, Rec>, recs': map<NetAddr, Rec>, nextId: int) {
    && (forall svc :: TriedTaken(env, key, recs, svc) ==> TriedTaken(env, key, recs', svc))
    && (forall a :: a in recs' && recs'[a].id < nextId ==>
          a in recs && recs[a].id == recs'[a].id && recs[a].entry.svc == recs'[a].entry.svc)
  }

  lemma SafeAfter(env: Env, book: Book, book': Book)
    requires CollisionsSafe(env, book) && Evolves(env, book.key, book.recs, book'.recs, book.nextId)
    requires book'.key == book.key && book.nextId <= book'.nextId && book'.collisions <= book.collisions
    ensures CollisionsSafe(env, book')
  {
    SubsetSize(book'.collisions, book.collisions);
    forall a | a in book'.recs && book'.recs[a].id in book'.collisions
      ensures TriedTaken(env, book'.key, book'.recs, book'.recs[a].entry.svc)
    {
      assert TriedTaken(env, book.key, book.recs, book.recs[a].entry.svc);
    }
  }

  lemma StillTaken(env: Env, key: int, recs: map<NetAddr, Rec>, recs': map<NetAddr, Rec>)
    requires forall a :: a in recs && recs[a].tried ==>
               a in recs' && recs'[a].tried && recs'[a].entry.svc == recs[a].entry.svc
    ensures forall svc :: TriedTaken(env, key, recs, svc) ==> TriedTaken(env, key, recs', svc)
  {
    forall svc | TriedTaken(env, key, recs, svc)
      ensures TriedTaken(env, key, recs', svc)
    {
      var a := TriedHolder(env, key, recs, svc);
      assert HoldsTried(env, key, recs'[a], svc);
    }
  }

  lemma PlaceEvolves(env: Env, key: int, recs: map<NetAddr, Rec>, a: NetAddr, source: NetAddr, now: int, nextId: int)
    requires a in recs && !recs[a].tried && TriedHaveNoBuckets(recs)
    ensures Evolves(env, key, recs, Place(env, key, recs, a, source, now), nextId)
  {
    StillTaken(env, key, recs, Place(env, key, recs, a, source, now));
  }

  lemma DemotedSlotRefilled(env: Env, key: int, recs: map<NetAddr, Rec>, a: NetAddr, svc: Service)
    requires a in recs && !recs[a].tried && TriedHaveNoBuckets(recs) && TriedTaken(env, key, recs, svc)
    requires forall x, y, s | x in recs && y in recs ::
               HoldsTried(env, key, recs[x], s) && HoldsTried(env, key, recs[y], s) ==> x == y
    ensures TriedTaken(env, key, MakeTried(env, key, recs, a), svc)
  {
    var h := TriedHolder(env, key, recs, svc);
    var out := recs[a := recs[a].(buckets := {})];
    var svc' := recs[a].entry.svc;
    var recs' := MakeTried(env, key, recs, a);
    if TriedTaken(env, key, out, svc') && TriedHolder(env, key, out, svc') == h {
      assert HoldsTried(env, key, recs'[a], svc);
    } else {
      assert h in recs' && HoldsTried(env, key, recs'[h], svc);
    }
  }

  lemma MakeTriedKeepsIds(env: Env, key: int, recs: map<NetAddr, Rec>, a: NetAddr)
    requires a in recs
    ensures forall x :: x in MakeTried(env, key, recs, a) ==>
              var r := MakeTried(env, key, recs, a)[x];
              x in recs && recs[x].id == r.id && recs[x].entry.svc == r.entry.svc
  {
  }

  lemma MakeTriedEvolves(env: Env, book: Book, a: NetAddr)
    requires Sound(env, book) && a in book.recs && !book.recs[a].tried
    ensures Evolves(env, book.key, book.recs, MakeTried(env, book.key, book.recs, a), book.nextId)
  {
    hide MakeTried, TriedTaken;
    MakeTriedKeepsIds(env, book.key, book.recs, a);
    forall svc | TriedTaken(env, book.key, book.recs, svc)
      ensures TriedTaken(env, book.key, MakeTried(env, book.key, book.recs, a), svc)
    {
      DemotedSlotRefilled(env, book.key, book.recs, a, svc);
    }
  }

  /** Changing what is known about an address, not its service, changes no slot. */
  lemma TouchSound(env: Env, book: Book, a: NetAddr, e: Entry)
    requires Sound(env, book) && a in book.recs && e.svc == book.recs[a].entry.svc
    ensures var recs := book.recs[a := book.recs[a].(entry := e)];
            Sound(env, book.(recs := recs)) && Evolves(env, book.key, book.recs, recs, book.nextId)
  {
    var recs := book.recs[a := book.recs[a].(entry := e)];
    forall x, b: nat, p: nat | x in recs
      ensures HoldsNew(env, book.key, recs[x], b, p) == HoldsNew(env, book.key, book.recs[x], b, p)
    {
    }
    forall x, svc | x in recs
      ensures HoldsTried(env, book.key, recs[x], svc) == HoldsTried(env, book.key, book.recs[x], svc)
    {
    }
    StillTaken(env, book.key, book.recs, recs);
  }

  lemma UpdateSafe(env: Env, book: Book, svc: Service, f: Entry -> Entry)
    requires Sound(env, book) && CollisionsSafe(env, book)
    requires forall e :: f(e).svc == e.svc
    ensures CollisionsSafe(env, Update(book, svc, f))
  {
    if Knows(book, svc) {
      TouchSound(env, book, svc.addr, f(book.recs[svc.addr].entry));
      SafeAfter(env, book, Update(book, svc, f));
    }
  }

  lemma AttemptSafe(env: Env, book: Book, svc: Service, count: bool, time: int)
    requires Sound(env, book) && CollisionsSafe(env, book)
    ensures CollisionsSafe(env, Attempt(book, svc, count, time))
  {
    var f := (e: Entry) =>
      var e' := e.(lastTry := time);
      if count && e.lastCountAttempt < book.lastGood
      then e'.(lastCountAttempt := time, attempts := e.attempts + 1) else e';
    UpdateSafe(env, book, svc, f);
    assert Attempt(book, svc, count, time) == Update(book, svc, f);
  }

  lemma ConnectedSafe(env: Env, book: Book, svc: Service, time: int)
    requires Sound(env, book) && CollisionsSafe(env, book)
    ensures CollisionsSafe(env, Connected(book, svc, time))
  {
    var f := (e: Entry) => if time - e.time > 20 * 60 then e.(time := ToTime(time)) else e;
    UpdateSafe(env, book, svc, f);
    assert Connected(book, svc, time) == Update(book, svc, f);
  }

  lemma SetServicesSafe(env: Env, book: Book, svc: Service, services: set<nat>)
    requires Sound(env, book) && CollisionsSafe(env, book)
    ensures CollisionsSafe(env, SetServices(book, svc, services))
  {
    var f := (e: Entry) => e.(services := services);
    UpdateSafe(env, book, svc, f);
    assert SetServices(book, svc, services) == Update(book, svc, f);
  }

  /** Selecting a recorded collision finds its tried slot occupied; dropping a stale one is harmless. */
  lemma SelectSafe(env: Env, book: Book)
    requires CollisionsSafe(env, book)
    ensures forall id :: id in book.collisions && HasId(book.recs, id) ==>
              TriedTaken(env, book.key, book.recs, book.recs[WithId(book.recs, id)].entry.svc)
    ensures forall id :: id in book.collisions ==> CollisionsSafe(env, book.(collisions := book.collisions - {id}))
  {
    forall id | id in book.collisions
      ensures CollisionsSafe(env, book.(collisions := book.collisions - {id}))
    {
      StillTaken(env, book.key, book.recs, book.recs);
      SafeAfter(env, book, book.(collisions := book.collisions - {id}));
    }
  }

  lemma AdvanceSafe(env: Env, book: Book, a: NetAddr, testBeforeEvict: bool)
    requires Sound(env, book) && CollisionsSafe(env, book) && a in book.recs && !book.recs[a].tried
    ensures CollisionsSafe(env, Advance(env, book, a, testBeforeEvict))
  {
    if testBeforeEvict && TriedTaken(env, book.key, book.recs, book.recs[a].entry.svc) {
      assert forall x :: x in book.recs && book.recs[x].id == book.recs[a].id ==> x == a;
    } else {
      MakeTriedEvolves(env, book, a);
      SafeAfter(env, book, Advance(env, book, a, testBeforeEvict));
    }
  }

  lemma GoodSafe(env: Env, book: Book, svc: Service, testBeforeEvict: bool, time: int)
    requires Sound(env, book) && CollisionsSafe(env, book)
    ensures CollisionsSafe(env, Good(env, book, svc, testBeforeEvict, time))
  {
    hide Advance, Sound;
    var noted := book.(lastGood := time);
    SameSlots(env, book, noted);
    if Knows(book, svc) {
      var e := book.recs[svc.addr].entry.(lastSuccess := time, lastTry := time, attempts := 0);
      TouchSound(env, noted, svc.addr, e);
      var book1 := noted.(recs := book.recs[svc.addr := book.recs[svc.addr].(entry := e)]);
      SafeAfter(env, noted, book1);
      if !book.recs[svc.addr].tried {
        AdvanceSafe(env, book1, svc.addr, testBeforeEvict);
      }
    }
  }

  lemma SameSlots(env: Env, book: Book, book': Book)
    requires book'.recs == book.recs && book'.key == book.key && book'.nextId == book.nextId
    ensures Sound(env, book) ==> Sound(env, book')
  {
  }

  lemma NewcomerEvolves(env: Env, book: Book, a: NetAddr, e: Entry)
    requires Sound(env, book) && a !in book.recs
    ensures Evolves(env, book.key, book.recs, book.recs[a := Rec(book.nextId, e, false, {})], book.nextId)
  {
    StillTaken(env, book.key, book.recs, book.recs[a := Rec(book.nextId, e, false, {})]);
  }

  lemma AddSafe(env: Env, book: Book, addr: Address, source: NetAddr, penalty: int, now: int, rnd: nat)
    requires Sound(env, book) && CollisionsSafe(env, book)
    ensures CollisionsSafe(env, Add(env, book, addr, source, penalty, now, rnd))
  {
    hide Place, CollisionsSafe, Evolves, ToTime;
    var a := addr.svc.addr;
    if env.routable(a) {
      var pen := if a == source then 0 else penalty;
      if a in book.recs {
        var e := Refreshed(book.recs[a].entry, addr, pen, now);
        TouchSound(env, book, a, e);
        var book1 := book.(recs := book.recs[a := book.recs[a].(entry := e)]);
        PlaceSafe(env, book, book1, a, source, now);
      } else {
        var e := Entry(addr.svc, addr.services, ToTime(Max(0, addr.time - pen)), source, 0, 0, 0, 0);
        var recs := book.recs[a := Rec(book.nextId, e, false, {})];
        NewcomerEvolves(env, book, a, e);
        PlaceSafe(env, book, book.(recs := recs, nextId := book.nextId + 1), a, source, now);
      }
    }
  }

  lemma PlaceSafe(env: Env, book: Book, book1: Book, a: NetAddr, source: NetAddr, now: int)
    requires CollisionsSafe(env, book) && Evolves(env, book.key, book.recs, book1.recs, book.nextId)
    requires book1.key == book.key && book.nextId <= book1.nextId && book1.collisions == book.collisions
    requires a in book1.recs && TriedHaveNoBuckets(book1.recs)
    ensures CollisionsSafe(env, book1)
    ensures !book1.recs[a].tried ==>
              CollisionsSafe(env, book1.(recs := Place(env, book1.key, book1.recs, a, source, now)))
  {
    hide Place;
    SafeAfter(env, book, book1);
    if !book1.recs[a].tried {
      PlaceEvolves(env, book1.key, book1.recs, a, source, now, book1.nextId);
      SafeAfter(env, book1, book1.(recs := Place(env, book1.key, book1.recs, a, source, now)));
    }
  }

  /** Dropping and resolving one collision. */
  lemma ResolveOneSafe(env: Env, book: Book, id: int, adjusted: int, clock: (int, nat) -> int)
    requires Sound(env, book) && CollisionsSafe(env, book)
    ensures var (book', drop) := ResolveOne(env, book, id, adjusted, clock);
            CollisionsSafe(env, book') && CollisionsSafe(env, book'.(collisions := book'.collisions - {id}))
  {
    hide Good, Sound;
    forall svc, time
      ensures CollisionsSafe(env, Good(env, book, svc, false, time))
    {
      GoodSafe(env, book, svc, false, time);
    }
    var (book', drop) := ResolveOne(env, book, id, adjusted, clock);
    StillTaken(env, book'.key, book'.recs, book'.recs);
    SafeAfter(env, book', book'.(collisions := book'.collisions - {id}));
  }

  /** A cleared book refers to identifiers not yet given exactly when a collision was recorded. */
  lemma ClearedCollisions(env: Env, key: int, collisions: set<int>)
    ensures CollisionsSafe(env, Book(key, 0, map[], collisions, 1)) <==> collisions == {}
  {
    if collisions != {} {
      var id := Member(collisions);
    }
  }

  // ---- How far one group reaches

  ghost function Choices(f: nat -> nat, n: nat): set<nat> {
    set c: nat | c < n :: f(c)
  }

  lemma {:induction false} FewChoices(f: nat -> nat, n: nat)
    ensures |Choices(f, n)| <= n
  {
    if n > 0 {
      FewChoices(f, n - 1);
      assert Choices(f, n) == Choices(f, n - 1) + {f(n - 1)};
    }
  }

  lemma InChoices(f: nat -> nat, n: nat, c: nat)
    requires c < n
    ensures f(c) in Choices(f, n)
  {
  }

  /** The tried bucket: group and service give one of eight hashes, and that one of 256 buckets. */
  lemma TriedBucketExactly(env: Env, key: int, svc: Service, q: nat, choice: nat, r: nat, b: nat)
    requires choice < 8 && env.hash(OfKey(key, svc)) == 8 * q + choice
    requires b < 256 && env.hash(OfGroup(key, env.group(svc.addr), choice)) == 256 * r + b
    ensures TriedBucket(env, key, svc) == b
  {
  }

  /** The new bucket: both groups give one of 64 hashes, and that with the group of the source one of 1024 buckets. */
  lemma NewBucketExactly(env: Env, key: int, svc: Service, source: NetAddr, q: nat, choice: nat, r: nat, b: nat)
    requires choice < 64 && env.hash(OfSource(key, env.group(svc.addr), env.group(source))) == 64 * q + choice
    requires b < 1024 && env.hash(OfSourceGroup(key, env.group(source), choice)) == 1024 * r + b
    ensures NewBucket(env, key, svc, source) == b
  {
  }

  /** One of 64 places in a bucket. */
  lemma PositionExactly(env: Env, key: int, svc: Service, isNew: bool, bucket: nat, r: nat, p: nat)
    requires p < 64 && env.hash(OfPosition(key, isNew, bucket, svc)) == 64 * r + p
    ensures Position(env, key, svc, isNew, bucket) == p
  {
  }

  /** Every address of one group goes to one of eight tried buckets. */
  lemma GroupReachesEightTriedBuckets(env: Env, key: int, group: int) returns (buckets: set<nat>)
    ensures |buckets| <= 8
    ensures forall svc: Service :: env.group(svc.addr) == group ==> TriedBucket(env, key, svc) in buckets
  {
    var f := (c: nat) => env.hash(OfGroup(key, group, c)) % TRIED_BUCKETS;
    FewChoices(f, TRIED_BUCKETS_PER_GROUP);
    buckets := Choices(f, TRIED_BUCKETS_PER_GROUP);
    forall svc: Service | env.group(svc.addr) == group
      ensures TriedBucket(env, key, svc) in buckets
    {
      var c: nat := env.hash(OfKey(key, svc)) % TRIED_BUCKETS_PER_GROUP;
      InChoices(f, TRIED_BUCKETS_PER_GROUP, c);
    }
  }

  /** Whatever one source group announces goes to one of 64 new buckets. */
  lemma SourceReaches64NewBuckets(env: Env, key: int, group: int) returns (buckets: set<nat>)
    ensures |buckets| <= 64
    ensures forall svc: Service, source: NetAddr :: env.group(source) == group ==> NewBucket(env, key, svc, source) in buckets
  {
    var f := (c: nat) => env.hash(OfSourceGroup(key, group, c)) % NEW_BUCKETS;
    FewChoices(f, NEW_BUCKETS_PER_SOURCE_GROUP);
    buckets := Choices(f, NEW_BUCKETS_PER_SOURCE_GROUP);
    forall svc: Service, source: NetAddr | env.group(source) == group
      ensures NewBucket(env, key, svc, source) in buckets
    {
      var c: nat := env.hash(OfSource(key, env.group(svc.addr), group)) % NEW_BUCKETS_PER_SOURCE_GROUP;
      InChoices(f, NEW_BUCKETS_PER_SOURCE_GROUP, c);
    }
  }
}
