/**
 Every operation of the address manager, read on its address book alone, keeps
 the book sound: no slot and no identifier ever belongs to two addresses, a tried
 address is in no new bucket, and a new one is in one to eight.
 */
module AddrSound {
  import opened Numbers
  import opened AddrTypes
  import opened AddrBook
  import opened AddrSafety

  type Recs = map<NetAddr, Rec>

  // ---- The parts of soundness

  /** Records are filed under their own address, and no identifier is used twice. */
  ghost predicate Named(recs: Recs, nextId: int) {
    && (forall a :: a in recs ==> recs[a].entry.svc.addr == a && 0 <= recs[a].id < nextId)
    && (forall a, a' :: a in recs && a' in recs && recs[a].id == recs[a'].id ==> a == a')
  }

  /** Tried addresses have no buckets, and new ones have one to eight; only x may have none yet. */
  ghost predicate Slotted(recs: Recs, x: set<NetAddr>) {
    forall a :: a in recs ==>
      && |recs[a].buckets| <= NEW_BUCKETS_PER_ADDRESS
      && (recs[a].tried ==> recs[a].buckets == {})
      && (!recs[a].tried && a !in x ==> recs[a].buckets != {})
  }

  ghost predicate NewUnshared(env: Env, key: int, recs: Recs) {
    forall a, a', b: nat, p: nat | a in recs && a' in recs ::
      HoldsNew(env, key, recs[a], b, p) && HoldsNew(env, key, recs[a'], b, p) ==> a == a'
  }

  ghost predicate TriedUnshared(env: Env, key: int, recs: Recs) {
    forall a, a', svc | a in recs && a' in recs ::
      HoldsTried(env, key, recs[a], svc) && HoldsTried(env, key, recs[a'], svc) ==> a == a'
  }

  ghost predicate Fine(env: Env, key: int, recs: Recs, nextId: int, x: set<NetAddr>) {
    Named(recs, nextId) && Slotted(recs, x) && NewUnshared(env, key, recs) && TriedUnshared(env, key, recs)
  }

  lemma SoundIsFine(env: Env, book: Book)
    ensures Sound(env, book) <==> Fine(env, book.key, book.recs, book.nextId, {})
  {
    hide HoldsNew, HoldsTried;
    forall a | a in book.recs
      ensures book.recs[a].buckets != {} <==> 1 <= |book.recs[a].buckets|
    {
    }
  }

  // ---- The new table

  /** Emptying a slot leaves its holder without one only if that was its last. */
  lemma ShedFine(env: Env, key: int, recs: Recs, nextId: int, x: set<NetAddr>, b: nat, p: nat)
    requires Fine(env, key, recs, nextId, x)
    ensures Fine(env, key, Shed(env, key, recs, b, p), nextId, x)
    ensures forall a :: a in Shed(env, key, recs, b, p) ==>
              a in recs && !HoldsNew(env, key, Shed(env, key, recs, b, p)[a], b, p)
    ensures forall a :: a in recs && recs[a].buckets == {} ==> a in Shed(env, key, recs, b, p) && Shed(env, key, recs, b, p)[a] == recs[a]
  {
    var shed := Shed(env, key, recs, b, p);
    forall a | a in shed
      ensures |shed[a].buckets| <= |recs[a].buckets| && (recs[a].buckets != {} ==> shed[a].buckets != {})
    {
      if HoldsNew(env, key, recs[a], b, p) {
        assert recs[a].buckets == shed[a].buckets + {b};
      }
    }
    forall a, a', c: nat, q: nat |
      a in shed && a' in shed && HoldsNew(env, key, shed[a], c, q) && HoldsNew(env, key, shed[a'], c, q)
      ensures a == a'
    {
      assert HoldsNew(env, key, recs[a], c, q) && HoldsNew(env, key, recs[a'], c, q);
    }
    forall a, a', svc |
      a in shed && a' in shed && HoldsTried(env, key, shed[a], svc) && HoldsTried(env, key, shed[a'], svc)
      ensures a == a'
    {
      assert HoldsTried(env, key, recs[a], svc) && HoldsTried(env, key, recs[a'], svc);
    }
  }

  /** An address enters its own slot of a bucket, which nobody holds. */
  lemma SlotTaken(env: Env, key: int, recs: Recs, nextId: int, x: set<NetAddr>, a: NetAddr, r: Rec, b: nat)
    requires Fine(env, key, recs, nextId, x) && a in recs && !recs[a].tried && |recs[a].buckets| < NEW_BUCKETS_PER_ADDRESS
    requires r == recs[a].(buckets := recs[a].buckets + {b})
    requires forall y :: y in recs && y != a ==> !HoldsNew(env, key, recs[y], b, Position(env, key, r.entry.svc, true, b))
    ensures Fine(env, key, recs[a := r], nextId, x - {a})
  {
    var now := recs[a := r];
    forall y, z, c: nat, q: nat |
      y in now && z in now && HoldsNew(env, key, now[y], c, q) && HoldsNew(env, key, now[z], c, q)
      ensures y == z
    {
      if c != b || (y != a && z != a) {
        assert HoldsNew(env, key, recs[y], c, q) && HoldsNew(env, key, recs[z], c, q);
      }
    }
    forall y, z, svc |
      y in now && z in now && HoldsTried(env, key, now[y], svc) && HoldsTried(env, key, now[z], svc)
      ensures y == z
    {
      assert HoldsTried(env, key, recs[y], svc) && HoldsTried(env, key, recs[z], svc);
    }
  }

  /** Fewer addresses, or one that is no longer exempted. */
  lemma StillFine(env: Env, key: int, recs: Recs, nextId: int, x: set<NetAddr>, recs': Recs)
    requires Fine(env, key, recs, nextId, x) && forall a :: a in recs' ==> a in recs && recs'[a] == recs[a]
    requires forall a :: a in x && a in recs' ==> recs'[a].buckets != {} || recs'[a].tried
    ensures Fine(env, key, recs', nextId, {})
  {
    hide HoldsNew, HoldsTried;
  }

  lemma PlaceFine(env: Env, key: int, recs: Recs, nextId: int, a: NetAddr, source: NetAddr, now: int)
    requires Fine(env, key, recs, nextId, {a}) && a in recs && !recs[a].tried && |recs[a].buckets| < NEW_BUCKETS_PER_ADDRESS
    ensures Fine(env, key, Place(env, key, recs, a, source, now), nextId, {})
  {
    hide Fine, Shed, IsTerrible;
    var r := recs[a];
    var b := NewBucket(env, key, r.entry.svc, source);
    var p := Position(env, key, r.entry.svc, true, b);
    if b !in r.buckets && Displaces(env, key, recs, a, b, p, now) {
      ShedFine(env, key, recs, nextId, {a}, b, p);
      ShedKeeps(env, key, recs, a, b, p);
      SlotTaken(env, key, Shed(env, key, recs, b, p), nextId, {a}, a, r.(buckets := r.buckets + {b}), b);
      assert {a} - {a} == {};
    } else {
      StillFine(env, key, recs, nextId, {a}, Place(env, key, recs, a, source, now));
    }
  }

  // ---- The tried table

  /** A tried address leaves its slot and has no bucket yet. */
  lemma UntriedFine(env: Env, key: int, recs: Recs, nextId: int, x: set<NetAddr>, h: NetAddr)
    requires Fine(env, key, recs, nextId, x) && h in recs && recs[h].tried
    ensures Fine(env, key, recs[h := recs[h].(tried := false, buckets := {})], nextId, x + {h})
  {
    var now := recs[h := recs[h].(tried := false, buckets := {})];
    forall y, z, c: nat, q: nat |
      y in now && z in now && HoldsNew(env, key, now[y], c, q) && HoldsNew(env, key, now[z], c, q)
      ensures y == z
    {
      assert HoldsNew(env, key, recs[y], c, q) && HoldsNew(env, key, recs[z], c, q);
    }
    forall y, z, svc |
      y in now && z in now && HoldsTried(env, key, now[y], svc) && HoldsTried(env, key, now[z], svc)
      ensures y == z
    {
      assert HoldsTried(env, key, recs[y], svc) && HoldsTried(env, key, recs[z], svc);
    }
  }

  lemma DemoteFine(env: Env, key: int, recs: Recs, nextId: int, x: set<NetAddr>, h: NetAddr)
    requires Fine(env, key, recs, nextId, x) && h in recs && recs[h].tried && h !in x
    ensures Fine(env, key, Demote(env, key, recs, h), nextId, x)
    ensures forall a :: a in recs && recs[a].buckets == {} && a != h ==>
              a in Demote(env, key, recs, h) && Demote(env, key, recs, h)[a] == recs[a]
  {
    hide Fine, Shed;
    var r := recs[h].(tried := false, buckets := {});
    var b := NewBucket(env, key, r.entry.svc, r.entry.source);
    var p := Position(env, key, r.entry.svc, true, b);
    UntriedFine(env, key, recs, nextId, x, h);
    ShedFine(env, key, recs[h := r], nextId, x + {h}, b, p);
    ShedKeeps(env, key, recs[h := r], h, b, p);
    SlotTaken(env, key, Shed(env, key, recs[h := r], b, p), nextId, x + {h}, h, r.(buckets := {b}), b);
    assert x + {h} - {h} == x;
  }

  /** An address without buckets enters its tried slot, which nobody holds. */
  lemma TriedEntered(env: Env, key: int, recs: Recs, nextId: int, a: NetAddr)
    requires Fine(env, key, recs, nextId, {a}) && a in recs && recs[a].buckets == {}
    requires !TriedTaken(env, key, recs, recs[a].entry.svc)
    ensures Fine(env, key, recs[a := recs[a].(tried := true)], nextId, {})
  {
    var now := recs[a := recs[a].(tried := true)];
    forall y, z, c: nat, q: nat |
      y in now && z in now && HoldsNew(env, key, now[y], c, q) && HoldsNew(env, key, now[z], c, q)
      ensures y == z
    {
      assert HoldsNew(env, key, recs[y], c, q) && HoldsNew(env, key, recs[z], c, q);
    }
    forall y, z, svc |
      y in now && z in now && HoldsTried(env, key, now[y], svc) && HoldsTried(env, key, now[z], svc)
      ensures y == z
    {
      if y != a && z != a {
        assert HoldsTried(env, key, recs[y], svc) && HoldsTried(env, key, recs[z], svc);
      } else if y != z {
        var other := if y == a then z else y;
        assert HoldsTried(env, key, recs[other], recs[a].entry.svc);
      }
    }
  }

  /** Nobody holds the tried slot of svc once its holder is demoted. */
  lemma DemotedFrees(env: Env, key: int, recs: Recs, nextId: int, x: set<NetAddr>, svc: Service)
    requires Fine(env, key, recs, nextId, x) && TriedTaken(env, key, recs, svc)
    ensures !TriedTaken(env, key, Demote(env, key, recs, TriedHolder(env, key, recs, svc)), svc)
  {
    var h := TriedHolder(env, key, recs, svc);
    var gone := Demote(env, key, recs, h);
    forall a | a in gone
      ensures !HoldsTried(env, key, gone[a], svc)
    {
      if a != h && HoldsTried(env, key, gone[a], svc) {
        assert HoldsTried(env, key, recs[a], svc);
      }
    }
  }

  lemma EmptiedFine(env: Env, key: int, recs: Recs, nextId: int, a: NetAddr)
    requires Fine(env, key, recs, nextId, {}) && a in recs && !recs[a].tried
    ensures Fine(env, key, recs[a := recs[a].(buckets := {})], nextId, {a})
  {
    var out := recs[a := recs[a].(buckets := {})];
    forall y, z, c: nat, q: nat |
      y in out && z in out && HoldsNew(env, key, out[y], c, q) && HoldsNew(env, key, out[z], c, q)
      ensures y == z
    {
      assert HoldsNew(env, key, recs[y], c, q) && HoldsNew(env, key, recs[z], c, q);
    }
    forall y, z, svc |
      y in out && z in out && HoldsTried(env, key, out[y], svc) && HoldsTried(env, key, out[z], svc)
      ensures y == z
    {
      assert HoldsTried(env, key, recs[y], svc) && HoldsTried(env, key, recs[z], svc);
    }
  }

  lemma MakeTriedFine(env: Env, key: int, recs: Recs, nextId: int, a: NetAddr)
    requires Fine(env, key, recs, nextId, {}) && a in recs && !recs[a].tried
    ensures Fine(env, key, MakeTried(env, key, recs, a), nextId, {})
  {
    hide Fine, Demote, TriedTaken;
    var out := recs[a := recs[a].(buckets := {})];
    var svc := recs[a].entry.svc;
    EmptiedFine(env, key, recs, nextId, a);
    if TriedTaken(env, key, out, svc) {
      var h := TriedHolder(env, key, out, svc);
      assert h != a;
      DemoteFine(env, key, out, nextId, {a}, h);
      DemotedFrees(env, key, out, nextId, {a}, svc);
      TriedEntered(env, key, Demote(env, key, out, h), nextId, a);
    } else {
      TriedEntered(env, key, out, nextId, a);
    }
  }

  // ---- The operations

  lemma TouchedFine(env: Env, key: int, recs: Recs, nextId: int, a: NetAddr, e: Entry)
    requires Fine(env, key, recs, nextId, {}) && a in recs && e.svc == recs[a].entry.svc
    ensures Fine(env, key, recs[a := recs[a].(entry := e)], nextId, {})
  {
    hide Fine, Sound;
    var book := Book(key, nextId, recs, {}, 0);
    SoundIsFine(env, book);
    TouchSound(env, book, a, e);
    SoundIsFine(env, book.(recs := recs[a := recs[a].(entry := e)]));
  }

  lemma MoreExempted(env: Env, key: int, recs: Recs, nextId: int, x: set<NetAddr>)
    requires Fine(env, key, recs, nextId, {})
    ensures Fine(env, key, recs, nextId, x)
  {
    hide HoldsNew, HoldsTried;
  }

  lemma NewcomerFine(env: Env, key: int, recs: Recs, nextId: int, e: Entry)
    requires Fine(env, key, recs, nextId, {}) && e.svc.addr !in recs && nextId >= 0
    ensures Fine(env, key, recs[e.svc.addr := Rec(nextId, e, false, {})], nextId + 1, {e.svc.addr})
  {
    var a := e.svc.addr;
    var now := recs[a := Rec(nextId, e, false, {})];
    forall y, z, c: nat, q: nat |
      y in now && z in now && HoldsNew(env, key, now[y], c, q) && HoldsNew(env, key, now[z], c, q)
      ensures y == z
    {
      assert HoldsNew(env, key, recs[y], c, q) && HoldsNew(env, key, recs[z], c, q);
    }
    forall y, z, svc |
      y in now && z in now && HoldsTried(env, key, now[y], svc) && HoldsTried(env, key, now[z], svc)
      ensures y == z
    {
      assert HoldsTried(env, key, recs[y], svc) && HoldsTried(env, key, recs[z], svc);
    }
  }

  lemma AddSound(env: Env, book: Book, addr: Address, source: NetAddr, penalty: int, now: int, rnd: nat)
    requires Sound(env, book) && book.nextId >= 0
    ensures Sound(env, Add(env, book, addr, source, penalty, now, rnd))
    ensures Add(env, book, addr, source, penalty, now, rnd).nextId >= 0
  {
    hide Sound, Fine, Place, Refreshed;
    var a := addr.svc.addr;
    var pen := if a == source then 0 else penalty;
    var book' := Add(env, book, addr, source, penalty, now, rnd);
    SoundIsFine(env, book);
    SoundIsFine(env, book');
    if env.routable(a) {
      if a in book.recs {
        var r := book.recs[a];
        var e := Refreshed(r.entry, addr, pen, now);
        assert e.svc == r.entry.svc by { RefreshedService(r.entry, addr, pen, now); }
        var recs := book.recs[a := r.(entry := e)];
        TouchedFine(env, book.key, book.recs, book.nextId, a, e);
        MoreExempted(env, book.key, recs, book.nextId, {a});
        AtMostEight(env, book.key, recs, book.nextId, a);
        if !r.tried && |r.buckets| != NEW_BUCKETS_PER_ADDRESS {
          PlaceFine(env, book.key, recs, book.nextId, a, source, now);
        }
      } else {
        var e := Entry(addr.svc, addr.services, ToTime(Max(0, addr.time - pen)), source, 0, 0, 0, 0);
        NewcomerFine(env, book.key, book.recs, book.nextId, e);
        PlaceFine(env, book.key, book.recs[a := Rec(book.nextId, e, false, {})], book.nextId + 1, a, source, now);
      }
    }
  }

  lemma RefreshedService(e: Entry, addr: Address, penalty: int, now: int)
    ensures Refreshed(e, addr, penalty, now).svc == e.svc
  {
  }

  lemma AtMostEight(env: Env, key: int, recs: Recs, nextId: int, a: NetAddr)
    requires Fine(env, key, recs, nextId, {}) && a in recs
    ensures |recs[a].buckets| <= NEW_BUCKETS_PER_ADDRESS
  {
    hide HoldsNew, HoldsTried;
  }

  lemma GoodSound(env: Env, book: Book, svc: Service, testBeforeEvict: bool, time: int)
    requires Sound(env, book)
    ensures Sound(env, Good(env, book, svc, testBeforeEvict, time))
  {
    hide Sound, Fine, MakeTried, TriedTaken;
    var book' := Good(env, book, svc, testBeforeEvict, time);
    SoundIsFine(env, book);
    SoundIsFine(env, book');
    if Knows(book, svc) {
      var r := book.recs[svc.addr];
      var e := r.entry.(lastSuccess := time, lastTry := time, attempts := 0);
      TouchedFine(env, book.key, book.recs, book.nextId, svc.addr, e);
      if !r.tried {
        MakeTriedFine(env, book.key, book.recs[svc.addr := r.(entry := e)], book.nextId, svc.addr);
      }
    }
  }

  lemma UpdateSound(env: Env, book: Book, svc: Service, f: Entry -> Entry)
    requires Sound(env, book) && forall e :: f(e).svc == e.svc
    ensures Sound(env, Update(book, svc, f))
  {
    hide Sound, Fine;
    SoundIsFine(env, book);
    SoundIsFine(env, Update(book, svc, f));
    if Knows(book, svc) {
      TouchedFine(env, book.key, book.recs, book.nextId, svc.addr, f(book.recs[svc.addr].entry));
    }
  }

  lemma ResolveOneSound(env: Env, book: Book, id: int, adjusted: int, clock: (int, nat) -> int)
    requires Sound(env, book)
    ensures Sound(env, ResolveOne(env, book, id, adjusted, clock).0)
  {
    hide Sound, Good, TriedTaken, HasId;
    if HasId(book.recs, id) {
      var svc := book.recs[WithId(book.recs, id)].entry.svc;
      GoodSound(env, book, svc, false, clock(id, 1));
      GoodSound(env, book, svc, false, adjusted);
    }
  }

  lemma ForgetSound(env: Env, book: Book, collisions: set<int>)
    requires Sound(env, book)
    ensures Sound(env, book.(collisions := collisions))
  {
    hide HoldsNew, HoldsTried;
  }

  lemma {:induction false} ResolveSound(env: Env, book: Book, todo: set<int>, adjusted: int, clock: (int, nat) -> int)
    requires Sound(env, book)
    ensures Sound(env, Resolve(env, book, todo, adjusted, clock))
    decreases |todo|
  {
    hide Sound, ResolveOne;
    if todo != {} {
      var id := Least(todo);
      var (book', drop) := ResolveOne(env, book, id, adjusted, clock);
      ResolveOneSound(env, book, id, adjusted, clock);
      ForgetSound(env, book', book'.collisions - {id});
      ResolveSound(env, if drop then book'.(collisions := book'.collisions - {id}) else book', todo - {id}, adjusted, clock);
    }
  }
}
