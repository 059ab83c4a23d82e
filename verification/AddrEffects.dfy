/**
 What each operation of the address manager does to the book, said of the fields
 and with the seconds and limits written out: when an announced address gains a
 bucket, when a connection makes an address tried, and when a recorded collision
 is settled.
 */
module AddrEffects {
  import opened Numbers
  import opened AddrTypes
  import opened AddrSafety
  import opened AddrSound
  import opened AddrGuarantees
  import opened B = AddrBook

  // ---- Quality of an address

  /** Terrible, unless tried in the last minute: from the future, a month old, or failing. */
  lemma TerribleExactly(e: Entry, now: int)
    ensures IsTerrible(e, now) <==>
            && (e.lastTry == 0 || now - e.lastTry > 60)
            && (|| e.time == 0 || e.time - now > 600 || now - e.time > 2_592_000
                || (e.attempts >= 3 && e.lastSuccess == 0)
                || (e.attempts >= 10 && now - e.lastSuccess > 604_800))
  {
  }

  // ---- What happens to the other addresses

  ghost predicate Untouched(recs: Recs, recs': Recs, x: NetAddr) {
    x in recs ==> x in recs' && recs'[x] == recs[x]
  }

  /** x holds new slot (b, p) and gives it up, and with its last slot its place in the book. */
  ghost predicate GivesUp(env: Env, key: int, recs: Recs, recs': Recs, b: nat, p: nat, x: NetAddr) {
    && x in recs && HoldsNew(env, key, recs[x], b, p)
    && if recs[x].buckets == {b} then x !in recs'
       else x in recs' && recs'[x] == recs[x].(buckets := recs[x].buckets - {b})
  }

  /** Of the addresses but a and h, the one in slot (b, p) gives it up and no other changes. */
  ghost predicate Yields(env: Env, key: int, recs: Recs, recs': Recs, b: nat, p: nat, others: set<NetAddr>) {
    forall x :: x in recs && x !in others ==>
      if HoldsNew(env, key, recs[x], b, p) then GivesUp(env, key, recs, recs', b, p, x) else Untouched(recs, recs', x)
  }

  // ---- Announcements

  /** The time and the services that an announcement leaves in a known entry. */
  ghost predicate Renews(e: Entry, e': Entry, addr: Address, penalty: int, now: int) {
    && e'.svc == e.svc && e'.source == e.source && e'.services == e.services + addr.services
    && e'.lastSuccess == e.lastSuccess && e'.attempts == e.attempts
    && e'.lastTry == e.lastTry && e'.lastCountAttempt == e.lastCountAttempt
    && var age := if addr.time + 86_400 > now then 3_600 else 86_400;
       e'.time == if addr.time > 0 && (e.time == 0 || addr.time - e.time > age + penalty)
                  then Max(0, addr.time - penalty) % 0x1_0000_0000 else e.time
  }

  /** Slot (b, p) can be had by an address that has one already: it is free or its holder is terrible. */
  ghost predicate ForTheTaking(env: Env, key: int, recs: Recs, b: nat, p: nat, now: int) {
    forall h :: h in recs && HoldsNew(env, key, recs[h], b, p) ==> IsTerrible(recs[h].entry, now)
  }

  /** A new address in fewer than eight buckets may be put into that of the source too. */
  ghost predicate MayGain(book: Book, a: NetAddr, announced: nat, time: nat, rnd: nat)
    requires a in book.recs
  {
    !book.recs[a].tried && |book.recs[a].buckets| < 8 && announced > time && rnd % Pow2(|book.recs[a].buckets|) == 0
  }

  /** What becomes of the buckets of a and of the other addresses when bucket b is asked for. */
  ghost predicate Asks(env: Env, key: int, recs: Recs, recs': Recs, a: NetAddr, b: nat, now: int)
    requires a in recs && a in recs'
  {
    var p := Position(env, key, recs[a].entry.svc, true, b);
    if b in recs[a].buckets || !ForTheTaking(env, key, recs, b, p, now)
    then recs'[a].buckets == recs[a].buckets && forall x :: x != a ==> Untouched(recs, recs', x)
    else recs'[a].buckets == recs[a].buckets + {b} && Yields(env, key, recs, recs', b, p, {a})
  }

  /**
   A known address gains the bucket of the source exactly when it is new and in fewer than eight, the
   announcement is later than the entry, the draw allows it, and the slot there can be had.
   */
  lemma AddKnown(env: Env, book: Book, addr: Address, source: NetAddr, penalty: int, now: int, rnd: nat)
    requires Sound(env, book) && env.routable(addr.svc.addr) && addr.svc.addr in book.recs
    ensures
      var a, book' := addr.svc.addr, B.Add(env, book, addr, source, penalty, now, rnd);
      var recs, recs' := book.recs, book'.recs;
      && book' == book.(recs := recs')
      && a in recs' && recs'[a].id == recs[a].id && recs'[a].tried == recs[a].tried && recs'.Keys <= recs.Keys
      && Renews(recs[a].entry, recs'[a].entry, addr, if a == source then 0 else penalty, now)
      && if MayGain(book, a, addr.time, recs'[a].entry.time, rnd)
         then Asks(env, book.key, recs, recs', a, NewBucket(env, book.key, recs[a].entry.svc, source), now)
         else recs'[a].buckets == recs[a].buckets && forall x :: x != a ==> Untouched(recs, recs', x)
  {
    hide IsTerrible, NewBucket, Position, Pow2, Asks, Place;
    var a := addr.svc.addr;
    var r := book.recs[a];
    var e := Refreshed(r.entry, addr, if a == source then 0 else penalty, now);
    if !r.tried {
      KnownPlaced(env, book, a, e, source, now);
      assert |r.buckets| <= 8;
    }
  }

  lemma KnownPlaced(env: Env, book: Book, a: NetAddr, e: Entry, source: NetAddr, now: int)
    requires Sound(env, book) && a in book.recs && !book.recs[a].tried && e.svc == book.recs[a].entry.svc
    ensures
      var r := book.recs[a];
      var recs' := Place(env, book.key, book.recs[a := r.(entry := e)], a, source, now);
      && a in recs' && recs'.Keys <= book.recs.Keys && recs'[a] == r.(entry := e, buckets := recs'[a].buckets)
      && Asks(env, book.key, book.recs, recs', a, NewBucket(env, book.key, e.svc, source), now)
  {
    hide IsTerrible, NewBucket, Position;
    var r, key := book.recs[a], book.key;
    var recs := book.recs[a := r.(entry := e)];
    var b := NewBucket(env, key, e.svc, source);
    var p := Position(env, key, e.svc, true, b);
    if b !in r.buckets {
      HeldAlike(env, book, a, e, b, p);
      assert ForTheTaking(env, key, book.recs, b, p, now) <==> Displaces(env, key, recs, a, b, p, now);
    }
  }

  /** The record of a itself apart, who holds which slot is the same. */
  lemma HeldAlike(env: Env, book: Book, a: NetAddr, e: Entry, b: nat, p: nat)
    requires Sound(env, book) && a in book.recs && e.svc == book.recs[a].entry.svc && b !in book.recs[a].buckets
    ensures
      var recs := book.recs[a := book.recs[a].(entry := e)];
      && (NewTaken(env, book.key, recs, b, p) <==> NewTaken(env, book.key, book.recs, b, p))
      && (NewTaken(env, book.key, recs, b, p) ==>
            var h := NewHolder(env, book.key, recs, b, p);
            h != a && h in book.recs && recs[h] == book.recs[h] &&
            forall y :: y in book.recs && HoldsNew(env, book.key, book.recs[y], b, p) ==> y == h)
  {
    hide Position;
    var recs := book.recs[a := book.recs[a].(entry := e)];
    if NewTaken(env, book.key, book.recs, b, p) {
      var h := NewHolder(env, book.key, book.recs, b, p);
      assert HoldsNew(env, book.key, recs[h], b, p);
    }
  }

  /** Slot (b, p) can be had by a newcomer: its holder is terrible or has another slot. */
  ghost predicate OpenTo(env: Env, key: int, recs: Recs, b: nat, p: nat, now: int) {
    forall h :: h in recs && HoldsNew(env, key, recs[h], b, p) ==> IsTerrible(recs[h].entry, now) || |recs[h].buckets| >= 2
  }

  /** The newcomer a has slot (b, p) alone, or is not there and nothing has changed. */
  ghost predicate Joins(env: Env, key: int, recs: Recs, recs': Recs, a: NetAddr, r: Rec, b: nat, p: nat, now: int) {
    if OpenTo(env, key, recs, b, p, now)
    then a in recs' && recs'[a] == r.(buckets := {b}) && recs'.Keys <= recs.Keys + {a} &&
         Yields(env, key, recs, recs', b, p, {})
    else recs' == recs
  }

  /** An unknown address enters the bucket of the source, or not at all. */
  lemma AddUnknown(env: Env, book: Book, addr: Address, source: NetAddr, penalty: int, now: int, rnd: nat)
    requires Sound(env, book) && env.routable(addr.svc.addr) && addr.svc.addr !in book.recs
    ensures
      var a, book' := addr.svc.addr, B.Add(env, book, addr, source, penalty, now, rnd);
      var b := NewBucket(env, book.key, addr.svc, source);
      var time := Max(0, addr.time - if a == source then 0 else penalty) % 0x1_0000_0000;
      var r := Rec(book.nextId, Entry(addr.svc, addr.services, time, source, 0, 0, 0, 0), false, {});
      && book' == book.(recs := book'.recs, nextId := book.nextId + 1)
      && Joins(env, book.key, book.recs, book'.recs, a, r, b, Position(env, book.key, addr.svc, true, b), now)
  {
    hide IsTerrible, NewBucket, Position, Joins, Place;
    var a := addr.svc.addr;
    var pen := if a == source then 0 else penalty;
    var e := Entry(addr.svc, addr.services, ToTime(Max(0, addr.time - pen)), source, 0, 0, 0, 0);
    NewcomerPlaced(env, book, a, Rec(book.nextId, e, false, {}), source, now);
  }

  lemma NewcomerPlaced(env: Env, book: Book, a: NetAddr, r: Rec, source: NetAddr, now: int)
    requires Sound(env, book) && a !in book.recs && !r.tried && r.buckets == {}
    ensures
      var b := NewBucket(env, book.key, r.entry.svc, source);
      Joins(env, book.key, book.recs, Place(env, book.key, book.recs[a := r], a, source, now), a, r,
            b, Position(env, book.key, r.entry.svc, true, b), now)
  {
    hide IsTerrible, NewBucket, Position;
    var key, recs := book.key, book.recs[a := r];
    var b := NewBucket(env, key, r.entry.svc, source);
    var p := Position(env, key, r.entry.svc, true, b);
    NewcomerAlike(env, book, a, r, b, p);
    assert OpenTo(env, key, book.recs, b, p, now) <==> Displaces(env, key, recs, a, b, p, now);
    assert recs - {a} == book.recs;
  }

  lemma NewcomerAlike(env: Env, book: Book, a: NetAddr, r: Rec, b: nat, p: nat)
    requires Sound(env, book) && a !in book.recs && r.buckets == {}
    ensures
      var recs := book.recs[a := r];
      && (NewTaken(env, book.key, recs, b, p) <==> NewTaken(env, book.key, book.recs, b, p))
      && (NewTaken(env, book.key, recs, b, p) ==>
            var h := NewHolder(env, book.key, recs, b, p);
            h != a && h in book.recs && recs[h] == book.recs[h] &&
            forall y :: y in book.recs && HoldsNew(env, book.key, book.recs[y], b, p) ==> y == h)
  {
    hide Position;
    var recs := book.recs[a := r];
    if NewTaken(env, book.key, book.recs, b, p) {
      var h := NewHolder(env, book.key, book.recs, b, p);
      assert HoldsNew(env, book.key, recs[h], b, p);
    }
  }

  lemma AddUnroutable(env: Env, book: Book, addr: Address, source: NetAddr, penalty: int, now: int, rnd: nat)
    requires !env.routable(addr.svc.addr)
    ensures B.Add(env, book, addr, source, penalty, now, rnd) == book
  {
  }

  // ---- Connections

  /** h, which held the tried slot, is new again, in the bucket of its own source, and whoever was there yields. */
  ghost predicate SteppedDown(env: Env, key: int, recs: Recs, recs': Recs, a: NetAddr, h: NetAddr)
    requires h in recs
  {
    var e := recs[h].entry;
    var b := NewBucket(env, key, e.svc, e.source);
    && h in recs' && recs'[h] == recs[h].(tried := false, buckets := {b})
    && Yields(env, key, recs, recs', b, Position(env, key, e.svc, true, b), {a, h})
  }

  /** A connection that counts makes an address tried unless its slot is taken and the holder must be tested. */
  lemma GoodKnown(env: Env, book: Book, svc: Service, test: bool, time: int)
    requires Sound(env, book) && Knows(book, svc)
    ensures
      var a, book' := svc.addr, B.Good(env, book, svc, test, time);
      var recs, recs' := book.recs, book'.recs;
      var taken := exists h :: InTheWay(env, book, svc, h);
      && book' == book.(recs := recs', lastGood := time, collisions := book'.collisions) && recs'.Keys <= recs.Keys
      && a in recs' && recs'[a].id == recs[a].id
      && recs'[a].entry == recs[a].entry.(lastSuccess := time, lastTry := time, attempts := 0)
      && recs'[a].tried == (recs[a].tried || !taken || !test)
      && recs'[a].buckets == (if recs'[a].tried then {} else recs[a].buckets)
      && book'.collisions == (if taken && test && !recs[a].tried && |book.collisions| < 10
                              then book.collisions + {recs[a].id} else book.collisions)
      && (if taken && !test && !recs[a].tried
          then forall h :: InTheWay(env, book, svc, h) ==> SteppedDown(env, book.key, recs, recs', a, h)
          else forall x :: x != a ==> Untouched(recs, recs', x))
  {
    hide NewBucket, Position, TriedBucket, TriedPosition, MakeTried, SteppedDown;
    var r := book.recs[svc.addr];
    var recs := book.recs[svc.addr := r.(entry := r.entry.(lastSuccess := time, lastTry := time, attempts := 0))];
    TakenAlike(env, book, svc, recs);
    if !r.tried {
      MadeTried(env, book, svc, recs);
    }
  }

  lemma TakenAlike(env: Env, book: Book, svc: Service, recs: Recs)
    requires Knows(book, svc) && recs.Keys == book.recs.Keys && recs[svc.addr].entry.svc == svc
    requires recs[svc.addr].tried == book.recs[svc.addr].tried
    requires forall x :: x in recs && x != svc.addr ==> recs[x] == book.recs[x]
    ensures TriedTaken(env, book.key, recs, svc) <==> exists h :: InTheWay(env, book, svc, h)
  {
    hide TriedBucket, TriedPosition;
    if h :| InTheWay(env, book, svc, h) {
      assert HoldsTried(env, book.key, recs[h], svc);
    }
    if TriedTaken(env, book.key, recs, svc) {
      var h := TriedHolder(env, book.key, recs, svc);
      assert InTheWay(env, book, svc, h);
    }
  }

  lemma MadeTried(env: Env, book: Book, svc: Service, recs: Recs)
    requires Sound(env, book) && Knows(book, svc) && !book.recs[svc.addr].tried
    requires recs.Keys == book.recs.Keys && forall x :: x in recs && x != svc.addr ==> recs[x] == book.recs[x]
    requires recs[svc.addr] == book.recs[svc.addr].(entry := recs[svc.addr].entry) && recs[svc.addr].entry.svc == svc
    ensures
      var a, recs' := svc.addr, MakeTried(env, book.key, recs, svc.addr);
      && recs'.Keys <= recs.Keys && a in recs' && recs'[a] == recs[a].(tried := true, buckets := {})
      && (forall h :: InTheWay(env, book, svc, h) ==> SteppedDown(env, book.key, book.recs, recs', a, h))
      && ((forall h :: !InTheWay(env, book, svc, h)) ==> forall x :: x != a ==> Untouched(book.recs, recs', x))
  {
    hide NewBucket, Position, TriedBucket, TriedPosition;
    var a := svc.addr;
    var out := recs[a := recs[a].(buckets := {})];
    TakenAlike(env, book, svc, out);
    if TriedTaken(env, book.key, out, svc) {
      var h := TriedHolder(env, book.key, out, svc);
      assert h != a && InTheWay(env, book, svc, h);
      forall y | InTheWay(env, book, svc, y)
        ensures y == h
      {
      }
      hide HoldsTried, HoldsNew;
      StepsDown(env, book.key, book.recs, out, a, h, recs[a].(tried := true, buckets := {}));
    }
  }

  lemma StepsDown(env: Env, key: int, recs: Recs, out: Recs, a: NetAddr, h: NetAddr, r: Rec)
    requires a in recs && h in recs && a != h && out.Keys == recs.Keys && out[a].buckets == {} && recs[h].buckets == {}
    requires forall x :: x in recs && x != a ==> out[x] == recs[x]
    ensures SteppedDown(env, key, recs, Demote(env, key, out, h)[a := r], a, h)
    ensures Demote(env, key, out, h).Keys <= recs.Keys
  {
    hide NewBucket, Position, HoldsNew, Shed;
    var e := recs[h].entry;
    var b := NewBucket(env, key, e.svc, e.source);
    var p := Position(env, key, e.svc, true, b);
    var down := out[h := out[h].(tried := false, buckets := {})];
    ShedFewer(env, key, down, b, p);
    forall x | x in recs && x !in {a, h}
      ensures if HoldsNew(env, key, recs[x], b, p) then GivesUp(env, key, recs, Shed(env, key, down, b, p), b, p, x)
              else Untouched(recs, Shed(env, key, down, b, p), x)
    {
      ShedAt(env, key, down, b, p, x);
    }
  }

  lemma ShedFewer(env: Env, key: int, recs: Recs, b: nat, p: nat)
    ensures Shed(env, key, recs, b, p).Keys <= recs.Keys
  {
    hide HoldsNew;
  }

  lemma ShedAt(env: Env, key: int, recs: Recs, b: nat, p: nat, x: NetAddr)
    requires x in recs
    ensures
      var recs' := Shed(env, key, recs, b, p);
      if HoldsNew(env, key, recs[x], b, p) then GivesUp(env, key, recs, recs', b, p, x) else Untouched(recs, recs', x)
  {
    hide HoldsNew;
  }

  lemma GoodUnknown(env: Env, book: Book, svc: Service, test: bool, time: int)
    requires !Knows(book, svc)
    ensures B.Good(env, book, svc, test, time) == book.(lastGood := time)
  {
  }

  // ---- Updates

  /** Only the record of svc changes, and in it only the entry. */
  ghost predicate OnlyEntry(book: Book, book': Book, svc: Service) {
    if !Knows(book, svc) then book' == book
    else && book'.recs.Keys == book.recs.Keys && book' == book.(recs := book'.recs)
         && book'.recs == book.recs[svc.addr := book.recs[svc.addr].(entry := book'.recs[svc.addr].entry)]
  }

  /** An attempt is noted; as a failure only once between two successful connections to anyone. */
  lemma AttemptNoted(book: Book, svc: Service, countFailure: bool, time: int)
    ensures
      var book' := B.Attempt(book, svc, countFailure, time);
      && OnlyEntry(book, book', svc)
      && (Knows(book, svc) ==>
            var e, e' := book.recs[svc.addr].entry, book'.recs[svc.addr].entry;
            var counts := countFailure && e.lastCountAttempt < book.lastGood;
            && e' == e.(lastTry := e'.lastTry, lastCountAttempt := e'.lastCountAttempt, attempts := e'.attempts)
            && e'.lastTry == time && e'.attempts == e.attempts + (if counts then 1 else 0)
            && e'.lastCountAttempt == if counts then time else e.lastCountAttempt)
  {
  }

  /** The time of a connected address is renewed when it is more than twenty minutes old. */
  lemma ConnectedRenews(book: Book, svc: Service, time: int)
    ensures
      var book' := B.Connected(book, svc, time);
      && OnlyEntry(book, book', svc)
      && (Knows(book, svc) ==>
            var e, e' := book.recs[svc.addr].entry, book'.recs[svc.addr].entry;
            e' == e.(time := e'.time) && e'.time == if time > e.time + 1_200 then time % 0x1_0000_0000 else e.time)
  {
  }

  lemma ServicesSet(book: Book, svc: Service, services: set<nat>)
    ensures
      var book' := B.SetServices(book, svc, services);
      && OnlyEntry(book, book', svc)
      && (Knows(book, svc) ==>
            var e, e' := book.recs[svc.addr].entry, book'.recs[svc.addr].entry;
            e' == e.(services := e'.services) && e'.services == services)
  {
  }

  // ---- Collisions

  /** Address a is recorded under id and may be used. */
  ghost predicate Recorded(env: Env, book: Book, id: int, a: NetAddr) {
    a in book.recs && book.recs[a].id == id && env.valid(a)
  }

  /** The tried slot of a is held by h, which had no success for four hours. */
  ghost predicate StaleHolder(env: Env, book: Book, a: NetAddr, h: NetAddr, adjusted: int) {
    a in book.recs && InTheWay(env, book, book.recs[a].entry.svc, h) && adjusted - book.recs[h].entry.lastSuccess >= 14_400
  }

  /**
   h gets more time: it was tried within four hours and not more than a minute ago, or not
   within four hours, and a connected not more than forty minutes ago.
   */
  ghost predicate Pending(book: Book, a: NetAddr, h: NetAddr, adjusted: int, now: int)
    requires a in book.recs && h in book.recs
  {
    var e := book.recs[h].entry;
    || (adjusted - e.lastTry < 14_400 && now - e.lastTry <= 60)
    || (adjusted - e.lastTry >= 14_400 && now - book.recs[a].entry.lastSuccess <= 2_400)
  }

  /** The collision recorded under id is left for later. */
  ghost predicate LeftOpen(env: Env, book: Book, id: int, adjusted: int, now: int) {
    exists a, h :: Recorded(env, book, id, a) && StaleHolder(env, book, a, h, adjusted) && Pending(book, a, h, adjusted, now)
  }

  /** The address recorded under id takes its tried slot, which is free or is lost by a stale holder. */
  ghost predicate Succeeds(env: Env, book: Book, id: int, a: NetAddr, adjusted: int, now: int) {
    && Recorded(env, book, id, a)
    && forall h :: InTheWay(env, book, book.recs[a].entry.svc, h) ==>
         StaleHolder(env, book, a, h, adjusted) && !Pending(book, a, h, adjusted, now)
  }

  /** Everything that settling one collision does. */
  lemma ResolveOneExactly(env: Env, book: Book, id: int, adjusted: int, clock: (int, nat) -> int, a: NetAddr)
    requires Sound(env, book) && (HasId(book.recs, id) ==> a in book.recs && book.recs[a].id == id)
    ensures
      var (book', drop) := ResolveOne(env, book, id, adjusted, clock);
      && (drop <==> !LeftOpen(env, book, id, adjusted, clock(id, 0)))
      && if Succeeds(env, book, id, a, adjusted, clock(id, 0))
         then var free := forall h :: !InTheWay(env, book, book.recs[a].entry.svc, h);
              book' == B.Good(env, book, book.recs[a].entry.svc, false, if free then adjusted else clock(id, 1))
         else book' == book
  {
    hide B.Good, HoldsTried;
    var now := clock(id, 0);
    if HasId(book.recs, id) {
      assert WithId(book.recs, id) == a;
      var svc := book.recs[a].entry.svc;
      if TriedTaken(env, book.key, book.recs, svc) {
        var h := TriedHolder(env, book.key, book.recs, svc);
        OnlyHolder(env, book, id, a, h, adjusted, now);
      } else {
        assert forall h :: !InTheWay(env, book, svc, h);
      }
    }
  }

  lemma OnlyHolder(env: Env, book: Book, id: int, a: NetAddr, h: NetAddr, adjusted: int, now: int)
    requires Sound(env, book) && a in book.recs && book.recs[a].id == id && InTheWay(env, book, book.recs[a].entry.svc, h)
    ensures LeftOpen(env, book, id, adjusted, now) <==>
            env.valid(a) && StaleHolder(env, book, a, h, adjusted) && Pending(book, a, h, adjusted, now)
    ensures Succeeds(env, book, id, a, adjusted, now) <==>
            env.valid(a) && StaleHolder(env, book, a, h, adjusted) && !Pending(book, a, h, adjusted, now)
  {
    hide Pending;
    forall y | InTheWay(env, book, book.recs[a].entry.svc, y)
      ensures y == h
    {
    }
  }

  /** A recorded address is tried after its turn exactly when it was, or its slot was free or lost by a stale holder. */
  lemma TriedAfterTurn(env: Env, book: Book, id: int, adjusted: int, clock: (int, nat) -> int, a: NetAddr)
    requires Sound(env, book) && a in book.recs && book.recs[a].id == id
    ensures
      var recs' := ResolveOne(env, book, id, adjusted, clock).0.recs;
      && a in recs' && recs'[a].id == id
      && (recs'[a].tried <==> book.recs[a].tried || Succeeds(env, book, id, a, adjusted, clock(id, 0)))
  {
    hide B.Good, ResolveOne, Succeeds, LeftOpen;
    ResolveOneExactly(env, book, id, adjusted, clock, a);
    var svc := book.recs[a].entry.svc;
    assert Knows(book, svc);
    GoodKnown(env, book, svc, false, adjusted);
    GoodKnown(env, book, svc, false, clock(id, 1));
  }

  /** The book as it is when the turn of id comes. */
  ghost function AtTurn(env: Env, book: Book, todo: set<int>, adjusted: int, clock: (int, nat) -> int, id: int): Book
    requires id in todo
    decreases |todo|
  {
    var first := Least(todo);
    if id == first then book
    else
      var (book', drop) := ResolveOne(env, book, first, adjusted, clock);
      var next := if drop then book'.(collisions := book'.collisions - {first}) else book';
      AtTurn(env, next, todo - {first}, adjusted, clock, id)
  }

  /** What the turn of id makes of the book. */
  ghost function AfterTurn(env: Env, book: Book, adjusted: int, clock: (int, nat) -> int, id: int): Book {
    var (book', drop) := ResolveOne(env, book, id, adjusted, clock);
    if drop then book'.(collisions := book'.collisions - {id}) else book'
  }

  lemma AfterTurnSound(env: Env, book: Book, adjusted: int, clock: (int, nat) -> int, id: int)
    requires Sound(env, book)
    ensures Sound(env, AfterTurn(env, book, adjusted, clock, id))
  {
    hide Sound, ResolveOne;
    ResolveOneSound(env, book, id, adjusted, clock);
    var book' := ResolveOne(env, book, id, adjusted, clock).0;
    ForgetSound(env, book', book'.collisions - {id});
  }

  lemma TurnRecords(env: Env, book: Book, adjusted: int, clock: (int, nat) -> int, id: int)
    requires Sound(env, book)
    ensures
      var gone := if LeftOpen(env, book, id, adjusted, clock(id, 0)) then {} else {id};
      AfterTurn(env, book, adjusted, clock, id).collisions == book.collisions - gone
  {
    hide Sound, B.Good, ResolveOne, Succeeds, LeftOpen;
    if HasId(book.recs, id) {
      var a := WithId(book.recs, id);
      ResolveOneExactly(env, book, id, adjusted, clock, a);
      var svc := book.recs[a].entry.svc;
      OwnService(env, book, a);
      GoodKnown(env, book, svc, false, adjusted);
      GoodKnown(env, book, svc, false, clock(id, 1));
    } else {
      ResolveOneExactly(env, book, id, adjusted, clock, NetAddr(0));
      assert !Succeeds(env, book, id, NetAddr(0), adjusted, clock(id, 0)) by {
        NotRecorded(env, book, id, NetAddr(0), adjusted, clock(id, 0));
      }
    }
  }

  lemma OwnService(env: Env, book: Book, a: NetAddr)
    requires Sound(env, book) && a in book.recs
    ensures Knows(book, book.recs[a].entry.svc) && book.recs[a].entry.svc.addr == a
  {
  }

  lemma NotRecorded(env: Env, book: Book, id: int, a: NetAddr, adjusted: int, now: int)
    requires !HasId(book.recs, id)
    ensures !Succeeds(env, book, id, a, adjusted, now)
  {
  }

  /** Settling the collisions drops each record exactly when its turn does not leave it open. */
  lemma {:induction false} ResolveRecords(env: Env, book: Book, todo: set<int>, adjusted: int, clock: (int, nat) -> int,
                                          id: int)
    requires Sound(env, book)
    ensures id in Resolve(env, book, todo, adjusted, clock).collisions <==>
            && id in book.collisions
            && (id in todo ==> LeftOpen(env, AtTurn(env, book, todo, adjusted, clock, id), id, adjusted, clock(id, 0)))
    decreases |todo|
  {
    hide Sound, ResolveOne, LeftOpen;
    if todo != {} {
      var first := Least(todo);
      var next := AfterTurn(env, book, adjusted, clock, first);
      AfterTurnSound(env, book, adjusted, clock, first);
      TurnRecords(env, book, adjusted, clock, first);
      ResolveRecords(env, next, todo - {first}, adjusted, clock, id);
    }
  }

  /** Nobody but the address whose turn it is becomes tried. */
  lemma TurnOthers(env: Env, book: Book, adjusted: int, clock: (int, nat) -> int, id: int, x: NetAddr)
    requires Sound(env, book) && x in book.recs && book.recs[x].id != id && !book.recs[x].tried
    ensures
      var recs' := AfterTurn(env, book, adjusted, clock, id).recs;
      x in recs' ==> !recs'[x].tried && recs'[x].id == book.recs[x].id
  {
    hide Sound, B.Good, ResolveOne, Succeeds, LeftOpen;
    if HasId(book.recs, id) {
      var a := WithId(book.recs, id);
      ResolveOneExactly(env, book, id, adjusted, clock, a);
      var svc := book.recs[a].entry.svc;
      OwnService(env, book, a);
      GoodOthers(env, book, svc, adjusted, x);
      GoodOthers(env, book, svc, clock(id, 1), x);
    } else {
      ResolveOneExactly(env, book, id, adjusted, clock, x);
      NotRecorded(env, book, id, x, adjusted, clock(id, 0));
    }
  }

  lemma GoodOthers(env: Env, book: Book, svc: Service, time: int, x: NetAddr)
    requires Sound(env, book) && Knows(book, svc) && x in book.recs && x != svc.addr && !book.recs[x].tried
    ensures
      var recs' := B.Good(env, book, svc, false, time).recs;
      x in recs' ==> !recs'[x].tried && recs'[x].id == book.recs[x].id
  {
    hide Sound, B.Good, InTheWay, SteppedDown;
    GoodKnown(env, book, svc, false, time);
    var recs' := B.Good(env, book, svc, false, time).recs;
    if h :| InTheWay(env, book, svc, h) && !book.recs[svc.addr].tried {
      HolderTried(env, book, svc, h);
      DownOthers(env, book.key, book.recs, recs', svc.addr, h, x);
    } else {
      assert Untouched(book.recs, recs', x);
    }
  }

  lemma HolderTried(env: Env, book: Book, svc: Service, h: NetAddr)
    requires InTheWay(env, book, svc, h)
    ensures h in book.recs && book.recs[h].tried
  {
  }

  lemma DownOthers(env: Env, key: int, recs: Recs, recs': Recs, a: NetAddr, h: NetAddr, x: NetAddr)
    requires h in recs && SteppedDown(env, key, recs, recs', a, h) && x in recs && x != a && x != h
    ensures x in recs' ==> recs'[x].tried == recs[x].tried && recs'[x].id == recs[x].id
  {
    hide HoldsNew, NewBucket, Position;
  }

  lemma {:induction false} NobodyElse(env: Env, book: Book, todo: set<int>, adjusted: int, clock: (int, nat) -> int,
                                      x: NetAddr)
    requires Sound(env, book) && x in book.recs && book.recs[x].id !in todo && !book.recs[x].tried
    ensures
      var recs' := Resolve(env, book, todo, adjusted, clock).recs;
      x in recs' ==> !recs'[x].tried
    decreases |todo|
  {
    hide Sound, ResolveOne;
    if todo != {} {
      var first := Least(todo);
      var next := AfterTurn(env, book, adjusted, clock, first);
      AfterTurnSound(env, book, adjusted, clock, first);
      TurnOthers(env, book, adjusted, clock, first, x);
      if x in next.recs {
        NobodyElse(env, next, todo - {first}, adjusted, clock, x);
      } else {
        StaysGone(env, next, todo - {first}, adjusted, clock, x);
      }
    }
  }

  lemma {:induction false} StaysGone(env: Env, book: Book, todo: set<int>, adjusted: int, clock: (int, nat) -> int,
                                     x: NetAddr)
    requires x !in book.recs
    ensures x !in Resolve(env, book, todo, adjusted, clock).recs
    decreases |todo|
  {
    hide ResolveOne;
    if todo != {} {
      var first := Least(todo);
      ResolveOneKeeps(env, book, first, adjusted, clock);
      StaysGone(env, AfterTurn(env, book, adjusted, clock, first), todo - {first}, adjusted, clock, x);
    }
  }

  /** The identifiers whose turn comes after that of id. */
  function Later(todo: set<int>, id: int): set<int> {
    set k | k in todo && k > id
  }

  /**
   Of the addresses with a recorded collision, those are tried in the end that are tried after their
   own turn, but for any that another recorded one challenges after that.
   */
  lemma {:induction false} ResolveTries(env: Env, book: Book, todo: set<int>, adjusted: int, clock: (int, nat) -> int,
                                        id: int, a: NetAddr)
    requires Sound(env, book) && id in todo
    requires
      var book' := AtTurn(env, book, todo, adjusted, clock, id);
      a in book'.recs && book'.recs[a].id == id
    ensures
      var book' := AtTurn(env, book, todo, adjusted, clock, id);
      var recs := Resolve(env, book, todo, adjusted, clock).recs;
      var wins := book'.recs[a].tried || Succeeds(env, book', id, a, adjusted, clock(id, 0));
      && (a in recs && recs[a].tried ==> wins)
      && (wins ==> (a in recs && recs[a].tried) ||
                   Challenged(env, AfterTurn(env, book', adjusted, clock, id), Later(todo, id), adjusted, a))
    decreases |todo|
  {
    hide Sound, ResolveOne, Succeeds, Challenged;
    var first := Least(todo);
    var next := AfterTurn(env, book, adjusted, clock, first);
    AfterTurnSound(env, book, adjusted, clock, first);
    if id == first {
      TriedAfterTurn(env, book, id, adjusted, clock, a);
      assert Later(todo, id) == todo - {id};
      if next.recs[a].tried {
        ResolveSpares(env, next, todo - {id}, adjusted, clock, a);
      } else {
        NobodyElse(env, next, todo - {id}, adjusted, clock, a);
      }
    } else {
      assert Later(todo - {first}, id) == Later(todo, id);
      ResolveTries(env, next, todo - {first}, adjusted, clock, id, a);
    }
  }
}
