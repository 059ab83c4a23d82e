/**
 The address book that CAddrMan keeps, without its indexes: for each address
 what is known about it and either "tried" or the set of new buckets holding
 it. Identifiers, reference counts, positions, the random order and the
 counters of CAddrMan are all determined by this map or invisible in it.
 */
module AddrBook {
  import opened Numbers
  import opened AddrTypes

  datatype Rec = Rec(id: int, entry: Entry, tried: bool, buckets: set<nat>)

  datatype Book = Book(key: int, nextId: int, recs: map<NetAddr, Rec>, collisions: set<int>, lastGood: int)

  // ---- The new table

  ghost predicate HoldsNew(env: Env, key: int, r: Rec, b: nat, p: nat) {
    b in r.buckets && Position(env, key, r.entry.svc, true, b) == p
  }

  ghost predicate NewTaken(env: Env, key: int, recs: map<NetAddr, Rec>, b: nat, p: nat) {
    exists a :: a in recs && HoldsNew(env, key, recs[a], b, p)
  }

  /** The address in new slot (b, p). */
  ghost function NewHolder(env: Env, key: int, recs: map<NetAddr, Rec>, b: nat, p: nat): (a: NetAddr)
    requires NewTaken(env, key, recs, b, p)
    ensures a in recs && HoldsNew(env, key, recs[a], b, p)
  {
    var a :| a in recs && HoldsNew(env, key, recs[a], b, p);
    a
  }

  /** New slot (b, p) is emptied; an address left without a slot is forgotten. */
  ghost function Shed(env: Env, key: int, recs: map<NetAddr, Rec>, b: nat, p: nat): map<NetAddr, Rec> {
    map a | a in recs && !(HoldsNew(env, key, recs[a], b, p) && recs[a].buckets == {b}) ::
      if HoldsNew(env, key, recs[a], b, p) then recs[a].(buckets := recs[a].buckets - {b}) else recs[a]
  }

  lemma ShedKeeps(env: Env, key: int, recs: map<NetAddr, Rec>, a: NetAddr, b: nat, p: nat)
    requires a in recs && b !in recs[a].buckets
    ensures a in Shed(env, key, recs, b, p) && Shed(env, key, recs, b, p)[a] == recs[a]
  {
  }

  /** May address a, which has no slot yet or several, displace the holder of (b, p)? */
  ghost predicate Displaces(env: Env, key: int, recs: map<NetAddr, Rec>, a: NetAddr, b: nat, p: nat, now: int)
    requires a in recs
  {
    NewTaken(env, key, recs, b, p) ==>
      var held := recs[NewHolder(env, key, recs, b, p)];
      IsTerrible(held.entry, now) || (|held.buckets| > 1 && recs[a].buckets == {})
  }

  /** Address a is put in the new bucket that its source selects, if that slot can be had. */
  ghost function Place(env: Env, key: int, recs: map<NetAddr, Rec>, a: NetAddr, source: NetAddr, now: int): map<NetAddr, Rec>
    requires a in recs
  {
    var r := recs[a];
    var b := NewBucket(env, key, r.entry.svc, source);
    var p := Position(env, key, r.entry.svc, true, b);
    if b in r.buckets then recs
    else if Displaces(env, key, recs, a, b, p, now) then
      Shed(env, key, recs, b, p)[a := r.(buckets := r.buckets + {b})]
    else if r.buckets == {} then recs - {a}
    else recs
  }

  // ---- The tried table

  ghost predicate HoldsTried(env: Env, key: int, r: Rec, svc: Service) {
    && r.tried
    && TriedBucket(env, key, r.entry.svc) == TriedBucket(env, key, svc)
    && TriedPosition(env, key, r.entry.svc) == TriedPosition(env, key, svc)
  }

  /** Is the one tried slot of svc taken? */
  ghost predicate TriedTaken(env: Env, key: int, recs: map<NetAddr, Rec>, svc: Service) {
    exists a :: a in recs && HoldsTried(env, key, recs[a], svc)
  }

  ghost function TriedHolder(env: Env, key: int, recs: map<NetAddr, Rec>, svc: Service): (a: NetAddr)
    requires TriedTaken(env, key, recs, svc)
    ensures a in recs && HoldsTried(env, key, recs[a], svc)
  {
    var a :| a in recs && HoldsTried(env, key, recs[a], svc);
    a
  }

  /** The tried address x goes back to the new bucket its own source selects. */
  ghost function Demote(env: Env, key: int, recs: map<NetAddr, Rec>, x: NetAddr): map<NetAddr, Rec>
    requires x in recs
  {
    var r := recs[x].(tried := false, buckets := {});
    var b := NewBucket(env, key, r.entry.svc, r.entry.source);
    Shed(env, key, recs[x := r], b, Position(env, key, r.entry.svc, true, b))[x := r.(buckets := {b})]
  }

  /** Address a moves from its new slots to its tried slot, whose holder is demoted. */
  ghost function MakeTried(env: Env, key: int, recs: map<NetAddr, Rec>, a: NetAddr): map<NetAddr, Rec>
    requires a in recs
  {
    var out := recs[a := recs[a].(buckets := {})];
    var svc := recs[a].entry.svc;
    var settled :=
      if TriedTaken(env, key, out, svc) then Demote(env, key, out, TriedHolder(env, key, out, svc)) else out;
    settled[a := recs[a].(tried := true, buckets := {})]
  }

  // ---- Operations

  /** What a repeated announcement changes in an entry. */
  function Refreshed(e: Entry, addr: Address, penalty: int, now: int): Entry {
    var interval := if now - addr.time < DAY then 60 * 60 else DAY;
    e.(time := if addr.time != 0 && (e.time == 0 || e.time < addr.time - interval - penalty)
                then ToTime(Max(0, addr.time - penalty)) else e.time,
       services := e.services + addr.services)
  }

  /** An announcement of addr by source; rnd is the random draw of the multiplicity test. */
  ghost function Add(env: Env, book: Book, addr: Address, source: NetAddr, timePenalty: int, now: int, rnd: nat): Book {
    var a := addr.svc.addr;
    var penalty := if a == source then 0 else timePenalty;
    if !env.routable(a) then book
    else if a in book.recs then
      var r := book.recs[a];
      var e := Refreshed(r.entry, addr, penalty, now);
      var recs := book.recs[a := r.(entry := e)];
      if || addr.time == 0 || (e.time != 0 && addr.time <= e.time)
         || r.tried
         || |r.buckets| == NEW_BUCKETS_PER_ADDRESS
         || rnd % Pow2(|r.buckets|) != 0
      then book.(recs := recs)
      else book.(recs := Place(env, book.key, recs, a, source, now))
    else
      var e := Entry(addr.svc, addr.services, ToTime(Max(0, addr.time - penalty)), source, 0, 0, 0, 0);
      var recs := book.recs[a := Rec(book.nextId, e, false, {})];
      book.(nextId := book.nextId + 1, recs := Place(env, book.key, recs, a, source, now))
  }

  /** Is svc known with exactly this port? */
  predicate Knows(book: Book, svc: Service) {
    svc.addr in book.recs && book.recs[svc.addr].entry.svc == svc
  }

  /**
   The untried address a goes to its tried slot; but if that is taken and the
   holder must be tested first, the collision is recorded, if there is room.
   */
  ghost function Advance(env: Env, book: Book, a: NetAddr, testBeforeEvict: bool): Book
    requires a in book.recs
  {
    if testBeforeEvict && TriedTaken(env, book.key, book.recs, book.recs[a].entry.svc) then
      if |book.collisions| < TRIED_COLLISION_SIZE
      then book.(collisions := book.collisions + {book.recs[a].id})
      else book
    else book.(recs := MakeTried(env, book.key, book.recs, a))
  }

  /** A successful connection to svc. */
  ghost function Good(env: Env, book: Book, svc: Service, testBeforeEvict: bool, time: int): Book {
    var noted := book.(lastGood := time);
    if !Knows(book, svc) then noted
    else
      var r := book.recs[svc.addr];
      var recs := book.recs[svc.addr := r.(entry := r.entry.(lastSuccess := time, lastTry := time, attempts := 0))];
      if r.tried then noted.(recs := recs)
      else Advance(env, noted.(recs := recs), svc.addr, testBeforeEvict)
  }

  /** The entry of svc, when known with exactly this port, is replaced by f of it. */
  function Update(book: Book, svc: Service, f: Entry -> Entry): Book {
    if !Knows(book, svc) then book
    else
      var r := book.recs[svc.addr];
      book.(recs := book.recs[svc.addr := r.(entry := f(r.entry))])
  }

  function Attempt(book: Book, svc: Service, countFailure: bool, time: int): Book {
    Update(book, svc, (e: Entry) =>
      var e' := e.(lastTry := time);
      if countFailure && e.lastCountAttempt < book.lastGood
      then e'.(lastCountAttempt := time, attempts := e.attempts + 1) else e')
  }

  function Connected(book: Book, svc: Service, time: int): Book {
    Update(book, svc, (e: Entry) => if time - e.time > 20 * 60 then e.(time := ToTime(time)) else e)
  }

  function SetServices(book: Book, svc: Service, services: set<nat>): Book {
    Update(book, svc, (e: Entry) => e.(services := services))
  }

  // ---- Test before evict

  ghost predicate HasId(recs: map<NetAddr, Rec>, id: int) {
    exists a :: a in recs && recs[a].id == id
  }

  ghost function WithId(recs: map<NetAddr, Rec>, id: int): (a: NetAddr)
    requires HasId(recs, id)
    ensures a in recs && recs[a].id == id
  {
    var a :| a in recs && recs[a].id == id;
    a
  }

  /** What becomes of one recorded collision: the new book, and whether the record is dropped. */
  ghost function ResolveOne(env: Env, book: Book, id: int, adjusted: int, clock: (int, nat) -> int): (Book, bool) {
    if !HasId(book.recs, id) then (book, true)
    else
      var a := WithId(book.recs, id);
      var e := book.recs[a].entry;
      if !env.valid(a) then (book, true)
      else if TriedTaken(env, book.key, book.recs, e.svc) then
        var old_ := book.recs[TriedHolder(env, book.key, book.recs, e.svc)].entry;
        if adjusted - old_.lastSuccess < REPLACEMENT_SECONDS then (book, true)
        else if adjusted - old_.lastTry < REPLACEMENT_SECONDS then
          if clock(id, 0) - old_.lastTry > 60 then (Good(env, book, e.svc, false, clock(id, 1)), true) else (book, false)
        else if clock(id, 0) - e.lastSuccess > TEST_WINDOW then (Good(env, book, e.svc, false, clock(id, 1)), true)
        else (book, false)
      else (Good(env, book, e.svc, false, adjusted), true)
  }

  ghost predicate IsLeast(s: set<int>, x: int) {
    x in s && forall y :: y in s ==> x <= y
  }

  lemma Member<T>(s: set<T>) returns (x: T)
    requires s != {}
    ensures x in s
  {
    x :| x in s;
  }

  lemma {:induction false} HasLeast(s: set<int>)
    requires s != {}
    ensures exists x :: IsLeast(s, x)
    decreases |s|
  {
    var x := Member(s);
    if s == {x} {
      assert IsLeast(s, x);
    } else {
      var rest := s - {x};
      assert s == rest + {x};
      HasLeast(rest);
      var y :| IsLeast(rest, y);
      var z := if x < y then x else y;
      forall w | w in s
        ensures z <= w
      {
        assert w == x || w in rest;
      }
      assert IsLeast(s, z);
    }
  }

  ghost function Least(s: set<int>): (x: int)
    requires s != {}
    ensures IsLeast(s, x) && x in s && forall y :: y in s ==> x <= y
  {
    HasLeast(s);
    var x :| IsLeast(s, x);
    x
  }

  /** The recorded collisions in `todo` are examined in ascending order. */
  ghost function Resolve(env: Env, book: Book, todo: set<int>, adjusted: int, clock: (int, nat) -> int): Book
    decreases |todo|
  {
    if todo == {} then book
    else
      var id := Least(todo);
      var (book', drop) := ResolveOne(env, book, id, adjusted, clock);
      Resolve(env, if drop then book'.(collisions := book'.collisions - {id}) else book', todo - {id}, adjusted, clock)
  }
}
