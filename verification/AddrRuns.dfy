/**
 Runs of the address manager, read on its address book: what each operation of
 CAddrMan's interface may do to the book (src/addrman.h), and the books between
 the operations of a run.
 */
module AddrRuns {
  import opened AddrTypes
  import B = AddrBook
  import opened AddrSafety
  import AddrSound

  datatype Op =
    | Add(addr: Address, source: NetAddr, penalty: int, now: int, rnd: nat)
    | Good(svc: Service, testBeforeEvict: bool, time: int, rnd: nat)
    | Attempt(svc: Service, countFailure: bool, time: int)
    | Connected(svc: Service, time: int)
    | SetServices(svc: Service, services: set<nat>)
    | GetAddr(now: int, draws: nat -> nat)
    | ResolveCollisions(adjusted: int, clock: (int, nat) -> int, starts: int -> nat)
    | SelectTriedCollision

  /** What an operation may do to the address book. */
  ghost predicate Follows(env: Env, book: B.Book, op: Op, book': B.Book) {
    match op
    case Add(addr, source, penalty, now, rnd) => book' == B.Add(env, book, addr, source, penalty, now, rnd)
    case Good(svc, test, time, _) => book' == B.Good(env, book, svc, test, time)
    case Attempt(svc, count, time) => book' == B.Attempt(book, svc, count, time)
    case Connected(svc, time) => book' == B.Connected(book, svc, time)
    case SetServices(svc, services) => book' == B.SetServices(book, svc, services)
    case GetAddr(_, _) => book' == book
    case ResolveCollisions(adjusted, clock, _) => book' == B.Resolve(env, book, book.collisions, adjusted, clock)
    case SelectTriedCollision =>
      book' == book ||
      exists id :: id in book.collisions && !B.HasId(book.recs, id) && book' == book.(collisions := book.collisions - {id})
  }

  /** The books between the operations of a run. */
  ghost predicate Trace(env: Env, ops: seq<Op>, books: seq<B.Book>) {
    |books| == |ops| + 1 && forall i :: 0 <= i < |ops| ==> Follows(env, books[i], ops[i], books[i + 1])
  }

  lemma TraceNext(env: Env, ops: seq<Op>, books: seq<B.Book>, k: nat, book: B.Book)
    requires k < |ops| && Trace(env, ops[..k], books) && Follows(env, books[k], ops[k], book)
    ensures Trace(env, ops[..k + 1], books + [book])
  {
    hide Follows;
    forall i | 0 <= i < k + 1
      ensures Follows(env, (books + [book])[i], ops[..k + 1][i], (books + [book])[i + 1])
    {
      if i < k {
        assert ops[..k][i] == ops[i];
      }
    }
  }

  lemma FollowsSound(env: Env, book: B.Book, op: Op, book': B.Book)
    requires Sound(env, book) && book.nextId >= 0 && Follows(env, book, op, book')
    ensures Sound(env, book') && book'.nextId >= 0
  {
    hide Sound, B.Add, B.Good, B.Resolve, B.HasId;
    match op
    case Add(addr, source, penalty, now, rnd) => AddrSound.AddSound(env, book, addr, source, penalty, now, rnd);
    case Good(svc, test, time, _) =>
      AddrSound.GoodSound(env, book, svc, test, time);
      GoodKeepsNextId(env, book, svc, test, time);
    case Attempt(svc, count, time) =>
      AddrSound.UpdateSound(env, book, svc, (e: Entry) =>
        var e' := e.(lastTry := time);
        if count && e.lastCountAttempt < book.lastGood
        then e'.(lastCountAttempt := time, attempts := e.attempts + 1) else e');
    case Connected(svc, time) =>
      AddrSound.UpdateSound(env, book, svc, (e: Entry) => if time - e.time > 20 * 60 then e.(time := ToTime(time)) else e);
    case SetServices(svc, services) =>
      AddrSound.UpdateSound(env, book, svc, (e: Entry) => e.(services := services));
    case GetAddr(_, _) =>
    case ResolveCollisions(adjusted, clock, _) =>
      AddrSound.ResolveSound(env, book, book.collisions, adjusted, clock);
      ResolveKeepsNextId(env, book, book.collisions, adjusted, clock);
    case SelectTriedCollision =>
      if book' != book {
        var id :| id in book.collisions && !B.HasId(book.recs, id) && book' == book.(collisions := book.collisions - {id});
        AddrSound.ForgetSound(env, book, book.collisions - {id});
      }
  }

  lemma GoodKeepsNextId(env: Env, book: B.Book, svc: Service, test: bool, time: int)
    ensures B.Good(env, book, svc, test, time).nextId == book.nextId
    ensures B.Good(env, book, svc, test, time).key == book.key
  {
    hide B.MakeTried, B.TriedTaken;
  }

  lemma {:induction false} ResolveKeepsNextId(env: Env, book: B.Book, todo: set<int>, adjusted: int, clock: (int, nat) -> int)
    ensures B.Resolve(env, book, todo, adjusted, clock).nextId == book.nextId
    ensures B.Resolve(env, book, todo, adjusted, clock).key == book.key
    decreases |todo|
  {
    hide B.Good, B.TriedTaken, B.HasId;
    if todo != {} {
      var id := B.Least(todo);
      var (book', drop) := B.ResolveOne(env, book, id, adjusted, clock);
      if B.HasId(book.recs, id) {
        var svc := book.recs[B.WithId(book.recs, id)].entry.svc;
        GoodKeepsNextId(env, book, svc, false, clock(id, 1));
        GoodKeepsNextId(env, book, svc, false, adjusted);
      }
      ResolveKeepsNextId(env, if drop then book'.(collisions := book'.collisions - {id}) else book', todo - {id}, adjusted, clock);
    }
  }

  /** Every book of a run is sound if the first one is. */
  lemma {:induction false} TraceSound(env: Env, ops: seq<Op>, books: seq<B.Book>, i: nat)
    requires Trace(env, ops, books) && Sound(env, books[0]) && books[0].nextId >= 0 && i < |books|
    ensures Sound(env, books[i]) && books[i].nextId >= 0
  {
    hide Sound, Follows;
    if i > 0 {
      TraceSound(env, ops, books, i - 1);
      FollowsSound(env, books[i - 1], ops[i - 1], books[i]);
    }
  }

  // ---- Recorded collisions over runs

  lemma {:induction false} ResolveSafe(env: Env, book: B.Book, todo: set<int>, adjusted: int, clock: (int, nat) -> int)
    requires Sound(env, book) && CollisionsSafe(env, book)
    ensures CollisionsSafe(env, B.Resolve(env, book, todo, adjusted, clock))
    decreases |todo|
  {
    hide Sound, CollisionsSafe, B.ResolveOne;
    if todo != {} {
      var id := B.Least(todo);
      var (book', drop) := B.ResolveOne(env, book, id, adjusted, clock);
      AddrSound.ResolveOneSound(env, book, id, adjusted, clock);
      AddrSound.ForgetSound(env, book', book'.collisions - {id});
      ResolveOneSafe(env, book, id, adjusted, clock);
      ResolveSafe(env, if drop then book'.(collisions := book'.collisions - {id}) else book', todo - {id}, adjusted, clock);
    }
  }

  /** No operation makes a recorded collision unsafe. */
  lemma FollowsSafe(env: Env, book: B.Book, op: Op, book': B.Book)
    requires Sound(env, book) && CollisionsSafe(env, book) && Follows(env, book, op, book')
    ensures CollisionsSafe(env, book')
  {
    hide Sound, CollisionsSafe, B.Add, B.Good, B.Attempt, B.Connected, B.SetServices, B.Resolve, B.HasId;
    match op
    case Add(addr, source, penalty, now, rnd) => AddSafe(env, book, addr, source, penalty, now, rnd);
    case Good(svc, test, time, _) => GoodSafe(env, book, svc, test, time);
    case Attempt(svc, count, time) => AttemptSafe(env, book, svc, count, time);
    case Connected(svc, time) => ConnectedSafe(env, book, svc, time);
    case SetServices(svc, services) => SetServicesSafe(env, book, svc, services);
    case GetAddr(_, _) =>
    case ResolveCollisions(adjusted, clock, _) => ResolveSafe(env, book, book.collisions, adjusted, clock);
    case SelectTriedCollision => SelectSafe(env, book);
  }

  lemma {:induction false} TraceSafe(env: Env, ops: seq<Op>, books: seq<B.Book>, i: nat)
    requires Trace(env, ops, books) && Sound(env, books[0]) && books[0].nextId >= 0 && CollisionsSafe(env, books[0]) && i < |books|
    ensures CollisionsSafe(env, books[i])
  {
    hide Sound, CollisionsSafe, Follows;
    if i > 0 {
      TraceSafe(env, ops, books, i - 1);
      TraceSound(env, ops, books, i - 1);
      FollowsSafe(env, books[i - 1], ops[i - 1], books[i]);
    }
  }
}
