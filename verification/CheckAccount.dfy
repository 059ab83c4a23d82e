/**
 What becomes of each check added to the queue: it is run once, or it is skipped
 because a failure was known, and after a failure little more is run.
 */
module CheckAccount {
  import opened Numbers
  import opened Options
  import opened CheckQueue

  // ---- Batches

  /** A batch is the largest share that is not more than the limit, but at least one check. */
  lemma BatchExactly(s: State)
    requires s.nTotal + s.nIdle + 1 > 0
    ensures
      var n, k, size := BatchOf(s), s.nTotal + s.nIdle + 1, |s.queue| % 0x1_0000_0000;
      && n >= 1 && (n > 1 ==> n <= s.batchSize && n * k <= size)
      && (n < s.batchSize ==> size < (n + 1) * k)
  {
    var k, size := s.nTotal + s.nIdle + 1, |s.queue| % UINT32;
    ShareExactly(size, k);
  }

  lemma ShareExactly(size: nat, k: nat)
    requires k > 0
    ensures (size / k) * k <= size < (size / k + 1) * k
  {
  }

  /** A thread takes its batch from the end of the queue, the last check first, and knows of failures so far. */
  lemma TakenFromTheBack(s: State, i: nat)
    requires i < |s.threads| && s.nTotal + s.nIdle + 1 > 0 && s.queue != []
    ensures
      var (t, ret) := Proceed(s, i);
      var n := |s.queue| - |t.queue|;
      && ret == None && n == BatchOf(s) && t == s.(queue := s.queue[..|s.queue| - n], threads := s.threads[i := t.threads[i]])
      && t.threads[i].Working? && t.threads[i].done == 0 && t.threads[i].ok == s.allOk && |t.threads[i].batch| == n
      && forall j :: 0 <= j < n ==> t.threads[i].batch[j] == s.queue[|s.queue| - 1 - j]
  {
    var rest := |s.queue| - BatchOf(s);
    forall j | 0 <= j < |s.queue| - rest
      ensures Reverse(s.queue[rest..])[j] == s.queue[|s.queue| - 1 - j]
    {
      ReversedAt(s.queue[rest..], j);
    }
  }

  lemma {:induction false} ReversedAt<T>(s: seq<T>, j: nat)
    requires j < |s|
    ensures Reverse(s)[j] == s[|s| - 1 - j]
  {
    if j < |s| - 1 {
      ReversedAt(s[1..], j);
    }
  }

  lemma {:induction false} ReversedSame<T>(s: seq<T>)
    ensures multiset(Reverse(s)) == multiset(s)
  {
    if s != [] {
      ReversedSame(s[1..]);
      assert s == [s[0]] + s[1..];
    }
  }

  /** Several checks wake every sleeping thread, a single one wakes one of them, and none nobody. */
  lemma AddWakes(s: State, checks: seq<Check>, woken: nat)
    requires Resting(s) && Enabled(s, Add(checks, woken))
    ensures
      var ts, us := s.threads, Next(s, Add(checks, woken)).0.threads;
      && |us| == |ts| && (forall i :: 0 <= i < |ts| ==> us[i] == ts[i] || (ts[i] == Asleep(false) && us[i] == Asleep(true)))
      && (|checks| > 1 ==> forall i :: 0 <= i < |us| ==> us[i] != Asleep(false))
      && (|checks| == 1 && (exists i :: 0 <= i < |ts| && ts[i] == Asleep(false)) ==>
            exists i :: 0 <= i < |ts| && us[i] != ts[i])
      && (|checks| <= 1 ==> forall i, j :: 0 <= i < |ts| && 0 <= j < |ts| && us[i] != ts[i] && us[j] != ts[j] ==> i == j)
      && (checks == [] ==> us == ts)
  {
  }

  // ---- The account of a round

  /** The checks that a thread has still to come to. */
  function Left(t: Thread): multiset<Check> {
    if t.Working? && t.done <= |t.batch| then multiset(t.batch[t.done..]) else multiset{}
  }

  /** How often it has still to come to c. */
  function Leaves(c: Check): Thread -> nat {
    (t: Thread) => Left(t)[c]
  }

  /** Of the checks added in this round, those run and those skipped. */
  datatype Account = Account(ran: multiset<Check>, skipped: multiset<Check>)

  const NOTHING := Account(multiset{}, multiset{})

  /** A check is run only by a thread that knows of no failure. */
  ghost function Noted(a: Account, s: State, ev: Event): Account
    requires Resting(s) && Enabled(s, ev)
  {
    match ev
    case Exec(i) =>
      var t := s.threads[i];
      var c := t.batch[t.done];
      if t.ok then a.(ran := a.ran + multiset{c}) else a.(skipped := a.skipped + multiset{c})
    case _ => if Next(s, ev).1.Some? then NOTHING else a
  }

  /** Some thread at work knows of a failure. */
  ghost predicate SomeKnows(ts: seq<Thread>) {
    exists i :: 0 <= i < |ts| && ts[i].Working? && !ts[i].ok
  }

  lemma KnowsStill(ts: seq<Thread>, us: seq<Thread>)
    requires |us| == |ts| && forall i :: 0 <= i < |ts| && ts[i].Working? && !ts[i].ok ==> us[i].Working? && !us[i].ok
    ensures SomeKnows(ts) ==> SomeKnows(us)
  {
    if SomeKnows(ts) {
      var i :| 0 <= i < |ts| && ts[i].Working? && !ts[i].ok;
      assert us[i].Working?;
    }
  }

  /** Every check added is in the queue, in a batch, run or skipped. */
  ghost predicate Conserved(s: State, a: Account, c: Check) {
    multiset(s.added)[c] == multiset(s.queue)[c] + Sum(s.threads, Leaves(c)) + a.ran[c] + a.skipped[c]
  }

  /** And none is skipped before a failure is known. */
  ghost predicate Accounted(s: State, a: Account) {
    (forall c :: Conserved(s, a, c)) && (a.skipped != multiset{} ==> !s.allOk || SomeKnows(s.threads))
  }

  lemma ExecConserved(s: State, i: nat, a: Account, c: Check)
    requires Resting(s) && Enabled(s, Exec(i)) && Conserved(s, a, c)
    ensures Conserved(Next(s, Exec(i)).0, Noted(a, s, Exec(i)), c)
  {
    hide Resting, Sum, Left;
    var t := s.threads[i];
    SumUpdate(s.threads, i, Executed(t), Leaves(c));
    LeftNext(t, c);
  }

  lemma LeftNext(t: Thread, c: Check)
    requires t.Working? && t.done < |t.batch|
    ensures Left(t)[c] == Left(Executed(t))[c] + if t.batch[t.done] == c then 1 else 0
  {
    assert t.batch[t.done..] == [t.batch[t.done]] + t.batch[t.done + 1..];
  }

  lemma ExecAccounted(s: State, i: nat, a: Account)
    requires Resting(s) && Enabled(s, Exec(i)) && Accounted(s, a)
    ensures Accounted(Next(s, Exec(i)).0, Noted(a, s, Exec(i)))
  {
    hide Resting, Conserved;
    forall c
      ensures Conserved(Next(s, Exec(i)).0, Noted(a, s, Exec(i)), c)
    {
      ExecConserved(s, i, a, c);
    }
    var us := s.threads[i := Executed(s.threads[i])];
    KnowsStill(s.threads, us);
    assert !s.threads[i].ok ==> us[i].Working? && !us[i].ok;
  }

  lemma AddConserved(s: State, checks: seq<Check>, woken: nat, a: Account, c: Check)
    requires Resting(s) && Enabled(s, Add(checks, woken)) && Conserved(s, a, c)
    ensures Conserved(Next(s, Add(checks, woken)).0, a, c)
  {
    hide Resting, Sum, Woken;
    WokenLeaves(s.threads, |checks|, woken, c);
  }

  lemma WokenLeaves(ts: seq<Thread>, added: nat, woken: nat, c: Check)
    requires added == 1 ==> WakesOne(ts, woken)
    ensures Sum(Woken(ts, added, woken), Leaves(c)) == Sum(ts, Leaves(c))
  {
    hide Sum;
    SumSame(ts, Woken(ts, added, woken), Leaves(c));
  }

  lemma AddAccounted(s: State, checks: seq<Check>, woken: nat, a: Account)
    requires Resting(s) && Enabled(s, Add(checks, woken)) && Accounted(s, a)
    ensures Accounted(Next(s, Add(checks, woken)).0, a)
  {
    hide Resting, Conserved;
    forall c
      ensures Conserved(Next(s, Add(checks, woken)).0, a, c)
    {
      AddConserved(s, checks, woken, a, c);
    }
    KnowsStill(s.threads, Woken(s.threads, |checks|, woken));
  }

  lemma EnterAccounted(s: State, i: nat, a: Account)
    requires Resting(s) && Enabled(s, Enter(i)) && Accounted(s, a)
    ensures Accounted(Next(s, Enter(i)).0, a)
  {
    hide Resting, Sum;
    forall c
      ensures Conserved(Next(s, Enter(i)).0, a, c)
    {
      assert Conserved(s, a, c);
      SumUpdate(s.threads, i, Entering, Leaves(c));
    }
    KnowsStill(s.threads, s.threads[i := Entering]);
  }

  lemma CleanUpAccounted(s: State, i: nat, a: Account)
    requires i < |s.threads| && AtMutex(s.threads[i]) && Accounted(s, a)
    ensures Accounted(CleanUp(s, i), a)
  {
    hide Sum, Wrap;
    var ts := s.threads[i := Locked];
    forall c
      ensures Conserved(CleanUp(s, i), a, c)
    {
      assert Conserved(s, a, c);
      CleanUpLeaves(s, i, c);
    }
    if s.threads[i].Working? && !s.threads[i].ok {
    } else {
      KnowsStill(s.threads, ts);
      KnowsStill(ts, NotifyMaster(ts));
    }
  }

  lemma CleanUpLeaves(s: State, i: nat, c: Check)
    requires i < |s.threads| && AtMutex(s.threads[i])
    ensures Sum(CleanUp(s, i).threads, Leaves(c)) == Sum(s.threads, Leaves(c))
  {
    hide Sum, Wrap;
    var ts := s.threads[i := Locked];
    SumUpdate(s.threads, i, Locked, Leaves(c));
    SumSame(ts, NotifyMaster(ts), Leaves(c));
  }

  lemma SleepAccounted(s: State, i: nat, a: Account)
    requires i < |s.threads| && s.threads[i].Locked? && s.nTotal + s.nIdle + 1 > 0 && Accounted(s, a)
    requires s.queue == [] && Proceed(s, i).1.None?
    ensures Accounted(Proceed(s, i).0, a)
  {
    hide Sum;
    var us := s.threads[i := Asleep(false)];
    forall c
      ensures Conserved(Proceed(s, i).0, a, c)
    {
      assert Conserved(s, a, c);
      SumUpdate(s.threads, i, Asleep(false), Leaves(c));
    }
    KnowsStill(s.threads, us);
  }

  lemma TakeAccounted(s: State, i: nat, a: Account)
    requires i < |s.threads| && s.threads[i].Locked? && s.nTotal + s.nIdle + 1 > 0 && Accounted(s, a) && s.queue != []
    ensures Accounted(Proceed(s, i).0, a)
  {
    hide Sum, Reverse, BatchOf;
    var t := Proceed(s, i).0;
    var rest := |s.queue| - BatchOf(s);
    ReversedSame(s.queue[rest..]);
    assert s.queue == s.queue[..rest] + s.queue[rest..];
    assert t.threads[i].batch[0..] == t.threads[i].batch;
    forall c
      ensures Conserved(t, a, c)
    {
      assert Conserved(s, a, c);
      SumUpdate(s.threads, i, t.threads[i], Leaves(c));
    }
    KnowsStill(s.threads, t.threads);
  }

  /** When Wait returns, every check of the round has been run or skipped, and all were run if the verdict is good. */
  lemma ReturnAccounted(s: State, i: nat, a: Account)
    requires Inv(s) && i < |s.threads| && s.threads[i].Locked? && s.nTotal + s.nIdle + 1 > 0 && Accounted(s, a)
    requires Proceed(s, i).1.Some?
    ensures Accounted(Proceed(s, i).0, NOTHING)
    ensures multiset(s.added) == a.ran + a.skipped && (s.allOk ==> a.skipped == multiset{})
  {
    hide Sum, Reverse, BatchOf;
    InFlightFits(s);
    WrapAgain(Sum(s.threads, Load), 0);
    NothingInFlight(s);
    var us := s.threads[i := Outside];
    forall c
      ensures Sum(s.threads, Leaves(c)) == 0 && Sum(us, Leaves(c)) == 0
    {
      SumZero(s.threads, Leaves(c));
      SumZero(us, Leaves(c));
    }
    forall c
      ensures multiset(s.added)[c] == (a.ran + a.skipped)[c]
    {
      assert Conserved(s, a, c);
    }
  }

  // ---- Whole runs

  /** At every return of Wait the account of the round is closed. */
  ghost predicate Closes(s: State, evs: seq<Event>, a: Account)
    requires Resting(s) && Legal(s, evs)
    decreases |evs|
  {
    if evs == [] then true else
      NextKeeps(s, evs[0]);
      var (t, ret) := Next(s, evs[0]);
      && (ret.Some? ==> multiset(s.added) == a.ran + a.skipped && (ret.value ==> a.skipped == multiset{}))
      && Closes(t, evs[1..], Noted(a, s, evs[0]))
  }

  lemma NextAccounted(s: State, ev: Event, a: Account)
    requires Resting(s) && Enabled(s, ev) && Accounted(s, a)
    ensures
      var (t, ret) := Next(s, ev);
      && Accounted(t, Noted(a, s, ev))
      && (ret.Some? ==> multiset(s.added) == a.ran + a.skipped && (ret.value ==> a.skipped == multiset{}))
  {
    match ev
    case Enter(i) => EnterAccounted(s, i, a);
    case Exec(i) => ExecAccounted(s, i, a);
    case Add(checks, woken) => AddAccounted(s, checks, woken, a);
    case Section(i) =>
      CleanUpKeeps(s, i);
      CleanUpAccounted(s, i, a);
      var t := CleanUp(s, i);
      if Proceed(t, i).1.Some? {
        ReturnAccounted(t, i, a);
      } else if t.queue == [] {
        SleepAccounted(t, i, a);
      } else {
        TakeAccounted(t, i, a);
      }
  }

  lemma {:induction false} RunCloses(s: State, evs: seq<Event>, a: Account)
    requires Resting(s) && Legal(s, evs) && Accounted(s, a)
    ensures Closes(s, evs, a)
    decreases |evs|
  {
    hide Resting, Accounted;
    if evs != [] {
      NextKeeps(s, evs[0]);
      NextAccounted(s, evs[0], a);
      RunCloses(Next(s, evs[0]).0, evs[1..], Noted(a, s, evs[0]));
    }
  }

  /**
   In every interleaving, each check is run or skipped exactly once in its round, none is skipped unless a failure is
   known, and all are run when Wait returns true.
   */
  lemma EveryCheckOnce(workers: nat, batchSize: nat, evs: seq<Event>)
    requires Roomy(workers + 1, batchSize) && Legal(Init(workers, batchSize), evs)
    ensures Closes(Init(workers, batchSize), evs, NOTHING)
  {
    var s := Init(workers, batchSize);
    forall c
      ensures Conserved(s, NOTHING, c)
    {
      SumZero(s.threads, Leaves(c));
    }
    RunCloses(s, evs, NOTHING);
  }

  // ---- After a failure

  /** The checks that a thread will run if none of them fails. */
  function WillRun(t: Thread): nat {
    if t.Working? && t.ok && t.done <= |t.batch| then |t.batch| - t.done else 0
  }

  /** How many checks a run without a return of Wait runs. */
  ghost function RunIn(s: State, evs: seq<Event>): nat
    requires Resting(s) && Legal(s, evs)
    decreases |evs|
  {
    if evs == [] then 0 else
      NextKeeps(s, evs[0]);
      (if evs[0].Exec? && s.threads[evs[0].i].ok then 1 else 0) + RunIn(Next(s, evs[0]).0, evs[1..])
  }

  ghost predicate NoReturn(s: State, evs: seq<Event>)
    requires Resting(s) && Legal(s, evs)
    decreases |evs|
  {
    if evs == [] then true else
      NextKeeps(s, evs[0]);
      Next(s, evs[0]).1.None? && NoReturn(Next(s, evs[0]).0, evs[1..])
  }

  lemma QuietStep(s: State, ev: Event)
    requires Resting(s) && Enabled(s, ev) && !s.allOk && Next(s, ev).1.None?
    ensures
      var t := Next(s, ev).0;
      && !t.allOk
      && (if ev.Exec? && s.threads[ev.i].ok then 1 else 0) + Sum(t.threads, WillRun) <= Sum(s.threads, WillRun)
  {
    hide Sum, Inv, Reverse, BatchOf, Wrap;
    match ev
    case Enter(i) => SumUpdate(s.threads, i, Entering, WillRun);
    case Exec(i) => SumUpdate(s.threads, i, Executed(s.threads[i]), WillRun);
    case Add(checks, woken) => SumSame(s.threads, Woken(s.threads, |checks|, woken), WillRun);
    case Section(i) =>
      CleanUpKeeps(s, i);
      var ts := s.threads[i := Locked];
      SumUpdate(s.threads, i, Locked, WillRun);
      SumSame(ts, NotifyMaster(ts), WillRun);
      var t := CleanUp(s, i);
      SumUpdate(t.threads, i, Proceed(t, i).0.threads[i], WillRun);
  }

  /** Once a failure is on record, only batches begun before it are run on until Wait returns. */
  lemma {:induction false} QuietAfterFailure(s: State, evs: seq<Event>)
    requires Resting(s) && Legal(s, evs) && NoReturn(s, evs) && !s.allOk
    ensures RunIn(s, evs) <= Sum(s.threads, WillRun)
    decreases |evs|
  {
    hide Resting, Sum;
    if evs != [] {
      NextKeeps(s, evs[0]);
      QuietStep(s, evs[0]);
      QuietAfterFailure(Next(s, evs[0]).0, evs[1..]);
    }
  }
}
