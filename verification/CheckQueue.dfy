/**
 CCheckQueue (src/checkqueue.h): one master and any number of workers share a
 stack of checks under a mutex and two condition variables. Every critical
 section is one atomic step; between sections a thread executes a batch or sleeps.
 */
module CheckQueue {
  import opened Numbers
  import opened Options

  /** A verification; calling it returns ok. */
  datatype Check = Check(id: nat, ok: bool)

  /** Where a thread is in Loop. */
  datatype Thread =
    | Outside                                            // not in Loop
    | Entering                                           // before its first critical section
    | Locked                                             // past the clean-up, about to look at the queue
    | Asleep(notified: bool)                             // in cond.wait
    | Working(batch: seq<Check>, done: nat, ok: bool)    // executing its batch

  /** Thread 0 is the master. The history variable added lists the checks added since Wait last returned. */
  datatype State = State(
    queue: seq<Check>, nIdle: int, nTotal: int, allOk: bool, nTodo: int, batchSize: nat,
    threads: seq<Thread>, added: seq<Check>)

  /** The batches that the threads can hold at once have fewer than 2^32 checks. */
  ghost predicate Roomy(threads: nat, batchSize: nat) {
    threads * Max(1, batchSize) < UINT32
  }

  /** A new queue with the master and its workers not yet started. */
  ghost function Init(workers: nat, batchSize: nat): (s: State)
    requires Roomy(workers + 1, batchSize)
    ensures Resting(s) && FreshRound(s) && |s.threads| == workers + 1
  {
    var s := State([], 0, 0, true, 0, batchSize, seq(workers + 1, i => Outside), []);
    SumZero(s.threads, Load);
    SumZero(s.threads, Idling);
    SumZero(s.threads, Inside);
    s
  }

  // ---- Steps

  /** Unsigned 32-bit arithmetic. */
  function Wrap(n: int): nat {
    n % UINT32
  }

  lemma WrapAgain(a: int, b: int)
    ensures Wrap(Wrap(a) + b) == Wrap(a + b) && (0 <= a < UINT32 ==> Wrap(a) == a)
  {
  }

  function Reverse<T>(s: seq<T>): (r: seq<T>)
    ensures |r| == |s|
  {
    if s == [] then [] else Reverse(s[1..]) + [s[0]]
  }

  /** How many checks a thread takes at once. */
  function BatchOf(s: State): (n: int)
    requires s.nTotal + s.nIdle + 1 > 0
    ensures |s.queue| > 0 ==> 1 <= n <= |s.queue|
    ensures 1 <= n <= Max(1, s.batchSize)
  {
    var share := (|s.queue| % UINT32) / (s.nTotal + s.nIdle + 1);
    var capped := if share < s.batchSize then share else s.batchSize;
    if capped < 1 then 1 else capped
  }

  function NotifyMaster(ts: seq<Thread>): (r: seq<Thread>)
    ensures |r| == |ts|
  {
    if ts != [] && ts[0].Asleep? then ts[0 := Asleep(true)] else ts
  }

  /** What thread i does on taking the mutex, before it looks at the queue. */
  function CleanUp(s: State, i: nat): State
    requires i < |s.threads|
  {
    var ts := s.threads[i := Locked];
    match s.threads[i]
    case Working(batch, _, ok) =>
      var todo := Wrap(s.nTodo - |batch|);
      s.(allOk := s.allOk && ok, nTodo := todo,
         threads := if todo == 0 && i != 0 then NotifyMaster(ts) else ts)
    case Asleep(_) => s.(nIdle := s.nIdle - 1, threads := ts)
    case _ => s.(nTotal := s.nTotal + 1, threads := ts)
  }

  /** The rest of the critical section, and what Wait returns if it returns here. */
  function Proceed(s: State, i: nat): (State, Option<bool>)
    requires i < |s.threads| && s.nTotal + s.nIdle + 1 > 0
  {
    if s.queue == [] then
      if i == 0 && s.nTodo == 0 then
        (s.(nTotal := s.nTotal - 1, allOk := true, added := [], threads := s.threads[i := Outside]), Some(s.allOk))
      else
        (s.(nIdle := s.nIdle + 1, threads := s.threads[i := Asleep(false)]), None)
    else
      var rest := |s.queue| - BatchOf(s);
      var batch := Reverse(s.queue[rest..]);
      (s.(queue := s.queue[..rest], threads := s.threads[i := Working(batch, 0, s.allOk)]), None)
  }

  function Executed(t: Thread): Thread
    requires t.Working? && t.done < |t.batch|
  {
    Working(t.batch, t.done + 1, if t.ok then t.batch[t.done].ok else false)
  }

  function WakeAll(ts: seq<Thread>): (r: seq<Thread>)
    ensures |r| == |ts|
  {
    seq(|ts|, i requires 0 <= i < |ts| => if ts[i].Asleep? then Asleep(true) else ts[i])
  }

  function Woken(ts: seq<Thread>, n: nat, woken: nat): (r: seq<Thread>)
    ensures |r| == |ts|
  {
    if n == 1 then if woken < |ts| then ts[woken := Asleep(true)] else ts
    else if n > 1 then WakeAll(ts)
    else ts
  }

  datatype Event =
    | Enter(i: nat)                            // worker i starts, or the master calls Wait
    | Section(i: nat)                          // a critical section of Loop
    | Exec(i: nat)                             // thread i executes one check of its batch
    | Add(checks: seq<Check>, woken: nat)      // the master adds checks

  /** A thread is at the mutex. A sleeping one may also get there without having been notified. */
  predicate AtMutex(t: Thread) {
    t.Entering? || t.Asleep? || (t.Working? && t.done == |t.batch|)
  }

  /** notify_one wakes some sleeping thread if there is one. */
  predicate WakesOne(ts: seq<Thread>, woken: nat) {
    if woken < |ts| then ts[woken] == Asleep(false)
    else forall i :: 0 <= i < |ts| ==> ts[i] != Asleep(false)
  }

  predicate Enabled(s: State, ev: Event) {
    match ev
    case Enter(i) => i < |s.threads| && s.threads[i].Outside?
    case Section(i) => i < |s.threads| && AtMutex(s.threads[i])
    case Exec(i) => i < |s.threads| && s.threads[i].Working? && s.threads[i].done < |s.threads[i].batch|
    case Add(checks, woken) =>
      && s.threads != [] && s.threads[0].Outside?
      && (|checks| == 1 ==> WakesOne(s.threads, woken))
  }

  /** The state after an event, and what Wait returns in it. */
  ghost function Next(s: State, ev: Event): (State, Option<bool>)
    requires Enabled(s, ev) && Resting(s)
  {
    match ev
    case Enter(i) => (s.(threads := s.threads[i := Entering]), None)
    case Section(i) => CleanUpKeeps(s, i); Proceed(CleanUp(s, i), i)
    case Exec(i) => (s.(threads := s.threads[i := Executed(s.threads[i])]), None)
    case Add(checks, woken) =>
      (s.(queue := s.queue + checks, nTodo := Wrap(s.nTodo + |checks|),
          threads := Woken(s.threads, |checks|, woken), added := s.added + checks), None)
  }

  // ---- Sums over the threads

  function Sum(ts: seq<Thread>, f: Thread -> nat): nat {
    if ts == [] then 0 else f(ts[0]) + Sum(ts[1..], f)
  }

  lemma {:induction false} SumUpdate(ts: seq<Thread>, i: nat, t: Thread, f: Thread -> nat)
    requires i < |ts|
    ensures Sum(ts[i := t], f) == Sum(ts, f) - f(ts[i]) + f(t)
  {
    if i == 0 {
      assert ts[0 := t][1..] == ts[1..];
    } else {
      assert ts[i := t][1..] == ts[1..][i - 1 := t];
      SumUpdate(ts[1..], i - 1, t, f);
    }
  }

  lemma {:induction false} SumSame(ts: seq<Thread>, us: seq<Thread>, f: Thread -> nat)
    requires |ts| == |us| && forall i :: 0 <= i < |ts| ==> f(ts[i]) == f(us[i])
    ensures Sum(ts, f) == Sum(us, f)
  {
    if ts != [] {
      SumSame(ts[1..], us[1..], f);
    }
  }

  lemma {:induction false} SumPositive(ts: seq<Thread>, f: Thread -> nat) returns (i: nat)
    requires Sum(ts, f) > 0
    ensures i < |ts| && f(ts[i]) > 0
  {
    if f(ts[0]) > 0 {
      i := 0;
    } else {
      i := SumPositive(ts[1..], f);
      i := i + 1;
    }
  }

  lemma {:induction false} SumZero(ts: seq<Thread>, f: Thread -> nat)
    requires forall i :: 0 <= i < |ts| ==> f(ts[i]) == 0
    ensures Sum(ts, f) == 0
  {
    if ts != [] {
      SumZero(ts[1..], f);
    }
  }

  function Load(t: Thread): nat {
    if t.Working? then |t.batch| else 0
  }

  function Idling(t: Thread): nat {
    if t.Asleep? then 1 else 0
  }

  function Inside(t: Thread): nat {
    if t.Outside? || t.Entering? then 0 else 1
  }

  // ---- The invariant

  ghost predicate SomeFails(cs: seq<Check>) {
    exists i :: 0 <= i < |cs| && !cs[i].ok
  }

  /** The thread has met, or has still to execute, a failing check. */
  ghost predicate Tainted(t: Thread) {
    t.Working? && t.done <= |t.batch| && (!t.ok || SomeFails(t.batch[t.done..]))
  }

  ghost predicate SomeTainted(ts: seq<Thread>) {
    exists i :: 0 <= i < |ts| && Tainted(ts[i])
  }

  ghost predicate ThreadsOk(ts: seq<Thread>) {
    && |ts| >= 1
    && forall i :: 0 <= i < |ts| && ts[i].Working? ==> |ts[i].batch| >= 1 && ts[i].done <= |ts[i].batch|
  }

  /** No batch exceeds its limit, so fewer than 2^32 checks are in flight. */
  ghost predicate BatchesFit(s: State) {
    && Roomy(|s.threads|, s.batchSize)
    && forall i :: 0 <= i < |s.threads| ==> Load(s.threads[i]) <= Max(1, s.batchSize)
  }

  lemma {:induction false} LoadBound(ts: seq<Thread>, k: nat)
    requires forall i :: 0 <= i < |ts| ==> Load(ts[i]) <= k
    ensures Sum(ts, Load) <= |ts| * k
  {
    if ts != [] {
      LoadBound(ts[1..], k);
    }
  }

  lemma InFlightFits(s: State)
    requires BatchesFit(s)
    ensures Sum(s.threads, Load) < UINT32
  {
    LoadBound(s.threads, Max(1, s.batchSize));
  }

  /** The counters are exact, the one of outstanding checks in 32 bits. */
  ghost predicate Tallied(s: State) {
    && s.nTodo == Wrap(|s.queue| + Sum(s.threads, Load))
    && s.nIdle == Sum(s.threads, Idling)
    && s.nTotal == Sum(s.threads, Inside)
  }

  /** A failing check was added in this round exactly when one is still visible somewhere. */
  ghost predicate Traced(s: State) {
    SomeFails(s.added) <==> !s.allOk || SomeFails(s.queue) || SomeTainted(s.threads)
  }

  /** The master sleeps only on an empty queue, and without a notification only while checks are in flight. */
  ghost predicate MasterOk(s: State)
    requires |s.threads| >= 1
  {
    && (s.threads[0].Asleep? ==> s.queue == [])
    && (s.threads[0] == Asleep(false) ==> Sum(s.threads, Load) > 0)
  }

  ghost predicate Inv(s: State) {
    ThreadsOk(s.threads) && BatchesFit(s) && Tallied(s) && Traced(s) && MasterOk(s)
  }

  /** The states between steps: no thread is inside a critical section. */
  ghost predicate Resting(s: State) {
    Inv(s) && forall i :: 0 <= i < |s.threads| ==> !s.threads[i].Locked?
  }

  lemma TaintedSplit(ts: seq<Thread>, i: nat, t: Thread)
    requires i < |ts| && !Tainted(t)
    ensures SomeTainted(ts) <==> Tainted(ts[i]) || SomeTainted(ts[i := t])
  {
    hide Tainted;
    var us := ts[i := t];
    if SomeTainted(ts) {
      var j :| 0 <= j < |ts| && Tainted(ts[j]);
      assert j == i || us[j] == ts[j];
    }
    if SomeTainted(us) {
      var j :| 0 <= j < |us| && Tainted(us[j]);
      assert ts[j] == us[j];
    }
  }

  /** Giving an untainted thread a new state. */
  lemma TaintedJoin(ts: seq<Thread>, i: nat, t: Thread)
    requires i < |ts| && !Tainted(ts[i])
    ensures SomeTainted(ts[i := t]) <==> Tainted(t) || SomeTainted(ts)
  {
    hide Tainted;
    TaintedSplit(ts[i := t], i, ts[i]);
    assert ts[i := t][i := ts[i]] == ts;
  }

  lemma SumsUpdate(ts: seq<Thread>, i: nat, t: Thread)
    requires i < |ts|
    ensures Sum(ts[i := t], Load) == Sum(ts, Load) - Load(ts[i]) + Load(t)
    ensures Sum(ts[i := t], Idling) == Sum(ts, Idling) - Idling(ts[i]) + Idling(t)
    ensures Sum(ts[i := t], Inside) == Sum(ts, Inside) - Inside(ts[i]) + Inside(t)
  {
    SumUpdate(ts, i, t, Load);
    SumUpdate(ts, i, t, Idling);
    SumUpdate(ts, i, t, Inside);
  }

  /** Waking sleepers changes neither the sums nor the taint. */
  lemma WakeKeeps(ts: seq<Thread>, us: seq<Thread>)
    requires |ts| == |us|
    requires forall i :: 0 <= i < |ts| ==> us[i] == ts[i] || (ts[i].Asleep? && us[i] == Asleep(true))
    ensures Sum(us, Load) == Sum(ts, Load) && Sum(us, Idling) == Sum(ts, Idling) && Sum(us, Inside) == Sum(ts, Inside)
    ensures SomeTainted(us) <==> SomeTainted(ts)
    ensures ThreadsOk(ts) ==> ThreadsOk(us)
  {
    SumSame(ts, us, Load);
    SumSame(ts, us, Idling);
    SumSame(ts, us, Inside);
    if SomeTainted(us) {
      var j :| 0 <= j < |us| && Tainted(us[j]);
      assert Tainted(ts[j]);
    }
    if SomeTainted(ts) {
      var j :| 0 <= j < |ts| && Tainted(ts[j]);
      assert Tainted(us[j]);
    }
  }

  /** The clean-up keeps the invariant and leaves thread i inside the section. */
  lemma CleanUpKeeps(s: State, i: nat)
    requires Inv(s) && i < |s.threads| && AtMutex(s.threads[i])
    ensures var t := CleanUp(s, i); |t.threads| == |s.threads| && Inv(t) && t.threads[i] == Locked
    ensures CleanUp(s, i).nTotal >= 0 && CleanUp(s, i).nIdle >= 0
  {
    hide Tainted, Sum, Roomy, Wrap, SomeFails, SomeTainted;
    var ts := s.threads[i := Locked];
    InFlightFits(s);
    if s.threads[i].Working? {
      WrapAgain(|s.queue| + Sum(s.threads, Load), -|s.threads[i].batch|);
      WrapAgain(|s.queue| + Sum(s.threads, Load) - |s.threads[i].batch|, 0);
    }
    SumsUpdate(s.threads, i, Locked);
    assert !Tainted(Locked) by { UntaintedUnlessWorking(Locked); }
    TaintedSplit(s.threads, i, Locked);
    WakeKeeps(ts, NotifyMaster(ts));
    if s.threads[i].Working? {
      TaintedWhenDone(s.threads[i]);
    } else {
      UntaintedUnlessWorking(s.threads[i]);
    }
  }

  lemma UntaintedUnlessWorking(t: Thread)
    requires !t.Working?
    ensures !Tainted(t)
  {
  }

  lemma TaintedWhenDone(t: Thread)
    requires t.Working? && t.done == |t.batch|
    ensures Tainted(t) <==> !t.ok
  {
  }

  lemma {:induction false} ReverseFails(cs: seq<Check>)
    ensures SomeFails(Reverse(cs)) <==> SomeFails(cs)
  {
    if cs != [] {
      var r := Reverse(cs[1..]);
      ReverseFails(cs[1..]);
      FailsConcat(r, [cs[0]]);
      FailsConcat([cs[0]], cs[1..]);
      assert [cs[0]] + cs[1..] == cs;
    }
  }

  lemma FailsConcat(a: seq<Check>, b: seq<Check>)
    ensures SomeFails(a + b) <==> SomeFails(a) || SomeFails(b)
  {
    if SomeFails(a) {
      var i :| 0 <= i < |a| && !a[i].ok;
      assert !(a + b)[i].ok;
    }
    if SomeFails(b) {
      var i :| 0 <= i < |b| && !b[i].ok;
      assert !(a + b)[|a| + i].ok;
    }
  }

  /** A batch just taken is tainted exactly when an earlier check failed or it holds a failing one. */
  lemma TaintedBatch(queue: seq<Check>, rest: nat, ok: bool)
    requires rest <= |queue|
    ensures
      var t := Working(Reverse(queue[rest..]), 0, ok);
      !ok || SomeFails(queue) <==> !ok || SomeFails(queue[..rest]) || Tainted(t)
  {
    FailsConcat(queue[..rest], queue[rest..]);
    assert queue[..rest] + queue[rest..] == queue;
    ReverseFails(queue[rest..]);
    var batch := Reverse(queue[rest..]);
    assert batch[0..] == batch;
  }

  /** The rest of the section keeps the invariant; Wait returns the verdict of its round and leaves nothing behind. */
  lemma ProceedKeeps(s: State, i: nat)
    requires Inv(s) && i < |s.threads| && s.threads[i].Locked? && s.nTotal + s.nIdle + 1 > 0
    ensures var (t, ret) := Proceed(s, i); Inv(t) && |t.threads| == |s.threads|
    ensures
      var (t, ret) := Proceed(s, i);
      ret.Some? ==> i == 0 && (ret.value <==> !SomeFails(s.added)) && FreshRound(t)
  {
    hide Tainted, Sum, Reverse, Roomy, Wrap, SomeTainted;
    var self := Proceed(s, i).0.threads[i];
    InFlightFits(s);
    WrapAgain(Sum(s.threads, Load), 0);
    SumsUpdate(s.threads, i, self);
    UntaintedUnlessWorking(Locked);
    TaintedJoin(s.threads, i, self);
    if s.queue == [] {
      UntaintedUnlessWorking(self);
      if i == 0 && s.nTodo == 0 {
        NothingInFlight(s);
        NothingInFlight(Proceed(s, i).0);
      }
    } else {
      TaintedBatch(s.queue, |s.queue| - BatchOf(s), s.allOk);
    }
  }

  /** Nothing of an earlier round is left: no check queued or in flight, no failure remembered. */
  ghost predicate FreshRound(s: State) {
    && s.queue == [] && s.added == [] && s.allOk && s.nTodo == 0
    && forall i :: 0 <= i < |s.threads| ==> !s.threads[i].Working?
  }

  lemma NothingInFlight(s: State)
    requires ThreadsOk(s.threads) && Sum(s.threads, Load) == 0
    ensures !SomeTainted(s.threads)
    ensures forall i :: 0 <= i < |s.threads| ==> !s.threads[i].Working?
  {
    forall i | 0 <= i < |s.threads|
      ensures !s.threads[i].Working?
    {
      SumUpdate(s.threads, i, Outside, Load);
    }
  }

  lemma ExecutedTaint(t: Thread)
    requires t.Working? && t.done < |t.batch|
    ensures Tainted(Executed(t)) <==> Tainted(t)
  {
    FailsConcat([t.batch[t.done]], t.batch[t.done + 1..]);
    assert [t.batch[t.done]] + t.batch[t.done + 1..] == t.batch[t.done..];
    assert SomeFails([t.batch[t.done]]) <==> !t.batch[t.done].ok by {
      assert [t.batch[t.done]][0] == t.batch[t.done];
    }
  }

  lemma ExecKeeps(s: State, i: nat)
    requires Inv(s) && Enabled(s, Exec(i))
    ensures Inv(s.(threads := s.threads[i := Executed(s.threads[i])]))
  {
    hide Tainted, Sum;
    var t := Executed(s.threads[i]);
    SumsUpdate(s.threads, i, t);
    ExecutedTaint(s.threads[i]);
    UntaintedUnlessWorking(Outside);
    TaintedSplit(s.threads, i, Outside);
    TaintedJoin(s.threads[i := Outside], i, t);
    assert s.threads[i := Outside][i := t] == s.threads[i := t];
  }

  lemma EnterKeeps(s: State, i: nat)
    requires Inv(s) && Enabled(s, Enter(i))
    ensures Inv(s.(threads := s.threads[i := Entering]))
  {
    hide Tainted, Sum;
    SumsUpdate(s.threads, i, Entering);
    UntaintedUnlessWorking(Outside);
    UntaintedUnlessWorking(Entering);
    TaintedJoin(s.threads, i, Entering);
  }

  lemma AddKeeps(s: State, checks: seq<Check>, woken: nat)
    requires Resting(s) && Enabled(s, Add(checks, woken))
    ensures Inv(Next(s, Add(checks, woken)).0)
  {
    hide Tainted, Sum, ThreadsOk, SomeTainted;
    var us := Woken(s.threads, |checks|, woken);
    WakeKeeps(s.threads, us);
    FailsConcat(s.queue, checks);
    FailsConcat(s.added, checks);
  }

  /** Every step keeps the invariant, and whenever Wait returns, it returns the verdict of its round. */
  lemma NextKeeps(s: State, ev: Event)
    requires Resting(s) && Enabled(s, ev)
    ensures Resting(Next(s, ev).0)
    ensures
      var (t, ret) := Next(s, ev);
      ret.Some? ==> ev == Section(0) && (ret.value <==> !SomeFails(s.added)) && FreshRound(t)
  {
    match ev
    case Enter(i) => EnterKeeps(s, i);
    case Section(i) => SectionKeeps(s, i);
    case Exec(i) => ExecKeeps(s, i);
    case Add(checks, woken) => AddKeeps(s, checks, woken);
  }

  lemma SectionKeeps(s: State, i: nat)
    requires Resting(s) && Enabled(s, Section(i))
    ensures Resting(Next(s, Section(i)).0)
    ensures
      var (t, ret) := Next(s, Section(i));
      ret.Some? ==> i == 0 && (ret.value <==> !SomeFails(s.added)) && FreshRound(t)
  {
    hide Inv;
    CleanUpKeeps(s, i);
    ProceedKeeps(CleanUp(s, i), i);
    var t := CleanUp(s, i);
    var u := Proceed(t, i).0;
    forall j | 0 <= j < |u.threads|
      ensures !u.threads[j].Locked?
    {
      assert j != i ==> t.threads[j] == s.threads[j] || t.threads[j] == Asleep(true);
    }
  }

  // ---- Whole runs

  ghost predicate Legal(s: State, evs: seq<Event>)
    requires Resting(s)
    decreases |evs|
  {
    evs == [] || (Enabled(s, evs[0]) && (NextKeeps(s, evs[0]); Legal(Next(s, evs[0]).0, evs[1..])))
  }

  ghost function Final(s: State, evs: seq<Event>): State
    requires Resting(s) && Legal(s, evs)
    decreases |evs|
  {
    if evs == [] then s else
      NextKeeps(s, evs[0]);
      Final(Next(s, evs[0]).0, evs[1..])
  }

  /** What the master sees: what it added and what Wait returned. */
  datatype Observation = Added(checks: seq<Check>) | Returned(verdict: bool)

  ghost function Trace(s: State, evs: seq<Event>): seq<Observation>
    requires Resting(s) && Legal(s, evs)
    decreases |evs|
  {
    if evs == [] then [] else
      NextKeeps(s, evs[0]);
      var (t, ret) := Next(s, evs[0]);
      (if evs[0].Add? then [Added(evs[0].checks)] else if ret.Some? then [Returned(ret.value)] else [])
      + Trace(t, evs[1..])
  }

  /** Each verdict is true exactly when every check added since the previous verdict is. */
  ghost predicate Honest(trace: seq<Observation>, pending: seq<Check>) {
    trace == [] ||
    match trace[0]
    case Added(checks) => Honest(trace[1..], pending + checks)
    case Returned(verdict) => (verdict <==> !SomeFails(pending)) && Honest(trace[1..], [])
  }

  lemma {:induction false} RunHonest(s: State, evs: seq<Event>)
    requires Resting(s) && Legal(s, evs)
    ensures Honest(Trace(s, evs), s.added)
    decreases |evs|
  {
    hide Resting, Inv, SomeFails;
    if evs != [] {
      NextKeeps(s, evs[0]);
      var (t, ret) := Next(s, evs[0]);
      RunHonest(t, evs[1..]);
      StepAdded(s, evs[0]);
      var rest := Trace(t, evs[1..]);
      var trace := Trace(s, evs);
      if evs[0].Add? {
        assert trace == [Added(evs[0].checks)] + rest;
        assert trace[1..] == rest;
      } else if ret.Some? {
        assert trace == [Returned(ret.value)] + rest;
        assert trace[1..] == rest;
      } else {
        assert trace == rest;
      }
    }
  }

  lemma StepAdded(s: State, ev: Event)
    requires Resting(s) && Enabled(s, ev)
    ensures
      var (t, ret) := Next(s, ev);
      t.added == if ev.Add? then s.added + ev.checks else if ret.Some? then [] else s.added
  {
  }

  /** Every run keeps the counters exact and never leaves the master asleep with nothing to wait for. */
  lemma {:induction false} EveryRunKeeps(s: State, evs: seq<Event>)
    requires Resting(s) && Legal(s, evs)
    ensures Resting(Final(s, evs))
    decreases |evs|
  {
    hide Resting;
    if evs != [] {
      NextKeeps(s, evs[0]);
      EveryRunKeeps(Next(s, evs[0]).0, evs[1..]);
    }
  }

  /** For every interleaving from the start, every verdict of Wait is that of its own round. */
  lemma EveryRunHonest(workers: nat, batchSize: nat, evs: seq<Event>)
    requires Roomy(workers + 1, batchSize) && Legal(Init(workers, batchSize), evs)
    ensures Honest(Trace(Init(workers, batchSize), evs), [])
    ensures Resting(Final(Init(workers, batchSize), evs))
  {
    EveryRunKeeps(Init(workers, batchSize), evs);
    RunHonest(Init(workers, batchSize), evs);
  }

  // ---- Progress of Wait

  /** What a thread can still do without being woken again. */
  function Weight(t: Thread): nat {
    match t
    case Outside => 3
    case Entering => 2
    case Locked => 0
    case Asleep(notified) => if notified then 1 else 0
    case Working(batch, done, _) => if done <= |batch| then 3 * |batch| - done else 0
  }

  function Potential(s: State): nat {
    4 * |s.queue| + Sum(s.threads, Weight)
  }

  lemma CleanUpPotential(s: State, i: nat)
    requires Resting(s) && Enabled(s, Section(i))
    ensures Potential(CleanUp(s, i)) <= Potential(s)
    ensures s.threads[i] != Asleep(false) ==> Potential(CleanUp(s, i)) < Potential(s)
  {
    hide Sum;
    var ts := s.threads[i := Locked];
    SumUpdate(s.threads, i, Locked, Weight);
    if s.threads[i].Working? && ts[0].Asleep? {
      SumUpdate(ts, 0, Asleep(true), Weight);
    }
  }

  lemma ProceedPotential(s: State, i: nat)
    requires Inv(s) && i < |s.threads| && s.threads[i].Locked? && s.nTotal + s.nIdle + 1 > 0
    ensures Proceed(s, i).1.Some? || Potential(Proceed(s, i).0) <= Potential(s)
    ensures s.queue != [] ==> Potential(Proceed(s, i).0) < Potential(s)
  {
    hide Sum, Inv, Reverse;
    SumUpdate(s.threads, i, Proceed(s, i).0.threads[i], Weight);
  }

  /** While the master waits, every step returns its verdict, brings it nearer, or is a vain wake-up that changes nothing. */
  lemma StepDescends(s: State, ev: Event)
    requires Resting(s) && Enabled(s, ev) && !s.threads[0].Outside?
    ensures
      var (t, ret) := Next(s, ev);
      ret.Some? || Potential(t) < Potential(s) || (t == s && ev.Section? && s.threads[ev.i] == Asleep(false))
  {
    hide Sum, Inv;
    match ev
    case Enter(i) => SumUpdate(s.threads, i, Entering, Weight);
    case Exec(i) => SumUpdate(s.threads, i, Executed(s.threads[i]), Weight);
    case Section(i) =>
      CleanUpPotential(s, i);
      CleanUpKeeps(s, i);
      ProceedPotential(CleanUp(s, i), i);
      if s.threads[i] == Asleep(false) && s.queue == [] {
        SleepAgain(s, i);
      }
  }

  lemma SleepAgain(s: State, i: nat)
    requires Resting(s) && Enabled(s, Section(i)) && s.threads[i] == Asleep(false) && s.queue == []
    ensures Next(s, Section(i)) == (s, None)
  {
    InFlightFits(s);
    WrapAgain(Sum(s.threads, Load), 0);
    assert s.threads[i := Locked][i := Asleep(false)] == s.threads;
  }

  /** While the master waits, some thread can take a step without a spurious wake-up. */
  lemma NeverStuck(s: State) returns (ev: Event)
    requires Resting(s) && !s.threads[0].Outside?
    ensures Enabled(s, ev)
    ensures Next(s, ev).1.Some? || Potential(Next(s, ev).0) < Potential(s)
  {
    var i: nat := 0;
    if s.threads[0] == Asleep(false) {
      i := SumPositive(s.threads, Load);
    }
    ev := if s.threads[i].Working? && s.threads[i].done < |s.threads[i].batch| then Exec(i) else Section(i);
    StepDescends(s, ev);
  }

  /** A run with no vain wake-up in which Wait does not return. */
  ghost predicate StillWaiting(s: State, evs: seq<Event>)
    requires Resting(s) && Legal(s, evs)
    decreases |evs|
  {
    if evs == [] then true else
      NextKeeps(s, evs[0]);
      var (t, ret) := Next(s, evs[0]);
      ret.None? && t != s && StillWaiting(t, evs[1..])
  }

  lemma MasterStaysIn(s: State, ev: Event)
    requires Resting(s) && Enabled(s, ev) && !s.threads[0].Outside? && Next(s, ev).1.None?
    ensures |Next(s, ev).0.threads| >= 1 && !Next(s, ev).0.threads[0].Outside?
  {
  }

  /** Once called, Wait returns within a number of steps bounded by the work left. */
  lemma {:induction false} WaitBounded(s: State, evs: seq<Event>)
    requires Resting(s) && Legal(s, evs) && !s.threads[0].Outside? && StillWaiting(s, evs)
    ensures |evs| <= Potential(s)
    decreases |evs|
  {
    hide Inv, Sum;
    if evs != [] {
      NextKeeps(s, evs[0]);
      StepDescends(s, evs[0]);
      MasterStaysIn(s, evs[0]);
      WaitBounded(Next(s, evs[0]).0, evs[1..]);
    }
  }
}
