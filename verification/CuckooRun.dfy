/**
 Runs of the cuckoo cache (src/cuckoocache.h): which inserted elements a lookup
 must still find. An element that was stored is found until it is erased, moved
 out by later inserts, or has seen two new epochs begin; and two epochs never
 begin within fewer inserts than an epoch is meant to hold.
 */
module CuckooRun {
  import opened Numbers
  import opened Options
  import opened Cuckoo

  datatype Op = Insert(e: Element, replace: bool) | Find(key: nat, erase: bool)

  /** An operation with what it did: `now` is the element that then stands for a key that was present. */
  datatype Event =
    | Inserted(e: Element, rolled: bool, out: Outcome, now: Element, gone: Dated)
    | Looked(key: nat, erase: bool, r: Option<Element>)

  ghost predicate Records(op: Op, ev: Event) {
    match op
    case Insert(e, replace) =>
      ev.Inserted? && ev.e == e && (ev.out.Present? ==> ev.now.key == e.key && (replace ==> ev.now == e))
    case Find(key, erase) => ev.Looked? && ev.key == key && ev.erase == erase
  }

  /** The elements that are to be kept after the events, with their epochs. */
  ghost predicate Lives(log: seq<Event>, x: Dated) {
    if log == [] then false
    else
      var was := log[..|log| - 1];
      match log[|log| - 1]
      case Inserted(e, rolled, out, now, gone) =>
        var aged := if rolled then !x.recent && Lives(was, Dated(x.element, true)) else Lives(was, x);
        (match out
         case Present(_) => (aged && x.element.key != e.key) || x == Dated(now, true)
         case Stored(_) => aged || x == Dated(e, true)
         case Dropped(_) => (aged || x == Dated(e, true)) && x != gone)
      case Looked(key, erase, r) => Lives(was, x) && !(erase && x.element.key == key)
  }

  /** What is kept is what the events say, for every key but the blank one. */
  ghost predicate Matching(log: seq<Event>, blank: Element, kept: set<Dated>) {
    forall x: Dated :: x.element.key != blank.key ==> (Lives(log, x) <==> x in kept)
  }

  lemma AgedKept(t: seq<Element>, f: seq<bool>, ep: seq<bool>, aged: seq<bool>, dates: seq<bool>, x: Dated)
    requires |t| == |f| == |ep| && aged == Aged(ep, f) && dates == seq(|t|, i => false)
    ensures x in Kept(t, aged, dates) <==> !x.recent && Dated(x.element, true) in Kept(t, f, ep)
  {
    var y := Dated(x.element, true);
    if x in Kept(t, aged, dates) {
      var i :| 0 <= i < |t| && !aged[i] && x == Dated(t[i], dates[i]);
      assert !f[i] && y == Dated(t[i], ep[i]);
    }
    if !x.recent && y in Kept(t, f, ep) {
      var i :| 0 <= i < |t| && !f[i] && y == Dated(t[i], ep[i]);
      assert !aged[i] && x == Dated(t[i], dates[i]);
    }
  }

  /** Slot `at` is written and kept: it was the only one with its key. */
  lemma RevivedKept(blank: Element, t: seq<Element>, f: seq<bool>, ep: seq<bool>, at: nat, now: Element, x: Dated)
    requires |t| == |f| == |ep| && at < |t| && Distinct(blank, t) && t[at].key == now.key && x.element.key != blank.key
    ensures x in Kept(t[at := now], f[at := false], ep[at := true]) <==>
              (x in Kept(t, f, ep) && x.element.key != now.key) || x == Dated(now, true)
  {
    var t', f', ep' := t[at := now], f[at := false], ep[at := true];
    assert Dated(t'[at], ep'[at]) == Dated(now, true);
    if x in Kept(t', f', ep') && x != Dated(now, true) {
      var i :| 0 <= i < |t| && !f'[i] && x == Dated(t'[i], ep'[i]);
      assert i != at && x == Dated(t[i], ep[i]);
    }
    if x in Kept(t, f, ep) && x.element.key != now.key {
      var i :| 0 <= i < |t| && !f[i] && x == Dated(t[i], ep[i]);
      assert i != at && x == Dated(t'[i], ep'[i]);
    }
  }

  /** Slot `at` becomes collectable: nothing else has its key. */
  lemma ErasedKept(blank: Element, t: seq<Element>, f: seq<bool>, ep: seq<bool>, at: nat, x: Dated)
    requires |t| == |f| == |ep| && at < |t| && Distinct(blank, t) && x.element.key != blank.key
    ensures x in Kept(t, f[at := true], ep) <==> x in Kept(t, f, ep) && x.element.key != t[at].key
  {
    var f' := f[at := true];
    if x in Kept(t, f', ep) {
      var i :| 0 <= i < |t| && !f'[i] && x == Dated(t[i], ep[i]);
      assert i != at;
    }
    if x in Kept(t, f, ep) && x.element.key != t[at].key {
      var i :| 0 <= i < |t| && !f[i] && x == Dated(t[i], ep[i]);
      assert !f'[i];
    }
  }

  /** A dropped element is in no slot. */
  lemma DroppedGone(blank: Element, t: seq<Element>, f: seq<bool>, ep: seq<bool>, gone: Dated)
    requires |t| == |f| == |ep| && Absent(blank, t, gone.element.key) && gone.element.key != blank.key
    ensures gone !in Kept(t, f, ep)
  {
  }

  /** What an insert does to what is kept is what its event says. */
  lemma InsertMatches(log: seq<Event>, blank: Element, t0: seq<Element>, f0: seq<bool>, ep0: seq<bool>,
                      aged: seq<bool>, dates: seq<bool>, t: seq<Element>, f: seq<bool>, ep: seq<bool>, ev: Event)
    requires |t0| == |f0| == |ep0| == |aged| == |dates| == |t| == |f| == |ep| && ev.Inserted?
    requires Matching(log, blank, Kept(t0, f0, ep0)) && Distinct(blank, t0)
    requires if ev.rolled then aged == Aged(ep0, f0) && dates == seq(|t0|, i => false) else aged == f0 && dates == ep0
    requires ev.out.Present? ==>
      && ev.out.at < |t0| && t0[ev.out.at].key == ev.e.key == ev.now.key
      && t == t0[ev.out.at := ev.now] && f == aged[ev.out.at := false] && ep == dates[ev.out.at := true]
    requires !ev.out.Present? ==> Admits(t0, aged, dates, ev.e, t, f, ep, ev.out, ev.gone)
    requires ev.out.Dropped? ==> Absent(blank, t, ev.out.element.key)
    ensures Matching(log + [ev], blank, Kept(t, f, ep))
  {
    hide Kept, Distinct, Absent, Lives, Recent;
    forall x: Dated | x.element.key != blank.key
      ensures Lives(log + [ev], x) <==> x in Kept(t, f, ep)
    {
      LivesNext(log, ev, x);
      if ev.rolled {
        AgedKept(t0, f0, ep0, aged, dates, x);
      }
      if ev.out.Present? {
        RevivedKept(blank, t0, aged, dates, ev.out.at, ev.now, x);
      } else if ev.out.Dropped? && x == ev.gone {
        DroppedGone(blank, t, f, ep, ev.gone);
      }
    }
  }

  lemma LivesNext(log: seq<Event>, ev: Event, x: Dated)
    ensures Lives(log + [ev], x) <==>
      match ev
      case Inserted(e, rolled, out, now, gone) =>
        var aged := if rolled then !x.recent && Lives(log, Dated(x.element, true)) else Lives(log, x);
        (match out
         case Present(_) => (aged && x.element.key != e.key) || x == Dated(now, true)
         case Stored(_) => aged || x == Dated(e, true)
         case Dropped(_) => (aged || x == Dated(e, true)) && x != gone)
      case Looked(key, erase, r) => Lives(log, x) && !(erase && x.element.key == key)
  {
    assert (log + [ev])[..|log|] == log;
  }

  // ---- Epochs

  ghost function Inserts(log: seq<Event>): nat {
    if log == [] then 0 else Inserts(log[..|log| - 1]) + Unit(log[|log| - 1].Inserted?)
  }

  ghost predicate Rolled(ev: Event) {
    ev.Inserted? && ev.rolled
  }

  /** Between two new epochs there are at least n inserts. */
  ghost predicate Spaced(log: seq<Event>, n: nat) {
    forall p, q :: 0 <= p < q < |log| && Rolled(log[p]) && Rolled(log[q]) ==> Inserts(log[p + 1..q]) >= n
  }

  /** The counter covers the inserts that are missing since each new epoch. */
  ghost predicate Due(log: seq<Event>, counter: nat, n: nat) {
    forall p :: 0 <= p < |log| && Rolled(log[p]) ==> counter + Inserts(log[p + 1..]) >= n
  }

  /** How many elements of the current epoch may be kept. */
  function Limit(epochSize: nat): nat {
    epochSize + Max(1, epochSize / 16)
  }

  lemma InsertsNext(log: seq<Event>, ev: Event, p: nat)
    requires p <= |log|
    ensures Inserts((log + [ev])[p..]) == Inserts(log[p..]) + Unit(ev.Inserted?)
  {
    var all := (log + [ev])[p..];
    assert all[..|all| - 1] == log[p..] && all[|all| - 1] == ev;
  }

  /** One more event, with the counter before and after it. */
  lemma SpacedNext(log: seq<Event>, ev: Event, n: nat, counter: nat, counter': nat)
    requires Spaced(log, n) && Due(log, counter, n)
    requires Rolled(ev) ==> counter == 0 && counter' == n
    requires ev.Inserted? && !ev.rolled && counter != 0 ==> counter' == counter - 1
    requires ev.Looked? ==> counter' == counter
    ensures Spaced(log + [ev], n) && Due(log + [ev], counter', n)
  {
    hide Inserts;
    var all := log + [ev];
    forall p, q | 0 <= p < q < |all| && Rolled(all[p]) && Rolled(all[q])
      ensures Inserts(all[p + 1..q]) >= n
    {
      assert all[p + 1..q] == log[p + 1..q];
      if q == |log| {
        assert log[p + 1..q] == log[p + 1..];
      }
    }
    forall p | 0 <= p < |all| && Rolled(all[p])
      ensures counter' + Inserts(all[p + 1..]) >= n
    {
      if p < |log| {
        assert log[p] == all[p];
        InsertsNext(log, ev, p + 1);
      }
    }
  }

  lemma PresentRecent(dates: seq<bool>, aged: seq<bool>, at: nat)
    requires |dates| == |aged| && at < |dates|
    ensures Recent(dates[at := true], aged[at := false]) <= Recent(dates, aged) + 1
  {
    RecentChange(dates, aged, at, true, false);
  }

  lemma ErasedRecent(ep: seq<bool>, f: seq<bool>, at: nat)
    requires |ep| == |f| && at < |f|
    ensures Recent(ep, f[at := true]) <= Recent(ep, f)
  {
    RecentChange(ep, f, at, ep[at], true);
    assert ep[at := ep[at]] == ep;
  }

  // ---- Runs

  /** A lookup of a key that is kept returns its element. */
  ghost predicate Answered(log: seq<Event>, blank: Element, ev: Event) {
    ev.Looked? && ev.key != blank.key ==>
      forall x: Dated :: Lives(log, x) && x.element.key == ev.key ==> ev.r == Some(x.element)
  }

  /** What holds of a cache and the events since it was set up. */
  ghost predicate Running(c: Cache, log: seq<Event>)
    reads c, c.collection.mem
  {
    && c.Valid() && Matching(log, c.blank, Kept(c.table, c.F(), c.epoch))
    && Spaced(log, c.epochSize) && Due(log, c.counter, c.epochSize)
    && Recent(c.epoch, c.F()) + c.counter <= Limit(c.epochSize)
  }

  method InsertStep(c: Cache, e: Element, replace: bool, ghost log: seq<Event>) returns (ghost ev: Event)
    requires Running(c, log)
    modifies c, c.collection.mem
    ensures Running(c, log + [ev]) && Records(Insert(e, replace), ev)
  {
    hide Distinct, Placed, Absent, Locs, Accounts, Admits, Kept, Recent, Matching, Spaced, Due, Moves;
    ghost var t0, f0, ep0, counter0 := c.table, c.F(), c.epoch, c.counter;
    ghost var out, path, gone, way, rolled, aged, dates := c.Insert(e, replace);
    ghost var now := if out.Present? then c.table[out.at] else e;
    ev := Inserted(e, rolled, out, now, gone);
    if out.Present? {
      assert c.table == t0[out.at := now];
      PresentRecent(dates, aged, out.at);
    } else {
      AdmitsRecent(t0, aged, dates, e, c.table, c.F(), c.epoch, out, gone);
    }
    if rolled {
      NoneRecent(dates, aged);
    }
    InsertMatches(log, c.blank, t0, f0, ep0, aged, dates, c.table, c.F(), c.epoch, ev);
    SpacedNext(log, ev, c.epochSize, counter0, c.counter);
  }

  lemma AdmitsRecent(t0: seq<Element>, f0: seq<bool>, ep0: seq<bool>, e: Element,
                     t: seq<Element>, f: seq<bool>, ep: seq<bool>, out: Outcome, gone: Dated)
    requires Admits(t0, f0, ep0, e, t, f, ep, out, gone)
    ensures |f0| == |ep0| && |f| == |ep| && Recent(ep, f) <= Recent(ep0, f0) + 1
    ensures out.Dropped? ==> gone.element == out.element
  {
    hide Recent, Kept;
  }

  method FindStep(c: Cache, key: nat, erase: bool, ghost log: seq<Event>) returns (r: Option<Element>, ghost ev: Event)
    requires Running(c, log)
    modifies c.collection.mem
    ensures ev == Looked(key, erase, r) && Running(c, log + [ev]) && Answered(log, c.blank, ev)
  {
    hide Placed, Locs, Spaced, Due, Recent;
    ghost var f0 := c.F();
    r := c.Find(key, erase);
    ev := Looked(key, erase, r);
    SpacedNext(log, ev, c.epochSize, c.counter, c.counter);
    ghost var j := FirstAt(Locs(c.hash, c.size, key), Holds(c.table, key));
    forall x: Dated | x.element.key != c.blank.key
      ensures Lives(log + [ev], x) <==> x in Kept(c.table, c.F(), c.epoch)
      ensures Lives(log, x) && x.element.key == key ==> r == Some(x.element)
    {
      LivesNext(log, ev, x);
      if Lives(log, x) {
        var i :| 0 <= i < c.size && !f0[i] && x == Dated(c.table[i], c.epoch[i]);
      }
      if j < 8 && erase {
        ErasedKept(c.blank, c.table, f0, c.epoch, Locs(c.hash, c.size, key)[j], x);
      }
    }
    if j < 8 && erase {
      ErasedRecent(c.epoch, f0, Locs(c.hash, c.size, key)[j]);
    }
  }

  /** Any run from a cache that was just set up. */
  method Run(c: Cache, ops: seq<Op>) returns (ghost log: seq<Event>)
    requires c.Valid() && c.counter == c.epochSize >= 1
    requires Kept(c.table, c.F(), c.epoch) == {} && Recent(c.epoch, c.F()) == 0
    modifies c, c.collection.mem
    ensures |log| == |ops| && forall i :: 0 <= i < |ops| ==> Records(ops[i], log[i])
    ensures forall i :: 0 <= i < |log| ==> Answered(log[..i], c.blank, log[i])
    ensures c.Valid() && Matching(log, c.blank, Kept(c.table, c.F(), c.epoch)) && Spaced(log, c.epochSize)
    ensures Recent(c.epoch, c.F()) <= Limit(c.epochSize)
  {
    hide Placed, Distinct, Kept, Recent, Lives, Spaced, Due, Answered, Records, Running, Matching;
    log := [];
    assert Running(c, log) by { RunningStart(c); }
    for k := 0 to |ops|
      invariant Running(c, log) && |log| == k
      invariant forall i :: 0 <= i < k ==> Records(ops[i], log[i])
      invariant forall i :: 0 <= i < k ==> Answered(log[..i], c.blank, log[i])
    {
      ghost var ev;
      match ops[k] {
        case Insert(e, replace) =>
          ev := InsertStep(c, e, replace, log);
          NotLooked(log, c.blank, ops[k], ev);
        case Find(key, erase) =>
          var r;
          r, ev := FindStep(c, key, erase, log);
          LookedRecords(key, erase, r);
      }
      assert forall i :: 0 <= i < k ==> (log + [ev])[..i] == log[..i];
      assert (log + [ev])[..k] == log;
      log := log + [ev];
    }
    RunningEnd(c, log);
  }

  lemma RunningStart(c: Cache)
    requires c.Valid() && c.counter == c.epochSize >= 1
    requires Kept(c.table, c.F(), c.epoch) == {} && Recent(c.epoch, c.F()) == 0
    ensures Running(c, [])
  {
    hide Placed, Distinct, Kept, Recent;
  }

  lemma RunningEnd(c: Cache, log: seq<Event>)
    requires Running(c, log)
    ensures c.Valid() && Matching(log, c.blank, Kept(c.table, c.F(), c.epoch)) && Spaced(log, c.epochSize)
    ensures Recent(c.epoch, c.F()) <= Limit(c.epochSize)
  {
    hide Placed, Distinct, Kept, Recent, Matching, Spaced;
  }

  lemma NotLooked(log: seq<Event>, blank: Element, op: Op, ev: Event)
    requires op.Insert? && Records(op, ev)
    ensures Answered(log, blank, ev)
  {
  }

  lemma LookedRecords(key: nat, erase: bool, r: Option<Element>)
    ensures Records(Find(key, erase), Looked(key, erase, r))
  {
  }

  // ---- What must still be found

  /** The event leaves element e alone, apart from the epochs. */
  ghost predicate Spares(ev: Event, e: Element) {
    match ev
    case Inserted(other, _, out, _, gone) => other.key != e.key && (out.Dropped? ==> gone.element != e)
    case Looked(key, erase, _) => !(erase && key == e.key)
  }

  ghost function Rolls(log: seq<Event>): nat {
    if log == [] then 0 else Rolls(log[..|log| - 1]) + Unit(Rolled(log[|log| - 1]))
  }

  /** An element that was recent is to be kept until a second new epoch begins, as long as it is left alone. */
  lemma {:induction false} StaysKept(log: seq<Event>, p: nat, e: Element)
    requires p <= |log| && Lives(log[..p], Dated(e, true))
    requires (forall q :: p <= q < |log| ==> Spares(log[q], e)) && Rolls(log[p..]) <= 1
    ensures Lives(log, Dated(e, Rolls(log[p..]) == 0))
    decreases |log|
  {
    if p == |log| {
      assert log[..p] == log && log[p..] == [];
    } else {
      var n := |log| - 1;
      var was, ev := log[..n], log[n];
      assert was[..p] == log[..p] && log[p..][..n - p] == was[p..] && log[p..][n - p] == ev && log == was + [ev];
      StaysKept(was, p, e);
      LivesNext(was, ev, Dated(e, true));
      LivesNext(was, ev, Dated(e, false));
    }
  }

  lemma {:induction false} FewRolls(log: seq<Event>, p: nat, n: nat)
    requires p <= |log| && Spaced(log, n) && Inserts(log[p..]) <= n + 1
    ensures Rolls(log[p..]) <= 1
    decreases |log|
  {
    if p < |log| {
      var k := |log| - 1;
      var was, ev := log[..k], log[k];
      assert log[p..][..k - p] == was[p..] && log[p..][k - p] == ev;
      assert Spaced(was, n) by { SpacedPrefix(log, k, n); }
      FewRolls(was, p, n);
      if Rolled(ev) && Rolls(was[p..]) > 0 {
        var q := LastRoll(was, p);
        assert log[q] == was[q] && log[q + 1..k] == was[q + 1..];
        InsertsSplit(was, p, q);
      }
    }
  }

  lemma SpacedPrefix(log: seq<Event>, k: nat, n: nat)
    requires Spaced(log, n) && k <= |log|
    ensures Spaced(log[..k], n)
  {
    hide Inserts;
    var was := log[..k];
    forall p, q | 0 <= p < q < |was| && Rolled(was[p]) && Rolled(was[q])
      ensures Inserts(was[p + 1..q]) >= n
    {
      assert was[p] == log[p] && was[q] == log[q] && was[p + 1..q] == log[p + 1..q];
    }
  }

  lemma {:induction false} LastRoll(log: seq<Event>, p: nat) returns (q: nat)
    requires p <= |log| && Rolls(log[p..]) > 0
    ensures p <= q < |log| && Rolled(log[q])
    decreases |log|
  {
    var k := |log| - 1;
    if Rolled(log[k]) {
      q := k;
    } else {
      assert log[p..][..k - p] == log[..k][p..];
      q := LastRoll(log[..k], p);
    }
  }

  lemma {:induction false} InsertsSplit(log: seq<Event>, p: nat, q: nat)
    requires p <= q < |log| && Rolled(log[q])
    ensures Inserts(log[p..]) >= Inserts(log[q + 1..]) + 1
    decreases |log|
  {
    var k := |log| - 1;
    assert log[p..][..k - p] == log[..k][p..];
    if q < k {
      InsertsSplit(log[..k], p, q);
      assert log[q + 1..][..k - q - 1] == log[..k][q + 1..];
    } else {
      assert log[q + 1..] == [];
    }
  }

  /** The insert left its own element in the table: stored, or in place of the one with its key, or not dropped itself. */
  ghost predicate Enters(ev: Event)
    requires ev.Inserted?
  {
    match ev.out
    case Present(_) => ev.now == ev.e
    case Stored(_) => true
    case Dropped(_) => ev.gone.element != ev.e
  }

  /**
   An element left in the table by its insert that is then neither erased nor inserted again nor
   moved out is found by every lookup within as many inserts, and one more, as an epoch is meant to hold.
   */
  lemma StillFound(log: seq<Event>, blank: Element, epochSize: nat, p: nat, q: nat)
    requires p < q < |log| && log[p].Inserted? && Enters(log[p]) && log[p].e.key != blank.key
    requires forall k :: p < k < q ==> Spares(log[k], log[p].e)
    requires Spaced(log[..q], epochSize) && Inserts(log[p + 1..q]) <= epochSize + 1
    requires log[q].Looked? && log[q].key == log[p].e.key && Answered(log[..q], blank, log[q])
    ensures log[q].r == Some(log[p].e)
  {
    hide Inserts, Spaced, Rolls, Lives;
    var was, e := log[..q], log[p].e;
    assert was[p + 1..] == log[p + 1..q];
    FewRolls(was, p + 1, epochSize);
    assert was[..p + 1] == log[..p] + [log[p]];
    LivesNext(log[..p], log[p], Dated(e, true));
    forall k | p + 1 <= k < |was|
      ensures Spares(was[k], e)
    {
      assert was[k] == log[k];
    }
    StaysKept(was, p + 1, e);
  }
}
