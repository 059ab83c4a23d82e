/**
 The address book that a state of the indexes stands for, and what each
 elementary change of the indexes does to that book.
 */
module AddrView {
  import opened AddrTypes
  import opened AddrState
  import opened AddrBook

  ghost function RecOf(env: Env, s: State, n: int): Rec
    requires n in s.info
  {
    Rec(n, s.info[n].entry, s.info[n].inTried, Buckets(env, s, n))
  }

  ghost function View(env: Env, s: State): (v: map<NetAddr, Rec>) {
    map a | a in s.addrs && s.addrs[a] in s.info :: RecOf(env, s, s.addrs[a])
  }

  lemma ViewAt(env: Env, s: State, n: int)
    requires Shaped(s) && Indexed(s) && n in s.info
    ensures s.info[n].entry.svc.addr in View(env, s)
    ensures View(env, s)[s.info[n].entry.svc.addr] == RecOf(env, s, n)
  {
  }

  /** Only entry n changed. */
  lemma ViewChanged(env: Env, s: State, t: State, n: int)
    requires Shaped(s) && Shaped(t) && Indexed(s) && Indexed(t)
    requires s.addrs == t.addrs && n in s.info && n in t.info && s.info[n].entry.svc == t.info[n].entry.svc
    requires forall m :: m in s.info && m != n ==> m in t.info && RecOf(env, t, m) == RecOf(env, s, m)
    ensures View(env, t) == View(env, s)[s.info[n].entry.svc.addr := RecOf(env, t, n)]
  {
    var a := s.info[n].entry.svc.addr;
    forall x | x in s.addrs
      ensures View(env, t)[x] == View(env, s)[a := RecOf(env, t, n)][x]
    {
      var m := s.addrs[x];
      assert m in s.info;
    }
  }

  lemma ViewSame(env: Env, s: State, t: State)
    requires Shaped(s) && Shaped(t) && Indexed(s) && Indexed(t)
    requires s.addrs == t.addrs
    requires forall m :: m in s.info ==> m in t.info && RecOf(env, t, m) == RecOf(env, s, m)
    ensures View(env, t) == View(env, s)
  {
    forall x | x in s.addrs
      ensures View(env, t)[x] == View(env, s)[x]
    {
      var m := s.addrs[x];
      assert m in s.info;
    }
  }

  lemma VacatedView(env: Env, s: State, n: int, b: nat, zero: set<int>, limbo: set<int>)
    requires Linked(env, s, zero, limbo)
    requires n in s.info && b in Buckets(env, s, n)
    ensures Linked(env, Vacated(env, s, n, b), zero + {n}, limbo)
    ensures View(env, Vacated(env, s, n, b)) ==
            View(env, s)[s.info[n].entry.svc.addr := RecOf(env, s, n).(buckets := Buckets(env, s, n) - {b})]
  {
    var t := Vacated(env, s, n, b);
    VacatedLinked(env, s, n, b, zero, limbo);
    VacatedBuckets(env, s, n, b);
    ViewChanged(env, s, t, n);
  }

  lemma OccupiedView(env: Env, s: State, n: int, b: nat, zero: set<int>, limbo: set<int>)
    requires Linked(env, s, zero, limbo)
    requires n in s.info && !s.info[n].inTried && n !in limbo
    requires b < NEW_BUCKETS && NewAt(env, s, s.info[n].entry.svc, b) == -1
    requires s.info[n].refCount < NEW_BUCKETS_PER_ADDRESS
    ensures Linked(env, Occupied(env, s, n, b), zero - {n}, limbo)
    ensures View(env, Occupied(env, s, n, b)) ==
            View(env, s)[s.info[n].entry.svc.addr := RecOf(env, s, n).(buckets := Buckets(env, s, n) + {b})]
  {
    var t := Occupied(env, s, n, b);
    OccupiedLinked(env, s, n, b, zero, limbo);
    OccupiedBuckets(env, s, n, b);
    ViewChanged(env, s, t, n);
  }

  lemma UntriedView(env: Env, s: State, n: int, zero: set<int>, limbo: set<int>)
    requires Linked(env, s, zero, limbo)
    requires n in s.info && s.info[n].inTried
    ensures Linked(env, Untried(env, s, n), zero, limbo + {n})
    ensures View(env, Untried(env, s, n)) ==
            View(env, s)[s.info[n].entry.svc.addr := RecOf(env, s, n).(tried := false, buckets := {})]
  {
    var t := Untried(env, s, n);
    UntriedLinked(env, s, n, zero, limbo);
    UntriedReferenced(env, s, n, zero, limbo);
    assert Buckets(env, s, n) == {};
    ViewChanged(env, s, t, n);
  }

  lemma PromotedView(env: Env, s: State, n: int, zero: set<int>, limbo: set<int>)
    requires Linked(env, s, zero, limbo)
    requires n in limbo && TriedAt(env, s, s.info[n].entry.svc) == -1
    ensures Linked(env, Promoted(env, s, n), zero, limbo - {n})
    ensures View(env, Promoted(env, s, n)) ==
            View(env, s)[s.info[n].entry.svc.addr := RecOf(env, s, n).(tried := true, buckets := {})]
  {
    var t := Promoted(env, s, n);
    PromotedLinked(env, s, n, zero, limbo);
    PromotedReferenced(env, s, n, zero, limbo);
    assert Buckets(env, s, n) == {};
    ViewChanged(env, s, t, n);
  }

  lemma SameTablesBuckets(env: Env, s: State, t: State)
    requires Shaped(s) && SameTables(s, t)
    ensures forall m :: m in s.info ==> Buckets(env, t, m) == Buckets(env, s, m)
  {
    forall m | m in s.info
      ensures Buckets(env, t, m) == Buckets(env, s, m)
    {
      BucketsKept(env, s, t, m);
    }
  }

  lemma TouchedView(env: Env, s: State, n: int, e: Entry, zero: set<int>, limbo: set<int>)
    requires Linked(env, s, zero, limbo)
    requires n in s.info && e.svc == s.info[n].entry.svc
    ensures Linked(env, Touched(s, n, e), zero, limbo)
    ensures View(env, Touched(s, n, e)) == View(env, s)[e.svc.addr := RecOf(env, s, n).(entry := e)]
  {
    var t := Touched(s, n, e);
    TouchedLinked(env, s, n, e, zero, limbo);
    SameTablesBuckets(env, s, t);
    ViewChanged(env, s, t, n);
  }

  lemma SwappedView(env: Env, s: State, i: nat, j: nat, zero: set<int>, limbo: set<int>)
    requires Linked(env, s, zero, limbo) && i < |s.random| && j < |s.random|
    ensures Linked(env, Swapped(s, i, j), zero, limbo)
    ensures View(env, Swapped(s, i, j)) == View(env, s)
  {
    hide Counted, NewSlots, TriedSlots, Referenced;
    SwappedLinked(env, s, i, j, zero, limbo);
    SwappedOrdered(s, i, j);
    SwappedSame(s, i, j);
    hide Swapped, Ordered;
    SameTablesBuckets(env, s, Swapped(s, i, j));
    ViewSame(env, s, Swapped(s, i, j));
  }

  lemma CreatedView(env: Env, s: State, e: Entry, zero: set<int>)
    requires Linked(env, s, zero, {}) && e.svc.addr !in s.addrs
    ensures Linked(env, Created(s, e), zero, {s.idCount})
    ensures View(env, Created(s, e)) == View(env, s)[e.svc.addr := Rec(s.idCount, e, false, {})]
  {
    var t := Created(s, e);
    CreatedLinked(env, s, e, zero);
    forall x | x in t.addrs
      ensures View(env, t)[x] == View(env, s)[e.svc.addr := Rec(s.idCount, e, false, {})][x]
    {
      if x in s.addrs {
        var m := s.addrs[x];
        assert m in s.info;
        BucketsKept(env, s, t, m);
      }
    }
  }

  lemma ViewWithout(env: Env, s: State, t: State, n: int)
    requires Shaped(s) && Shaped(t) && Indexed(s) && Indexed(t) && n in s.info
    requires t.addrs == s.addrs - {s.info[n].entry.svc.addr}
    requires forall m :: m in s.info && m != n ==> m in t.info && RecOf(env, t, m) == RecOf(env, s, m)
    ensures View(env, t) == View(env, s) - {s.info[n].entry.svc.addr}
  {
    forall x | x in t.addrs
      ensures View(env, t)[x] == View(env, s)[x]
    {
      var m := s.addrs[x];
      assert m in s.info && m != n;
    }
  }

  lemma DroppedView(env: Env, s: State, n: int, zero: set<int>, limbo: set<int>)
    requires Linked(env, s, zero, limbo)
    requires n in s.info && s.info[n].randomPos == |s.random| - 1
    requires !s.info[n].inTried && s.info[n].refCount == 0 && n !in limbo
    ensures Linked(env, Dropped(s, n), zero - {n}, limbo)
    ensures View(env, Dropped(s, n)) == View(env, s) - {s.info[n].entry.svc.addr}
  {
    hide Counted;
    DroppedLinked(env, s, n, zero, limbo);
    DroppedReferenced(env, s, n, zero, limbo);
    ViewWithout(env, s, Dropped(s, n), n);
  }

  // ---- Slots seen in the book

  lemma NewSlotView(env: Env, s: State, b: nat, p: nat, zero: set<int>, limbo: set<int>)
    requires Linked(env, s, zero, limbo) && b < NEW_BUCKETS && p < BUCKET_SIZE
    ensures NewTaken(env, s.key, View(env, s), b, p) <==> s.newT[b][p] != -1
    ensures forall a :: a in s.addrs ==>
              (HoldsNew(env, s.key, View(env, s)[a], b, p) <==> s.newT[b][p] == s.addrs[a])
  {
    forall a | a in s.addrs
      ensures HoldsNew(env, s.key, View(env, s)[a], b, p) <==> s.newT[b][p] == s.addrs[a]
    {
      var n := s.addrs[a];
      assert n in s.info;
    }
    if s.newT[b][p] != -1 {
      var n := s.newT[b][p];
      assert n in s.info;
      var a := s.info[n].entry.svc.addr;
      assert HoldsNew(env, s.key, View(env, s)[a], b, p);
    }
  }

  lemma TriedSlotView(env: Env, s: State, svc: Service, zero: set<int>, limbo: set<int>)
    requires Linked(env, s, zero, limbo)
    ensures TriedTaken(env, s.key, View(env, s), svc) <==> TriedAt(env, s, svc) != -1
    ensures forall a :: a in s.addrs ==>
              (HoldsTried(env, s.key, View(env, s)[a], svc) <==> TriedAt(env, s, svc) == s.addrs[a])
  {
    hide Counted, Ordered, NewSlots;
    forall a | a in s.addrs
      ensures HoldsTried(env, s.key, View(env, s)[a], svc) <==> TriedAt(env, s, svc) == s.addrs[a]
    {
      var n := s.addrs[a];
      assert n in s.info;
    }
    if TriedAt(env, s, svc) != -1 {
      var n := TriedAt(env, s, svc);
      assert n in s.info;
      var a := s.info[n].entry.svc.addr;
      assert HoldsTried(env, s.key, View(env, s)[a], svc);
    }
  }

  // ---- Deleting and clearing

  lemma DeletedView(env: Env, s: State, n: int, zero: set<int>, limbo: set<int>)
    requires Linked(env, s, zero, limbo)
    requires n in s.info && !s.info[n].inTried && s.info[n].refCount == 0 && n !in limbo
    ensures Linked(env, Deleted(s, n), zero - {n}, limbo)
    ensures View(env, Deleted(s, n)) == View(env, s) - {s.info[n].entry.svc.addr}
  {
    hide Counted, NewSlots, TriedSlots, Referenced, Indexed, View;
    var i, j := s.info[n].randomPos, |s.random| - 1;
    SwappedView(env, s, i, j, zero, limbo);
    SwappedOrdered(s, i, j);
    SwappedSame(s, i, j);
    DroppedView(env, Swapped(s, i, j), n, zero, limbo);
  }

  lemma ShedNothing(env: Env, key: int, recs: map<NetAddr, Rec>, b: nat, p: nat)
    requires !NewTaken(env, key, recs, b, p)
    ensures Shed(env, key, recs, b, p) == recs
  {
  }

  lemma ShedOne(env: Env, key: int, recs: map<NetAddr, Rec>, b: nat, p: nat, a: NetAddr)
    requires a in recs
    requires forall x :: x in recs ==> (HoldsNew(env, key, recs[x], b, p) <==> x == a)
    ensures recs[a].buckets == {b} ==> Shed(env, key, recs, b, p) == recs - {a}
    ensures recs[a].buckets != {b} ==>
              Shed(env, key, recs, b, p) == recs[a := recs[a].(buckets := recs[a].buckets - {b})]
  {
    assert HoldsNew(env, key, recs[a], b, p);
    assert forall x :: x in recs && x != a ==> !HoldsNew(env, key, recs[x], b, p);
    assert recs[a].buckets == {b} ==> Shed(env, key, recs, b, p).Keys == (recs - {a}).Keys;
  }

  /** An entry with a reference needs no exemption. */
  lemma Settled(env: Env, s: State, n: int, zero: set<int>, limbo: set<int>)
    requires Linked(env, s, zero + {n}, limbo) && n in s.info && s.info[n].refCount >= 1
    ensures Linked(env, s, zero, limbo)
  {
  }

  /** The holder of an occupied new slot. */
  lemma SlotHolder(env: Env, s: State, b: nat, p: nat, zero: set<int>, limbo: set<int>)
    requires Linked(env, s, zero, limbo) && b < NEW_BUCKETS && p < BUCKET_SIZE && s.newT[b][p] != -1
    ensures var n := s.newT[b][p];
            && n in s.info && !s.info[n].inTried && n !in limbo
            && b in Buckets(env, s, n)
            && s.info[n].refCount == |Buckets(env, s, n)| >= 1
            && Position(env, s.key, s.info[n].entry.svc, true, b) == p
            && s.info[n].entry.svc.addr in View(env, s)
            && View(env, s)[s.info[n].entry.svc.addr] == RecOf(env, s, n)
            && forall x :: x in View(env, s) ==>
                 (HoldsNew(env, s.key, View(env, s)[x], b, p) <==> x == s.info[n].entry.svc.addr)
  {
    hide Counted;
    var n := s.newT[b][p];
    assert n in s.info;
    assert b in Buckets(env, s, n);
    NewSlotView(env, s, b, p, zero, limbo);
  }

  lemma ClearedNewView(env: Env, s: State, b: nat, p: nat, zero: set<int>, limbo: set<int>)
    requires Linked(env, s, zero, limbo) && b < NEW_BUCKETS && p < BUCKET_SIZE && s.newT[b][p] !in zero
    ensures Linked(env, ClearedNew(s, b, p), zero, limbo)
    ensures View(env, ClearedNew(s, b, p)) == Shed(env, s.key, View(env, s), b, p)
    ensures ClearedNew(s, b, p).newT == SetSlot(s.newT, b, p, -1)
  {
    hide Counted;
    var n := s.newT[b][p];
    NewSlotView(env, s, b, p, zero, limbo);
    if n == -1 {
      assert s.newT[b][p := -1] == s.newT[b];
      assert SetSlot(s.newT, b, p, -1) == s.newT;
      ShedNothing(env, s.key, View(env, s), b, p);
    } else {
      SlotHolder(env, s, b, p, zero, limbo);
      ClearedHeld(env, s, b, p, zero, limbo);
    }
  }

  lemma ClearedHeld(env: Env, s: State, b: nat, p: nat, zero: set<int>, limbo: set<int>)
    requires Linked(env, s, zero, limbo) && b < NEW_BUCKETS && p < BUCKET_SIZE
    requires s.newT[b][p] != -1 && s.newT[b][p] !in zero && s.newT[b][p] in s.info
    ensures Linked(env, ClearedNew(s, b, p), zero, limbo)
    ensures View(env, ClearedNew(s, b, p)) == Shed(env, s.key, View(env, s), b, p)
    ensures ClearedNew(s, b, p).newT == SetSlot(s.newT, b, p, -1)
  {
    hide Counted, NewSlots, TriedSlots, Referenced, Indexed, View;
    SlotHolder(env, s, b, p, zero, limbo);
    var n := s.newT[b][p];
    var t := Vacated(env, s, n, b);
    VacatedView(env, s, n, b, zero, limbo);
    var a := s.info[n].entry.svc.addr;
    ShedOne(env, s.key, View(env, s), b, p, a);
    if s.info[n].refCount == 1 {
      assert Buckets(env, s, n) == {b} by {
        assert |Buckets(env, s, n) - {b}| == 0;
      }
      DeletedView(env, t, n, zero + {n}, limbo);
      assert zero + {n} - {n} == zero;
    } else {
      Settled(env, t, n, zero, limbo);
    }
  }

  // ---- Demoting

  lemma ViewId(env: Env, s: State, a: NetAddr)
    requires Indexed(s) && a in View(env, s)
    ensures var n := View(env, s)[a].id;
            n in s.info && s.info[n].entry.svc.addr == a && View(env, s)[a] == RecOf(env, s, n)
  {
  }

  lemma UnshelvedView(env: Env, s: State, n: int, zero: set<int>, limbo: set<int>)
    requires Linked(env, s, zero, limbo) && n in limbo
    ensures Linked(env, s.(nNew := s.nNew + 1), zero + {n}, limbo - {n})
    ensures View(env, s.(nNew := s.nNew + 1)) == View(env, s)
  {
    UnshelvedLinked(env, s, n, zero, limbo);
    hide Counted, NewSlots, TriedSlots, Referenced;
    SameTablesBuckets(env, s, s.(nNew := s.nNew + 1));
    ViewSame(env, s, s.(nNew := s.nNew + 1));
  }

  lemma ShelvedView(env: Env, s: State, n: int, zero: set<int>, limbo: set<int>)
    requires Linked(env, s, zero, limbo)
    requires n in s.info && !s.info[n].inTried && n !in limbo && s.info[n].refCount == 0
    ensures Linked(env, s.(nNew := s.nNew - 1), zero - {n}, limbo + {n})
    ensures View(env, s.(nNew := s.nNew - 1)) == View(env, s)
  {
    ShelvedLinked(env, s, n, zero, limbo);
    hide Counted, NewSlots, TriedSlots, Referenced;
    SameTablesBuckets(env, s, s.(nNew := s.nNew - 1));
    ViewSame(env, s, s.(nNew := s.nNew - 1));
  }

  lemma LimboEntry(env: Env, s: State, n: int, zero: set<int>, limbo: set<int>)
    requires Linked(env, s, zero, limbo) && n in limbo
    ensures n in s.info && !s.info[n].inTried && s.info[n].refCount == 0 && Buckets(env, s, n) == {}
  {
    hide Counted;
  }

  lemma DemotedView(env: Env, s: State, n: int, limbo: set<int>)
    requires Linked(env, s, {}, limbo)
    requires n in s.info && s.info[n].inTried
    ensures Linked(env, Demoted(env, s, n), {}, limbo)
    ensures View(env, Demoted(env, s, n)) == Demote(env, s.key, View(env, s), s.info[n].entry.svc.addr)
    ensures Demoted(env, s, n).key == s.key
    ensures Demoted(env, s, n).triedT == Untried(env, s, n).triedT
  {
    hide Counted, NewSlots, TriedSlots, Referenced, Ordered, Indexed, View, Shed;
    var a := s.info[n].entry.svc.addr;
    var t := Untried(env, s, n);
    var b := NewBucket(env, s.key, s.info[n].entry.svc, s.info[n].entry.source);
    var p := Position(env, s.key, s.info[n].entry.svc, true, b);
    ViewAt(env, s, n);
    UntriedView(env, s, n, {}, limbo);
    ClearedNewView(env, t, b, p, {}, limbo + {n});
    var u := ClearedNew(t, b, p);
    UnshelvedView(env, u, n, {}, limbo + {n});
    var w := u.(nNew := u.nNew + 1);
    LimboEntry(env, u, n, {}, limbo + {n});
    ShedKeeps(env, s.key, View(env, t), a, b, p);
    ViewId(env, w, a);
    assert {} + {n} == {n} && limbo + {n} - {n} == limbo;
    OccupiedView(env, w, n, b, {n}, limbo);
    assert {n} - {n} == {};
    var r := RecOf(env, s, n).(tried := false, buckets := {});
    assert View(env, w) == Shed(env, s.key, View(env, s)[a := r], b, p);
    assert RecOf(env, w, n) == r;
    assert Buckets(env, w, n) + {b} == {b};
    assert View(env, Demoted(env, s, n)) == View(env, w)[a := r.(buckets := {b})];
  }

  // ---- Leaving the new table altogether

  lemma Exempted(env: Env, s: State, n: int, zero: set<int>, limbo: set<int>)
    requires Linked(env, s, zero, limbo)
    ensures Linked(env, s, zero + {n}, limbo)
  {
    hide Counted, NewSlots, TriedSlots;
  }

  lemma {:induction false} EvacuatedView(env: Env, s: State, n: int, k: nat)
    requires Consistent(env, s) && n in s.info && k <= NEW_BUCKETS
    ensures Linked(env, Evacuated(env, s, n, k), {n}, {})
    ensures View(env, Evacuated(env, s, n, k)) ==
            View(env, s)[s.info[n].entry.svc.addr :=
              RecOf(env, s, n).(buckets := set b | b in Buckets(env, s, n) && b >= k)]
  {
    hide Counted, NewSlots, TriedSlots, Referenced, Ordered, Indexed, View;
    var a := s.info[n].entry.svc.addr;
    if k == 0 {
      Exempted(env, s, n, {}, {});
      assert {} + {n} == {n};
      assert (set b | b in Buckets(env, s, n) && b >= k) == Buckets(env, s, n);
      ViewAt(env, s, n);
    } else {
      EvacuatedView(env, s, n, k - 1);
      var t := Evacuated(env, s, n, k - 1);
      var left := set b | b in Buckets(env, s, n) && b >= k - 1;
      ViewAt(env, t, n);
      assert Buckets(env, t, n) == left;
      var left' := set b | b in Buckets(env, s, n) && b >= k;
      if k - 1 in left {
        VacatedView(env, t, n, k - 1, {n}, {});
        assert {n} + {n} == {n};
        assert left - {k - 1} == left';
      } else {
        assert left == left';
      }
    }
  }

  /** All new slots of entry n are given up, and with them its place in nNew. */
  function Uprooted(env: Env, s: State, n: int): State
    requires n in s.info
  {
    var t := Evacuated(env, s, n, NEW_BUCKETS);
    t.(nNew := t.nNew - 1)
  }

  lemma UprootedView(env: Env, s: State, n: int)
    requires Consistent(env, s) && n in s.info && !s.info[n].inTried
    ensures Evacuated(env, s, n, NEW_BUCKETS).info[n].refCount == 0
    ensures Linked(env, Uprooted(env, s, n), {}, {n})
    ensures View(env, Uprooted(env, s, n)) ==
            View(env, s)[s.info[n].entry.svc.addr := RecOf(env, s, n).(buckets := {})]
  {
    hide Counted, NewSlots, TriedSlots, Ordered, Indexed, View;
    EvacuatedView(env, s, n, NEW_BUCKETS);
    var t := Evacuated(env, s, n, NEW_BUCKETS);
    ViewAt(env, t, n);
    assert (set b | b in Buckets(env, s, n) && b >= NEW_BUCKETS) == {};
    ShelvedView(env, t, n, {n}, {});
    assert {n} - {n} == {} && {} + {n} == {n};
  }

  /** Entry n moves to its tried slot; whatever is there is demoted. */
  function MadeTried(env: Env, s: State, n: int): State
    requires n in s.info
  {
    var t := Uprooted(env, s, n);
    var x := TriedAt(env, t, s.info[n].entry.svc);
    var u := if x != -1 && x in t.info then Demoted(env, t, x) else t;
    if n in u.info then Promoted(env, u, n) else u
  }

  /** The holder of an occupied tried slot. */
  lemma TriedHolderView(env: Env, s: State, svc: Service, zero: set<int>, limbo: set<int>)
    requires Linked(env, s, zero, limbo)
    ensures TriedTaken(env, s.key, View(env, s), svc) <==> TriedAt(env, s, svc) != -1
    ensures var x := TriedAt(env, s, svc);
            x != -1 ==>
              && x in s.info && s.info[x].inTried
              && TriedHolder(env, s.key, View(env, s), svc) == s.info[x].entry.svc.addr
              && TriedBucket(env, s.key, s.info[x].entry.svc) == TriedBucket(env, s.key, svc)
              && TriedPosition(env, s.key, s.info[x].entry.svc) == TriedPosition(env, s.key, svc)
  {
    hide Counted, NewSlots, Referenced;
    TriedSlotView(env, s, svc, zero, limbo);
    var x := TriedAt(env, s, svc);
    if x != -1 {
      assert x in s.info && s.info[x].inTried;
      var h := TriedHolder(env, s.key, View(env, s), svc);
      assert h in s.addrs && s.addrs[h] == x;
    }
  }

  lemma DemoteKeeps(env: Env, key: int, recs: map<NetAddr, Rec>, x: NetAddr, a: NetAddr)
    requires x in recs && a in recs && a != x && recs[a].buckets == {}
    ensures a in Demote(env, key, recs, x) && Demote(env, key, recs, x)[a] == recs[a]
  {
    var r := recs[x].(tried := false, buckets := {});
    var b := NewBucket(env, key, r.entry.svc, r.entry.source);
    ShedKeeps(env, key, recs[x := r], a, b, Position(env, key, r.entry.svc, true, b));
  }

  /** The slot left by a demoted entry is empty, and an entry in limbo stays as it is. */
  lemma DemotedSlot(env: Env, s: State, x: int, svc: Service, n: int)
    requires Linked(env, s, {}, {n}) && x in s.info && s.info[x].inTried && TriedAt(env, s, svc) == x
    ensures Linked(env, Demoted(env, s, x), {}, {n})
    ensures TriedAt(env, Demoted(env, s, x), svc) == -1
    ensures n in s.info && n in Demoted(env, s, x).info && Demoted(env, s, x).key == s.key
    ensures Demoted(env, s, x).info[n].entry == s.info[n].entry
  {
    hide Counted, NewSlots, Referenced, Ordered, Indexed, View, TriedSlots, Demote;
    TriedHolderView(env, s, svc, {}, {n});
    DemotedView(env, s, x, {n});
    UntriedLinked(env, s, x, {}, {n});
    LimboEntry(env, s, n, {}, {n});
    ViewAt(env, s, n);
    ViewAt(env, s, x);
    DemoteKeeps(env, s.key, View(env, s), s.info[x].entry.svc.addr, s.info[n].entry.svc.addr);
    ViewId(env, Demoted(env, s, x), s.info[n].entry.svc.addr);
  }

  lemma MadeTriedView(env: Env, s: State, n: int)
    requires Consistent(env, s) && n in s.info && !s.info[n].inTried
    ensures Consistent(env, MadeTried(env, s, n))
    ensures s.info[n].entry.svc.addr in View(env, s)
    ensures View(env, MadeTried(env, s, n)) == MakeTried(env, s.key, View(env, s), s.info[n].entry.svc.addr)
  {
    hide Counted, NewSlots, Referenced, Ordered, Indexed, View, TriedSlots, Demote, Demoted;
    var a, svc := s.info[n].entry.svc.addr, s.info[n].entry.svc;
    ViewAt(env, s, n);
    UprootedView(env, s, n);
    var t := Uprooted(env, s, n);
    var out := View(env, t);
    TriedHolderView(env, t, svc, {}, {n});
    var x := TriedAt(env, t, svc);
    var u := if x != -1 then Demoted(env, t, x) else t;
    if x != -1 {
      var ax := t.info[x].entry.svc.addr;
      DemotedView(env, t, x, {n});
      DemotedSlot(env, t, x, svc, n);
      ViewAt(env, t, x);
      DemoteKeeps(env, s.key, out, ax, a);
    }
    LimboEntry(env, u, n, {}, {n});
    ViewId(env, u, a);
    PromotedView(env, u, n, {}, {n});
    assert {n} - {n} == {};
  }

  // ---- Placing an entry in a new bucket

  /** Entry n is put in the new bucket that source selects, if that slot can be had. */
  function Placed(env: Env, s: State, n: int, source: NetAddr, now: int): State
    requires n in s.info
  {
    var svc := s.info[n].entry.svc;
    var b := NewBucket(env, s.key, svc, source);
    var h := NewAt(env, s, svc, b);
    if h == n then s
    else if h == -1 || (h in s.info && (IsTerrible(s.info[h].entry, now) || (s.info[h].refCount > 1 && s.info[n].refCount == 0))) then
      var t := ClearedNew(s, b, Position(env, s.key, svc, true, b));
      if n in t.info then Occupied(env, t, n, b) else t
    else if s.info[n].refCount == 0 then Deleted(s, n)
    else s
  }

  lemma DisplacesView(env: Env, s: State, n: int, b: nat, now: int, zero: set<int>)
    requires Linked(env, s, zero, {}) && n in s.info && b < NEW_BUCKETS
    ensures var h := NewAt(env, s, s.info[n].entry.svc, b);
            var p := Position(env, s.key, s.info[n].entry.svc, true, b);
            s.info[n].entry.svc.addr in View(env, s) &&
            (Displaces(env, s.key, View(env, s), s.info[n].entry.svc.addr, b, p, now) <==>
             h == -1 || (h in s.info && (IsTerrible(s.info[h].entry, now) || (s.info[h].refCount > 1 && s.info[n].refCount == 0))))
  {
    hide Counted, TriedSlots, NewSlots, Ordered;
    var p := Position(env, s.key, s.info[n].entry.svc, true, b);
    ViewAt(env, s, n);
    NewSlotView(env, s, b, p, zero, {});
    var h := s.newT[b][p];
    assert s.info[n].refCount == 0 <==> Buckets(env, s, n) == {};
    if h != -1 {
      SlotHolder(env, s, b, p, zero, {});
    }
  }

  /** The slot is cleared for entry n. */
  lemma InsertedView(env: Env, s: State, n: int, b: nat, p: nat)
    requires Linked(env, s, {n}, {})
    requires n in s.info && !s.info[n].inTried && s.info[n].refCount < NEW_BUCKETS_PER_ADDRESS
    requires b < NEW_BUCKETS && p == Position(env, s.key, s.info[n].entry.svc, true, b)
    requires NewAt(env, s, s.info[n].entry.svc, b) != n
    ensures n in ClearedNew(s, b, p).info
    ensures var t := Occupied(env, ClearedNew(s, b, p), n, b);
            var a := s.info[n].entry.svc.addr;
            && Consistent(env, t)
            && View(env, t) ==
               Shed(env, s.key, View(env, s), b, p)[a := RecOf(env, s, n).(buckets := Buckets(env, s, n) + {b})]
  {
    hide Counted, TriedSlots, NewSlots, Ordered, Referenced, Indexed, View, Shed;
    var a := s.info[n].entry.svc.addr;
    ViewAt(env, s, n);
    RefCountIs(env, s, n, {n}, {});
    ClearedNewView(env, s, b, p, {n}, {});
    var t := ClearedNew(s, b, p);
    assert b !in Buckets(env, s, n);
    ShedKeeps(env, s.key, View(env, s), a, b, p);
    ViewId(env, t, a);
    RefCountIs(env, t, n, {n}, {});
    OccupiedView(env, t, n, b, {n}, {});
    assert {n} - {n} == {};
  }

  lemma PlacedView(env: Env, s: State, n: int, source: NetAddr, now: int)
    requires Linked(env, s, {n}, {})
    requires n in s.info && !s.info[n].inTried && s.info[n].refCount < NEW_BUCKETS_PER_ADDRESS
    ensures s.info[n].entry.svc.addr in View(env, s)
    ensures Consistent(env, Placed(env, s, n, source, now))
    ensures View(env, Placed(env, s, n, source, now)) ==
            Place(env, s.key, View(env, s), s.info[n].entry.svc.addr, source, now)
  {
    hide Counted, TriedSlots, NewSlots, Ordered, Referenced, Indexed, View, Displaces, Shed, Occupied, ClearedNew, Deleted;
    var a, svc := s.info[n].entry.svc.addr, s.info[n].entry.svc;
    var b := NewBucket(env, s.key, svc, source);
    var p := Position(env, s.key, svc, true, b);
    RefCountIs(env, s, n, {n}, {});
    ViewAt(env, s, n);
    DisplacesView(env, s, n, b, now, {n});
    var h := NewAt(env, s, svc, b);
    assert h == n <==> b in Buckets(env, s, n);
    if h != n && Displaces(env, s.key, View(env, s), a, b, p, now) {
      InsertedView(env, s, n, b, p);
    } else if h != n && s.info[n].refCount == 0 {
      DeletedView(env, s, n, {n}, {});
      assert {n} - {n} == {};
    } else {
      assert {} + {n} == {n};
      Settled(env, s, n, {}, {});
    }
  }

  lemma RefCountIs(env: Env, s: State, n: int, zero: set<int>, limbo: set<int>)
    requires Linked(env, s, zero, limbo) && n in s.info
    ensures s.info[n].refCount == |Buckets(env, s, n)|
    ensures s.info[n].refCount == 0 <==> Buckets(env, s, n) == {}
  {
    hide Counted;
  }

  lemma FindView(env: Env, s: State, a: NetAddr)
    requires Consistent(env, s)
    ensures a in View(env, s) <==> a in s.addrs
    ensures a in s.addrs ==> s.addrs[a] in s.info
    ensures a in s.addrs ==>
              s.info[s.addrs[a]].entry.svc.addr == a && View(env, s)[a] == RecOf(env, s, s.addrs[a])
  {
    hide Counted, NewSlots, TriedSlots, Referenced;
  }

  /** A new slot may be cleared: the assertions made on its holder hold. */
  lemma ClearReady(env: Env, s: State, b: nat, p: nat, zero: set<int>, limbo: set<int>)
    requires Linked(env, s, zero, limbo) && b < NEW_BUCKETS && p < BUCKET_SIZE
    ensures Ordered(s)
    ensures var n := At(s.newT, b, p);
            n != -1 ==> n in s.info && s.info[n].refCount > 0 && !s.info[n].inTried
  {
    hide Counted, View;
    if s.newT[b][p] != -1 {
      SlotHolder(env, s, b, p, zero, limbo);
    }
  }

  /** Clearing a slot for entry n leaves entry n where it is. */
  lemma InsertReady(env: Env, s: State, n: int, b: nat, p: nat)
    requires Linked(env, s, {n}, {})
    requires n in s.info && !s.info[n].inTried && s.info[n].refCount < NEW_BUCKETS_PER_ADDRESS
    requires b < NEW_BUCKETS && p == Position(env, s.key, s.info[n].entry.svc, true, b)
    requires At(s.newT, b, p) != n
    ensures n in ClearedNew(s, b, p).info
    ensures ClearedNew(s, b, p).info[n].entry == s.info[n].entry && ClearedNew(s, b, p).key == s.key
  {
    hide Counted, TriedSlots, NewSlots, Ordered, Referenced, Indexed, View, Shed;
    var a := s.info[n].entry.svc.addr;
    ViewAt(env, s, n);
    ClearedNewView(env, s, b, p, {n}, {});
    assert b !in Buckets(env, s, n);
    ShedKeeps(env, s.key, View(env, s), a, b, p);
    ViewId(env, ClearedNew(s, b, p), a);
  }

  /** In the middle of a demotion: entry n has left the tried table and its new slot is cleared for it. */
  lemma DemotionReady(env: Env, s: State, n: int, b: nat, p: nat, limbo: set<int>)
    requires Linked(env, s, {}, limbo) && n in s.info && s.info[n].inTried
    requires b < NEW_BUCKETS && p < BUCKET_SIZE
    ensures var t := Untried(env, s, n);
            && Ordered(t)
            && (At(t.newT, b, p) != -1 ==>
                  && At(t.newT, b, p) in t.info
                  && t.info[At(t.newT, b, p)].refCount > 0
                  && !t.info[At(t.newT, b, p)].inTried)
            && n in ClearedNew(t, b, p).info
            && ClearedNew(t, b, p).info[n].refCount == 0
            && ClearedNew(t, b, p).info[n].entry == s.info[n].entry
            && At(ClearedNew(t, b, p).newT, b, p) == -1
  {
    hide Counted, NewSlots, TriedSlots, Referenced, View, Indexed, Shed;
    var t := Untried(env, s, n);
    var a := s.info[n].entry.svc.addr;
    UntriedView(env, s, n, {}, limbo);
    ClearReady(env, t, b, p, {}, limbo + {n});
    ClearedNewView(env, t, b, p, {}, limbo + {n});
    LimboEntry(env, ClearedNew(t, b, p), n, {}, limbo + {n});
    ShedKeeps(env, s.key, View(env, t), a, b, p);
    ViewId(env, ClearedNew(t, b, p), a);
  }

  lemma LastGoodView(env: Env, s: State, time: int)
    requires Consistent(env, s)
    ensures Consistent(env, s.(lastGood := time)) && View(env, s.(lastGood := time)) == View(env, s)
  {
    UntabledView(env, s, s.(lastGood := time));
  }

  lemma CollisionsView(env: Env, s: State, c: set<int>)
    requires Consistent(env, s)
    ensures Consistent(env, s.(collisions := c)) && View(env, s.(collisions := c)) == View(env, s)
  {
    UntabledView(env, s, s.(collisions := c));
  }

  /** Only fields outside the tables and indexes differ. */
  lemma UntabledView(env: Env, s: State, t: State)
    requires Consistent(env, s)
    requires t == s.(lastGood := t.lastGood, collisions := t.collisions)
    ensures Consistent(env, t) && View(env, t) == View(env, s)
  {
    IndexedKept(s, t);
    OrderedKept(s, t);
    SlotsKept(env, s, t);
    ReferencedKept(env, s, t, {}, {}, {}, {});
    CountsKept(s, t, {});
    hide Counted, NewSlots, TriedSlots, Referenced;
    SameTablesBuckets(env, s, t);
    ViewSame(env, s, t);
  }

  lemma EntryView(env: Env, s: State, n: int)
    requires Consistent(env, s) && n in s.info
    ensures s.info[n].entry.svc.addr in View(env, s)
    ensures View(env, s)[s.info[n].entry.svc.addr] == RecOf(env, s, n)
  {
    hide Counted, NewSlots, TriedSlots, Referenced;
  }

  lemma RefCountBound(env: Env, s: State, n: int)
    requires Consistent(env, s) && n in s.info
    ensures 0 <= s.info[n].refCount <= NEW_BUCKETS_PER_ADDRESS
  {
    hide Counted;
  }

  /** A new entry whose statistics are set right away. */
  lemma CreatedRec(env: Env, s: State, e0: Entry, e: Entry)
    requires Consistent(env, s) && e0.svc.addr !in s.addrs && e.svc == e0.svc
    ensures var t := Touched(Created(s, e0), s.idCount, e);
            && Linked(env, t, {}, {s.idCount})
            && View(env, t) == View(env, s)[e.svc.addr := Rec(s.idCount, e, false, {})]
  {
    hide Counted, NewSlots, TriedSlots, Referenced, View;
    CreatedView(env, s, e0, {});
    var u := Created(s, e0);
    LimboEntry(env, u, s.idCount, {}, {s.idCount});
    TouchedView(env, u, s.idCount, e, {}, {s.idCount});
  }

  lemma ReferencedSomewhere(env: Env, s: State, n: int)
    requires Consistent(env, s) && n in s.info && !s.info[n].inTried
    ensures Buckets(env, s, n) != {}
  {
    hide Counted;
  }

  // ---- Answering getaddr

  function AddressOf(e: Entry): Address {
    Address(e.svc, e.services, e.time)
  }

  /** The addresses of the given identifiers that are worth passing on, in order. */
  function Offers(info: map<int, Info>, ids: seq<int>, now: int): seq<Address>
    requires forall i :: 0 <= i < |ids| ==> ids[i] in info
  {
    if ids == [] then []
    else
      var last := |ids| - 1;
      Offers(info, ids[..last], now) +
      if IsTerrible(info[ids[last]].entry, now) then [] else [AddressOf(info[ids[last]].entry)]
  }

  /** x is what the book says about a known address that is worth passing on. */
  ghost predicate IsOffer(recs: map<NetAddr, Rec>, x: Address, now: int) {
    && x.svc.addr in recs
    && x == AddressOf(recs[x.svc.addr].entry)
    && !IsTerrible(recs[x.svc.addr].entry, now)
  }

  lemma {:induction false} OffersKept(info: map<int, Info>, info': map<int, Info>, ids: seq<int>, now: int)
    requires forall i :: 0 <= i < |ids| ==> ids[i] in info && ids[i] in info' && info'[ids[i]].entry == info[ids[i]].entry
    ensures Offers(info', ids, now) == Offers(info, ids, now)
  {
    if ids != [] {
      OffersKept(info, info', ids[..|ids| - 1], now);
    }
  }

  /** x is an offer, and its entry comes before place k of the random order. */
  ghost predicate OfferBefore(env: Env, s: State, x: Address, k: nat, now: int) {
    && IsOffer(View(env, s), x, now)
    && x.svc.addr in s.addrs && s.addrs[x.svc.addr] in s.info && s.info[s.addrs[x.svc.addr]].randomPos < k
  }

  lemma OfferOf(env: Env, s: State, k: nat, now: int)
    requires Indexed(s) && Ordered(s) && k < |s.random| && !IsTerrible(s.info[s.random[k]].entry, now)
    ensures
      var x := AddressOf(s.info[s.random[k]].entry);
      OfferBefore(env, s, x, k + 1, now) && !OfferBefore(env, s, x, k, now)
  {
    hide IsTerrible;
    var n := s.random[k];
    assert n in s.info && s.addrs[s.info[n].entry.svc.addr] == n;
  }

  /** Offers lists exactly the passable addresses among distinct entries, each once. */
  lemma {:induction false} OffersExact(env: Env, s: State, k: nat, now: int)
    requires Indexed(s) && Ordered(s) && k <= |s.random|
    ensures var o := Offers(s.info, s.random[..k], now);
            && |o| <= k
            && (forall i :: 0 <= i < |o| ==> OfferBefore(env, s, o[i], k, now))
            && (forall i, j :: 0 <= i < j < |o| ==> o[i].svc.addr != o[j].svc.addr)
            && (forall i :: 0 <= i < k && !IsTerrible(s.info[s.random[i]].entry, now) ==> AddressOf(s.info[s.random[i]].entry) in o)
  {
    hide IsTerrible, OfferBefore, Indexed, AddressOf;
    if k > 0 {
      OffersExact(env, s, k - 1, now);
      assert s.random[..k][..k - 1] == s.random[..k - 1];
      var n := s.random[k - 1];
      var o := Offers(s.info, s.random[..k - 1], now);
      forall i | 0 <= i < |o|
        ensures OfferBefore(env, s, o[i], k, now)
      {
        OfferLater(env, s, o[i], k - 1, now);
      }
      if !IsTerrible(s.info[n].entry, now) {
        OfferOf(env, s, k - 1, now);
        assert Offers(s.info, s.random[..k], now) == o + [AddressOf(s.info[n].entry)];
        forall i | 0 <= i < |o|
          ensures o[i].svc.addr != AddressOf(s.info[n].entry).svc.addr
        {
          OffersApart(env, s, o[i], AddressOf(s.info[n].entry), k - 1, now);
        }
      }
    }
  }

  lemma OfferLater(env: Env, s: State, x: Address, k: nat, now: int)
    requires OfferBefore(env, s, x, k, now)
    ensures OfferBefore(env, s, x, k + 1, now)
  {
  }

  lemma OffersApart(env: Env, s: State, x: Address, y: Address, k: nat, now: int)
    requires OfferBefore(env, s, x, k, now) && !OfferBefore(env, s, y, k, now) && OfferBefore(env, s, y, k + 1, now)
    ensures x.svc.addr != y.svc.addr
  {
    hide IsTerrible, View;
  }

  /** Every identifier is somewhere in the random order. */
  lemma OffersAll(env: Env, s: State, now: int, a: NetAddr)
    requires Indexed(s) && Ordered(s) && a in View(env, s) && !IsTerrible(View(env, s)[a].entry, now)
    ensures AddressOf(View(env, s)[a].entry) in Offers(s.info, s.random, now)
  {
    var n := s.addrs[a];
    var i := s.info[n].randomPos;
    OffersExact(env, s, |s.random|, now);
    assert s.random[..|s.random|] == s.random;
    assert s.random[i] == n;
  }

  lemma WithIdView(env: Env, s: State, n: int)
    requires Consistent(env, s)
    ensures HasId(View(env, s), n) <==> n in s.info
    ensures n in s.info ==> WithId(View(env, s), n) == s.info[n].entry.svc.addr
    ensures n in s.info ==> View(env, s)[s.info[n].entry.svc.addr] == RecOf(env, s, n)
  {
    hide Counted, NewSlots, TriedSlots, Referenced;
    if n in s.info {
      ViewAt(env, s, n);
      var a := WithId(View(env, s), n);
      ViewId(env, s, a);
    }
    if HasId(View(env, s), n) {
      ViewId(env, s, WithId(View(env, s), n));
    }
  }

  lemma EmptyConsistent(env: Env, s: State)
    requires Shaped(s) && s.info == map[] && s.addrs == map[] && s.random == [] && s.idCount == 0
    requires s.nNew == 0 && s.nTried == 0
    requires forall b: nat, p: nat :: b < NEW_BUCKETS && p < BUCKET_SIZE ==> s.newT[b][p] == -1
    requires forall b: nat, p: nat :: b < TRIED_BUCKETS && p < BUCKET_SIZE ==> s.triedT[b][p] == -1
    ensures Consistent(env, s) && View(env, s) == map[]
  {
    assert NewIds(s) == {} && TriedIds(s) == {};
  }
}
