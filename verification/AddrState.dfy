/**
 The five cross-linked indexes of CAddrMan as one value, the structural
 clauses of its consistency check Check_ as an invariant, and the elementary
 changes every operation is composed of.
 */
module AddrState {
  import opened AddrTypes

  type Table = seq<seq<int>>

  datatype State = State(
    key: int, idCount: int, info: map<int, Info>, addrs: map<NetAddr, int>, random: seq<int>,
    nTried: int, nNew: int, triedT: Table, newT: Table, lastGood: int, collisions: set<int>)

  ghost predicate IsTable(t: Table, buckets: nat) {
    |t| == buckets && forall b :: 0 <= b < buckets ==> |t[b]| == BUCKET_SIZE
  }

  ghost predicate Shaped(s: State) {
    IsTable(s.newT, NEW_BUCKETS) && IsTable(s.triedT, TRIED_BUCKETS)
  }

  /** Identifiers were all handed out before. */
  ghost predicate Ranged(s: State) {
    forall n :: n in s.info ==> 0 <= n < s.idCount
  }

  /** mapAddr inverts mapInfo and identifiers were all handed out before. */
  ghost predicate Indexed(s: State) {
    && (forall n :: n in s.info ==>
          0 <= n < s.idCount && s.info[n].entry.svc.addr in s.addrs && s.addrs[s.info[n].entry.svc.addr] == n)
    && (forall a :: a in s.addrs ==> s.addrs[a] in s.info && s.info[s.addrs[a]].entry.svc.addr == a)
  }

  /** vRandom and nRandomPos are inverse. */
  ghost predicate Ordered(s: State) {
    && (forall n :: n in s.info ==>
          0 <= s.info[n].randomPos < |s.random| && s.random[s.info[n].randomPos] == n)
    && (forall i :: 0 <= i < |s.random| ==> s.random[i] in s.info && s.info[s.random[i]].randomPos == i)
  }

  /** An occupied new slot holds an untried entry at that entry's own position. */
  ghost predicate NewSlots(env: Env, s: State)
    requires Shaped(s)
  {
    forall b: nat, p: nat :: b < NEW_BUCKETS && p < BUCKET_SIZE && s.newT[b][p] != -1 ==>
      && s.newT[b][p] in s.info
      && !s.info[s.newT[b][p]].inTried
      && Position(env, s.key, s.info[s.newT[b][p]].entry.svc, true, b) == p
  }

  /** An occupied tried slot holds a tried entry whose one slot it is. */
  ghost predicate TriedSlots(env: Env, s: State)
    requires Shaped(s)
  {
    forall b: nat, p: nat :: b < TRIED_BUCKETS && p < BUCKET_SIZE && s.triedT[b][p] != -1 ==>
      && s.triedT[b][p] in s.info
      && s.info[s.triedT[b][p]].inTried
      && TriedBucket(env, s.key, s.info[s.triedT[b][p]].entry.svc) == b
      && TriedPosition(env, s.key, s.info[s.triedT[b][p]].entry.svc) == p
  }

  function At(t: Table, b: nat, p: nat): int {
    if b < |t| && p < |t[b]| then t[b][p] else -1
  }

  /** What is in the tried slot of svc. */
  function TriedAt(env: Env, s: State, svc: Service): int {
    At(s.triedT, TriedBucket(env, s.key, svc), TriedPosition(env, s.key, svc))
  }

  /** What is in the slot of svc in new bucket b. */
  function NewAt(env: Env, s: State, svc: Service, b: nat): int {
    At(s.newT, b, Position(env, s.key, svc, true, b))
  }

  /** The new buckets in which identifier n holds its slot. */
  ghost function Buckets(env: Env, s: State, n: int): set<nat>
    requires n in s.info
  {
    set b: nat | b < NEW_BUCKETS && NewAt(env, s, s.info[n].entry.svc, b) == n
  }

  /**
   Tried entries hold their slot and no new slot; the reference count of an
   entry is the number of new slots it holds, at most 8, and at least 1 unless
   the entry is in `zero` (counted in nNew) or in `limbo` (not counted).
   */
  ghost predicate Referenced(env: Env, s: State, zero: set<int>, limbo: set<int>) {
    forall n :: n in s.info ==>
      && s.info[n].refCount == |Buckets(env, s, n)|
      && s.info[n].refCount <= NEW_BUCKETS_PER_ADDRESS
      && (s.info[n].inTried ==> s.info[n].refCount == 0 && TriedAt(env, s, s.info[n].entry.svc) == n)
      && (!s.info[n].inTried && n !in zero && n !in limbo ==> s.info[n].refCount >= 1)
      && (n in limbo ==> s.info[n].refCount == 0)
  }

  ghost function TriedIds(s: State): set<int> {
    set n | n in s.info && s.info[n].inTried
  }

  ghost function NewIds(s: State): set<int> {
    set n | n in s.info && !s.info[n].inTried
  }

  /** nNew and nTried are exact, entries in limbo apart. */
  ghost predicate Counted(s: State, limbo: set<int>) {
    s.nTried == |TriedIds(s)| && s.nNew == |NewIds(s) - limbo|
  }

  /** The structural clauses of Check_, for a state in the middle of an operation. */
  ghost predicate Linked(env: Env, s: State, zero: set<int>, limbo: set<int>) {
    && Shaped(s)
    && s.idCount >= 0
    && Indexed(s)
    && Ordered(s)
    && NewSlots(env, s)
    && TriedSlots(env, s)
    && Referenced(env, s, zero, limbo)
    && Counted(s, limbo)
    && limbo <= NewIds(s)
  }

  /** All of Linked that does not involve mapAddr. */
  ghost predicate Wired(env: Env, s: State, zero: set<int>, limbo: set<int>) {
    && Shaped(s)
    && s.idCount >= 0
    && Ranged(s)
    && Ordered(s)
    && NewSlots(env, s)
    && TriedSlots(env, s)
    && Referenced(env, s, zero, limbo)
    && Counted(s, limbo)
    && limbo <= NewIds(s)
  }

  /** The structural clauses of Check_. */
  ghost predicate Consistent(env: Env, s: State) {
    Linked(env, s, {}, {})
  }

  function SetSlot(t: Table, b: nat, p: nat, n: int): Table {
    if b < |t| && p < |t[b]| then t[b := t[b][p := n]] else t
  }

  // ---- Elementary changes

  function SetInfo(s: State, n: int, i: Info): State {
    s.(info := s.info[n := i])
  }

  /** Entry n leaves the new slot it holds in bucket b. */
  function Vacated(env: Env, s: State, n: int, b: nat): State
    requires n in s.info
  {
    var p := Position(env, s.key, s.info[n].entry.svc, true, b);
    SetInfo(s, n, s.info[n].(refCount := s.info[n].refCount - 1)).(newT := SetSlot(s.newT, b, p, -1))
  }

  /** Entry n enters the empty slot that is its own in new bucket b. */
  function Occupied(env: Env, s: State, n: int, b: nat): State
    requires n in s.info
  {
    var p := Position(env, s.key, s.info[n].entry.svc, true, b);
    SetInfo(s, n, s.info[n].(refCount := s.info[n].refCount + 1)).(newT := SetSlot(s.newT, b, p, n))
  }

  /** Entry n leaves the new slots it holds in buckets below k. */
  function Evacuated(env: Env, s: State, n: int, k: nat): (t: State)
    requires n in s.info
    ensures n in t.info && t.info[n].entry == s.info[n].entry && t.key == s.key && t.triedT == s.triedT
    ensures t.idCount == s.idCount && t.lastGood == s.lastGood && t.collisions == s.collisions
  {
    if k == 0 then s
    else
      var t := Evacuated(env, s, n, k - 1);
      if NewAt(env, t, t.info[n].entry.svc, k - 1) == n then Vacated(env, t, n, k - 1) else t
  }

  /** A new entry under the next identifier, not counted yet. */
  function Created(s: State, e: Entry): State {
    s.(idCount := s.idCount + 1,
       info := s.info[s.idCount := Info(e, 0, false, |s.random|)],
       addrs := s.addrs[e.svc.addr := s.idCount],
       random := s.random + [s.idCount])
  }

  /** Positions i and j of vRandom exchange their entries. */
  function Swapped(s: State, i: int, j: int): State {
    if i == j || !(0 <= i < |s.random| && 0 <= j < |s.random|) then s
    else if !(s.random[i] in s.info && s.random[j] in s.info) then s
    else
      var m, n := s.random[i], s.random[j];
      var info := s.info[m := s.info[m].(randomPos := j)];
      s.(info := info[n := info[n].(randomPos := i)], random := s.random[i := n][j := m])
  }

  /** The last entry n of vRandom is dropped from every index. */
  function Dropped(s: State, n: int): State
    requires n in s.info
  {
    s.(info := s.info - {n}, addrs := s.addrs - {s.info[n].entry.svc.addr},
       random := if s.random == [] then [] else s.random[..|s.random| - 1], nNew := s.nNew - 1)
  }

  /** Entry n, in no table, is deleted. */
  function Deleted(s: State, n: int): State
    requires n in s.info
  {
    Dropped(Swapped(s, s.info[n].randomPos, |s.random| - 1), n)
  }

  /** The new slot (b, p) is emptied and its entry deleted if that was its last reference. */
  function ClearedNew(s: State, b: nat, p: nat): State {
    var n := At(s.newT, b, p);
    if n == -1 || n !in s.info then s
    else
      var t := SetInfo(s, n, s.info[n].(refCount := s.info[n].refCount - 1)).(newT := SetSlot(s.newT, b, p, -1));
      if t.info[n].refCount == 0 then Deleted(t, n) else t
  }

  /** Entry n leaves its tried slot and is counted nowhere. */
  function Untried(env: Env, s: State, n: int): State
    requires n in s.info
  {
    var svc := s.info[n].entry.svc;
    SetInfo(s, n, s.info[n].(inTried := false)).(
      triedT := SetSlot(s.triedT, TriedBucket(env, s.key, svc), TriedPosition(env, s.key, svc), -1),
      nTried := s.nTried - 1)
  }

  /** Tried entry n goes back to the new bucket that its own source selects. */
  function Demoted(env: Env, s: State, n: int): State
    requires n in s.info
  {
    var svc := s.info[n].entry.svc;
    var b := NewBucket(env, s.key, svc, s.info[n].entry.source);
    var t := ClearedNew(Untried(env, s, n), b, Position(env, s.key, svc, true, b));
    if n in t.info then Occupied(env, t.(nNew := t.nNew + 1), n, b) else t
  }

  /** Entry n, counted nowhere, enters its tried slot. */
  function Promoted(env: Env, s: State, n: int): State
    requires n in s.info
  {
    var svc := s.info[n].entry.svc;
    SetInfo(s, n, s.info[n].(inTried := true)).(
      triedT := SetSlot(s.triedT, TriedBucket(env, s.key, svc), TriedPosition(env, s.key, svc), n),
      nTried := s.nTried + 1)
  }

  /** The statistics of entry n change. */
  function Touched(s: State, n: int, e: Entry): State
    requires n in s.info
  {
    SetInfo(s, n, s.info[n].(entry := e))
  }

  // ---- What a change keeps

  lemma IndexedRanged(s: State)
    requires Indexed(s)
    ensures Ranged(s)
  {
  }

  /** s and t know the same identifiers, and for each the same service. */
  ghost predicate SameServices(s: State, t: State) {
    && s.key == t.key
    && (forall n :: n in s.info <==> n in t.info)
    && (forall n :: n in s.info ==> s.info[n].entry.svc == t.info[n].entry.svc)
  }

  ghost predicate SameTried(s: State, t: State) {
    && (forall n :: n in s.info <==> n in t.info)
    && (forall n :: n in s.info ==> s.info[n].inTried == t.info[n].inTried)
  }

  lemma IndexedKept(s: State, t: State)
    requires SameServices(s, t) && s.addrs == t.addrs && s.idCount == t.idCount
    requires Indexed(s)
    ensures Indexed(t)
  {
    forall a | a in t.addrs
      ensures t.addrs[a] in t.info && t.info[t.addrs[a]].entry.svc.addr == a
    {
      var n := s.addrs[a];
      assert n in s.info && n in t.info;
    }
  }

  lemma OrderedKept(s: State, t: State)
    requires s.random == t.random && (forall n :: n in s.info <==> n in t.info)
    requires forall n :: n in s.info ==> s.info[n].randomPos == t.info[n].randomPos
    requires Ordered(s)
    ensures Ordered(t)
  {
    forall i | 0 <= i < |t.random|
      ensures t.random[i] in t.info && t.info[t.random[i]].randomPos == i
    {
      var n := s.random[i];
      assert n in s.info && n in t.info;
    }
  }

  lemma TriedSlotsKept(env: Env, s: State, t: State)
    requires Shaped(s) && Shaped(t) && SameServices(s, t) && SameTried(s, t) && s.triedT == t.triedT
    requires TriedSlots(env, s)
    ensures TriedSlots(env, t)
  {
    forall b: nat, p: nat | b < TRIED_BUCKETS && p < BUCKET_SIZE && t.triedT[b][p] != -1
      ensures t.triedT[b][p] in t.info
      ensures t.info[t.triedT[b][p]].inTried
      ensures TriedBucket(env, t.key, t.info[t.triedT[b][p]].entry.svc) == b
      ensures TriedPosition(env, t.key, t.info[t.triedT[b][p]].entry.svc) == p
    {
      assert s.triedT[b][p] != -1;
    }
  }

  lemma BucketsKept(env: Env, s: State, t: State, n: int)
    requires Shaped(s) && Shaped(t) && s.key == t.key
    requires n in s.info && n in t.info && s.info[n].entry.svc == t.info[n].entry.svc
    requires forall b: nat :: b < NEW_BUCKETS ==>
               (NewAt(env, s, s.info[n].entry.svc, b) == n <==> NewAt(env, t, s.info[n].entry.svc, b) == n)
    ensures Buckets(env, s, n) == Buckets(env, t, n)
  {
  }

  lemma CountsKept(s: State, t: State, limbo: set<int>)
    requires SameTried(s, t) && s.nTried == t.nTried && s.nNew == t.nNew
    requires Counted(s, limbo)
    ensures Counted(t, limbo) && NewIds(t) == NewIds(s) && TriedIds(t) == TriedIds(s)
  {
    assert forall n :: n in NewIds(t) <==> n in NewIds(s);
    assert forall n :: n in TriedIds(t) <==> n in TriedIds(s);
    assert NewIds(t) == NewIds(s) && TriedIds(t) == TriedIds(s);
  }

  // ---- Leaving and entering new slots

  lemma VacatedBuckets(env: Env, s: State, n: int, b: nat)
    requires Shaped(s) && n in s.info && n != -1 && b in Buckets(env, s, n)
    ensures Shaped(Vacated(env, s, n, b))
    ensures Buckets(env, Vacated(env, s, n, b), n) == Buckets(env, s, n) - {b}
    ensures forall m :: m in s.info && m != n && m != -1 ==> Buckets(env, Vacated(env, s, n, b), m) == Buckets(env, s, m)
  {
    var t := Vacated(env, s, n, b);
    forall c: nat
      ensures c in Buckets(env, t, n) <==> c in Buckets(env, s, n) && c != b
    {
    }
    assert Buckets(env, t, n) == Buckets(env, s, n) - {b};
    forall m | m in s.info && m != n && m != -1
      ensures Buckets(env, t, m) == Buckets(env, s, m)
    {
      BucketsKept(env, s, t, m);
    }
  }

  lemma VacatedTables(env: Env, s: State, n: int, b: nat, zero: set<int>, limbo: set<int>)
    requires Shaped(s) && Indexed(s) && NewSlots(env, s) && Referenced(env, s, zero, limbo)
    requires n in s.info && b in Buckets(env, s, n)
    ensures var t := Vacated(env, s, n, b);
            Shaped(t) && NewSlots(env, t) && Referenced(env, t, zero + {n}, limbo)
  {
    VacatedBuckets(env, s, n, b);
  }

  lemma VacatedLinked(env: Env, s: State, n: int, b: nat, zero: set<int>, limbo: set<int>)
    requires Linked(env, s, zero, limbo)
    requires n in s.info && b in Buckets(env, s, n)
    ensures Linked(env, Vacated(env, s, n, b), zero + {n}, limbo)
  {
    hide Counted, NewSlots, Referenced, TriedSlots, Indexed, Ordered;
    var t := Vacated(env, s, n, b);
    VacatedTables(env, s, n, b, zero, limbo);
    IndexedKept(s, t);
    OrderedKept(s, t);
    TriedSlotsKept(env, s, t);
    CountsKept(s, t, limbo);
  }

  lemma OccupiedBuckets(env: Env, s: State, n: int, b: nat)
    requires Shaped(s) && n in s.info && n != -1
    requires b < NEW_BUCKETS && NewAt(env, s, s.info[n].entry.svc, b) == -1
    ensures Shaped(Occupied(env, s, n, b))
    ensures Buckets(env, Occupied(env, s, n, b), n) == Buckets(env, s, n) + {b}
    ensures forall m :: m in s.info && m != n && m != -1 ==> Buckets(env, Occupied(env, s, n, b), m) == Buckets(env, s, m)
  {
    var t := Occupied(env, s, n, b);
    assert Buckets(env, t, n) == Buckets(env, s, n) + {b};
    forall m | m in s.info && m != n && m != -1
      ensures Buckets(env, t, m) == Buckets(env, s, m)
    {
      BucketsKept(env, s, t, m);
    }
  }

  lemma OccupiedTables(env: Env, s: State, n: int, b: nat, zero: set<int>, limbo: set<int>)
    requires Shaped(s) && Ranged(s) && NewSlots(env, s) && Referenced(env, s, zero, limbo)
    requires n in s.info && !s.info[n].inTried && n !in limbo
    requires b < NEW_BUCKETS && NewAt(env, s, s.info[n].entry.svc, b) == -1
    requires s.info[n].refCount < NEW_BUCKETS_PER_ADDRESS
    ensures var t := Occupied(env, s, n, b);
            Shaped(t) && NewSlots(env, t) && Referenced(env, t, zero - {n}, limbo)
  {
    OccupiedBuckets(env, s, n, b);
  }

  lemma OccupiedLinked(env: Env, s: State, n: int, b: nat, zero: set<int>, limbo: set<int>)
    requires Linked(env, s, zero, limbo)
    requires n in s.info && !s.info[n].inTried && n !in limbo
    requires b < NEW_BUCKETS && NewAt(env, s, s.info[n].entry.svc, b) == -1
    requires s.info[n].refCount < NEW_BUCKETS_PER_ADDRESS
    ensures Linked(env, Occupied(env, s, n, b), zero - {n}, limbo)
  {
    hide Counted, NewSlots, Referenced, TriedSlots, Indexed, Ordered;
    var t := Occupied(env, s, n, b);
    IndexedRanged(s);
    OccupiedTables(env, s, n, b, zero, limbo);
    IndexedKept(s, t);
    OrderedKept(s, t);
    TriedSlotsKept(env, s, t);
    CountsKept(s, t, limbo);
  }

  /** s and t differ at most in statistics, in the random order and in counters. */
  ghost predicate SameTables(s: State, t: State) {
    && SameServices(s, t)
    && SameTried(s, t)
    && (forall n :: n in s.info ==> s.info[n].refCount == t.info[n].refCount)
    && s.newT == t.newT && s.triedT == t.triedT
  }

  lemma ReferencedKept(env: Env, s: State, t: State, zero: set<int>, limbo: set<int>, zero': set<int>, limbo': set<int>)
    requires Shaped(s) && Referenced(env, s, zero, limbo) && SameTables(s, t)
    requires forall n :: n in s.info && n !in zero' && n !in limbo' ==> n !in zero && (n !in limbo || s.info[n].inTried)
    requires forall n :: n in s.info && n in limbo' ==> s.info[n].refCount == 0
    ensures Referenced(env, t, zero', limbo')
  {
    forall n | n in t.info
      ensures Buckets(env, t, n) == Buckets(env, s, n)
      ensures TriedAt(env, t, t.info[n].entry.svc) == TriedAt(env, s, s.info[n].entry.svc)
    {
      BucketsKept(env, s, t, n);
    }
  }

  lemma SlotsKept(env: Env, s: State, t: State)
    requires Shaped(s) && NewSlots(env, s) && TriedSlots(env, s) && SameTables(s, t)
    ensures Shaped(t) && NewSlots(env, t) && TriedSlots(env, t)
  {
    TriedSlotsKept(env, s, t);
    forall b: nat, p: nat | b < NEW_BUCKETS && p < BUCKET_SIZE && t.newT[b][p] != -1
      ensures && t.newT[b][p] in t.info
              && !t.info[t.newT[b][p]].inTried
              && Position(env, t.key, t.info[t.newT[b][p]].entry.svc, true, b) == p
    {
      assert s.newT[b][p] != -1;
    }
  }

  // ---- Counting an entry in nNew or not

  lemma ShelvedCounts(s: State, n: int, limbo: set<int>)
    requires Counted(s, limbo) && limbo <= NewIds(s) && n in NewIds(s) - limbo
    ensures Counted(s.(nNew := s.nNew - 1), limbo + {n}) && limbo + {n} <= NewIds(s.(nNew := s.nNew - 1))
  {
    var t := s.(nNew := s.nNew - 1);
    CountsKept(s, t.(nNew := s.nNew), limbo);
    assert NewIds(s) - (limbo + {n}) == (NewIds(s) - limbo) - {n};
  }

  lemma UnshelvedCounts(s: State, n: int, limbo: set<int>)
    requires Counted(s, limbo) && limbo <= NewIds(s) && n in limbo
    ensures Counted(s.(nNew := s.nNew + 1), limbo - {n}) && limbo - {n} <= NewIds(s.(nNew := s.nNew + 1))
  {
    assert NewIds(s) - (limbo - {n}) == (NewIds(s) - limbo) + {n};
  }

  lemma ShelvedLinked(env: Env, s: State, n: int, zero: set<int>, limbo: set<int>)
    requires Linked(env, s, zero, limbo)
    requires n in s.info && !s.info[n].inTried && n !in limbo && s.info[n].refCount == 0
    ensures Linked(env, s.(nNew := s.nNew - 1), zero - {n}, limbo + {n})
  {
    hide Counted;
    var t := s.(nNew := s.nNew - 1);
    ShelvedCounts(s, n, limbo);
    ReferencedKept(env, s, t, zero, limbo, zero - {n}, limbo + {n});
    SlotsKept(env, s, t);
    IndexedKept(s, t);
    OrderedKept(s, t);
  }

  lemma UnshelvedLinked(env: Env, s: State, n: int, zero: set<int>, limbo: set<int>)
    requires Linked(env, s, zero, limbo)
    requires n in limbo
    ensures Linked(env, s.(nNew := s.nNew + 1), zero + {n}, limbo - {n})
  {
    hide Counted;
    var t := s.(nNew := s.nNew + 1);
    UnshelvedCounts(s, n, limbo);
    ReferencedKept(env, s, t, zero, limbo, zero + {n}, limbo - {n});
    SlotsKept(env, s, t);
    IndexedKept(s, t);
    OrderedKept(s, t);
  }

  // ---- Statistics and the random order

  lemma TouchedLinked(env: Env, s: State, n: int, e: Entry, zero: set<int>, limbo: set<int>)
    requires Linked(env, s, zero, limbo)
    requires n in s.info && e.svc == s.info[n].entry.svc
    ensures Linked(env, Touched(s, n, e), zero, limbo)
  {
    hide Counted;
    var t := Touched(s, n, e);
    IndexedKept(s, t);
    OrderedKept(s, t);
    SlotsKept(env, s, t);
    ReferencedKept(env, s, t, zero, limbo, zero, limbo);
    CountsKept(s, t, limbo);
  }

  lemma SwappedPermutes(s: State, i: nat, j: nat)
    requires i < |s.random| && j < |s.random|
    ensures multiset(Swapped(s, i, j).random) == multiset(s.random)
  {
  }

  lemma SwappedSame(s: State, i: nat, j: nat)
    requires i < |s.random| && j < |s.random| && s.random[i] in s.info && s.random[j] in s.info
    ensures SameTables(s, Swapped(s, i, j))
    ensures forall n :: n in s.info ==> Swapped(s, i, j).info[n].entry == s.info[n].entry
  {
  }

  lemma SwappedOrdered(s: State, i: nat, j: nat)
    requires Ordered(s) && i < |s.random| && j < |s.random|
    ensures s.random[i] in s.info && s.random[j] in s.info
    ensures Ordered(Swapped(s, i, j))
  {
    var t := Swapped(s, i, j);
    if i != j {
      assert s.random[i] != s.random[j];
      forall k | 0 <= k < |t.random|
        ensures t.random[k] in t.info && t.info[t.random[k]].randomPos == k
      {
        var n := t.random[k];
        assert n in s.info;
        assert k != i && k != j ==> n == s.random[k];
      }
    }
  }

  lemma SwappedLinked(env: Env, s: State, i: nat, j: nat, zero: set<int>, limbo: set<int>)
    requires Linked(env, s, zero, limbo) && i < |s.random| && j < |s.random|
    ensures Linked(env, Swapped(s, i, j), zero, limbo)
    ensures multiset(Swapped(s, i, j).random) == multiset(s.random)
  {
    hide Counted;
    SwappedPermutes(s, i, j);
    SwappedOrdered(s, i, j);
    SwappedSame(s, i, j);
    var t := Swapped(s, i, j);
    IndexedKept(s, t);
    SlotsKept(env, s, t);
    ReferencedKept(env, s, t, zero, limbo, zero, limbo);
    CountsKept(s, t, limbo);
  }

  // ---- Creating and deleting an entry

  lemma UnheldHasNoBuckets(env: Env, s: State, n: int)
    requires Shaped(s) && n in s.info && n != -1
    requires forall b: nat, p: nat :: b < NEW_BUCKETS && p < BUCKET_SIZE ==> s.newT[b][p] != n
    ensures Buckets(env, s, n) == {}
  {
  }

  lemma CreatedIndexes(s: State, e: Entry)
    requires Indexed(s) && Ordered(s) && s.idCount >= 0 && e.svc.addr !in s.addrs
    ensures Indexed(Created(s, e)) && Ordered(Created(s, e))
  {
    var t := Created(s, e);
    forall a | a in t.addrs
      ensures t.addrs[a] in t.info && t.info[t.addrs[a]].entry.svc.addr == a
    {
      if a in s.addrs {
        var n := s.addrs[a];
        assert n in s.info;
      }
    }
    forall i | 0 <= i < |t.random|
      ensures t.random[i] in t.info && t.info[t.random[i]].randomPos == i
    {
      if i < |s.random| {
        var n := s.random[i];
        assert n in s.info;
      }
    }
  }

  lemma CreatedReferenced(env: Env, s: State, e: Entry, zero: set<int>, limbo: set<int>)
    requires Shaped(s) && Ranged(s) && NewSlots(env, s) && s.idCount >= 0
    requires Referenced(env, s, zero, limbo) && s.idCount !in limbo
    ensures Referenced(env, Created(s, e), zero, limbo + {s.idCount})
    ensures Buckets(env, Created(s, e), s.idCount) == {}
  {
    var t := Created(s, e);
    assert s.idCount !in s.info;
    UnheldHasNoBuckets(env, t, s.idCount);
    forall n | n in s.info
      ensures Buckets(env, t, n) == Buckets(env, s, n)
    {
      BucketsKept(env, s, t, n);
    }
  }

  lemma CreatedCounts(s: State, e: Entry, limbo: set<int>)
    requires Counted(s, limbo) && limbo <= NewIds(s) && s.idCount !in s.info
    ensures Counted(Created(s, e), limbo + {s.idCount}) && limbo + {s.idCount} <= NewIds(Created(s, e))
  {
    var t := Created(s, e);
    forall n
      ensures n in NewIds(t) <==> n in NewIds(s) + {s.idCount}
      ensures n in TriedIds(t) <==> n in TriedIds(s)
    {
    }
    assert NewIds(t) == NewIds(s) + {s.idCount};
    assert TriedIds(t) == TriedIds(s);
    assert NewIds(t) - (limbo + {s.idCount}) == NewIds(s) - limbo;
  }

  lemma CreatedLinked(env: Env, s: State, e: Entry, zero: set<int>)
    requires Linked(env, s, zero, {}) && e.svc.addr !in s.addrs
    ensures Linked(env, Created(s, e), zero, {s.idCount})
    ensures Buckets(env, Created(s, e), s.idCount) == {}
  {
    hide Counted, Ordered;
    IndexedRanged(s);
    CreatedIndexes(s, e);
    CreatedReferenced(env, s, e, zero, {});
    CreatedCounts(s, e, {});
    assert {} + {s.idCount} == {s.idCount};
  }

  lemma DroppedIndexes(s: State, n: int)
    requires Indexed(s) && Ordered(s) && n in s.info && s.info[n].randomPos == |s.random| - 1
    ensures Indexed(Dropped(s, n)) && Ordered(Dropped(s, n))
  {
    var t := Dropped(s, n);
    forall a | a in t.addrs
      ensures t.addrs[a] in t.info && t.info[t.addrs[a]].entry.svc.addr == a
    {
      var m := s.addrs[a];
      assert m in s.info && m != n;
    }
    forall i | 0 <= i < |t.random|
      ensures t.random[i] in t.info && t.info[t.random[i]].randomPos == i
    {
      var m := s.random[i];
      assert m in s.info && m != n;
    }
  }

  lemma DroppedSlots(env: Env, s: State, n: int)
    requires Shaped(s) && NewSlots(env, s) && TriedSlots(env, s)
    requires n in s.info && |s.random| > 0 && !s.info[n].inTried && Buckets(env, s, n) == {}
    ensures NewSlots(env, Dropped(s, n)) && TriedSlots(env, Dropped(s, n))
  {
    var t := Dropped(s, n);
    forall b: nat, p: nat | b < NEW_BUCKETS && p < BUCKET_SIZE && t.newT[b][p] != -1
      ensures && t.newT[b][p] in t.info
              && !t.info[t.newT[b][p]].inTried
              && Position(env, t.key, t.info[t.newT[b][p]].entry.svc, true, b) == p
    {
      assert b !in Buckets(env, s, n);
    }
  }

  lemma DroppedReferenced(env: Env, s: State, n: int, zero: set<int>, limbo: set<int>)
    requires Shaped(s) && Referenced(env, s, zero, limbo)
    requires n in s.info && |s.random| > 0
    ensures Referenced(env, Dropped(s, n), zero - {n}, limbo)
    ensures forall m :: m in s.info && m != n ==> Buckets(env, Dropped(s, n), m) == Buckets(env, s, m)
  {
    var t := Dropped(s, n);
    forall m | m in t.info
      ensures Buckets(env, t, m) == Buckets(env, s, m)
    {
      BucketsKept(env, s, t, m);
    }
  }

  lemma DroppedCounts(s: State, n: int, limbo: set<int>)
    requires Counted(s, limbo) && limbo <= NewIds(s) && |s.random| > 0
    requires n in s.info && !s.info[n].inTried && n !in limbo
    ensures Counted(Dropped(s, n), limbo) && limbo <= NewIds(Dropped(s, n))
  {
    var t := Dropped(s, n);
    assert NewIds(t) == NewIds(s) - {n};
    assert TriedIds(t) == TriedIds(s);
    assert NewIds(t) - limbo == (NewIds(s) - limbo) - {n};
  }

  lemma DroppedLinked(env: Env, s: State, n: int, zero: set<int>, limbo: set<int>)
    requires Linked(env, s, zero, limbo)
    requires n in s.info && s.info[n].randomPos == |s.random| - 1
    requires !s.info[n].inTried && s.info[n].refCount == 0 && n !in limbo
    ensures Linked(env, Dropped(s, n), zero - {n}, limbo)
  {
    hide Counted;
    assert Buckets(env, s, n) == {};
    DroppedIndexes(s, n);
    DroppedSlots(env, s, n);
    DroppedReferenced(env, s, n, zero, limbo);
    DroppedCounts(s, n, limbo);
  }

  // ---- Leaving and entering the tried table

  lemma UntriedSlots(env: Env, s: State, n: int)
    requires Shaped(s) && NewSlots(env, s) && TriedSlots(env, s) && Indexed(s)
    requires n in s.info && s.info[n].inTried && TriedAt(env, s, s.info[n].entry.svc) == n
    ensures Shaped(Untried(env, s, n))
    ensures NewSlots(env, Untried(env, s, n)) && TriedSlots(env, Untried(env, s, n))
  {
    var t := Untried(env, s, n);
    forall b: nat, p: nat | b < NEW_BUCKETS && p < BUCKET_SIZE && t.newT[b][p] != -1
      ensures && t.newT[b][p] in t.info
              && !t.info[t.newT[b][p]].inTried
              && Position(env, t.key, t.info[t.newT[b][p]].entry.svc, true, b) == p
    {
      assert s.newT[b][p] != -1;
    }
  }

  lemma UntriedReferenced(env: Env, s: State, n: int, zero: set<int>, limbo: set<int>)
    requires Shaped(s) && Referenced(env, s, zero, limbo) && Indexed(s)
    requires n in s.info && s.info[n].inTried && Shaped(Untried(env, s, n))
    ensures Referenced(env, Untried(env, s, n), zero, limbo + {n})
    ensures forall m :: m in s.info ==> Buckets(env, Untried(env, s, n), m) == Buckets(env, s, m)
  {
    var t := Untried(env, s, n);
    forall m | m in s.info
      ensures Buckets(env, t, m) == Buckets(env, s, m)
      ensures m != n && s.info[m].inTried ==> TriedAt(env, t, t.info[m].entry.svc) == m
    {
      BucketsKept(env, s, t, m);
    }
  }

  lemma UntriedCounts(env: Env, s: State, n: int, limbo: set<int>)
    requires Shaped(s) && Counted(s, limbo) && limbo <= NewIds(s)
    requires n in s.info && s.info[n].inTried
    ensures Counted(Untried(env, s, n), limbo + {n}) && limbo + {n} <= NewIds(Untried(env, s, n))
  {
    var t := Untried(env, s, n);
    assert NewIds(t) == NewIds(s) + {n};
    assert TriedIds(t) == TriedIds(s) - {n};
    assert NewIds(t) - (limbo + {n}) == NewIds(s) - limbo;
  }

  lemma UntriedLinked(env: Env, s: State, n: int, zero: set<int>, limbo: set<int>)
    requires Linked(env, s, zero, limbo)
    requires n in s.info && s.info[n].inTried
    ensures Linked(env, Untried(env, s, n), zero, limbo + {n})
    ensures TriedAt(env, Untried(env, s, n), s.info[n].entry.svc) == -1
  {
    hide Counted, NewSlots, TriedSlots, Ordered;
    var t := Untried(env, s, n);
    UntriedSlots(env, s, n);
    UntriedReferenced(env, s, n, zero, limbo);
    UntriedCounts(env, s, n, limbo);
    IndexedKept(s, t);
    OrderedKept(s, t);
  }

  lemma PromotedSlots(env: Env, s: State, n: int)
    requires Shaped(s) && NewSlots(env, s) && TriedSlots(env, s)
    requires n in s.info && Buckets(env, s, n) == {}
    ensures Shaped(Promoted(env, s, n))
    ensures NewSlots(env, Promoted(env, s, n)) && TriedSlots(env, Promoted(env, s, n))
  {
    var t := Promoted(env, s, n);
    forall b: nat, p: nat | b < NEW_BUCKETS && p < BUCKET_SIZE && t.newT[b][p] != -1
      ensures && t.newT[b][p] in t.info
              && !t.info[t.newT[b][p]].inTried
              && Position(env, t.key, t.info[t.newT[b][p]].entry.svc, true, b) == p
    {
      assert b !in Buckets(env, s, n);
    }
  }

  lemma PromotedReferenced(env: Env, s: State, n: int, zero: set<int>, limbo: set<int>)
    requires Shaped(s) && Referenced(env, s, zero, limbo) && Ranged(s)
    requires n in limbo && n in s.info && TriedAt(env, s, s.info[n].entry.svc) == -1
    requires Shaped(Promoted(env, s, n))
    ensures Referenced(env, Promoted(env, s, n), zero, limbo - {n})
    ensures forall m :: m in s.info ==> Buckets(env, Promoted(env, s, n), m) == Buckets(env, s, m)
  {
    var t := Promoted(env, s, n);
    forall m | m in s.info
      ensures Buckets(env, t, m) == Buckets(env, s, m)
      ensures m != n && s.info[m].inTried ==> TriedAt(env, t, t.info[m].entry.svc) == m
    {
      BucketsKept(env, s, t, m);
    }
  }

  lemma PromotedCounts(env: Env, s: State, n: int, limbo: set<int>)
    requires Shaped(s) && Counted(s, limbo) && limbo <= NewIds(s) && n in limbo
    ensures Counted(Promoted(env, s, n), limbo - {n}) && limbo - {n} <= NewIds(Promoted(env, s, n))
  {
    var t := Promoted(env, s, n);
    assert NewIds(t) == NewIds(s) - {n};
    assert TriedIds(t) == TriedIds(s) + {n};
    assert NewIds(t) - (limbo - {n}) == NewIds(s) - limbo;
  }

  lemma PromotedLinked(env: Env, s: State, n: int, zero: set<int>, limbo: set<int>)
    requires Linked(env, s, zero, limbo)
    requires n in limbo && TriedAt(env, s, s.info[n].entry.svc) == -1
    ensures Linked(env, Promoted(env, s, n), zero, limbo - {n})
  {
    hide Counted, NewSlots, TriedSlots, Ordered;
    var t := Promoted(env, s, n);
    assert Buckets(env, s, n) == {};
    IndexedRanged(s);
    PromotedSlots(env, s, n);
    PromotedReferenced(env, s, n, zero, limbo);
    PromotedCounts(env, s, n, limbo);
    IndexedKept(s, t);
    OrderedKept(s, t);
  }
}
