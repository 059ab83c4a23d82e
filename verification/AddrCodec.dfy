/**
 The serialized form of the address manager (src/addrman.h): entries of the
 new table, entries of the tried table, then for each new bucket the indices of
 the entries in it. Positions, reference counts and the tried table are not
 written; they are recomputed when reading.
 */
module AddrCodec {
  import opened Collections
  import opened AddrTypes
  import opened AddrState
  import opened AddrBook
  import opened AddrView

  datatype Token = U8(n: nat) | Key(k: int) | I32(i: int) | Item(e: Entry)

  /** The fields of an entry that are written out. */
  function Persist(e: Entry): Entry {
    e.(lastTry := 0, lastCountAttempt := 0)
  }

  /** n ^ (1 << 30) on two's complement integers. */
  function Xor30(n: int): (r: int)
    ensures r != n
  {
    if (n / 0x4000_0000) % 2 == 1 then n - 0x4000_0000 else n + 0x4000_0000
  }

  lemma Xor30Twice(n: int)
    ensures Xor30(Xor30(n)) == n
  {
    var q := n / 0x4000_0000;
    assert (n - 0x4000_0000) / 0x4000_0000 == q - 1;
    assert (n + 0x4000_0000) / 0x4000_0000 == q + 1;
  }

  // ---- The order of a std::map

  ghost function Sorted(s: set<int>): (q: seq<int>)
    ensures StrictlyAscending(q) && |q| == |s|
    ensures forall x :: x in q <==> x in s
    decreases |s|
  {
    if s == {} then []
    else
      var x := Least(s);
      var rest := Sorted(s - {x});
      assert forall i :: 0 <= i < |rest| ==> rest[i] in s - {x};
      [x] + rest
  }

  /** The identifiers of ids that are in the tried table, or those that are not, in order. */
  ghost function Keep(s: State, ids: seq<int>, tried: bool): (q: seq<int>)
    requires forall i :: 0 <= i < |ids| ==> ids[i] in s.info
    ensures forall x :: x in q <==> x in ids && s.info[x].inTried == tried
    ensures forall i :: 0 <= i < |q| ==> q[i] in s.info && s.info[q[i]].inTried == tried
  {
    if ids == [] then []
    else
      var last := |ids| - 1;
      var q := Keep(s, ids[..last], tried);
      assert forall x :: x in ids <==> x in ids[..last] || x == ids[last];
      if s.info[ids[last]].inTried == tried then q + [ids[last]] else q
  }

  lemma {:induction false} KeepAscending(s: State, ids: seq<int>, tried: bool)
    requires (forall i :: 0 <= i < |ids| ==> ids[i] in s.info) && StrictlyAscending(ids)
    ensures StrictlyAscending(Keep(s, ids, tried))
  {
    if ids != [] {
      var last := |ids| - 1;
      KeepAscending(s, ids[..last], tried);
      var q := Keep(s, ids[..last], tried);
      forall i | 0 <= i < |q|
        ensures q[i] < ids[last]
      {
        assert q[i] in q;
        assert q[i] in ids[..last];
      }
      AscendingSnoc(q, ids[last]);
    }
  }

  lemma AscendingSnoc(q: seq<int>, x: int)
    requires StrictlyAscending(q) && forall i :: 0 <= i < |q| ==> q[i] < x
    ensures StrictlyAscending(q + [x])
  {
  }

  lemma SortedNext(s: set<int>)
    requires s != {}
    ensures Sorted(s) == [Least(s)] + Sorted(s - {Least(s)})
  {
  }

  ghost function NewOrder(s: State): (q: seq<int>)
    ensures forall i :: 0 <= i < |q| ==> q[i] in s.info
  {
    Keep(s, Sorted(s.info.Keys), false)
  }

  ghost function TriedOrder(s: State): (q: seq<int>)
    ensures forall i :: 0 <= i < |q| ==> q[i] in s.info
  {
    Keep(s, Sorted(s.info.Keys), true)
  }

  /** All identifiers in the order in which their entries are written. */
  ghost function Order(s: State): seq<int> {
    NewOrder(s) + TriedOrder(s)
  }

  ghost function IndexOf(q: seq<int>, x: int): (i: nat)
    requires x in q
    ensures i < |q| && q[i] == x
  {
    if q[0] == x then 0 else 1 + IndexOf(q[1..], x)
  }

  // ---- The stream

  ghost function Entries(s: State, ids: seq<int>): seq<Token>
    requires forall i :: 0 <= i < |ids| ==> ids[i] in s.info
  {
    seq(|ids|, i requires 0 <= i < |ids| => Item(Persist(s.info[ids[i]].entry)))
  }

  /** The indices, in the order of writing, of the entries in one bucket. */
  ghost function Indices(order: seq<int>, row: seq<int>): seq<Token> {
    if row == [] then []
    else
      var last := |row| - 1;
      Indices(order, row[..last]) + if row[last] in order then [I32(IndexOf(order, row[last]))] else []
  }

  /** Buckets b and up. */
  ghost function Rows(s: State, b: nat): seq<Token>
    decreases |s.newT| - b
  {
    if b >= |s.newT| then []
    else
      var indices := Indices(NewOrder(s), s.newT[b]);
      [I32(|indices|)] + indices + Rows(s, b + 1)
  }

  ghost function Encode(s: State): seq<Token> {
    [U8(1), U8(32), Key(s.key), I32(s.nNew), I32(s.nTried), I32(Xor30(NEW_BUCKETS))]
    + Entries(s, NewOrder(s)) + Entries(s, TriedOrder(s)) + Rows(s, 0)
  }

  // ---- The orders

  lemma {:induction false} DistinctSize<T>(q: seq<T>, s: set<T>)
    requires Distinct(q) && forall x :: x in q <==> x in s
    ensures |q| == |s|
  {
    if q == [] {
      assert s == {};
    } else {
      var last := |q| - 1;
      forall x
        ensures x in q[..last] <==> x in s - {q[last]}
      {
        assert x in q <==> x in q[..last] || x == q[last];
      }
      DistinctSize(q[..last], s - {q[last]});
    }
  }

  lemma KeysOrdered(s: State)
    ensures forall i :: 0 <= i < |Sorted(s.info.Keys)| ==> Sorted(s.info.Keys)[i] in s.info
    ensures StrictlyAscending(NewOrder(s)) && StrictlyAscending(TriedOrder(s))
    ensures forall n :: n in NewOrder(s) <==> n in NewIds(s)
    ensures forall n :: n in TriedOrder(s) <==> n in TriedIds(s)
  {
    var keys := Sorted(s.info.Keys);
    KeepAscending(s, keys, false);
    KeepAscending(s, keys, true);
  }

  lemma OrderFacts(s: State)
    requires Counted(s, {})
    ensures |NewOrder(s)| == s.nNew && |TriedOrder(s)| == s.nTried
    ensures forall n :: n in NewOrder(s) <==> n in s.info && !s.info[n].inTried
    ensures forall n :: n in TriedOrder(s) <==> n in s.info && s.info[n].inTried
    ensures Distinct(Order(s)) && Distinct(NewOrder(s))
  {
    KeysOrdered(s);
    hide Sorted, Keep;
    DistinctSize(NewOrder(s), NewIds(s));
    DistinctSize(TriedOrder(s), TriedIds(s));
    assert NewIds(s) - {} == NewIds(s);
    var n, t := NewOrder(s), TriedOrder(s);
    forall i, j | 0 <= i < j < |n + t|
      ensures (n + t)[i] != (n + t)[j]
    {
      if i < |n| <= j {
        assert n[i] in n && t[j - |n|] in t;
      }
    }
  }

  lemma {:induction false} IndexIs(q: seq<int>, i: nat)
    requires i < |q| && Distinct(q)
    ensures IndexOf(q, q[i]) == i
  {
    var j := IndexOf(q, q[i]);
    assert q[j] == q[i];
  }

  // ---- How far reading has got

  /** Has bucket c been read, when the buckets below b and the positions below k of b have? */
  ghost predicate Done(env: Env, key: int, svc: Service, c: nat, b: nat, k: nat) {
    c < b || (c == b && Position(env, key, svc, true, c) < k)
  }

  ghost function Read(env: Env, key: int, r: Rec, b: nat, k: nat): set<nat> {
    set c | c in r.buckets && Done(env, key, r.entry.svc, c, b, k)
  }

  /** A record renumbered and without in-memory fields, in the buckets read so far. */
  ghost function Renewed(env: Env, key: int, order: seq<int>, r: Rec, b: nat, k: nat): Rec
    requires r.id in order
  {
    Rec(IndexOf(order, r.id), Persist(r.entry), r.tried, Read(env, key, r, b, k))
  }

  /** The book after reading the first cnt entries of the given order, and buckets up to position k of b. */
  ghost function Stage(env: Env, key: int, order: seq<int>, recs: map<NetAddr, Rec>, cnt: nat, b: nat, k: nat): map<NetAddr, Rec> {
    map a | a in recs && recs[a].id in order && IndexOf(order, recs[a].id) < cnt :: Renewed(env, key, order, recs[a], b, k)
  }

  /** Every record is somewhere in the order, and no two at one place. */
  ghost predicate Listed(order: seq<int>, recs: map<NetAddr, Rec>) {
    && Distinct(order)
    && (forall a :: a in recs ==> recs[a].id in order)
    && (forall a, a' :: a in recs && a' in recs && recs[a].id == recs[a'].id ==> a == a')
  }

  lemma StageLoad(env: Env, key: int, order: seq<int>, recs: map<NetAddr, Rec>, cnt: nat, a: NetAddr)
    requires Listed(order, recs) && cnt < |order| && a in recs && recs[a].id == order[cnt]
    ensures a !in Stage(env, key, order, recs, cnt, 0, 0)
    ensures Stage(env, key, order, recs, cnt + 1, 0, 0) ==
            Stage(env, key, order, recs, cnt, 0, 0)[a := Rec(cnt, Persist(recs[a].entry), recs[a].tried, {})]
  {
    hide Persist;
    IndexIs(order, cnt);
    forall x | x in recs
      ensures IndexOf(order, recs[x].id) == cnt <==> x == a
    {
    }
    assert Read(env, key, recs[a], 0, 0) == {};
  }

  lemma StageRow(env: Env, key: int, order: seq<int>, recs: map<NetAddr, Rec>, cnt: nat, b: nat)
    ensures Stage(env, key, order, recs, cnt, b, BUCKET_SIZE) == Stage(env, key, order, recs, cnt, b + 1, 0)
  {
    forall a | a in recs
      ensures Read(env, key, recs[a], b, BUCKET_SIZE) == Read(env, key, recs[a], b + 1, 0)
    {
    }
  }

  lemma ReadSlot(env: Env, key: int, r: Rec, b: nat, k: nat)
    ensures Read(env, key, r, b, k + 1) ==
            if HoldsNew(env, key, r, b, k) then Read(env, key, r, b, k) + {b} else Read(env, key, r, b, k)
    ensures HoldsNew(env, key, r, b, k) ==> b !in Read(env, key, r, b, k)
  {
    assert HoldsNew(env, key, r, b, k) ==> Read(env, key, r, b, k + 1) == Read(env, key, r, b, k) + {b};
    assert !HoldsNew(env, key, r, b, k) ==> Read(env, key, r, b, k + 1) == Read(env, key, r, b, k);
  }

  /** Position k of bucket b is read: the address that holds it gains b. */
  lemma StageSlot(env: Env, key: int, order: seq<int>, recs: map<NetAddr, Rec>, cnt: nat, b: nat, k: nat, a: NetAddr)
    requires Listed(order, recs) && cnt == |order| && a in recs && HoldsNew(env, key, recs[a], b, k)
    requires forall x :: x in recs && HoldsNew(env, key, recs[x], b, k) ==> x == a
    ensures var st := Stage(env, key, order, recs, cnt, b, k);
            && a in st && b !in st[a].buckets
            && Stage(env, key, order, recs, cnt, b, k + 1) == st[a := st[a].(buckets := st[a].buckets + {b})]
  {
    hide Read, HoldsNew, IndexOf;
    forall x | x in recs
      ensures Read(env, key, recs[x], b, k + 1) ==
              if x == a then Read(env, key, recs[x], b, k) + {b} else Read(env, key, recs[x], b, k)
    {
      ReadSlot(env, key, recs[x], b, k);
    }
    ReadSlot(env, key, recs[a], b, k);
  }

  lemma StageSkip(env: Env, key: int, order: seq<int>, recs: map<NetAddr, Rec>, cnt: nat, b: nat, k: nat)
    requires !NewTaken(env, key, recs, b, k)
    ensures Stage(env, key, order, recs, cnt, b, k + 1) == Stage(env, key, order, recs, cnt, b, k)
  {
    forall x | x in recs
      ensures Read(env, key, recs[x], b, k + 1) == Read(env, key, recs[x], b, k)
    {
      assert !HoldsNew(env, key, recs[x], b, k);
    }
  }

  // ---- States while reading

  function LoadedNew(t: State, n: int, e: Entry): State {
    t.(info := t.info[n := Info(e, 0, false, |t.random|)], addrs := t.addrs[e.svc.addr := n], random := t.random + [n])
  }

  function LoadedTried(env: Env, t: State, e: Entry): State {
    t.(info := t.info[t.idCount := Info(e, 0, true, |t.random|)],
       addrs := t.addrs[e.svc.addr := t.idCount],
       random := t.random + [t.idCount],
       triedT := SetSlot(t.triedT, TriedBucket(env, t.key, e.svc), TriedPosition(env, t.key, e.svc), t.idCount),
       idCount := t.idCount + 1)
  }

  ghost function Below(n: int): (r: set<int>)
    ensures forall i :: i in r <==> 0 <= i < n
    decreases if n < 0 then 0 else n
  {
    if n <= 0 then {} else Below(n - 1) + {n - 1}
  }

  /** t with the counters that cnt entries read so far, of which at most nNew are new, amount to. */
  function Tallied(t: State, cnt: nat, nNew: int): State {
    t.(idCount := cnt, nNew := if cnt < nNew then cnt else nNew, nTried := if cnt < nNew then 0 else cnt - nNew)
  }

  /** t is what reading the stream of s has built so far. */
  ghost predicate Loading(env: Env, s: State, t: State, cnt: nat, b: nat, k: nat) {
    && t.key == s.key
    && Linked(env, Tallied(t, cnt, s.nNew), Below(s.nNew), {})
    && View(env, Tallied(t, cnt, s.nNew)) == Stage(env, s.key, Order(s), View(env, s), cnt, b, k)
  }

  lemma ViewListed(env: Env, s: State)
    requires Consistent(env, s)
    ensures Listed(Order(s), View(env, s))
    ensures |Order(s)| == s.nNew + s.nTried && 0 <= s.nNew && 0 <= s.nTried
    ensures forall i :: 0 <= i < |Order(s)| ==>
              var n := Order(s)[i];
              && n in s.info && (s.info[n].inTried <==> i >= s.nNew)
              && s.info[n].entry.svc.addr in View(env, s)
              && View(env, s)[s.info[n].entry.svc.addr] == RecOf(env, s, n)
  {
    hide Counted, NewSlots, TriedSlots, Referenced, Ordered, Order, Sorted, Keep, Buckets;
    OrderFacts(s);
    OrderMembers(s);
    var recs := View(env, s);
    forall a | a in recs
      ensures recs[a].id in s.info && s.info[recs[a].id].entry.svc.addr == a
    {
      ViewId(env, s, a);
    }
  }

  lemma OrderMembers(s: State)
    requires Counted(s, {})
    ensures |Order(s)| == s.nNew + s.nTried && 0 <= s.nNew && 0 <= s.nTried
    ensures forall n :: n in Order(s) <==> n in s.info
    ensures forall i :: 0 <= i < |Order(s)| ==>
              Order(s)[i] in s.info && (s.info[Order(s)[i]].inTried <==> i >= s.nNew)
  {
    OrderFacts(s);
    hide Sorted, Keep, NewOrder, TriedOrder;
    var n, t := NewOrder(s), TriedOrder(s);
    forall i | 0 <= i < |Order(s)|
      ensures Order(s)[i] in s.info && (s.info[Order(s)[i]].inTried <==> i >= s.nNew)
    {
      if i < |n| {
        assert n[i] in n;
      } else {
        assert t[i - |n|] in t;
      }
    }
    assert forall x :: x in Order(s) <==> x in n || x in t;
  }

  lemma LoadingNew(env: Env, s: State, t: State, cnt: nat)
    requires Consistent(env, s) && Loading(env, s, t, cnt, 0, 0) && cnt < s.nNew
    ensures cnt < |Order(s)| && Order(s)[cnt] in s.info
    ensures Loading(env, s, LoadedNew(t, cnt, Persist(s.info[Order(s)[cnt]].entry)), cnt + 1, 0, 0)
  {
    hide Counted, NewSlots, TriedSlots, Referenced, Ordered, Indexed, Order, View, Stage, Listed, Below, Buckets;
    ViewListed(env, s);
    var n := Order(s)[cnt];
    var a, e := s.info[n].entry.svc.addr, Persist(s.info[n].entry);
    StageLoad(env, s.key, Order(s), View(env, s), cnt, a);
    var v := Tallied(t, cnt, s.nNew);
    NotYetKnown(env, v, a, Below(s.nNew));
    CreatedView(env, v, e, Below(s.nNew));
    UnshelvedView(env, Created(v, e), cnt, Below(s.nNew), {cnt});
    assert Below(s.nNew) + {cnt} == Below(s.nNew) && {cnt} - {cnt} == {};
    assert Tallied(LoadedNew(t, cnt, e), cnt + 1, s.nNew) == Created(v, e).(nNew := v.nNew + 1);
  }

  lemma NotYetKnown(env: Env, v: State, a: NetAddr, zero: set<int>)
    requires Linked(env, v, zero, {}) && a !in View(env, v)
    ensures a !in v.addrs
  {
    hide Counted, NewSlots, TriedSlots, Referenced, Ordered;
  }

  /** A tried slot that address a holds in s is still free before a is read. */
  lemma TriedStillFree(env: Env, s: State, cnt: nat, a: NetAddr, svc: Service)
    requires Consistent(env, s) && a in View(env, s) && HoldsTried(env, s.key, View(env, s)[a], svc)
    requires a !in Stage(env, s.key, Order(s), View(env, s), cnt, 0, 0)
    ensures !TriedTaken(env, s.key, Stage(env, s.key, Order(s), View(env, s), cnt, 0, 0), svc)
  {
    hide Counted, NewSlots, Referenced, Ordered, Order;
    TriedSlotView(env, s, svc, {}, {});
    var st := Stage(env, s.key, Order(s), View(env, s), cnt, 0, 0);
    forall h | h in st && HoldsTried(env, s.key, st[h], svc)
      ensures h == a
    {
      assert HoldsTried(env, s.key, View(env, s)[h], svc);
    }
  }

  lemma LoadingTried(env: Env, s: State, t: State, cnt: nat)
    requires Consistent(env, s) && Loading(env, s, t, cnt, 0, 0) && s.nNew <= cnt < |Order(s)| && t.idCount == cnt
    ensures Order(s)[cnt] in s.info
    ensures TriedAt(env, t, s.info[Order(s)[cnt]].entry.svc) == -1
    ensures Loading(env, s, LoadedTried(env, t, Persist(s.info[Order(s)[cnt]].entry)), cnt + 1, 0, 0)
  {
    hide Counted, NewSlots, TriedSlots, Referenced, Ordered, Indexed, Order, View, Stage, Listed, Below, Buckets, TriedTaken;
    ViewListed(env, s);
    var n := Order(s)[cnt];
    var a, e := s.info[n].entry.svc.addr, Persist(s.info[n].entry);
    StageLoad(env, s.key, Order(s), View(env, s), cnt, a);
    TriedStillFree(env, s, cnt, a, e.svc);
    var v := Tallied(t, cnt, s.nNew);
    TriedHolderView(env, v, e.svc, Below(s.nNew), {});
    NotYetKnown(env, v, a, Below(s.nNew));
    CreatedView(env, v, e, Below(s.nNew));
    PromotedView(env, Created(v, e), cnt, Below(s.nNew), {cnt});
    assert {cnt} - {cnt} == {};
    LimboEntry(env, Created(v, e), cnt, Below(s.nNew), {cnt});
    assert Tallied(LoadedTried(env, t, e), cnt + 1, s.nNew) == Promoted(env, Created(v, e), cnt);
  }

  lemma {:induction false} IndexInPrefix(q: seq<int>, r: seq<int>, x: int)
    requires x in q
    ensures x in q + r && IndexOf(q + r, x) == IndexOf(q, x)
  {
    if q[0] != x {
      assert (q + r)[1..] == q[1..] + r;
      IndexInPrefix(q[1..], r, x);
    }
  }

  lemma ReadSmaller(env: Env, key: int, r: Rec, b: nat, k: nat)
    requires HoldsNew(env, key, r, b, k) && |r.buckets| <= NEW_BUCKETS_PER_ADDRESS
    ensures |Read(env, key, r, b, k)| < NEW_BUCKETS_PER_ADDRESS
  {
    var read := Read(env, key, r, b, k);
    assert r.buckets == read + (r.buckets - read);
    assert b in r.buckets - read;
  }

  /** The holder of slot (b, k) in s, under its new identifier. */
  lemma SlotTurn(env: Env, s: State, v: State, b: nat, k: nat)
    requires Consistent(env, s) && b < NEW_BUCKETS && k < BUCKET_SIZE && At(s.newT, b, k) != -1 && v.key == s.key
    requires Linked(env, v, Below(s.nNew), {})
    requires View(env, v) == Stage(env, s.key, Order(s), View(env, s), |Order(s)|, b, k)
    ensures At(s.newT, b, k) in NewOrder(s)
    ensures var i := IndexOf(NewOrder(s), At(s.newT, b, k));
            var st := Stage(env, s.key, Order(s), View(env, s), |Order(s)|, b, k);
            && i < s.nNew && i in v.info && !v.info[i].inTried && v.info[i].refCount < NEW_BUCKETS_PER_ADDRESS
            && Position(env, s.key, v.info[i].entry.svc, true, b) == k
            && v.info[i].entry.svc.addr in st
            && st[v.info[i].entry.svc.addr] == RecOf(env, v, i)
            && Stage(env, s.key, Order(s), View(env, s), |Order(s)|, b, k + 1) ==
               st[v.info[i].entry.svc.addr := RecOf(env, v, i).(buckets := Buckets(env, v, i) + {b})]
  {
    hide Counted, NewSlots, TriedSlots, Ordered, Indexed, NewOrder, TriedOrder, View, Stage, Listed, Below, Buckets;
    SlotHolder(env, s, b, k, {}, {});
    ViewListed(env, s);
    OrderFacts(s);
    var n := At(s.newT, b, k);
    var a := s.info[n].entry.svc.addr;
    IndexInPrefix(NewOrder(s), TriedOrder(s), n);
    StageSlot(env, s.key, Order(s), View(env, s), |Order(s)|, b, k, a);
    StageAt(env, s.key, Order(s), View(env, s), |Order(s)|, b, k, a);
    ViewId(env, v, a);
    RefCountIs(env, v, IndexOf(NewOrder(s), n), Below(s.nNew), {});
    ReadSmaller(env, s.key, View(env, s)[a], b, k);
  }

  lemma StageAt(env: Env, key: int, order: seq<int>, recs: map<NetAddr, Rec>, cnt: nat, b: nat, k: nat, a: NetAddr)
    requires a in Stage(env, key, order, recs, cnt, b, k)
    ensures a in recs && recs[a].id in order
    ensures Stage(env, key, order, recs, cnt, b, k)[a] == Renewed(env, key, order, recs[a], b, k)
  {
  }

  lemma SlotStillFree(env: Env, key: int, order: seq<int>, recs: map<NetAddr, Rec>, cnt: nat, b: nat, k: nat)
    ensures !NewTaken(env, key, Stage(env, key, order, recs, cnt, b, k), b, k)
  {
  }

  lemma LoadingSlot(env: Env, s: State, t: State, b: nat, k: nat)
    requires Consistent(env, s) && Loading(env, s, t, |Order(s)|, b, k)
    requires b < NEW_BUCKETS && k < BUCKET_SIZE && At(s.newT, b, k) != -1
    ensures At(s.newT, b, k) in NewOrder(s)
    ensures var i := IndexOf(NewOrder(s), At(s.newT, b, k));
            && i < s.nNew && i in t.info && t.info[i].refCount < NEW_BUCKETS_PER_ADDRESS
            && Position(env, t.key, t.info[i].entry.svc, true, b) == k && At(t.newT, b, k) == -1
            && Loading(env, s, Occupied(env, t, i, b), |Order(s)|, b, k + 1)
  {
    hide Counted, NewSlots, TriedSlots, Referenced, Ordered, Indexed, Order, NewOrder, View, Stage, Below, Buckets;
    var v := Tallied(t, |Order(s)|, s.nNew);
    SlotTurn(env, s, v, b, k);
    var i := IndexOf(NewOrder(s), At(s.newT, b, k));
    NewSlotView(env, v, b, k, Below(s.nNew), {});
    SlotStillFree(env, s.key, Order(s), View(env, s), |Order(s)|, b, k);
    OccupiedView(env, v, i, b, Below(s.nNew), {});
    Exempted(env, Occupied(env, v, i, b), i, Below(s.nNew) - {i}, {});
    assert Below(s.nNew) - {i} + {i} == Below(s.nNew);
    assert Tallied(Occupied(env, t, i, b), |Order(s)|, s.nNew) == Occupied(env, v, i, b);
  }

  lemma LoadingStart(env: Env, s: State, t: State)
    requires Consistent(env, s) && t.key == s.key
    requires Shaped(t) && t.info == map[] && t.addrs == map[] && t.random == []
    requires forall b: nat, p: nat :: b < NEW_BUCKETS && p < BUCKET_SIZE ==> t.newT[b][p] == -1
    requires forall b: nat, p: nat :: b < TRIED_BUCKETS && p < BUCKET_SIZE ==> t.triedT[b][p] == -1
    ensures Loading(env, s, t, 0, 0, 0)
  {
    hide NewSlots, TriedSlots, Referenced, Ordered, Indexed, Order, View;
    OrderMembers(s);
    hide Counted;
    var v := Tallied(t, 0, s.nNew);
    EmptyConsistent(env, v);
    MoreZero(env, v, {}, Below(s.nNew), {});
    StageNothing(env, s.key, Order(s), View(env, s));
  }

  lemma StageNothing(env: Env, key: int, order: seq<int>, recs: map<NetAddr, Rec>)
    ensures Stage(env, key, order, recs, 0, 0, 0) == map[]
  {
  }

  lemma MoreZero(env: Env, s: State, zero: set<int>, zero': set<int>, limbo: set<int>)
    requires Linked(env, s, zero, limbo) && zero <= zero'
    ensures Linked(env, s, zero', limbo)
  {
    hide Counted, NewSlots, TriedSlots;
  }

  lemma LoadingSkip(env: Env, s: State, t: State, cnt: nat, b: nat, k: nat)
    requires Consistent(env, s) && Loading(env, s, t, cnt, b, k)
    requires b < NEW_BUCKETS && k < BUCKET_SIZE && At(s.newT, b, k) == -1
    ensures Loading(env, s, t, cnt, b, k + 1)
  {
    hide Counted, TriedSlots, Referenced, Ordered, Order, View, Stage;
    NewSlotView(env, s, b, k, {}, {});
    StageSkip(env, s.key, Order(s), View(env, s), cnt, b, k);
  }

  lemma LoadingRow(env: Env, s: State, t: State, cnt: nat, b: nat)
    requires Loading(env, s, t, cnt, b, BUCKET_SIZE)
    ensures Loading(env, s, t, cnt, b + 1, 0)
  {
    hide Linked, Order, View, Stage;
    StageRow(env, s.key, Order(s), View(env, s), cnt, b);
  }

  // ---- Nothing is lost

  /** recs' is recs renumbered in the order of writing, and without in-memory fields. */
  ghost predicate Restores(recs: map<NetAddr, Rec>, recs': map<NetAddr, Rec>, order: seq<int>) {
    && (forall a :: a in recs' <==> a in recs)
    && (forall a :: a in recs ==>
          && recs[a].id in order
          && recs'[a] == Rec(IndexOf(order, recs[a].id), Persist(recs[a].entry), recs[a].tried, recs[a].buckets))
  }

  /** Every address comes back, with all that is known about it but for the last attempts. */
  ghost predicate ComesBack(recs: map<NetAddr, Rec>, recs': map<NetAddr, Rec>) {
    && recs'.Keys == recs.Keys
    && forall a :: a in recs ==>
         var e, e' := recs[a].entry, recs'[a].entry;
         && recs'[a].tried == recs[a].tried && recs'[a].buckets == recs[a].buckets
         && e'.svc == e.svc && e'.services == e.services && e'.time == e.time && e'.source == e.source
         && e'.lastSuccess == e.lastSuccess && e'.attempts == e.attempts && e'.lastTry == 0 && e'.lastCountAttempt == 0
  }

  lemma RestoresAll(recs: map<NetAddr, Rec>, recs': map<NetAddr, Rec>, order: seq<int>)
    requires Restores(recs, recs', order)
    ensures ComesBack(recs, recs')
  {
    assert forall a :: a in recs'.Keys <==> a in recs.Keys;
  }

  lemma StageEnd(env: Env, key: int, order: seq<int>, recs: map<NetAddr, Rec>)
    requires Listed(order, recs)
    requires forall a :: a in recs ==> forall c :: c in recs[a].buckets ==> c < NEW_BUCKETS
    ensures Restores(recs, Stage(env, key, order, recs, |order|, NEW_BUCKETS, 0), order)
  {
    forall a | a in recs
      ensures Read(env, key, recs[a], NEW_BUCKETS, 0) == recs[a].buckets
    {
    }
  }

  lemma BucketRange(env: Env, s: State)
    requires Consistent(env, s)
    ensures forall a :: a in View(env, s) ==> forall c :: c in View(env, s)[a].buckets ==> c < NEW_BUCKETS
    ensures forall a :: a in View(env, s) && !View(env, s)[a].tried ==> View(env, s)[a].buckets != {}
  {
    hide Counted, NewSlots, TriedSlots, Ordered;
    forall a | a in View(env, s)
      ensures forall c :: c in View(env, s)[a].buckets ==> c < NEW_BUCKETS
      ensures !View(env, s)[a].tried ==> View(env, s)[a].buckets != {}
    {
      ViewId(env, s, a);
    }
  }

  lemma AllReferenced(env: Env, v: State, zero: set<int>)
    requires Linked(env, v, zero, {})
    requires forall a :: a in View(env, v) && !View(env, v)[a].tried ==> View(env, v)[a].buckets != {}
    ensures Consistent(env, v)
    ensures forall n :: n in v.info ==> v.info[n].inTried || v.info[n].refCount != 0
  {
    hide Counted, NewSlots, TriedSlots;
    forall n | n in v.info && !v.info[n].inTried
      ensures v.info[n].refCount >= 1
    {
      ViewAt(env, v, n);
    }
  }

  /** Reading to the end gives the book that was written, with consistent indexes and nothing to prune. */
  lemma LoadingDone(env: Env, s: State, t: State)
    requires Consistent(env, s) && Loading(env, s, t, |Order(s)|, NEW_BUCKETS, 0)
    requires t.nNew == s.nNew && t.nTried == s.nTried && t.idCount == |Order(s)|
    ensures Consistent(env, t) && Restores(View(env, s), View(env, t), Order(s))
    ensures forall n :: n in t.info ==> t.info[n].inTried || t.info[n].refCount != 0
  {
    hide Counted, NewSlots, TriedSlots, Referenced, Ordered, Indexed, Order, View, Stage, Below;
    ViewListed(env, s);
    BucketRange(env, s);
    StageEnd(env, s.key, Order(s), View(env, s));
    var v := Tallied(t, |Order(s)|, s.nNew);
    assert v == t;
    AllReferenced(env, t, Below(s.nNew));
  }

  // ---- The limits on the counters

  ghost function Values(t: Table): set<int> {
    if t == [] then {} else Values(t[..|t| - 1]) + RowValues(t[|t| - 1])
  }

  ghost function RowValues(row: seq<int>): set<int> {
    set i | 0 <= i < |row| :: row[i]
  }

  lemma {:induction false} RowSize(row: seq<int>)
    ensures |RowValues(row)| <= |row|
  {
    if row != [] {
      RowSize(row[..|row| - 1]);
      assert RowValues(row) == RowValues(row[..|row| - 1]) + {row[|row| - 1]};
    }
  }

  lemma {:induction false} TableSize(t: Table)
    requires forall b :: 0 <= b < |t| ==> |t[b]| == BUCKET_SIZE
    ensures |Values(t)| <= BUCKET_SIZE * |t|
    ensures forall b, p :: 0 <= b < |t| && 0 <= p < BUCKET_SIZE ==> t[b][p] in Values(t)
  {
    if t != [] {
      var last := |t| - 1;
      TableSize(t[..last]);
      RowSize(t[last]);
      forall b, p | 0 <= b < |t| && 0 <= p < BUCKET_SIZE
        ensures t[b][p] in Values(t)
      {
        if b < last {
          assert t[..last][b][p] in Values(t[..last]);
        } else {
          assert t[last][p] in RowValues(t[last]);
        }
      }
    }
  }

  /** The counters of a consistent manager pass the checks made when reading them. */
  lemma CountersFit(env: Env, s: State)
    requires Consistent(env, s)
    ensures 0 <= s.nNew <= NEW_BUCKETS * BUCKET_SIZE && 0 <= s.nTried <= TRIED_BUCKETS * BUCKET_SIZE
  {
    hide Counted, NewSlots, TriedSlots, Referenced, Ordered, Indexed, NewIds, TriedIds;
    NewIdsFit(env, s);
    TriedIdsFit(env, s);
    CountersAre(env, s);
  }

  lemma CountersAre(env: Env, s: State)
    requires Consistent(env, s)
    ensures s.nNew == |NewIds(s)| && s.nTried == |TriedIds(s)|
  {
    hide NewSlots, TriedSlots, Referenced, Ordered, Indexed, NewIds, TriedIds;
    assert NewIds(s) - {} == NewIds(s);
  }

  /** The clause Check_ tests first: the random order has as many entries as are counted. */
  lemma RandomCounted(env: Env, s: State)
    requires Consistent(env, s)
    ensures |s.random| == s.nTried + s.nNew
  {
    hide Counted, NewSlots, TriedSlots, Referenced, Indexed, Ordered;
    CountersAre(env, s);
    RandomSize(s);
    assert s.info.Keys == NewIds(s) + TriedIds(s) && NewIds(s) !! TriedIds(s);
  }

  lemma RandomSize(s: State)
    requires Ordered(s)
    ensures |s.random| == |s.info.Keys|
  {
    assert forall n :: n in s.info.Keys ==> s.random[s.info[n].randomPos] == n;
    DistinctSize(s.random, s.info.Keys);
  }

  lemma NewIdsFit(env: Env, s: State)
    requires Consistent(env, s)
    ensures |NewIds(s)| <= NEW_BUCKETS * BUCKET_SIZE
  {
    hide Counted, NewSlots, TriedSlots, Referenced, Ordered, Indexed, NewIds, Values;
    TableSize(s.newT);
    forall n | n in NewIds(s)
      ensures n in Values(s.newT)
    {
      NewIdInTable(env, s, n);
    }
    SubsetSize(NewIds(s), Values(s.newT));
  }

  lemma TriedIdsFit(env: Env, s: State)
    requires Consistent(env, s)
    ensures |TriedIds(s)| <= TRIED_BUCKETS * BUCKET_SIZE
  {
    hide Counted, NewSlots, TriedSlots, Referenced, Ordered, Indexed, TriedIds, Values;
    TableSize(s.triedT);
    forall n | n in TriedIds(s)
      ensures n in Values(s.triedT)
    {
      TriedIdInTable(env, s, n);
    }
    SubsetSize(TriedIds(s), Values(s.triedT));
  }

  lemma TriedIdInTable(env: Env, s: State, n: int)
    requires Consistent(env, s) && n in TriedIds(s)
    requires forall b, p :: 0 <= b < |s.triedT| && 0 <= p < BUCKET_SIZE ==> s.triedT[b][p] in Values(s.triedT)
    ensures n in Values(s.triedT)
  {
    hide Counted, Values, NewSlots;
  }

  lemma NewIdInTable(env: Env, s: State, n: int)
    requires Consistent(env, s) && n in NewIds(s)
    requires forall b, p :: 0 <= b < |s.newT| && 0 <= p < BUCKET_SIZE ==> s.newT[b][p] in Values(s.newT)
    ensures n in Values(s.newT)
  {
    hide Counted, Values;
    ReferencedSomewhere(env, s, n);
    var b := Member(Buckets(env, s, n));
    assert s.newT[b][Position(env, s.key, s.info[n].entry.svc, true, b)] == n;
  }
}
