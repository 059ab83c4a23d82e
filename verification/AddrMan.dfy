/**
 CAddrMan (src/addrman.cpp): the address manager with its five cross-linked
 indexes, updated in place. Every operation keeps the indexes consistent and
 changes the book they stand for as AddrBook says.
 */
module AddrMan {
  import opened Numbers
  import opened AddrTypes
  import opened AddrState
  import opened AddrView
  import B = AddrBook
  import opened AddrRuns
  import F = AddrSafety
  import opened AddrDraws

  /** The bucket searched k steps after bucket start. */
  function BucketAfter(k: nat, start: nat): (b: nat)
    ensures b < NEW_BUCKETS
  {
    (k + start) % NEW_BUCKETS
  }

  /** Starting anywhere and wrapping around reaches every bucket. */
  lemma WrapReaches(b: nat, start: nat) returns (k: nat)
    requires b < NEW_BUCKETS
    ensures k < NEW_BUCKETS && BucketAfter(k, start) == b
  {
    k := (b - start) % NEW_BUCKETS;
  }

  lemma OffersNone(info: map<int, Info>, ids: seq<int>, now: int)
    ensures Offers(info, ids[..0], now) == []
  {
  }

  /** One more position of the random order is drawn from position n on. */
  lemma OffersStep(env: Env, s: State, n: nat, j: nat, now: int)
    requires Consistent(env, s) && n <= j < |s.random|
    ensures var t := Swapped(s, n, j);
            && s.random[n] in s.info && s.random[j] in s.info
            && |t.random| == |s.random|
            && (forall i :: 0 <= i < |t.random| ==> s.random[i] in s.info && t.random[i] in t.info)
            && Offers(t.info, t.random[..n + 1], now) ==
               Offers(s.info, s.random[..n], now) +
               if IsTerrible(t.info[t.random[n]].entry, now) then [] else [AddressOf(t.info[t.random[n]].entry)]
    ensures n == j ==> Swapped(s, n, j) == s
  {
    hide Counted, NewSlots, TriedSlots, Referenced, Indexed;
    SwappedOrdered(s, n, j);
    SwappedSame(s, n, j);
    var t := Swapped(s, n, j);
    assert t.random[..n] == s.random[..n];
    assert t.random[..n + 1][..n] == s.random[..n];
    OffersKept(s.info, t.info, s.random[..n], now);
  }

  lemma SwappedRandom(s: State, i: nat, j: nat)
    requires i < |s.random| && j < |s.random| && s.random[i] in s.info && s.random[j] in s.info
    ensures Swapped(s, i, j).random == s.random[i := s.random[j]][j := s.random[i]]
  {
  }

  /** The properties of a getaddr answer. */
  lemma OffersAnswer(env: Env, s: State, got: seq<Address>, n: nat, now: int)
    requires Consistent(env, s) && n <= |s.random| && forall i :: 0 <= i < n ==> s.random[i] in s.info
    ensures var vAddr := got + Offers(s.info, s.random[..n], now);
            && (forall i :: |got| <= i < |vAddr| ==> IsOffer(View(env, s), vAddr[i], now))
            && (forall i, j :: |got| <= i < j < |vAddr| ==> vAddr[i].svc.addr != vAddr[j].svc.addr)
            && (n == |s.random| ==>
                  forall a :: a in View(env, s) && !IsTerrible(View(env, s)[a].entry, now) ==>
                    AddressOf(View(env, s)[a].entry) in vAddr[|got|..])
  {
    hide Counted, NewSlots, TriedSlots, Referenced, IsTerrible;
    OffersExact(env, s, n, now);
    var o := Offers(s.info, s.random[..n], now);
    var vAddr := got + o;
    assert vAddr[|got|..] == o;
    if n == |s.random| {
      assert s.random[..n] == s.random;
      forall a | a in View(env, s) && !IsTerrible(View(env, s)[a].entry, now)
        ensures AddressOf(View(env, s)[a].entry) in o
      {
        OffersAll(env, s, now, a);
      }
    }
  }

  datatype Selected = Nothing | Chosen(entry: Entry)

  /** A default-constructed CAddrInfo. */
  const NO_INFO := Info(Entry(Service(NetAddr(0), 0), {}, 0, NetAddr(0), 0, 0, 0, 0), 0, false, -1)

  ghost function EmptyTable(buckets: nat): (t: Table)
    ensures IsTable(t, buckets)
    ensures forall b, p :: 0 <= b < buckets && 0 <= p < BUCKET_SIZE ==> t[b][p] == -1
  {
    seq(buckets, b => seq(BUCKET_SIZE, p => -1))
  }

  /** The indexes as Clear leaves them. */
  ghost function ClearedState(key: int, collisions: set<int>): State {
    State(key, 0, map[], map[], [], 0, 0, EmptyTable(TRIED_BUCKETS), EmptyTable(NEW_BUCKETS), 1, collisions)
  }

  lemma NoNegativeId(env: Env, s: State)
    ensures Consistent(env, s) ==> -1 !in s.info
  {
  }

  method Wipe(table: array2<int>)
    modifies table
    ensures forall b, p :: 0 <= b < table.Length0 && 0 <= p < table.Length1 ==> table[b, p] == -1
  {
    for bucket := 0 to table.Length0
      invariant forall b, p :: 0 <= b < bucket && 0 <= p < table.Length1 ==> table[b, p] == -1
    {
      for entry := 0 to table.Length1
        invariant forall b, p :: 0 <= b < bucket && 0 <= p < table.Length1 ==> table[b, p] == -1
        invariant forall p :: 0 <= p < entry ==> table[bucket, p] == -1
      {
        table[bucket, entry] := -1;
      }
    }
  }

  class AddrMan {
    const env: Env
    var nKey: int
    var nIdCount: int
    var mapInfo: map<int, Info>
    var mapAddr: map<NetAddr, int>
    var vRandom: seq<int>
    var nTried: int
    const vvTried: array2<int>
    var nNew: int
    const vvNew: array2<int>
    var nLastGood: int
    var triedCollisions: set<int>
    ghost var newT: Table
    ghost var triedT: Table

    /** All fields as one value. */
    ghost function St(): State
      reads this
    {
      State(nKey, nIdCount, mapInfo, mapAddr, vRandom, nTried, nNew, triedT, newT, nLastGood, triedCollisions)
    }

    /** The ghost tables are the contents of the arrays. */
    ghost predicate Mirrored()
      reads this`newT, this`triedT, vvTried, vvNew
    {
      && vvTried != vvNew
      && vvNew.Length0 == NEW_BUCKETS && vvNew.Length1 == BUCKET_SIZE
      && vvTried.Length0 == TRIED_BUCKETS && vvTried.Length1 == BUCKET_SIZE
      && IsTable(newT, NEW_BUCKETS) && IsTable(triedT, TRIED_BUCKETS)
      && (forall b, p :: 0 <= b < NEW_BUCKETS && 0 <= p < BUCKET_SIZE ==> vvNew[b, p] == newT[b][p])
      && (forall b, p :: 0 <= b < TRIED_BUCKETS && 0 <= p < BUCKET_SIZE ==> vvTried[b, p] == triedT[b][p])
    }

    ghost predicate Valid()
      reads this, vvTried, vvNew
    {
      Mirrored() && Consistent(env, St())
    }

    ghost function Recs(): map<NetAddr, B.Rec>
      reads this
    {
      View(env, St())
    }

    /** The book these indexes stand for. */
    ghost function Abs(): B.Book
      reads this
    {
      B.Book(nKey, nIdCount, Recs(), triedCollisions, nLastGood)
    }

    method GetNew(b: nat, p: nat) returns (n: int)
      requires Mirrored() && b < NEW_BUCKETS && p < BUCKET_SIZE
      ensures n == At(newT, b, p)
    {
      n := vvNew[b, p];
    }

    method GetTried(b: nat, p: nat) returns (n: int)
      requires Mirrored() && b < TRIED_BUCKETS && p < BUCKET_SIZE
      ensures n == At(triedT, b, p)
    {
      n := vvTried[b, p];
    }

    method SetNew(b: nat, p: nat, n: int)
      requires Mirrored() && b < NEW_BUCKETS && p < BUCKET_SIZE
      modifies this`newT, vvNew
      ensures Mirrored() && newT == SetSlot(old(newT), b, p, n)
    {
      vvNew[b, p] := n;
      newT := SetSlot(newT, b, p, n);
    }

    method SetTried(b: nat, p: nat, n: int)
      requires Mirrored() && b < TRIED_BUCKETS && p < BUCKET_SIZE
      modifies this`triedT, vvTried
      ensures Mirrored() && triedT == SetSlot(old(triedT), b, p, n)
    {
      vvTried[b, p] := n;
      triedT := SetSlot(triedT, b, p, n);
    }

    method Find(addr: NetAddr) returns (found: bool, id: int)
      requires Valid()
      ensures found <==> addr in Recs()
      ensures found ==> id in mapInfo && mapInfo[id].entry.svc.addr == addr && RecOf(env, St(), id) == Recs()[addr]
    {
      hide Linked, View;
      FindView(env, St(), addr);
      found, id := false, 0;
      if addr in mapAddr {
        id := mapAddr[addr];
        found := id in mapInfo;
      }
    }

    method Create(addr: Address, source: NetAddr) returns (nId: int)
      modifies this`nIdCount, this`mapInfo, this`mapAddr, this`vRandom
      ensures nId == old(nIdCount)
      ensures St() == Created(old(St()), Entry(addr.svc, addr.services, addr.time, source, 0, 0, 0, 0))
    {
      nId := nIdCount;
      nIdCount := nIdCount + 1;
      mapInfo := mapInfo[nId := Info(Entry(addr.svc, addr.services, addr.time, source, 0, 0, 0, 0), 0, false, -1)];
      mapAddr := mapAddr[addr.svc.addr := nId];
      mapInfo := mapInfo[nId := mapInfo[nId].(randomPos := |vRandom|)];
      vRandom := vRandom + [nId];
    }

    method SwapRandom(pos1: nat, pos2: nat)
      requires pos1 != pos2 ==> pos1 < |vRandom| && pos2 < |vRandom|
      requires pos1 != pos2 ==> vRandom[pos1] in mapInfo && vRandom[pos2] in mapInfo
      modifies this`mapInfo, this`vRandom
      ensures pos1 == pos2 ==> St() == old(St())
      ensures pos1 != pos2 ==> St() == Swapped(old(St()), pos1, pos2)
    {
      if pos1 == pos2 {
        return;
      }
      var id1, id2 := vRandom[pos1], vRandom[pos2];
      mapInfo := mapInfo[id1 := mapInfo[id1].(randomPos := pos2)];
      mapInfo := mapInfo[id2 := mapInfo[id2].(randomPos := pos1)];
      vRandom := vRandom[pos1 := id2];
      vRandom := vRandom[pos2 := id1];
    }

    method Delete(nId: int)
      requires Ordered(St())
      requires nId in mapInfo && !mapInfo[nId].inTried && mapInfo[nId].refCount == 0
      modifies this`mapInfo, this`vRandom, this`mapAddr, this`nNew
      ensures St() == Deleted(old(St()), nId)
    {
      SwapRandom(mapInfo[nId].randomPos, |vRandom| - 1);
      vRandom := vRandom[..|vRandom| - 1];
      mapAddr := mapAddr - {mapInfo[nId].entry.svc.addr};
      mapInfo := mapInfo - {nId};
      nNew := nNew - 1;
    }

    method ClearNew(b: nat, p: nat)
      requires Mirrored() && Ordered(St()) && b < NEW_BUCKETS && p < BUCKET_SIZE
      requires At(newT, b, p) != -1 ==>
                 && At(newT, b, p) in mapInfo
                 && mapInfo[At(newT, b, p)].refCount > 0
                 && !mapInfo[At(newT, b, p)].inTried
      modifies this`mapInfo, this`vRandom, this`mapAddr, this`nNew, this`newT, vvNew
      ensures Mirrored() && St() == ClearedNew(old(St()), b, p)
    {
      hide Mirrored;
      var nId := GetNew(b, p);
      if nId != -1 {
        mapInfo := mapInfo[nId := mapInfo[nId].(refCount := mapInfo[nId].refCount - 1)];
        SetNew(b, p, -1);
        if mapInfo[nId].refCount == 0 {
          OrderedKept(old(St()), St());
          Delete(nId);
        }
      }
    }

    /** The first half of MakeTried: entry nId leaves all new buckets. */
    method Uproot(nId: int)
      requires Valid() && nId in mapInfo && !mapInfo[nId].inTried
      modifies this`mapInfo, this`nNew, this`newT, vvNew
      ensures Mirrored() && St() == Uprooted(env, old(St()), nId)
      ensures mapInfo[nId].refCount == 0
    {
      hide Linked, Mirrored, At, SetSlot, Position;
      ghost var s := St();
      UprootedView(env, s, nId);
      var svc := mapInfo[nId].entry.svc;
      for bucket := 0 to NEW_BUCKETS
        invariant Mirrored() && St() == Evacuated(env, s, nId, bucket)
      {
        var pos := Position(env, nKey, svc, true, bucket);
        var held := GetNew(bucket, pos);
        if held == nId {
          SetNew(bucket, pos, -1);
          mapInfo := mapInfo[nId := mapInfo[nId].(refCount := mapInfo[nId].refCount - 1)];
        }
      }
      nNew := nNew - 1;
      assert mapInfo[nId].refCount == 0;
    }

    /** Entry nId gives up its tried slot. */
    method LeaveTried(nId: int, kBucket: nat, kPos: nat)
      requires Mirrored() && nId in mapInfo
      requires kBucket == TriedBucket(env, nKey, mapInfo[nId].entry.svc)
      requires kPos == TriedPosition(env, nKey, mapInfo[nId].entry.svc)
      modifies this`mapInfo, this`nTried, this`triedT, vvTried
      ensures Mirrored() && St() == Untried(env, old(St()), nId)
      ensures nId in mapInfo && mapInfo[nId].entry == old(mapInfo[nId].entry)
    {
      hide Mirrored, SetSlot, TriedPosition, TriedBucket;
      mapInfo := mapInfo[nId := mapInfo[nId].(inTried := false)];
      SetTried(kBucket, kPos, -1);
      nTried := nTried - 1;
    }

    /** The part of MakeTried that sends the holder of a tried slot back to the new table. */
    method Evict(idEvict: int, kBucket: nat, kPos: nat, ghost limbo: set<int>)
      requires Mirrored() && Linked(env, St(), {}, limbo)
      requires idEvict in mapInfo && mapInfo[idEvict].inTried
      requires kBucket == TriedBucket(env, nKey, mapInfo[idEvict].entry.svc)
      requires kPos == TriedPosition(env, nKey, mapInfo[idEvict].entry.svc)
      modifies this`mapInfo, this`mapAddr, this`vRandom, this`nTried, this`nNew, this`newT, this`triedT, vvNew, vvTried
      ensures Mirrored() && St() == Demoted(env, old(St()), idEvict)
    {
      hide Linked, Mirrored, ClearedNew, Ordered, At, SetSlot, Position, TriedPosition, TriedBucket, NewBucket, Untried;
      ghost var s := St();
      LeaveTried(idEvict, kBucket, kPos);
      var uBucket := NewBucket(env, nKey, mapInfo[idEvict].entry.svc, mapInfo[idEvict].entry.source);
      var uPos := Position(env, nKey, mapInfo[idEvict].entry.svc, true, uBucket);
      DemotionReady(env, s, idEvict, uBucket, uPos, limbo);
      ClearNew(uBucket, uPos);
      assert At(newT, uBucket, uPos) == -1;
      mapInfo := mapInfo[idEvict := mapInfo[idEvict].(refCount := 1)];
      SetNew(uBucket, uPos, idEvict);
      nNew := nNew + 1;
    }

    /** Entry nId moves from its new slots to the tried table. */
    method MakeTried(nId: int)
      requires Valid() && nId in mapInfo && !mapInfo[nId].inTried
      modifies this`mapInfo, this`mapAddr, this`vRandom, this`nTried, this`nNew, this`newT, this`triedT, vvNew, vvTried
      ensures Valid()
      ensures Recs() == Tried(old(Recs()), old(mapInfo[nId].entry.svc.addr))
    {
      hide Linked, View, Mirrored, B.MakeTried, Demoted, Evacuated, Ordered, At, SetSlot, TriedBucket, Position;
      ghost var s := St();
      var svc := mapInfo[nId].entry.svc;
      MadeTriedView(env, s, nId);
      UprootedView(env, s, nId);
      Uproot(nId);
      ghost var t := St();
      TriedHolderView(env, t, svc, {}, {nId});
      var kBucket := TriedBucket(env, nKey, svc);
      var kPos := Position(env, nKey, svc, false, kBucket);
      var idEvict := GetTried(kBucket, kPos);
      if idEvict != -1 {
        assert idEvict in mapInfo;
        Evict(idEvict, kBucket, kPos, {nId});
        DemotedSlot(env, t, idEvict, svc, nId);
      }
      assert At(triedT, kBucket, kPos) == -1;
      SetTried(kBucket, kPos, nId);
      nTried := nTried + 1;
      mapInfo := mapInfo[nId := mapInfo[nId].(inTried := true)];
      assert St() == MadeTried(env, s, nId);
    }

    ghost function Tried(recs: map<NetAddr, B.Rec>, a: NetAddr): map<NetAddr, B.Rec>
      reads this`nKey
    {
      if a in recs then B.MakeTried(env, nKey, recs, a) else recs
    }

    /** Some new bucket that holds entry nId, searched from a random start. */
    method FindBucket(nId: int, rnd: nat) returns (nUBucket: int)
      requires Valid() && nId in mapInfo && !mapInfo[nId].inTried
      ensures nUBucket in Buckets(env, St(), nId)
    {
      hide Linked, Mirrored, At, Position, BucketAfter;
      nUBucket := -1;
      var nRnd := rnd % NEW_BUCKETS;
      for n := 0 to NEW_BUCKETS
        invariant nUBucket == -1
        invariant forall k: nat :: k < n ==> BucketAfter(k, nRnd) !in Buckets(env, St(), nId)
      {
        var nB := BucketAfter(n, nRnd);
        var held := GetNew(nB, Position(env, nKey, mapInfo[nId].entry.svc, true, nB));
        if held == nId {
          nUBucket := nB;
          return;
        }
      }
      ReferencedSomewhere(env, St(), nId);
      ghost var b := B.Member(Buckets(env, St(), nId));
      ghost var k := WrapReaches(b, nRnd);
      assert false;
    }

    /** The second half of Good_, for an entry that is not in the tried table. */
    method Advance(nId: int, testBeforeEvict: bool, rnd: nat)
      requires Valid() && nId in mapInfo && !mapInfo[nId].inTried
      modifies this, vvNew, vvTried
      ensures Valid() && old(mapInfo[nId].entry.svc.addr in Recs())
      ensures Abs() == B.Advance(env, old(Abs()), old(mapInfo[nId].entry.svc.addr), testBeforeEvict)
    {
      hide Linked, View, Mirrored, B.MakeTried, At, Position, TriedBucket;
      var svc := mapInfo[nId].entry.svc;
      var nUBucket := FindBucket(nId, rnd);
      var bucket := TriedBucket(env, nKey, svc);
      var pos := Position(env, nKey, svc, false, bucket);
      var held := GetTried(bucket, pos);
      TriedHolderView(env, St(), svc, {}, {});
      EntryView(env, St(), nId);
      if testBeforeEvict && held != -1 {
        if |triedCollisions| < TRIED_COLLISION_SIZE {
          CollisionsView(env, St(), triedCollisions + {nId});
          triedCollisions := triedCollisions + {nId};
        }
      } else {
        MakeTried(nId);
      }
    }

    method Good_(svc: Service, testBeforeEvict: bool, time: int, rnd: nat)
      requires Valid()
      modifies this, vvNew, vvTried
      ensures Valid()
      ensures Abs() == B.Good(env, old(Abs()), svc, testBeforeEvict, time)
    {
      hide Linked, View, Mirrored, B.Advance;
      nLastGood := time;
      ghost var s := St();
      LastGoodView(env, old(St()), time);
      var found, nId := Find(svc.addr);
      if !found {
        return;
      }
      if mapInfo[nId].entry.svc != svc {
        return;
      }
      ghost var e := mapInfo[nId].entry.(lastSuccess := time, lastTry := time, attempts := 0);
      TouchedView(env, s, nId, e, {}, {});
      mapInfo := mapInfo[nId := mapInfo[nId].(entry := mapInfo[nId].entry.(lastSuccess := time))];
      mapInfo := mapInfo[nId := mapInfo[nId].(entry := mapInfo[nId].entry.(lastTry := time))];
      mapInfo := mapInfo[nId := mapInfo[nId].(entry := mapInfo[nId].entry.(attempts := 0))];
      assert St() == Touched(s, nId, e);
      if mapInfo[nId].inTried {
        return;
      }
      Advance(nId, testBeforeEvict, rnd);
    }

    /** The last part of Add_: entry nId is entered in the new bucket selected by source, or given up. */
    method Place(nId: int, source: NetAddr, now: int)
      requires Mirrored() && Linked(env, St(), {nId}, {})
      requires nId in mapInfo && !mapInfo[nId].inTried && mapInfo[nId].refCount < NEW_BUCKETS_PER_ADDRESS
      modifies this`mapInfo, this`mapAddr, this`vRandom, this`nNew, this`newT, vvNew
      ensures Valid() && old(mapInfo[nId].entry.svc.addr in Recs())
      ensures Recs() == B.Place(env, nKey, old(Recs()), old(mapInfo[nId].entry.svc.addr), source, now)
    {
      hide Linked, View, Mirrored, B.Place, ClearedNew, Deleted, Ordered, At, SetSlot, Position, NewBucket, IsTerrible;
      ghost var s := St();
      PlacedView(env, s, nId, source, now);
      var svc := mapInfo[nId].entry.svc;
      var uBucket := NewBucket(env, nKey, svc, source);
      var uPos := Position(env, nKey, svc, true, uBucket);
      ClearReady(env, s, uBucket, uPos, {nId}, {});
      var held := GetNew(uBucket, uPos);
      if held != nId {
        InsertReady(env, s, nId, uBucket, uPos);
        var fInsert := held == -1;
        if !fInsert {
          if IsTerrible(mapInfo[held].entry, now) || (mapInfo[held].refCount > 1 && mapInfo[nId].refCount == 0) {
            fInsert := true;
          }
        }
        if fInsert {
          ClearNew(uBucket, uPos);
          mapInfo := mapInfo[nId := mapInfo[nId].(refCount := mapInfo[nId].refCount + 1)];
          SetNew(uBucket, uPos, nId);
        } else if mapInfo[nId].refCount == 0 {
          Delete(nId);
        }
      }
      assert St() == Placed(env, s, nId, source, now);
    }

    /** The first part of Add_ for a known address: its time and services are brought up to date. */
    method Refresh(nId: int, addr: Address, penalty: int, now: int)
      requires Valid() && nId in mapInfo && mapInfo[nId].entry.svc.addr == addr.svc.addr
      modifies this`mapInfo
      ensures Valid() && addr.svc.addr in old(Recs())
      ensures nId in mapInfo
      ensures mapInfo[nId] == old(mapInfo[nId]).(entry := B.Refreshed(old(mapInfo[nId].entry), addr, penalty, now))
      ensures Recs() == old(Recs())[addr.svc.addr := old(Recs())[addr.svc.addr].(entry := mapInfo[nId].entry)]
    {
      hide Linked, View, Mirrored;
      ghost var s := St();
      EntryView(env, s, nId);
      TouchedView(env, s, nId, B.Refreshed(mapInfo[nId].entry, addr, penalty, now), {}, {});
      var e := mapInfo[nId].entry;
      var fCurrentlyOnline := now - addr.time < DAY;
      var nUpdateInterval := if fCurrentlyOnline then 60 * 60 else DAY;
      if addr.time != 0 && (e.time == 0 || e.time < addr.time - nUpdateInterval - penalty) {
        mapInfo := mapInfo[nId := mapInfo[nId].(entry := e.(time := ToTime(Max(0, addr.time - penalty))))];
      }
      e := mapInfo[nId].entry;
      mapInfo := mapInfo[nId := mapInfo[nId].(entry := e.(services := e.services + addr.services))];
      assert St() == Touched(s, nId, B.Refreshed(s.info[nId].entry, addr, penalty, now));
    }

    /** The part of Add_ for an unknown address. */
    method Enter(addr: Address, source: NetAddr, penalty: int, now: int)
      requires Valid() && addr.svc.addr !in Recs()
      modifies this`nIdCount, this`mapInfo, this`mapAddr, this`vRandom, this`nNew, this`newT, vvNew
      ensures Valid() && nIdCount == old(nIdCount) + 1
      ensures var e := Entry(addr.svc, addr.services, ToTime(Max(0, addr.time - penalty)), source, 0, 0, 0, 0);
              Recs() == B.Place(env, nKey, old(Recs())[addr.svc.addr := B.Rec(old(nIdCount), e, false, {})],
                                addr.svc.addr, source, now)
    {
      hide Linked, View, Mirrored, B.Place;
      ghost var s := St();
      ghost var e0 := Entry(addr.svc, addr.services, addr.time, source, 0, 0, 0, 0);
      var e := Entry(addr.svc, addr.services, ToTime(Max(0, addr.time - penalty)), source, 0, 0, 0, 0);
      FindView(env, s, addr.svc.addr);
      CreatedView(env, s, e0, {});
      TouchedView(env, Created(s, e0), s.idCount, e, {}, {s.idCount});
      CreatedRec(env, s, e0, e);
      UnshelvedView(env, Touched(Created(s, e0), s.idCount, e), s.idCount, {}, {s.idCount});
      assert {s.idCount} - {s.idCount} == {} && {} + {s.idCount} == {s.idCount};
      var nId := Create(addr, source);
      var e' := mapInfo[nId].entry;
      mapInfo := mapInfo[nId := mapInfo[nId].(entry := e'.(time := ToTime(Max(0, e'.time - penalty))))];
      nNew := nNew + 1;
      assert mapInfo[nId].entry == e;
      Place(nId, source, now);
    }

    method Add_(addr: Address, source: NetAddr, timePenalty: int, now: int, rnd: nat) returns (fNew: bool)
      requires Valid()
      modifies this, vvNew, vvTried
      ensures Valid()
      ensures Abs() == B.Add(env, old(Abs()), addr, source, timePenalty, now, rnd)
      ensures fNew <==> env.routable(addr.svc.addr) && addr.svc.addr !in old(Recs())
    {
      hide Linked, View, Mirrored, B.Place;
      if !env.routable(addr.svc.addr) {
        return false;
      }
      var penalty := if addr.svc.addr == source then 0 else timePenalty;
      var found, nId := Find(addr.svc.addr);
      if found {
        RefCountIs(env, St(), nId, {}, {});
        Refresh(nId, addr, penalty, now);
        if addr.time == 0 || (mapInfo[nId].entry.time != 0 && addr.time <= mapInfo[nId].entry.time) {
          return false;
        }
        if mapInfo[nId].inTried {
          return false;
        }
        if mapInfo[nId].refCount == NEW_BUCKETS_PER_ADDRESS {
          return false;
        }
        var nFactor := 1;
        for n := 0 to mapInfo[nId].refCount
          invariant nFactor == Pow2(n)
        {
          nFactor := nFactor * 2;
        }
        if nFactor > 1 && rnd % nFactor != 0 {
          return false;
        }
        RefCountBound(env, St(), nId);
        Exempted(env, St(), nId, {}, {});
        assert {} + {nId} == {nId};
        Place(nId, source, now);
        return false;
      } else {
        Enter(addr, source, penalty, now);
        return true;
      }
    }

    method Attempt_(svc: Service, fCountFailure: bool, time: int)
      requires Valid()
      modifies this`mapInfo
      ensures Valid() && Abs() == B.Attempt(old(Abs()), svc, fCountFailure, time)
    {
      hide Linked, View, Mirrored;
      ghost var s := St();
      var found, nId := Find(svc.addr);
      if !found || mapInfo[nId].entry.svc != svc {
        return;
      }
      var e := mapInfo[nId].entry;
      mapInfo := mapInfo[nId := mapInfo[nId].(entry := e.(lastTry := time))];
      if fCountFailure && e.lastCountAttempt < nLastGood {
        e := mapInfo[nId].entry;
        mapInfo := mapInfo[nId := mapInfo[nId].(entry := e.(lastCountAttempt := time, attempts := e.attempts + 1))];
      }
      TouchedView(env, s, nId, mapInfo[nId].entry, {}, {});
      assert St() == Touched(s, nId, mapInfo[nId].entry);
    }

    method Connected_(svc: Service, time: int)
      requires Valid()
      modifies this`mapInfo
      ensures Valid() && Abs() == B.Connected(old(Abs()), svc, time)
    {
      hide Linked, View, Mirrored;
      ghost var s := St();
      var found, nId := Find(svc.addr);
      if !found || mapInfo[nId].entry.svc != svc {
        return;
      }
      var e := mapInfo[nId].entry;
      if time - e.time > 20 * 60 {
        mapInfo := mapInfo[nId := mapInfo[nId].(entry := e.(time := ToTime(time)))];
      }
      TouchedView(env, s, nId, mapInfo[nId].entry, {}, {});
      assert St() == Touched(s, nId, mapInfo[nId].entry);
    }

    method SetServices_(svc: Service, services: set<nat>)
      requires Valid()
      modifies this`mapInfo
      ensures Valid() && Abs() == B.SetServices(old(Abs()), svc, services)
    {
      hide Linked, View, Mirrored;
      ghost var s := St();
      var found, nId := Find(svc.addr);
      if !found || mapInfo[nId].entry.svc != svc {
        return;
      }
      mapInfo := mapInfo[nId := mapInfo[nId].(entry := mapInfo[nId].entry.(services := services))];
      TouchedView(env, s, nId, mapInfo[nId].entry, {}, {});
      assert St() == Touched(s, nId, mapInfo[nId].entry);
    }

    /**
     Appends a random choice of passable addresses to got: at most 23% of all
     known ones and at most 2500, each once, and all of them if there are fewer.
     */
    method GetAddr_(got: seq<Address>, now: int, rnd: nat -> nat) returns (vAddr: seq<Address>, ghost drawn: nat)
      requires Valid()
      modifies this`mapInfo, this`vRandom
      ensures Valid() && Abs() == old(Abs()) && |vRandom| == old(|vRandom|)
      ensures got <= vAddr
      ensures |vAddr| > |got| ==> |vAddr| <= 2_500 && 100 * |vAddr| <= 23 * |vRandom|
      ensures drawn <= |vRandom| && vRandom == Drawn(old(vRandom), rnd, drawn)
      ensures (forall i :: 0 <= i < drawn ==> vRandom[i] in mapInfo) && vAddr == got + Offers(mapInfo, vRandom[..drawn], now)
      ensures forall i :: |got| <= i < |vAddr| ==> IsOffer(Recs(), vAddr[i], now)
      ensures forall i, j :: |got| <= i < j < |vAddr| ==> vAddr[i].svc.addr != vAddr[j].svc.addr
      ensures |vAddr| < 2_500 && 100 * (|vAddr| + 1) <= 23 * |vRandom| ==>
                forall a :: a in Recs() && !IsTerrible(Recs()[a].entry, now) ==>
                  AddressOf(Recs()[a].entry) in vAddr[|got|..]
    {
      hide Linked, View, Mirrored, IsTerrible, Swapped, Ordered, Offers, IsOffer, Drawn;
      var nNodes := GETADDR_MAX_PCT * |vRandom| / 100;
      if nNodes > GETADDR_MAX {
        nNodes := GETADDR_MAX;
      }
      vAddr := got;
      var n := 0;
      OffersNone(mapInfo, vRandom, now);
      DrawnNone(vRandom, rnd);
      while n < |vRandom| && |vAddr| < nNodes
        invariant Valid() && Recs() == old(Recs())
        invariant |vRandom| == old(|vRandom|) && 0 <= n <= |vRandom| && vRandom == Drawn(old(vRandom), rnd, n)
        invariant |vAddr| <= Max(|got|, nNodes)
        invariant (forall i :: 0 <= i < n ==> vRandom[i] in mapInfo) && vAddr == got + Offers(mapInfo, vRandom[..n], now)
      {
        var nRndPos := rnd(n) % (|vRandom| - n) + n;
        ghost var s := St();
        SwappedView(env, s, n, nRndPos, {}, {});
        OffersStep(env, s, n, nRndPos, now);
        DrawnNext(old(vRandom), rnd, n);
        SwappedRandom(s, n, nRndPos);
        SwapRandom(n, nRndPos);
        var e := mapInfo[vRandom[n]].entry;
        if !IsTerrible(e, now) {
          vAddr := vAddr + [AddressOf(e)];
        }
        n := n + 1;
      }
      drawn := n;
      OffersAnswer(env, St(), got, n, now);
    }

    /** One turn of the loop in ResolveCollisions_: is collision idNew settled? */
    method ResolveCollision(idNew: int, adjusted: int, clock: (int, nat) -> int, rnd: nat) returns (erase: bool)
      requires Valid()
      modifies this, vvNew, vvTried
      ensures Valid() && (Abs(), erase) == B.ResolveOne(env, old(Abs()), idNew, adjusted, clock)
    {
      hide Linked, View, Mirrored, B.Good, B.TriedTaken, At, Position, TriedBucket;
      WithIdView(env, St(), idNew);
      if idNew !in mapInfo {
        return true;
      }
      var info := mapInfo[idNew].entry;
      var bucket := TriedBucket(env, nKey, info.svc);
      var pos := Position(env, nKey, info.svc, false, bucket);
      var idOld := GetTried(bucket, pos);
      TriedHolderView(env, St(), info.svc, {}, {});
      if !env.valid(info.svc.addr) {
        return true;
      } else if idOld != -1 {
        EntryView(env, St(), idOld);
        var infoOld := mapInfo[idOld].entry;
        if adjusted - infoOld.lastSuccess < REPLACEMENT_SECONDS {
          return true;
        } else if adjusted - infoOld.lastTry < REPLACEMENT_SECONDS {
          if clock(idNew, 0) - infoOld.lastTry > 60 {
            Good_(info.svc, false, clock(idNew, 1), rnd);
            return true;
          }
          return false;
        } else if clock(idNew, 0) - info.lastSuccess > TEST_WINDOW {
          Good_(info.svc, false, clock(idNew, 1), rnd);
          return true;
        }
        return false;
      } else {
        Good_(info.svc, false, adjusted, rnd);
        return true;
      }
    }

    method ResolveCollisions_(adjusted: int, clock: (int, nat) -> int, rnd: int -> nat)
      requires Valid()
      modifies this, vvNew, vvTried
      ensures Valid() && Abs() == B.Resolve(env, old(Abs()), old(triedCollisions), adjusted, clock)
    {
      hide Linked, View, Mirrored, B.ResolveOne;
      var todo := triedCollisions;
      while todo != {}
        invariant Valid()
        invariant B.Resolve(env, Abs(), todo, adjusted, clock) ==
                  B.Resolve(env, old(Abs()), old(triedCollisions), adjusted, clock)
        decreases |todo|
      {
        ghost var least := B.Least(todo);
        var idNew :| idNew in todo && forall x :: x in todo ==> idNew <= x;
        assert idNew == least;
        var erase := ResolveCollision(idNew, adjusted, clock, rnd(idNew));
        if erase {
          CollisionsView(env, St(), triedCollisions - {idNew});
          triedCollisions := triedCollisions - {idNew};
        }
        todo := todo - {idNew};
      }
    }

    /**
     A random recorded collision: the tried entry it would evict. When that
     tried slot is empty, mapInfo[-1] is looked up and so created.
     */
    method SelectTriedCollision_() returns (idNew: int, r: Selected)
      requires Valid()
      modifies this`triedCollisions, this`mapInfo
      ensures old(triedCollisions) == {} ==> Abs() == old(Abs()) && Valid() && r == Nothing
      ensures old(triedCollisions) != {} ==> idNew in old(triedCollisions)
      ensures old(triedCollisions) != {} && !B.HasId(old(Recs()), idNew) ==>
                && Valid() && r == Nothing
                && Abs() == old(Abs()).(collisions := old(triedCollisions) - {idNew})
      ensures old(triedCollisions) != {} && B.HasId(old(Recs()), idNew) ==>
                var svc := old(Recs())[B.WithId(old(Recs()), idNew)].entry.svc;
                if B.TriedTaken(env, nKey, old(Recs()), svc) then
                  && Valid() && Abs() == old(Abs())
                  && r == Chosen(old(Recs())[B.TriedHolder(env, nKey, old(Recs()), svc)].entry)
                else
                  !Valid() && -1 in mapInfo
    {
      hide Linked, View, Mirrored, B.TriedTaken, At, Position, TriedBucket;
      idNew := 0;
      if triedCollisions == {} {
        return idNew, Nothing;
      }
      ghost var some := B.Member(triedCollisions);
      idNew :| idNew in triedCollisions;
      NoNegativeId(env, St());
      WithIdView(env, St(), idNew);
      if idNew !in mapInfo {
        CollisionsView(env, St(), triedCollisions - {idNew});
        triedCollisions := triedCollisions - {idNew};
        return idNew, Nothing;
      }
      var info := mapInfo[idNew].entry;
      var bucket := TriedBucket(env, nKey, info.svc);
      var pos := Position(env, nKey, info.svc, false, bucket);
      var idOld := GetTried(bucket, pos);
      TriedHolderView(env, St(), info.svc, {}, {});
      if idOld !in mapInfo {
        mapInfo := mapInfo[idOld := NO_INFO];
        NoNegativeId(env, St());
      } else {
        EntryView(env, St(), idOld);
      }
      return idNew, Chosen(mapInfo[idOld].entry);
    }

    /** Empties both tables. */
    method WipeTables()
      requires Mirrored()
      modifies this`newT, this`triedT, vvNew, vvTried
      ensures Mirrored() && newT == EmptyTable(NEW_BUCKETS) && triedT == EmptyTable(TRIED_BUCKETS)
    {
      Wipe(vvNew);
      Wipe(vvTried);
      newT := EmptyTable(NEW_BUCKETS);
      triedT := EmptyTable(TRIED_BUCKETS);
    }

    /** Forgets every address, but not the recorded collisions. */
    method Clear(newKey: int)
      requires Mirrored()
      modifies this, vvNew, vvTried
      ensures Valid() && Abs() == B.Book(newKey, 0, map[], old(triedCollisions), 1)
      ensures St() == ClearedState(newKey, old(triedCollisions))
      ensures Safe() <==> old(triedCollisions) == {}
    {
      hide Linked, View, F.CollisionsSafe, Mirrored;
      vRandom := [];
      nKey := newKey;
      WipeTables();
      nIdCount, nTried, nNew, nLastGood := 0, 0, 0, 1;
      mapInfo, mapAddr := map[], map[];
      EmptyConsistent(env, St());
      F.ClearedCollisions(env, newKey, triedCollisions);
    }

    constructor (env: Env, key: int)
      ensures this.env == env && fresh(vvNew) && fresh(vvTried)
      ensures Valid() && Abs() == B.Book(key, 0, map[], {}, 1)
    {
      this.env := env;
      vvNew := new int[NEW_BUCKETS, BUCKET_SIZE]((b, p) => -1);
      vvTried := new int[TRIED_BUCKETS, BUCKET_SIZE]((b, p) => -1);
      newT := EmptyTable(NEW_BUCKETS);
      triedT := EmptyTable(TRIED_BUCKETS);
      triedCollisions := {};
      new;
      Clear(key);
    }

    /** Consistent, and safe with respect to recorded collisions. */
    ghost predicate Safe()
      reads this, vvTried, vvNew
    {
      Valid() && F.CollisionsSafe(env, Abs())
    }

    method Step(op: Op)
      requires Safe()
      modifies this, vvNew, vvTried
      ensures Safe() && Follows(env, old(Abs()), op, Abs())
    {
      hide Linked, View, Mirrored, F.CollisionsSafe;
      F.ConsistentIsSound(env, St());
      ghost var book := Abs();
      match op {
        case Add(addr, source, penalty, now, rnd) =>
          var isNew := Add_(addr, source, penalty, now, rnd);
        case Good(svc, test, time, rnd) =>
          Good_(svc, test, time, rnd);
        case Attempt(svc, count, time) =>
          Attempt_(svc, count, time);
        case Connected(svc, time) =>
          Connected_(svc, time);
        case SetServices(svc, services) =>
          SetServices_(svc, services);
        case GetAddr(now, rnd) =>
          var addrs, drawn := GetAddr_([], now, rnd);
        case ResolveCollisions(adjusted, clock, rnd) =>
          ResolveCollisions_(adjusted, clock, rnd);
        case SelectTriedCollision =>
          F.SelectSafe(env, book);
          var idNew, r := SelectTriedCollision_();
      }
      FollowsSafe(env, book, op, Abs());
    }

    method Run(ops: seq<Op>) returns (ghost books: seq<B.Book>)
      requires Safe()
      modifies this, vvNew, vvTried
      ensures Safe() && Trace(env, ops, books) && books[0] == old(Abs()) && books[|ops|] == Abs()
    {
      hide Linked, View, Mirrored, F.CollisionsSafe, Follows;
      books := [Abs()];
      for i := 0 to |ops|
        invariant Safe() && Trace(env, ops[..i], books) && books[0] == old(Abs()) && books[i] == Abs()
      {
        Step(ops[i]);
        TraceNext(env, ops, books, i, Abs());
        books := books + [Abs()];
      }
      assert ops[..|ops|] == ops;
    }
  }

  /** Any run from a fresh manager. */
  method FreshRun(env: Env, key: int, ops: seq<Op>) returns (m: AddrMan, ghost books: seq<B.Book>)
    ensures m.env == env && m.Safe()
    ensures Trace(env, ops, books) && books[0] == B.Book(key, 0, map[], {}, 1) && books[|ops|] == m.Abs()
  {
    hide Follows;
    m := new AddrMan(env, key);
    books := m.Run(ops);
  }
}
