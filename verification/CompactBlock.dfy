/** Compact blocks (src/blockencodings.h, src/blockencodings.cpp): announcing a block and putting it together again. */
module CompactBlock {
  import opened Numbers
  import opened Options
  import opened Collections

  datatype Tx = Tx(id: nat)

  /** A transaction sent along, at an index counted from the previous one. */
  datatype Prefilled = Prefilled(index: nat, tx: Option<Tx>)

  /** The message; shortId is the keyed 48-bit hash it fixes. */
  datatype Message = Message(headerNull: bool, shortIds: seq<nat>, prefilled: seq<Prefilled>, shortId: Tx -> nat)

  function TxCount(m: Message): nat {
    |m.shortIds| + |m.prefilled|
  }

  type Slots = seq<Option<Tx>>

  /** How many slots are empty. */
  ghost function Empty(s: Slots): (n: nat)
    ensures n <= |s|
  {
    if s == [] then 0 else Empty(s[..|s| - 1]) + if s[|s| - 1] == None then 1 else 0
  }

  lemma EmptyNext(s: Slots, i: nat)
    requires i < |s|
    ensures Empty(s[..i + 1]) == Empty(s[..i]) + if s[i] == None then 1 else 0
  {
    assert s[..i + 1][..i] == s[..i];
  }

  /** Filling a slot costs at most one empty one. */
  lemma {:induction false} EmptyFill(s: Slots, i: nat, t: Option<Tx>)
    requires i < |s|
    ensures Empty(s[i := t]) >= Empty(s) - 1
  {
    var n := |s| - 1;
    if i < n {
      EmptyFill(s[..n], i, t);
      assert s[i := t][..n] == s[..n][i := t];
    } else {
      assert s[i := t][..n] == s[..n];
    }
  }

  function NoSlots(n: nat): (s: Slots)
    ensures |s| == n && forall i :: 0 <= i < n ==> s[i] == None
  {
    seq(n, i => None)
  }

  lemma {:induction false} EmptyAll(s: Slots)
    requires forall i :: 0 <= i < |s| ==> s[i] == None
    ensures Empty(s) == |s|
  {
    if s != [] {
      EmptyAll(s[..|s| - 1]);
    }
  }

  // ---- Prefilled transactions

  /** The index of the last of j prefilled transactions; index + 1 is computed in 32 bits. */
  ghost function LastIndex(m: Message, j: nat): int
    requires j <= |m.prefilled|
  {
    if j == 0 then -1 else LastIndex(m, j - 1) + (m.prefilled[j - 1].index + 1) % UINT32
  }

  /** The checks on the j-th prefilled transaction. */
  ghost predicate PrefilledOk(m: Message, j: nat)
    requires j < |m.prefilled|
  {
    var last := LastIndex(m, j + 1);
    m.prefilled[j].tx.Some? && last < UINT32 && last % UINT32 <= |m.shortIds| + j
  }

  ghost predicate AllPrefilledOk(m: Message, n: nat)
    requires n <= |m.prefilled|
  {
    forall j :: 0 <= j < n ==> PrefilledOk(m, j)
  }

  lemma {:induction false} LastIndexFrom(m: Message, j: nat)
    requires j <= |m.prefilled|
    ensures LastIndex(m, j) >= -1
  {
    if j > 0 {
      LastIndexFrom(m, j - 1);
    }
  }

  /** A checked index is a slot. */
  lemma PrefilledInRange(m: Message, j: nat)
    requires j < |m.prefilled| && PrefilledOk(m, j) && TxCount(m) < UINT32
    ensures 0 <= LastIndex(m, j + 1) <= |m.shortIds| + j < TxCount(m)
  {
    LastIndexFrom(m, j + 1);
  }

  /** The slots with the first n prefilled transactions put in. */
  ghost function PrefilledSlots(m: Message, n: nat): (s: Slots)
    requires n <= |m.prefilled| && AllPrefilledOk(m, n) && TxCount(m) < UINT32
    ensures |s| == TxCount(m)
  {
    if n == 0 then NoSlots(TxCount(m))
    else
      PrefilledInRange(m, n - 1);
      PrefilledSlots(m, n - 1)[LastIndex(m, n) := m.prefilled[n - 1].tx]
  }

  /** However the prefilled transactions fall, at least as many slots stay empty as there are short ids. */
  lemma {:induction false} EnoughEmpty(m: Message, n: nat)
    requires n <= |m.prefilled| && AllPrefilledOk(m, n) && TxCount(m) < UINT32
    ensures Empty(PrefilledSlots(m, n)) >= TxCount(m) - n
  {
    if n == 0 {
      EmptyAll(PrefilledSlots(m, 0));
    } else {
      EnoughEmpty(m, n - 1);
      PrefilledInRange(m, n - 1);
      EmptyFill(PrefilledSlots(m, n - 1), LastIndex(m, n), m.prefilled[n - 1].tx);
    }
  }

  /** Indexes as the message can hold them. */
  ghost predicate Indexes32(m: Message) {
    forall j :: 0 <= j < |m.prefilled| ==> m.prefilled[j].index < UINT32
  }

  lemma {:induction false} LastIndexAscends(m: Message, i: nat, j: nat)
    requires Indexes32(m) && i <= j <= |m.prefilled|
    ensures LastIndex(m, i) <= LastIndex(m, j)
    ensures i < j && (exists k :: i <= k < j && m.prefilled[k].index != UINT32 - 1) ==> LastIndex(m, i) < LastIndex(m, j)
  {
    if i < j {
      LastIndexAscends(m, i, j - 1);
    }
  }

  lemma IndexStays(m: Message, j: nat)
    requires j < |m.prefilled| && m.prefilled[j].index == UINT32 - 1
    ensures LastIndex(m, j + 1) == LastIndex(m, j)
  {
  }

  /** Each prefilled transaction has its own slot exactly when no index after the first one wraps. */
  lemma SlotsApartExactly(m: Message)
    requires Indexes32(m) && AllPrefilledOk(m, |m.prefilled|)
    ensures (forall i: nat, j: nat :: 0 < i < j <= |m.prefilled| ==> LastIndex(m, i) != LastIndex(m, j)) <==>
            (forall j :: 1 <= j < |m.prefilled| ==> m.prefilled[j].index != UINT32 - 1)
  {
    hide LastIndex;
    if forall j :: 1 <= j < |m.prefilled| ==> m.prefilled[j].index != UINT32 - 1 {
      forall i: nat, j: nat | 0 < i < j <= |m.prefilled|
        ensures LastIndex(m, i) != LastIndex(m, j)
      {
        LastIndexAscends(m, i, j);
        assert m.prefilled[i].index != UINT32 - 1;
      }
    } else {
      var j :| 1 <= j < |m.prefilled| && m.prefilled[j].index == UINT32 - 1;
      IndexStays(m, j);
      assert LastIndex(m, j) == LastIndex(m, j + 1);
    }
  }

  /** Two prefilled transactions for one slot: the message is accepted, and the second displaces the first. */
  lemma TwoInOneSlot(a: Tx, b: Tx, shortIds: seq<nat>, shortId: Tx -> nat)
    requires |shortIds| + 2 < UINT32
    ensures
      var m := Message(false, shortIds, [Prefilled(0, Some(a)), Prefilled(UINT32 - 1, Some(b))], shortId);
      && AllPrefilledOk(m, 2) && LastIndex(m, 1) == LastIndex(m, 2) == 0
      && PrefilledSlots(m, 2) == NoSlots(TxCount(m))[0 := Some(b)]
  {
    var m := Message(false, shortIds, [Prefilled(0, Some(a)), Prefilled(UINT32 - 1, Some(b))], shortId);
    assert LastIndex(m, 0) == -1 && LastIndex(m, 1) == 0 && LastIndex(m, 2) == 0;
    assert PrefilledOk(m, 0) && PrefilledOk(m, 1);
    assert PrefilledSlots(m, 0) == NoSlots(TxCount(m));
    assert PrefilledSlots(m, 1) == NoSlots(TxCount(m))[0 := Some(a)];
  }

  // ---- What a message says about a block

  /** Slot p is the empty one that the short id stands for. */
  ghost predicate SlotFor(m: Message, slots: Slots, key: nat, p: nat) {
    p < |slots| && slots[p] == None && Empty(slots[..p]) < |m.shortIds| && m.shortIds[Empty(slots[..p])] == key
  }

  /** The prefilled transactions are the block's, and the short ids are those of the others, in order. */
  ghost predicate Describes(m: Message, vtx: seq<Tx>) {
    && |vtx| == TxCount(m) < UINT32 && AllPrefilledOk(m, |m.prefilled|)
    && var slots := PrefilledSlots(m, |m.prefilled|);
       forall i :: 0 <= i < |vtx| ==>
         if slots[i].Some? then slots[i].value == vtx[i] else SlotFor(m, slots, m.shortId(vtx[i]), i)
  }

  /** The message a block is announced with: the coinbase and the short ids of the rest. */
  function Announce(vtx: seq<Tx>, shortId: Tx -> nat): Message
    requires vtx != []
  {
    Message(false, seq(|vtx| - 1, i requires 0 <= i < |vtx| - 1 => shortId(vtx[i + 1])), [Prefilled(0, Some(vtx[0]))], shortId)
  }

  lemma AnnounceDescribes(vtx: seq<Tx>, shortId: Tx -> nat)
    requires 1 <= |vtx| < UINT32
    ensures Describes(Announce(vtx, shortId), vtx)
  {
    var m := Announce(vtx, shortId);
    assert LastIndex(m, 0) == -1 && LastIndex(m, 1) == 0;
    assert PrefilledOk(m, 0);
    var slots := PrefilledSlots(m, 1);
    assert PrefilledSlots(m, 0) == NoSlots(|vtx|);
    assert slots == NoSlots(|vtx|)[0 := Some(vtx[0])];
    forall i | 1 <= i < |vtx|
      ensures Empty(slots[..i]) == i - 1
    {
      OneFilled(slots, i);
    }
  }

  lemma {:induction false} OneFilled(s: Slots, i: nat)
    requires 1 <= i <= |s| && s[0] != None && forall j :: 1 <= j < |s| ==> s[j] == None
    ensures Empty(s[..i]) == i - 1
    decreases i
  {
    EmptyNext(s, i - 1);
    if i > 1 {
      OneFilled(s, i - 1);
    } else {
      assert s[..0] == [];
    }
  }

  // ---- Reconstruction

  datatype Status = Ok | Invalid | Failed | CheckFailed

  /** Every slot is still empty or holds the block's transaction. */
  ghost predicate Faithful(slots: Slots, vtx: seq<Tx>) {
    |slots| == |vtx| && forall i :: 0 <= i < |vtx| ==> slots[i] == None || slots[i] == Some(vtx[i])
  }

  /** A transaction at hand whose short id stands in the message is the one it stands for. */
  ghost predicate Genuine(m: Message, vtx: seq<Tx>, txs: seq<Tx>) {
    forall k, i :: 0 <= k < |txs| && 0 <= i < |vtx| && m.shortId(txs[k]) == m.shortId(vtx[i]) ==> txs[k] == vtx[i]
  }

  /** The message passes the checks on its sizes and its prefilled transactions. */
  ghost predicate Acceptable(m: Message, maxTxs: nat) {
    !m.headerNull && 1 <= TxCount(m) <= maxTxs && AllPrefilledOk(m, |m.prefilled|)
  }

  /** Each short id leads to the slot it stands for. */
  ghost predicate Indexed(m: Message, slots: Slots, ids: map<nat, nat>) {
    forall key :: key in ids ==> SlotFor(m, slots, key, ids[key])
  }

  class PartiallyDownloadedBlock {
    var hasHeader: bool
    var available: Slots
    var mempoolCount: int

    constructor ()
      ensures !hasHeader && available == [] && mempoolCount == 0
    {
      hasHeader, available, mempoolCount := false, [], 0;
    }

    /** Puts in the prefilled transactions. */
    method PutPrefilled(m: Message) returns (ok: bool)
      requires TxCount(m) < UINT32
      modifies this`available
      ensures ok <==> AllPrefilledOk(m, |m.prefilled|)
      ensures ok ==> available == PrefilledSlots(m, |m.prefilled|)
    {
      available := NoSlots(TxCount(m));
      var last: int := -1;
      for i := 0 to |m.prefilled|
        invariant AllPrefilledOk(m, i) && last == LastIndex(m, i)
        invariant available == PrefilledSlots(m, i)
      {
        var p := m.prefilled[i];
        assert PrefilledOk(m, i) ==> LastIndex(m, i + 1) == last + (p.index + 1) % UINT32;
        if p.tx == None {
          assert !PrefilledOk(m, i);
          return false;
        }
        last := last + (p.index + 1) % UINT32;
        if last > UINT32 - 1 || last % UINT32 > |m.shortIds| + i {
          assert !PrefilledOk(m, i);
          return false;
        }
        assert PrefilledOk(m, i);
        PrefilledInRange(m, i);
        available := available[last := p.tx];
      }
      return true;
    }

    /** The first empty slot from a position on; the scan never leaves the slots. */
    method NextEmpty(from: nat) returns (p: nat)
      requires from <= |available| && Empty(available[..from]) < Empty(available)
      ensures from <= p < |available| && available[p] == None && Empty(available[..p]) == Empty(available[..from])
    {
      hide Empty;
      p := from;
      AnotherEmpty(available, p);
      while available[p] != None
        invariant from <= p < |available| && Empty(available[..p]) == Empty(available[..from])
        decreases |available| - p
      {
        EmptyNext(available, p);
        p := p + 1;
        AnotherEmpty(available, p);
      }
    }

    /** Finds the empty slot for each short id. */
    method IndexSlots(m: Message, crowded: nat -> bool) returns (ok: bool, ids: map<nat, nat>)
      requires Empty(available) >= |m.shortIds|
      ensures Indexed(m, available, ids) && (ok ==> ids.Keys == Keys(m.shortIds))
      ensures ok <==> forall i :: 0 <= i < |m.shortIds| ==> !crowded(i)
    {
      hide Empty, Indexed, Keys;
      ids := map[];
      var offset: nat := 0;
      IndexStart(m, available);
      for i := 0 to |m.shortIds|
        invariant i + offset <= |available| && Empty(available[..i + offset]) == i
        invariant Indexed(m, available, ids) && ids.Keys == Keys(m.shortIds[..i])
        invariant forall j :: 0 <= j < i ==> !crowded(j)
      {
        var p := NextEmpty(i + offset);
        offset := p - i;
        EmptyNext(available, p);
        IndexedNext(m, available, ids, i, p);
        ids := ids[m.shortIds[i] := p];
        if crowded(i) {
          return false, ids;
        }
      }
      assert m.shortIds[..|m.shortIds|] == m.shortIds;
      ok := true;
    }

    /**
     Puts in transactions at hand until all slots are taken. A second one for the same short id empties
     the slot again, except that an extra one may repeat what is there.
     */
    method PutAvailable(m: Message, ids: map<nat, nat>, have0: seq<bool>, txs: seq<Tx>, isExtra: bool,
                        ghost slots: Slots, ghost seen0: seq<Tx>, ghost own: nat, ghost before: int)
      returns (have: seq<bool>, ghost looked: nat)
      requires Indexed(m, slots, ids) && (if isExtra then own <= |seen0| else own == |seen0|)
      requires Tracked(m, ids, slots, available, have0, seen0, own) && mempoolCount == before + |Filled(ids, available)|
      modifies this`available, this`mempoolCount
      ensures looked <= |txs| && mempoolCount == before + |Filled(ids, available)|
      ensures looked < |txs| ==> mempoolCount == |ids|
      ensures Tracked(m, ids, slots, available, have, seen0 + txs[..looked], if isExtra then own else own + looked)
    {
      hide Tracked, Filled, Indexed;
      have := have0;
      looked := 0;
      assert seen0 + txs[..0] == seen0;
      for k := 0 to |txs|
        invariant looked == k && mempoolCount == before + |Filled(ids, available)|
        invariant Tracked(m, ids, slots, available, have, seen0 + txs[..k], if isExtra then own else own + k)
      {
        var t := txs[k];
        ghost var seen := seen0 + txs[..k];
        ghost var mine := if isExtra then own else own + k;
        assert seen0 + txs[..k + 1] == seen + [t];
        var key := m.shortId(t);
        Sizes(m, ids, slots, available, have, seen, mine, key);
        if key in ids {
          var p := ids[key];
          if !have[p] {
            FirstMatch(m, ids, slots, available, have, seen, mine, t, isExtra);
            FilledMore(m, slots, ids, available, key, Some(t));
            available := available[p := Some(t)];
            have := have[p := true];
            mempoolCount := mempoolCount + 1;
          } else if available[p].Some? && (!isExtra || available[p].value != t) {
            SecondMatch(m, ids, slots, available, have, seen, mine, t, isExtra);
            FilledMore(m, slots, ids, available, key, None);
            available := available[p := None];
            mempoolCount := mempoolCount - 1;
          } else {
            SameMatch(m, ids, slots, available, have, seen, mine, t, isExtra);
          }
        } else {
          NoMatch(m, ids, slots, available, have, seen, mine, t, isExtra);
        }
        looked := k + 1;
        if mempoolCount == |ids| {
          return;
        }
      }
    }

    /**
     Takes in a message, whoever sent it, with the pool's transactions and some extra ones.
     crowded says which short ids find their hash bucket too full. The count of transactions
     found goes on from an earlier block, so a scan may stop before all slots are taken.
     */
    method InitData(m: Message, pool: seq<Tx>, extra: seq<Tx>, maxTxs: nat, crowded: nat -> bool)
      returns (status: Status, ghost ids: map<nat, nat>, ghost nPool: nat, ghost nExtra: nat)
      requires !hasHeader && available == [] && maxTxs < UINT32
      modifies this
      ensures status == Invalid <==> !Acceptable(m, maxTxs)
      ensures status == Failed <==>
              Acceptable(m, maxTxs) && ((exists i :: 0 <= i < |m.shortIds| && crowded(i)) || !Distinct(m.shortIds))
      ensures status == Ok || status == Invalid || status == Failed
      ensures status == Ok ==> hasHeader && Acceptable(m, maxTxs) && ids.Keys == Keys(m.shortIds)
      ensures status == Ok ==>
        && nPool <= |pool| && nExtra <= |extra|
        && Outcome(m, PrefilledSlots(m, |m.prefilled|), ids, available, pool[..nPool] + extra[..nExtra], nPool)
      ensures status == Ok && nPool < |pool| ==>
        old(mempoolCount) + |SettledOf(m, ids, pool[..nPool], nPool)| == |ids|
      ensures status == Ok && nExtra < |extra| ==>
        old(mempoolCount) + |SettledOf(m, ids, pool[..nPool] + extra[..nExtra], nPool)| == |ids|
      ensures status == Ok && old(mempoolCount) == 0 && nPool < |pool| ==>
        forall key :: key in ids ==> Settled(m, pool[..nPool], nPool, key)
      ensures status == Ok && old(mempoolCount) == 0 && nExtra < |extra| ==>
        forall key :: key in ids ==> Settled(m, pool[..nPool] + extra[..nExtra], nPool, key)
    {
      hide Tracked, Filled, Indexed, Empty, Outcome, Keys, Distinct, Settled, SettledOf;
      ids, nPool, nExtra := map[], 0, 0;
      if m.headerNull || |m.shortIds| + |m.prefilled| == 0 {
        return Invalid, ids, 0, 0;
      }
      if TxCount(m) > maxTxs {
        return Invalid, ids, 0, 0;
      }
      hasHeader := true;
      var ok := PutPrefilled(m);
      if !ok {
        return Invalid, ids, 0, 0;
      }
      ghost var slots := available;
      EnoughEmpty(m, |m.prefilled|);
      var index;
      ok, index := IndexSlots(m, crowded);
      if !ok {
        return Failed, ids, 0, 0;
      }
      KeysCard(m.shortIds);
      if |index| != |m.shortIds| {
        return Failed, ids, 0, 0;
      }
      ids := index;
      var have := seq(|available|, i => false);
      TrackStart(m, index, slots, have);
      have, nPool := PutAvailable(m, index, have, pool, false, slots, [], 0, mempoolCount);
      assert [] + pool[..nPool] == pool[..nPool];
      FilledSettled(m, index, slots, available, have, pool[..nPool], nPool);
      AllSettled(m, index, pool[..nPool], nPool);
      have, nExtra := PutAvailable(m, index, have, extra, true, slots, pool[..nPool], nPool, old(mempoolCount));
      FilledSettled(m, index, slots, available, have, pool[..nPool] + extra[..nExtra], nPool);
      AllSettled(m, index, pool[..nPool] + extra[..nExtra], nPool);
      TrackEnd(m, index, slots, available, have, pool[..nPool] + extra[..nExtra], nPool);
      status := Ok;
    }

    /**
     Fills the empty slots, in order, with the transactions asked for. If these are too few, the block
     stays open, but without the transactions that were moved out on the way; check is the outcome of
     checking the block.
     */
    method FillBlock(missing: seq<Tx>, check: Status) returns (status: Status, vtx: seq<Tx>)
      requires hasHeader && check != Invalid
      modifies this
      ensures status == if |missing| == Empty(old(available)) then check else Invalid
      ensures |missing| >= Empty(old(available)) ==> !hasHeader && available == [] && vtx == Merged(old(available), missing)
      ensures |missing| < Empty(old(available)) ==> hasHeader && exists i :: Stalled(old(available), missing, i, available, vtx)
    {
      hide Empty, Merged, NoSlots;
      vtx := [];
      var offset, n := 0, |available|;
      ghost var was := available;
      MergeStart(was, missing);
      for i := 0 to n
        invariant hasHeader && available == NoSlots(i) + was[i..]
        invariant offset == Empty(was[..i]) <= |missing| && vtx == Merged(was[..i], missing)
      {
        EmptyNext(was, i);
        MergeNext(was, missing, i);
        EmptiedNext(was, i);
        if available[i] == None {
          if |missing| <= offset {
            EmptyPrefix(was, i + 1);
            assert Stalled(was, missing, i, available, vtx);
            return Invalid, vtx;
          }
          vtx := vtx + [missing[offset]];
          offset := offset + 1;
        } else {
          vtx := vtx + [available[i].value];
          available := available[i := None];
        }
      }
      assert was[..n] == was;
      hasHeader, available := false, [];
      if |missing| != offset {
        return Invalid, vtx;
      }
      status := check;
    }
  }

  /** Slot i is the first that missing does not fill: the slots before it are emptied, the others are left. */
  ghost predicate Stalled(was: Slots, missing: seq<Tx>, i: nat, now: Slots, vtx: seq<Tx>) {
    && i < |was| && was[i] == None && Empty(was[..i]) == |missing|
    && now == NoSlots(i) + was[i..] && vtx == Merged(was[..i], missing)
  }

  lemma EmptiedNext(was: Slots, i: nat)
    requires i < |was|
    ensures (NoSlots(i) + was[i..])[i] == was[i]
    ensures (NoSlots(i) + was[i..])[i := None] == NoSlots(i + 1) + was[i + 1..]
  {
  }

  /** The short ids whose slots are taken. */
  ghost function Filled(ids: map<nat, nat>, s: Slots): (r: set<nat>)
    ensures r <= ids.Keys
  {
    set key | key in ids && ids[key] < |s| && s[ids[key]].Some?
  }

  /** Some transaction looked at has the short id. */
  ghost predicate MatchIn(m: Message, seen: seq<Tx>, key: nat) {
    exists k :: 0 <= k < |seen| && m.shortId(seen[k]) == key
  }

  /** Two transactions looked at have the short id; an extra one, behind the first own, clashes only if it differs. */
  ghost predicate Clash(m: Message, seen: seq<Tx>, own: nat, key: nat) {
    exists k, l :: 0 <= k < l < |seen| && m.shortId(seen[k]) == key && m.shortId(seen[l]) == key &&
                   (l < own || seen[l] != seen[k])
  }

  /** The short id has its transaction. */
  ghost predicate Settled(m: Message, seen: seq<Tx>, own: nat, key: nat) {
    MatchIn(m, seen, key) && !Clash(m, seen, own, key)
  }

  /** The short ids that have theirs. */
  ghost function SettledOf(m: Message, ids: map<nat, nat>, seen: seq<Tx>, own: nat): set<nat> {
    set key | key in ids && Settled(m, seen, own, key)
  }

  /** What the slots hold after some transactions, of which the first own are from the pool. */
  ghost predicate Tracked(m: Message, ids: map<nat, nat>, slots: Slots, s: Slots, have: seq<bool>, seen: seq<Tx>, own: nat) {
    && |s| == |have| == |slots|
    && (forall i :: 0 <= i < |s| ==> s[i] == slots[i] || (slots[i] == None && exists key :: key in ids && ids[key] == i))
    && forall key :: key in ids ==>
         var p := ids[key];
         && p < |s|
         && (have[p] <==> MatchIn(m, seen, key))
         && (s[p].Some? ==> s[p].value in seen && m.shortId(s[p].value) == key)
         && (s[p].Some? <==> Settled(m, seen, own, key))
  }

  lemma Sizes(m: Message, ids: map<nat, nat>, slots: Slots, s: Slots, have: seq<bool>, seen: seq<Tx>, own: nat, key: nat)
    requires Tracked(m, ids, slots, s, have, seen, own)
    ensures |have| == |s| == |slots| && (key in ids ==> ids[key] < |s|)
  {
  }

  /** Different short ids have different slots. */
  lemma OneSlotEach(m: Message, slots: Slots, ids: map<nat, nat>, a: nat, b: nat)
    requires Indexed(m, slots, ids) && a in ids && b in ids && a != b
    ensures ids[a] != ids[b]
  {
    hide Empty;
  }

  function OwnAfter(seen: seq<Tx>, own: nat, isExtra: bool): nat {
    if isExtra then own else |seen| + 1
  }

  /** One more transaction changes nothing for other short ids. */
  lemma OtherKey(m: Message, seen: seq<Tx>, own: nat, t: Tx, isExtra: bool, key: nat)
    requires m.shortId(t) != key && (isExtra || own == |seen|)
    ensures MatchIn(m, seen + [t], key) <==> MatchIn(m, seen, key)
    ensures Clash(m, seen + [t], OwnAfter(seen, own, isExtra), key) <==> Clash(m, seen, own, key)
  {
    var next, own' := seen + [t], OwnAfter(seen, own, isExtra);
    assert forall k :: 0 <= k < |seen| ==> next[k] == seen[k];
    if Clash(m, seen, own, key) {
      var k, l :| 0 <= k < l < |seen| && m.shortId(seen[k]) == key && m.shortId(seen[l]) == key &&
                  (l < own || seen[l] != seen[k]);
      assert m.shortId(next[k]) == key && m.shortId(next[l]) == key && (l < own' || next[l] != next[k]);
    }
    if MatchIn(m, seen, key) {
      var k :| 0 <= k < |seen| && m.shortId(seen[k]) == key;
      assert m.shortId(next[k]) == key;
    }
  }

  /** And for its own short id it is a match, which clashes unless it is an extra one that repeats all before it. */
  lemma ThisKey(m: Message, seen: seq<Tx>, own: nat, t: Tx, isExtra: bool)
    requires if isExtra then own <= |seen| else own == |seen|
    ensures
      var key := m.shortId(t);
      && MatchIn(m, seen + [t], key)
      && (Clash(m, seen + [t], OwnAfter(seen, own, isExtra), key) <==>
            Clash(m, seen, own, key) || (exists k :: 0 <= k < |seen| && m.shortId(seen[k]) == key && (!isExtra || seen[k] != t)))
  {
    var next, own', key := seen + [t], OwnAfter(seen, own, isExtra), m.shortId(t);
    assert forall k :: 0 <= k < |seen| ==> next[k] == seen[k];
    assert next[|seen|] == t;
    if Clash(m, seen, own, key) {
      var k, l :| 0 <= k < l < |seen| && m.shortId(seen[k]) == key && m.shortId(seen[l]) == key &&
                  (l < own || seen[l] != seen[k]);
      assert m.shortId(next[k]) == key && m.shortId(next[l]) == key && (l < own' || next[l] != next[k]);
    }
    if k :| 0 <= k < |seen| && m.shortId(seen[k]) == key && (!isExtra || seen[k] != t) {
      assert m.shortId(next[k]) == key && m.shortId(next[|seen|]) == key && (|seen| < own' || next[|seen|] != next[k]);
    }
  }

  lemma NoMatch(m: Message, ids: map<nat, nat>, slots: Slots, s: Slots, have: seq<bool>, seen: seq<Tx>, own: nat,
                t: Tx, isExtra: bool)
    requires Tracked(m, ids, slots, s, have, seen, own) && (isExtra || own == |seen|) && m.shortId(t) !in ids
    ensures Tracked(m, ids, slots, s, have, seen + [t], OwnAfter(seen, own, isExtra))
  {
    hide MatchIn, Clash;
    forall key | key in ids
      ensures MatchIn(m, seen + [t], key) <==> MatchIn(m, seen, key)
      ensures Clash(m, seen + [t], OwnAfter(seen, own, isExtra), key) <==> Clash(m, seen, own, key)
    {
      OtherKey(m, seen, own, t, isExtra, key);
    }
  }

  /** All but the slot of one short id stay right when a transaction with that short id is looked at. */
  lemma OthersTracked(m: Message, ids: map<nat, nat>, slots: Slots, s: Slots, have: seq<bool>, seen: seq<Tx>, own: nat,
                      t: Tx, isExtra: bool, u: Option<Tx>)
    requires Tracked(m, ids, slots, s, have, seen, own) && Indexed(m, slots, ids) && (isExtra || own == |seen|)
    requires m.shortId(t) in ids && (u.Some? ==> u.value in seen + [t] && m.shortId(u.value) == m.shortId(t))
    requires MatchIn(m, seen + [t], m.shortId(t))
    requires u.Some? <==> Settled(m, seen + [t], OwnAfter(seen, own, isExtra), m.shortId(t))
    ensures
      var p := ids[m.shortId(t)];
      && p < |s| == |have|
      && Tracked(m, ids, slots, s[p := u], have[p := true], seen + [t], OwnAfter(seen, own, isExtra))
  {
    hide Empty, MatchIn, Clash, Settled;
    var key := m.shortId(t);
    var p := ids[key];
    assert SlotFor(m, slots, key, p);
    forall k | k in ids && k != key
      ensures ids[k] != p
      ensures MatchIn(m, seen + [t], k) <==> MatchIn(m, seen, k)
      ensures Settled(m, seen + [t], OwnAfter(seen, own, isExtra), k) <==> Settled(m, seen, own, k)
    {
      OneSlotEach(m, slots, ids, k, key);
      OtherKey(m, seen, own, t, isExtra, k);
      SettledIs(m, seen, own, k);
      SettledIs(m, seen + [t], OwnAfter(seen, own, isExtra), k);
    }
  }

  lemma SettledIs(m: Message, seen: seq<Tx>, own: nat, key: nat)
    ensures Settled(m, seen, own, key) <==> MatchIn(m, seen, key) && !Clash(m, seen, own, key)
  {
  }

  /** A transaction whose short id no other had so far fills the slot. */
  lemma FirstMatch(m: Message, ids: map<nat, nat>, slots: Slots, s: Slots, have: seq<bool>, seen: seq<Tx>, own: nat,
                   t: Tx, isExtra: bool)
    requires Tracked(m, ids, slots, s, have, seen, own) && Indexed(m, slots, ids)
    requires if isExtra then own <= |seen| else own == |seen|
    requires m.shortId(t) in ids && !have[ids[m.shortId(t)]]
    ensures
      var p := ids[m.shortId(t)];
      s[p] == None && Tracked(m, ids, slots, s[p := Some(t)], have[p := true], seen + [t], OwnAfter(seen, own, isExtra))
  {
    hide Empty, Indexed;
    ThisKey(m, seen, own, t, isExtra);
    OthersTracked(m, ids, slots, s, have, seen, own, t, isExtra, Some(t));
  }

  /** A second one from the pool, or another extra one, empties it. */
  lemma SecondMatch(m: Message, ids: map<nat, nat>, slots: Slots, s: Slots, have: seq<bool>, seen: seq<Tx>, own: nat,
                    t: Tx, isExtra: bool)
    requires Tracked(m, ids, slots, s, have, seen, own) && Indexed(m, slots, ids)
    requires if isExtra then own <= |seen| else own == |seen|
    requires m.shortId(t) in ids && have[ids[m.shortId(t)]]
    requires var u := s[ids[m.shortId(t)]]; u.Some? && (!isExtra || u.value != t)
    ensures
      var p := ids[m.shortId(t)];
      Tracked(m, ids, slots, s[p := None], have, seen + [t], OwnAfter(seen, own, isExtra))
  {
    hide Empty, Indexed;
    ThisKey(m, seen, own, t, isExtra);
    var p := ids[m.shortId(t)];
    var k :| 0 <= k < |seen| && seen[k] == s[p].value;
    OthersTracked(m, ids, slots, s, have, seen, own, t, isExtra, None);
    assert have[p := true] == have;
  }

  /** An extra one that repeats what is there leaves it, and an emptied slot stays empty. */
  lemma SameMatch(m: Message, ids: map<nat, nat>, slots: Slots, s: Slots, have: seq<bool>, seen: seq<Tx>, own: nat,
                  t: Tx, isExtra: bool)
    requires Tracked(m, ids, slots, s, have, seen, own) && Indexed(m, slots, ids)
    requires if isExtra then own <= |seen| else own == |seen|
    requires m.shortId(t) in ids && have[ids[m.shortId(t)]]
    requires var u := s[ids[m.shortId(t)]]; u.Some? ==> isExtra && u.value == t
    ensures Tracked(m, ids, slots, s, have, seen + [t], OwnAfter(seen, own, isExtra))
  {
    hide Empty, Indexed;
    ThisKey(m, seen, own, t, isExtra);
    var p := ids[m.shortId(t)];
    if s[p].Some? {
      AllTheSame(m, seen, own, m.shortId(t), t);
    }
    OthersTracked(m, ids, slots, s, have, seen, own, t, isExtra, s[p]);
    assert have[p := true] == have && s[p := s[p]] == s;
  }

  lemma AllTheSame(m: Message, seen: seq<Tx>, own: nat, key: nat, t: Tx)
    requires !Clash(m, seen, own, key) && t in seen && m.shortId(t) == key
    ensures forall k :: 0 <= k < |seen| && m.shortId(seen[k]) == key ==> seen[k] == t
  {
    var i :| 0 <= i < |seen| && seen[i] == t;
  }

  lemma FilledMore(m: Message, slots: Slots, ids: map<nat, nat>, s: Slots, key: nat, t: Option<Tx>)
    requires Indexed(m, slots, ids) && key in ids && ids[key] < |s| && s[ids[key]].Some? != t.Some?
    ensures |Filled(ids, s[ids[key] := t])| == |Filled(ids, s)| + if t.Some? then 1 else -1
  {
    hide Empty, Indexed;
    var u := s[ids[key] := t];
    forall k | k in ids && k != key
      ensures ids[k] != ids[key]
    {
      OneSlotEach(m, slots, ids, k, key);
    }
    if t.Some? {
      assert Filled(ids, u) == Filled(ids, s) + {key};
    } else {
      assert Filled(ids, u) == Filled(ids, s) - {key};
    }
  }

  /** The slots that are taken are those of the settled short ids. */
  lemma FilledSettled(m: Message, ids: map<nat, nat>, slots: Slots, s: Slots, have: seq<bool>, seen: seq<Tx>, own: nat)
    requires Tracked(m, ids, slots, s, have, seen, own)
    ensures Filled(ids, s) == SettledOf(m, ids, seen, own)
  {
    hide Settled, MatchIn;
  }

  /** When the count of settled short ids is that of all, all are. */
  lemma AllSettled(m: Message, ids: map<nat, nat>, seen: seq<Tx>, own: nat)
    ensures |SettledOf(m, ids, seen, own)| == |ids| ==> forall key :: key in ids ==> Settled(m, seen, own, key)
  {
    hide Settled;
    if |SettledOf(m, ids, seen, own)| == |ids| {
      SameSet(SettledOf(m, ids, seen, own), ids.Keys);
    }
  }

  lemma SameSet(a: set<nat>, b: set<nat>)
    requires a <= b && |a| == |b|
    ensures a == b
  {
    var d := b - a;
    assert b == a + d;
    assert |d| == 0;
  }

  ghost function Keys(s: seq<nat>): set<nat> {
    set x | x in s
  }

  lemma IndexStart(m: Message, s: Slots)
    ensures Empty(s[..0]) == 0 && Indexed(m, s, map[]) && Keys(m.shortIds[..0]) == {}
  {
  }

  lemma IndexedNext(m: Message, s: Slots, ids: map<nat, nat>, i: nat, p: nat)
    requires Indexed(m, s, ids) && i < |m.shortIds| && ids.Keys == Keys(m.shortIds[..i])
    requires p < |s| && s[p] == None && Empty(s[..p]) == i
    ensures Indexed(m, s, ids[m.shortIds[i] := p]) && ids[m.shortIds[i] := p].Keys == Keys(m.shortIds[..i + 1])
  {
    hide Empty;
    assert m.shortIds[..i + 1] == m.shortIds[..i] + [m.shortIds[i]];
  }

  lemma AnotherEmpty(s: Slots, i: nat)
    requires i <= |s| && Empty(s[..i]) < Empty(s)
    ensures i < |s|
  {
    assert s[..|s|] == s;
  }

  lemma {:induction false} KeysCard(s: seq<nat>)
    ensures |Keys(s)| <= |s| && (|Keys(s)| == |s| <==> Distinct(s))
  {
    if s != [] {
      var n := |s| - 1;
      KeysCard(s[..n]);
      assert s == s[..n] + [s[n]];
      assert Keys(s) == Keys(s[..n]) + {s[n]};
      if s[n] in s[..n] {
        assert Keys(s) == Keys(s[..n]);
      }
      DistinctNext(s, n);
    } else {
      assert Keys(s) == {};
    }
  }

  lemma DistinctNext(s: seq<nat>, n: nat)
    requires |s| == n + 1
    ensures Distinct(s) <==> Distinct(s[..n]) && s[n] !in s[..n]
  {
    if Distinct(s[..n]) && s[n] !in s[..n] {
      forall i, j | 0 <= i < j < |s|
        ensures s[i] != s[j]
      {
        assert s[..n][i] == s[i];
        assert j < n ==> s[..n][j] == s[j];
      }
    }
    if Distinct(s) {
      forall i, j | 0 <= i < j < n
        ensures s[..n][i] != s[..n][j]
      {
        assert s[i] != s[j];
      }
    }
  }

  /**
   Prefilled slots are as sent, the others empty or matched by short id; the slot of a short id is taken
   exactly when some transaction looked at matches it and no two clash.
   */
  ghost predicate Outcome(m: Message, slots: Slots, ids: map<nat, nat>, s: Slots, seen: seq<Tx>, own: nat) {
    && |s| == |slots|
    && (forall i :: 0 <= i < |s| ==>
          s[i] == slots[i] ||
          (slots[i] == None && s[i].Some? && s[i].value in seen && SlotFor(m, slots, m.shortId(s[i].value), i)))
    && (forall key :: key in ids ==> ids[key] < |s| && SlotFor(m, slots, key, ids[key]))
    && (forall key :: key in ids ==> (s[ids[key]].Some? <==> Settled(m, seen, own, key)))
  }

  lemma TrackStart(m: Message, ids: map<nat, nat>, slots: Slots, have: seq<bool>)
    requires Indexed(m, slots, ids) && |have| == |slots| && forall i :: 0 <= i < |have| ==> !have[i]
    ensures Tracked(m, ids, slots, slots, have, [], 0) && Filled(ids, slots) == {}
  {
    hide Empty;
    forall key | key in ids
      ensures ids[key] < |slots| && slots[ids[key]] == None
    {
      assert SlotFor(m, slots, key, ids[key]);
    }
  }

  lemma TrackEnd(m: Message, ids: map<nat, nat>, slots: Slots, s: Slots, have: seq<bool>, seen: seq<Tx>, own: nat)
    requires Indexed(m, slots, ids) && Tracked(m, ids, slots, s, have, seen, own)
    ensures Outcome(m, slots, ids, s, seen, own)
  {
    hide Empty, Settled, MatchIn;
    forall i | 0 <= i < |s| && s[i] != slots[i]
      ensures s[i].Some? ==> s[i].value in seen && SlotFor(m, slots, m.shortId(s[i].value), i)
      ensures slots[i] == None
    {
      var key :| key in ids && ids[key] == i;
      assert SlotFor(m, slots, key, i);
    }
  }

  /** The slots with the missing transactions put into the empty ones in order. */
  ghost function Merged(s: Slots, missing: seq<Tx>): seq<Tx> {
    if s == [] then []
    else
      var n := |s| - 1;
      Merged(s[..n], missing) +
      if s[n].Some? then [s[n].value] else if Empty(s[..n]) < |missing| then [missing[Empty(s[..n])]] else []
  }

  lemma MergeStart(s: Slots, missing: seq<Tx>)
    ensures Merged(s[..0], missing) == [] && Empty(s[..0]) == 0
  {
  }

  lemma MergeNext(s: Slots, missing: seq<Tx>, i: nat)
    requires i < |s|
    ensures Merged(s[..i + 1], missing) == Merged(s[..i], missing) +
              if s[i].Some? then [s[i].value] else if Empty(s[..i]) < |missing| then [missing[Empty(s[..i])]] else []
  {
    hide Empty;
    assert s[..i + 1][..i] == s[..i];
  }

  lemma {:induction false} EmptyPrefix(s: Slots, i: nat)
    requires i <= |s|
    ensures Empty(s[..i]) <= Empty(s)
    decreases |s| - i
  {
    if i == |s| {
      assert s[..i] == s;
    } else {
      EmptyNext(s, i);
      EmptyPrefix(s, i + 1);
    }
  }

  /** The block's transactions for which the slots are empty, in order. */
  ghost function Missing(s: Slots, vtx: seq<Tx>): (r: seq<Tx>)
    requires |s| <= |vtx|
    ensures |r| == Empty(s)
  {
    if s == [] then []
    else Missing(s[..|s| - 1], vtx) + if s[|s| - 1] == None then [vtx[|s| - 1]] else []
  }

  /** Merging faithful slots with what is missing gives back the block. */
  lemma {:induction false} MergedBack(s: Slots, vtx: seq<Tx>, more: seq<Tx>)
    requires |s| <= |vtx| && forall i :: 0 <= i < |s| ==> s[i] == None || s[i] == Some(vtx[i])
    ensures Merged(s, Missing(s, vtx) + more) == vtx[..|s|]
  {
    if s != [] {
      hide Empty;
      var n := |s| - 1;
      var rest := if s[n] == None then [vtx[n]] else [];
      MergedBack(s[..n], vtx, rest + more);
      assert Missing(s[..n], vtx) + (rest + more) == Missing(s, vtx) + more by {
        assert Missing(s, vtx) == Missing(s[..n], vtx) + rest;
      }
      assert s[n] == None ==> (Missing(s[..n], vtx) + (rest + more))[Empty(s[..n])] == vtx[n];
      assert vtx[..n + 1] == vtx[..n] + [vtx[n]];
    }
  }

  /** If the transactions at hand that match are the genuine ones, every slot is empty or right. */
  lemma OutcomeFaithful(m: Message, vtx: seq<Tx>, ids: map<nat, nat>, s: Slots, seen: seq<Tx>, own: nat)
    requires Describes(m, vtx) && Genuine(m, vtx, seen) && Outcome(m, PrefilledSlots(m, |m.prefilled|), ids, s, seen, own)
    ensures Faithful(s, vtx)
  {
    hide Empty, Settled;
    var slots := PrefilledSlots(m, |m.prefilled|);
    forall i | 0 <= i < |vtx|
      ensures s[i] == None || s[i] == Some(vtx[i])
    {
      if s[i] != slots[i] {
        var t := s[i].value;
        assert SlotFor(m, slots, m.shortId(t), i) && SlotFor(m, slots, m.shortId(vtx[i]), i);
        var k :| 0 <= k < |seen| && seen[k] == t;
        assert m.shortId(seen[k]) == m.shortId(vtx[i]);
      }
    }
  }

  lemma GenuinePart(m: Message, vtx: seq<Tx>, pool: seq<Tx>, extra: seq<Tx>, nPool: nat, nExtra: nat)
    requires Genuine(m, vtx, pool + extra) && nPool <= |pool| && nExtra <= |extra|
    ensures Genuine(m, vtx, pool[..nPool] + extra[..nExtra])
  {
    var seen := pool[..nPool] + extra[..nExtra];
    forall k | 0 <= k < |seen|
      ensures seen[k] in pool + extra
    {
      assert seen[k] == (pool + extra)[if k < nPool then k else |pool| + k - nPool];
    }
  }

  /** What the other side sends for the slots that are empty. */
  method SendMissing(s: Slots, vtx: seq<Tx>) returns (r: seq<Tx>)
    requires |s| == |vtx|
    ensures r == Missing(s, vtx)
  {
    r := [];
    for i := 0 to |s|
      invariant r == Missing(s[..i], vtx)
    {
      assert s[..i + 1][..i] == s[..i];
      if s[i] == None {
        r := r + [vtx[i]];
      }
    }
    assert s[..|s|] == s;
  }

  /** Announcing a block, taking in the message and filling in what is missing gives exactly the block. */
  method Reconstruct(vtx: seq<Tx>, shortId: Tx -> nat, pool: seq<Tx>, extra: seq<Tx>, maxTxs: nat, crowded: nat -> bool)
    returns (status: Status, got: seq<Tx>)
    requires 1 <= |vtx| <= maxTxs < UINT32 && Genuine(Announce(vtx, shortId), vtx, pool + extra)
    ensures status == Ok || status == Failed
    ensures status == Ok ==> got == vtx
    ensures Distinct(Announce(vtx, shortId).shortIds) && (forall i :: 0 <= i < |vtx| ==> !crowded(i)) ==> status == Ok
  {
    hide Empty, Outcome, Faithful, Distinct, Genuine;
    var m := Announce(vtx, shortId);
    AnnounceDescribes(vtx, shortId);
    var block := new PartiallyDownloadedBlock();
    ghost var ids, nPool, nExtra;
    status, ids, nPool, nExtra := block.InitData(m, pool, extra, maxTxs, crowded);
    got := [];
    if status == Ok {
      GenuinePart(m, vtx, pool, extra, nPool, nExtra);
      OutcomeFaithful(m, vtx, ids, block.available, pool[..nPool] + extra[..nExtra], nPool);
      Refilled(block.available, vtx);
      var missing := SendMissing(block.available, vtx);
      status, got := block.FillBlock(missing, Ok);
    }
  }

  lemma Refilled(s: Slots, vtx: seq<Tx>)
    requires Faithful(s, vtx)
    ensures |s| == |vtx| && Merged(s, Missing(s, vtx)) == vtx
  {
    hide Empty;
    MergedBack(s, vtx, []);
    assert Missing(s, vtx) + [] == Missing(s, vtx) && vtx[..|s|] == vtx;
  }

  // ---- Differential indices

  ghost predicate Below32(s: seq<nat>) {
    forall i :: 0 <= i < |s| ==> s[i] < UINT32
  }

  /** Each index as its distance from the one after the previous index. */
  ghost predicate Differences(indices: seq<nat>, diffs: seq<nat>) {
    && |indices| == |diffs|
    && forall i :: 0 <= i < |indices| ==> indices[i] == diffs[i] + if i == 0 then 0 else indices[i - 1] + 1
  }

  /** The same up to multiples of 2^32. */
  ghost predicate WrappedDifferences(indices: seq<nat>, diffs: seq<nat>) {
    && |indices| == |diffs| && Below32(diffs)
    && forall i :: 0 <= i < |indices| ==> LeadsTo(if i == 0 then 0 else indices[i - 1] + 1, diffs[i], indices[i])
  }

  ghost predicate LeadsTo(next: nat, d: nat, index: nat) {
    (d + next) % UINT32 == index
  }

  /** Writes the differences, in 32-bit arithmetic; they are the indices' own exactly when these ascend. */
  method WriteIndices(indices: seq<nat>) returns (diffs: seq<nat>)
    requires Below32(indices)
    ensures WrappedDifferences(indices, diffs)
    ensures Differences(indices, diffs) <==> StrictlyAscending(indices)
  {
    hide WrappedDifferences, Differences;
    diffs := [];
    WrappedNone(indices);
    for i := 0 to |indices|
      invariant |diffs| == i && WrappedDifferences(indices[..i], diffs)
    {
      var d := (indices[i] - if i == 0 then 0 else (indices[i - 1] + 1) % UINT32) % UINT32;
      WrappedNext(indices, diffs, i, d);
      diffs := diffs + [d];
    }
    assert indices[..|indices|] == indices;
    AscendingExactly(indices, diffs);
  }

  lemma WrappedNone(indices: seq<nat>)
    ensures WrappedDifferences(indices[..0], [])
  {
  }

  lemma WrappedNext(indices: seq<nat>, diffs: seq<nat>, i: nat, d: nat)
    requires Below32(indices) && i < |indices| && WrappedDifferences(indices[..i], diffs) && |diffs| == i
    requires d == (indices[i] - if i == 0 then 0 else (indices[i - 1] + 1) % UINT32) % UINT32
    ensures WrappedDifferences(indices[..i + 1], diffs + [d])
  {
    hide LeadsTo;
    WrapBack(indices[i], if i == 0 then 0 else indices[i - 1] + 1);
    var s, ds := indices[..i + 1], diffs + [d];
    forall k | 0 <= k < |s|
      ensures LeadsTo(if k == 0 then 0 else s[k - 1] + 1, ds[k], s[k])
    {
      if k < i {
        assert indices[..i][k] == s[k] && ds[k] == diffs[k];
      }
    }
  }

  lemma WrapBack(index: nat, next: nat)
    requires index < UINT32
    ensures LeadsTo(next, (index - next % UINT32) % UINT32, index)
  {
  }

  lemma NoWrap(d: nat, next: nat, index: nat)
    requires d < UINT32 && next <= index < UINT32 && (d + next) % UINT32 == index
    ensures d + next == index
  {
  }

  lemma AscendingExactly(indices: seq<nat>, diffs: seq<nat>)
    requires Below32(indices) && WrappedDifferences(indices, diffs)
    ensures Differences(indices, diffs) <==> StrictlyAscending(indices)
  {
    if StrictlyAscending(indices) {
      forall i | 0 <= i < |indices|
        ensures indices[i] == diffs[i] + if i == 0 then 0 else indices[i - 1] + 1
      {
        if i > 0 {
          assert indices[i - 1] < indices[i];
          NoWrap(diffs[i], indices[i - 1] + 1, indices[i]);
        } else {
          NoWrap(diffs[i], 0, indices[i]);
        }
      }
    }
    if Differences(indices, diffs) {
      forall i, j | 0 <= i < j < |indices|
        ensures indices[i] < indices[j]
      {
        DifferencesAscend(indices, diffs, i, j);
      }
    }
  }

  lemma {:induction false} DifferencesAscend(indices: seq<nat>, diffs: seq<nat>, i: nat, j: nat)
    requires Differences(indices, diffs) && i < j < |indices|
    ensures indices[i] < indices[j]
  {
    if i + 1 < j {
      DifferencesAscend(indices, diffs, i, j - 1);
    }
  }

  /** Reads the differences; the source throws as soon as a difference or an index passes 32 bits. */
  method ReadIndices(diffs: seq<nat>) returns (indices: Option<seq<nat>>)
    ensures indices.Some? ==>
      && Differences(indices.value, diffs) && StrictlyAscending(indices.value) && Below32(indices.value)
    ensures indices.None? ==> forall s :: Differences(s, diffs) ==> !Below32(s) || !Below32(diffs)
  {
    for i := 0 to |diffs|
      invariant forall k :: 0 <= k < i ==> diffs[k] < UINT32
    {
      if diffs[i] > UINT32 - 1 {
        return None;
      }
    }
    var r: seq<nat> := [];
    var offset: nat := 0;
    for i := 0 to |diffs|
      invariant |r| == i && Below32(r) && StrictlyAscending(r) && offset == if i == 0 then 0 else r[i - 1] + 1
      invariant Differences(r, diffs[..i])
    {
      if diffs[i] + offset > UINT32 - 1 {
        forall s | Differences(s, diffs)
          ensures !Below32(s)
        {
          SameIndices(s, r, diffs, i);
          assert s[i] >= UINT32;
        }
        return None;
      }
      r := r + [diffs[i] + offset];
      offset := diffs[i] + offset + 1;
    }
    assert diffs[..|diffs|] == diffs;
    return Some(r);
  }

  lemma {:induction false} SameIndices(s: seq<nat>, r: seq<nat>, diffs: seq<nat>, i: nat)
    requires i <= |r| && |r| <= |diffs| && Differences(s, diffs) && Differences(r, diffs[..|r|])
    ensures forall k :: 0 <= k < i ==> s[k] == r[k]
    decreases i
  {
    if i > 0 {
      SameIndices(s, r, diffs, i - 1);
      var j := i - 1;
      assert diffs[..|r|][j] == diffs[j];
      assert j > 0 ==> s[j - 1] == r[j - 1];
      assert s[j] == diffs[j] + (if j == 0 then 0 else s[j - 1] + 1);
      assert r[j] == diffs[j] + (if j == 0 then 0 else r[j - 1] + 1);
    }
  }

  /** The differences determine the indices: what was written is what is read. */
  lemma IndicesRoundTrip(indices: seq<nat>, read: seq<nat>, diffs: seq<nat>)
    requires Differences(indices, diffs) && Differences(read, diffs)
    ensures read == indices
  {
    assert diffs[..|read|] == diffs;
    SameIndices(indices, read, diffs, |read|);
  }
}
