/**
 A file that a consistent manager wrote, read by the rules for any file: every
 entry, tried slot and reference is taken as it was written, and nothing is lost.
 */
module AddrGenuine {
  import opened Collections
  import opened AddrTypes
  import opened AddrState
  import opened AddrView
  import opened AddrCodec
  import opened AddrIntake

  /** s is consistent and stream is what it writes. */
  ghost predicate Genuine(env: Env, s: State, stream: seq<Token>) {
    Consistent(env, s) && stream == Encode(s)
  }

  lemma CountedFacts(env: Env, s: State)
    requires Consistent(env, s)
    ensures |NewOrder(s)| == s.nNew && Distinct(NewOrder(s))
    ensures forall n :: n in NewOrder(s) <==> n in s.info && !s.info[n].inTried
    ensures forall n :: n in s.info ==> (s.info[n].refCount != 0 <==> !s.info[n].inTried)
    ensures forall i :: 0 <= i < |Sorted(s.info.Keys)| ==> Sorted(s.info.Keys)[i] in s.info
  {
    hide NewSlots, TriedSlots, Ordered, Indexed, Sorted, Keep;
    OrderFacts(s);
    KeysOrdered(s);
  }

  lemma IndicesNext(order: seq<int>, row: seq<int>, i: nat)
    requires i < |row|
    ensures Indices(order, row[..i + 1]) ==
            if row[i] in order then Indices(order, row[..i]) + [I32(IndexOf(order, row[i]))] else Indices(order, row[..i])
  {
    assert row[..i + 1][..i] == row[..i];
  }

  lemma NewSlotFacts(env: Env, s: State)
    requires Consistent(env, s)
    ensures Shaped(s)
    ensures forall b: nat, p: nat :: b < NEW_BUCKETS && p < BUCKET_SIZE ==>
              (At(s.newT, b, p) != -1 <==> At(s.newT, b, p) in NewOrder(s))
  {
    hide Sorted, Keep, Counted, TriedSlots, Ordered, Referenced;
    CountedFacts(env, s);
    forall b: nat, p: nat | b < NEW_BUCKETS && p < BUCKET_SIZE
      ensures At(s.newT, b, p) != -1 <==> At(s.newT, b, p) in NewOrder(s)
    {
      var n := s.newT[b][p];
      assert n != -1 ==> n in s.info && !s.info[n].inTried;
    }
  }

  lemma ReadFacts(env: Env, s: State)
    requires Consistent(env, s)
    ensures |NewOrder(s)| == s.nNew >= 0 && |TriedOrder(s)| == s.nTried >= 0 && |Order(s)| == s.nNew + s.nTried
    ensures |Entries(s, NewOrder(s))| == s.nNew && |Entries(s, TriedOrder(s))| == s.nTried
    ensures forall i :: 0 <= i < s.nNew ==> NewOrder(s)[i] == Order(s)[i]
    ensures forall i :: 0 <= i < s.nTried ==> TriedOrder(s)[i] == Order(s)[s.nNew + i]
  {
    hide Sorted, Keep, NewSlots, TriedSlots, Referenced, Ordered, Indexed;
    OrderFacts(s);
  }

  lemma {:induction false} IndicesPrefix(order: seq<int>, row: seq<int>, i: nat)
    requires i <= |row|
    ensures Indices(order, row[..i]) <= Indices(order, row)
    decreases |row|
  {
    if i < |row| {
      IndicesPrefix(order, row[..|row| - 1], i);
      assert row[..|row| - 1][..i] == row[..i];
    } else {
      assert row[..i] == row;
    }
  }

  /** The number of indices of bucket b of s that stem from positions below k. */
  ghost function Given(s: State, b: nat, k: nat): nat
    requires b < |s.newT| && k <= |s.newT[b]|
  {
    |Indices(NewOrder(s), s.newT[b][..k])|
  }

  lemma GivenNext(env: Env, s: State, b: nat, k: nat)
    requires Consistent(env, s) && b < NEW_BUCKETS && k < BUCKET_SIZE
    ensures b < |s.newT| && k < |s.newT[b]| && |s.newT[b]| == BUCKET_SIZE
    ensures Given(s, b, k + 1) == if At(s.newT, b, k) == -1 then Given(s, b, k) else Given(s, b, k) + 1
    ensures Given(s, b, k + 1) <= |Indices(NewOrder(s), s.newT[b])|
    ensures At(s.newT, b, k) != -1 ==>
              && At(s.newT, b, k) in NewOrder(s)
              && Indices(NewOrder(s), s.newT[b])[Given(s, b, k)] == I32(IndexOf(NewOrder(s), At(s.newT, b, k)))
  {
    hide Counted, NewSlots, TriedSlots, Referenced, Ordered, Indexed, NewOrder;
    NewSlotFacts(env, s);
    IndicesNext(NewOrder(s), s.newT[b], k);
    IndicesPrefix(NewOrder(s), s.newT[b], k + 1);
  }

  /** Empty positions are passed over up to the next index. */
  lemma {:induction false} NextIndex(env: Env, s: State, t: State, b: nat, k: nat) returns (k': nat)
    requires Consistent(env, s) && Loading(env, s, t, |Order(s)|, b, k) && b < NEW_BUCKETS && k <= BUCKET_SIZE
    requires b < |s.newT| && |s.newT[b]| == BUCKET_SIZE && Given(s, b, k) < |Indices(NewOrder(s), s.newT[b])|
    ensures k' < BUCKET_SIZE && At(s.newT, b, k') != -1 && Given(s, b, k') == Given(s, b, k)
    ensures Loading(env, s, t, |Order(s)|, b, k')
    decreases BUCKET_SIZE - k
  {
    hide Linked, Loading, Order, NewOrder, Indices;
    assert s.newT[b][..BUCKET_SIZE] == s.newT[b];
    if k == BUCKET_SIZE {
      assert false;
    }
    GivenNext(env, s, b, k);
    if At(s.newT, b, k) != -1 {
      k' := k;
    } else {
      LoadingSkip(env, s, t, |Order(s)|, b, k);
      k' := NextIndex(env, s, t, b, k + 1);
    }
  }

  /** After the last index only empty positions remain. */
  lemma {:induction false} RowFinished(env: Env, s: State, t: State, b: nat, k: nat)
    requires Consistent(env, s) && Loading(env, s, t, |Order(s)|, b, k) && b < NEW_BUCKETS && k <= BUCKET_SIZE
    requires b < |s.newT| && |s.newT[b]| == BUCKET_SIZE && Given(s, b, k) == |Indices(NewOrder(s), s.newT[b])|
    ensures Loading(env, s, t, |Order(s)|, b + 1, 0)
    decreases BUCKET_SIZE - k
  {
    hide Linked, Loading, Order, NewOrder, Indices;
    if k == BUCKET_SIZE {
      LoadingRow(env, s, t, |Order(s)|, b);
    } else {
      GivenNext(env, s, b, k);
      LoadingSkip(env, s, t, |Order(s)|, b, k);
      RowFinished(env, s, t, b, k + 1);
    }
  }

  lemma RowStart(env: Env, s: State, b: nat)
    requires Consistent(env, s) && b < NEW_BUCKETS
    ensures b < |s.newT| && |s.newT[b]| == BUCKET_SIZE && Given(s, b, 0) == 0
    ensures var indices := Indices(NewOrder(s), s.newT[b]);
            Rows(s, b) == [I32(|indices|)] + indices + Rows(s, b + 1)
  {
    hide Counted, NewSlots, TriedSlots, Referenced, Ordered, Indexed, NewOrder;
  }

  /** Header, entries and bucket data are where Encode puts them. */
  lemma EncodeParts(env: Env, s: State)
    requires Consistent(env, s)
    ensures |Encode(s)| >= 6
    ensures Encode(s)[0] == U8(1) && Encode(s)[1] == U8(32) && Encode(s)[2] == Key(s.key)
    ensures Encode(s)[3] == I32(s.nNew) && Encode(s)[4] == I32(s.nTried) && Encode(s)[5] == I32(Xor30(NEW_BUCKETS))
    ensures Encode(s)[6..] == Entries(s, NewOrder(s)) + Entries(s, TriedOrder(s)) + Rows(s, 0)
  {
    hide Linked, NewOrder, TriedOrder, Entries, Rows;
    var head := [U8(1), U8(32), Key(s.key), I32(s.nNew), I32(s.nTried), I32(Xor30(NEW_BUCKETS))];
    var tail := Entries(s, NewOrder(s)) + Entries(s, TriedOrder(s)) + Rows(s, 0);
    assert Encode(s) == head + tail;
  }

  // ---- Reading it

  /** es are the entries written from place lo of the order on. */
  ghost predicate Written(s: State, lo: nat, es: seq<Entry>) {
    && lo + |es| <= |Order(s)|
    && forall i :: 0 <= i < |es| ==> Order(s)[lo + i] in s.info && es[i] == Persist(s.info[Order(s)[lo + i]].entry)
  }

  lemma WrittenPrefix(s: State, lo: nat, es: seq<Entry>, n: nat)
    requires Written(s, lo, es) && n <= |es|
    ensures Written(s, lo, es[..n])
  {
    var es' := es[..n];
    forall i | 0 <= i < |es'|
      ensures Order(s)[lo + i] in s.info && es'[i] == Persist(s.info[Order(s)[lo + i]].entry)
    {
      assert es'[i] == es[i];
    }
  }

  lemma {:induction false} NewReadLoading(env: Env, s: State, t: State, es: seq<Entry>)
    requires Consistent(env, s) && Loading(env, s, t, 0, 0, 0) && |es| <= s.nNew && Written(s, 0, es)
    ensures Loading(env, s, NewRead(env, t, es, true), |es|, 0, 0)
    ensures NewRead(env, t, es, true).nNew == t.nNew && NewRead(env, t, es, true).nTried == t.nTried
  {
    hide Linked, Loading, Order;
    if es != [] {
      var n := |es| - 1;
      WrittenPrefix(s, 0, es, n);
      NewReadLoading(env, s, t, es[..n]);
      LoadingNew(env, s, NewRead(env, t, es[..n], true), n);
    }
  }

  lemma {:induction false} TriedReadLoading(env: Env, s: State, t: State, es: seq<Entry>)
    requires Consistent(env, s) && 0 <= s.nNew == t.idCount && Loading(env, s, t, s.nNew, 0, 0) && Written(s, s.nNew, es)
    ensures
      var u := TriedRead(env, t, es);
      u.idCount == s.nNew + |es| && Loading(env, s, u, s.nNew + |es|, 0, 0) && u.nNew == t.nNew && u.nTried == t.nTried
  {
    hide Linked, Loading, Order, TriedAt;
    if es != [] {
      var n := |es| - 1;
      WrittenPrefix(s, s.nNew, es, n);
      TriedReadLoading(env, s, t, es[..n]);
      LoadingTried(env, s, TriedRead(env, t, es[..n]), s.nNew + n);
    }
  }

  lemma {:induction false} IndicesAreNumbers(order: seq<int>, row: seq<int>)
    ensures forall i :: 0 <= i < |Indices(order, row)| ==> Indices(order, row)[i].I32?
  {
    if row != [] {
      IndicesAreNumbers(order, row[..|row| - 1]);
    }
  }

  lemma {:induction false} RowReadLoading(env: Env, s: State, t: State, b: nat, row: seq<int>) returns (k: nat)
    requires Consistent(env, s) && Loading(env, s, t, |Order(s)|, b, 0) && t.nNew == s.nNew && b < NEW_BUCKETS
    requires b < |s.newT| && |s.newT[b]| == BUCKET_SIZE
    requires
      var indices := Indices(NewOrder(s), s.newT[b]);
      |row| <= |indices| && forall i :: 0 <= i < |row| ==> indices[i] == I32(row[i])
    ensures
      var u := RowRead(env, t, b, row, true);
      k <= BUCKET_SIZE && Given(s, b, k) == |row| && Loading(env, s, u, |Order(s)|, b, k) && u.nNew == t.nNew
  {
    hide Linked, Loading, Order, NewOrder, Indices, Position, At, SetSlot;
    if row == [] {
      RowStart(env, s, b);
      k := 0;
    } else {
      var n := |row| - 1;
      var k' := RowReadLoading(env, s, t, b, row[..n]);
      var u := RowRead(env, t, b, row[..n], true);
      k' := NextIndex(env, s, u, b, k');
      GivenNext(env, s, b, k');
      LoadingSlot(env, s, u, b, k');
      k := k' + 1;
    }
  }

  lemma {:induction false} RowsReadLoading(env: Env, s: State, t: State, stream: seq<Token>, start: nat, b: nat)
    requires Consistent(env, s) && Loading(env, s, t, |Order(s)|, 0, 0) && t.nNew == s.nNew && b <= NEW_BUCKETS
    requires start <= |stream| && stream[start..] == Rows(s, 0)
    ensures
      var p := RowsAt(stream, start, b);
      && p.Parsed? && p.end <= |stream| && stream[p.end..] == Rows(s, b)
      && Loading(env, s, RowsRead(env, t, p.rows, true), |Order(s)|, b, 0) && RowsRead(env, t, p.rows, true).nNew == t.nNew
  {
    hide Linked, Loading, Order, NewOrder, Indices, Rows, RowRead, At;
    if b > 0 {
      RowsReadLoading(env, s, t, stream, start, b - 1);
      var p := RowsAt(stream, start, b - 1);
      RowStart(env, s, b - 1);
      var indices := Indices(NewOrder(s), s.newT[b - 1]);
      IndicesAreNumbers(NewOrder(s), s.newT[b - 1]);
      RowThere(stream, p.end, indices, Rows(s, b));
      var u := RowsRead(env, t, p.rows, true);
      var k := RowReadLoading(env, s, u, b - 1, RowOf(stream, p.end));
      RowFinished(env, s, RowRead(env, u, b - 1, RowOf(stream, p.end), true), b - 1, k);
      RowsOneMore(stream, start, b - 1);
      assert (p.rows + [RowOf(stream, p.end)])[..b - 1] == p.rows;
    }
  }

  /** A row of references stands where it was written. */
  lemma RowThere(stream: seq<Token>, pos: nat, indices: seq<Token>, rest: seq<Token>)
    requires pos <= |stream| && stream[pos..] == [I32(|indices|)] + indices + rest
    requires forall i :: 0 <= i < |indices| ==> indices[i].I32?
    ensures RowAt(stream, pos) && |RowOf(stream, pos)| == |indices| == Count(stream[pos].i)
    ensures forall i :: 0 <= i < |indices| ==> indices[i] == I32(RowOf(stream, pos)[i])
    ensures pos + 1 + |indices| <= |stream| && stream[pos + 1 + |indices|..] == rest
  {
    var all := [I32(|indices|)] + indices + rest;
    assert |stream| - pos == |all|;
    assert stream[pos] == stream[pos..][0];
    forall i | 0 <= i < |indices|
      ensures stream[pos + 1 + i] == indices[i]
    {
      assert stream[pos + 1 + i] == stream[pos..][1 + i] == all[1 + i];
    }
    assert stream[pos + 1 + |indices|..] == stream[pos..][1 + |indices|..];
  }

  /** The entries of both tables stand where they were written. */
  lemma ItemsThere(env: Env, s: State)
    requires Consistent(env, s)
    ensures
      var stream := Encode(s);
      && 0 <= s.nNew && 0 <= s.nTried && ItemsAt(stream, 6, s.nNew) && ItemsAt(stream, 6 + s.nNew, s.nTried)
      && |Order(s)| == s.nNew + s.nTried
      && Written(s, 0, EntriesOf(stream, 6, s.nNew)) && Written(s, s.nNew, EntriesOf(stream, 6 + s.nNew, s.nTried))
      && 6 + s.nNew + s.nTried <= |stream| && stream[6 + s.nNew + s.nTried..] == Rows(s, 0)
  {
    hide Linked, Encode, Rows, NewOrder, TriedOrder, Order;
    EncodeParts(env, s);
    ReadFacts(env, s);
    OrderMembersOf(env, s);
    var stream := Encode(s);
    var es, fs := Entries(s, NewOrder(s)), Entries(s, TriedOrder(s));
    assert |stream[6..]| == s.nNew + s.nTried + |Rows(s, 0)|;
    forall i | 0 <= i < s.nNew
      ensures stream[6 + i] == es[i]
    {
      assert stream[6 + i] == stream[6..][i];
    }
    forall i | 0 <= i < s.nTried
      ensures stream[6 + s.nNew + i] == fs[i]
    {
      assert stream[6 + s.nNew + i] == stream[6..][s.nNew + i];
    }
    assert stream[6 + s.nNew + s.nTried..] == stream[6..][s.nNew + s.nTried..];
  }

  lemma OrderMembersOf(env: Env, s: State)
    requires Consistent(env, s)
    ensures forall i :: 0 <= i < |Order(s)| ==> Order(s)[i] in s.info
  {
    hide Order, NewSlots, TriedSlots, Referenced, Ordered, Indexed;
    OrderMembers(s);
  }

  /** A genuine file is accepted, restores the book and leaves nothing to prune. */
  lemma GenuineIntake(env: Env, s: State, t: State)
    requires Consistent(env, s) && Blank(t)
    ensures Accepts(Encode(s)) && CountersOk(Encode(s)) && Encode(s)[4].i == s.nTried
    ensures
      var u := Intake(env, t, Encode(s));
      && u.key == s.key && u.nNew == s.nNew && u.nTried == s.nTried && u.idCount == s.nNew + s.nTried
      && Consistent(env, u) && Restores(View(env, s), View(env, u), Order(s))
      && forall n :: n in u.info ==> InUse(u.info[n])
  {
    hide Linked, Encode, Rows, NewOrder, TriedOrder, Order, Loading, NewRead, TriedRead, RowsRead, RowsAt, View, Restores;
    var stream := Encode(s);
    EncodeParts(env, s);
    CountersFit(env, s);
    Xor30Twice(NEW_BUCKETS);
    ItemsThere(env, s);
    var start := t.(key := s.key, nNew := s.nNew, nTried := s.nTried);
    LoadingStart(env, s, start);
    var es, fs := EntriesOf(stream, 6, s.nNew), EntriesOf(stream, 6 + s.nNew, s.nTried);
    NewReadLoading(env, s, start, es);
    var u := NewRead(env, start, es, true);
    CountersIrrelevant(env, s, u, u.(idCount := s.nNew), s.nNew, 0, 0);
    TriedReadLoading(env, s, u.(idCount := s.nNew), fs);
    var v := TriedRead(env, u.(idCount := s.nNew), fs);
    assert v.(nTried := s.nTried) == v;
    RowsReadLoading(env, s, v, stream, 6 + s.nNew + s.nTried, NEW_BUCKETS);
    var rows := RowsAt(stream, 6 + s.nNew + s.nTried, NEW_BUCKETS).rows;
    RowsReadKeepsIds(env, v, rows, true);
    var w := RowsRead(env, v, rows, true);
    LoadingDone(env, s, w);
    LoadingKey(env, s, w, |Order(s)|, NEW_BUCKETS, 0);
  }

  lemma CountersIrrelevant(env: Env, s: State, t: State, u: State, cnt: nat, b: nat, k: nat)
    requires Loading(env, s, t, cnt, b, k) && u.(idCount := t.idCount) == t
    ensures Loading(env, s, u, cnt, b, k)
  {
    hide Linked, View, Stage, Order;
    assert Tallied(u, cnt, s.nNew) == Tallied(t, cnt, s.nNew);
  }

  lemma LoadingKey(env: Env, s: State, t: State, cnt: nat, b: nat, k: nat)
    requires Loading(env, s, t, cnt, b, k)
    ensures t.key == s.key
  {
    hide Linked, View, Stage, Order;
  }
}
