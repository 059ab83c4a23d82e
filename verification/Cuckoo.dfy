/** The cuckoo cache (src/cuckoocache.h): a lossy set with eight positions for each key. */
module Cuckoo {
  import opened Numbers
  import opened Options

  datatype Element = Element(key: nat, value: nat)

  // ---- Collection flags

  function Mask(k: nat): bv8
    requires k < 8
  {
    1 << k
  }

  predicate BitOf(b: bv8, k: nat)
    requires k < 8
  {
    (Mask(k) & b) != 0
  }

  lemma SetsOnly(b: bv8, k: nat, j: nat)
    requires k < 8 && j < 8
    ensures BitOf(b | Mask(k), j) <==> j == k || BitOf(b, j)
    ensures BitOf(0xFF, j)
  {
  }

  lemma UnsetsOnly(b: bv8, k: nat, j: nat)
    requires k < 8 && j < 8
    ensures BitOf(b & !Mask(k), j) <==> j != k && BitOf(b, j)
  {
  }

  /** bit_packed_atomic_flags */
  class Flags {
    const mem: array<bv8>

    predicate IsSet(s: nat)
      requires s / 8 < mem.Length
      reads mem
    {
      BitOf(mem[s / 8], s % 8)
    }

    /** The first n flags. */
    ghost function All(n: nat): (f: seq<bool>)
      requires n <= 8 * mem.Length
      reads mem
      ensures |f| == n && forall i :: 0 <= i < n ==> f[i] == IsSet(i)
    {
      seq(n, i requires 0 <= i < n reads mem => IsSet(i))
    }

    /** The size is rounded up in 32 bits, which leaves room for all flags unless it is one of the last seven numbers. */
    constructor (size: nat)
      requires size < UINT32
      ensures fresh(mem) && mem.Length == ((size + 7) % UINT32) / 8
      ensures size <= 8 * mem.Length <==> size <= UINT32 - 8
      ensures forall s :: 0 <= s < 8 * mem.Length ==> IsSet(s)
    {
      mem := new bv8[((size + 7) % UINT32) / 8](i => 0xFF);
      new;
      forall s | 0 <= s < 8 * mem.Length
        ensures IsSet(s)
      {
        SetsOnly(0, 0, s % 8);
      }
    }

    method Set(s: nat)
      requires s / 8 < mem.Length
      modifies mem
      ensures forall j :: 0 <= j < 8 * mem.Length ==> (IsSet(j) <==> j == s || old(IsSet(j)))
    {
      ghost var was := mem[s / 8];
      mem[s / 8] := mem[s / 8] | Mask(s % 8);
      forall j | 0 <= j < 8 * mem.Length
        ensures IsSet(j) <==> j == s || old(IsSet(j))
      {
        SetsOnly(was, s % 8, j % 8);
      }
    }

    method Unset(s: nat)
      requires s / 8 < mem.Length
      modifies mem
      ensures forall j :: 0 <= j < 8 * mem.Length ==> (IsSet(j) <==> j != s && old(IsSet(j)))
    {
      ghost var was := mem[s / 8];
      mem[s / 8] := mem[s / 8] & !Mask(s % 8);
      forall j | 0 <= j < 8 * mem.Length
        ensures IsSet(j) <==> j != s && old(IsSet(j))
      {
        UnsetsOnly(was, s % 8, j % 8);
      }
    }
  }

  // ---- Positions

  /** hash(j, key) is the j-th 32-bit hash of a key. */
  type Hash = (nat, nat) -> nat

  ghost predicate IsHash(hash: Hash) {
    forall j, key :: hash(j, key) < UINT32
  }

  /** compute_hashes: eight hashes scaled down to slots. */
  function Locs(hash: Hash, size: nat, key: nat): (locs: seq<nat>)
    ensures |locs| == 8
  {
    seq(8, j requires 0 <= j < 8 => (hash(j, key) * size) / UINT32)
  }

  lemma LocsInRange(hash: Hash, size: nat, key: nat)
    requires IsHash(hash) && size > 0
    ensures forall j :: 0 <= j < 8 ==> Locs(hash, size, key)[j] < size
    ensures forall j :: 0 <= j < 8 ==>
              Locs(hash, size, key)[j] * 0x1_0000_0000 <= hash(j, key) * size < (Locs(hash, size, key)[j] + 1) * 0x1_0000_0000
  {
    forall j | 0 <= j < 8
      ensures Locs(hash, size, key)[j] < size
    {
      Fraction(hash(j, key), size);
    }
  }

  // ---- The table

  /** Slot i is one of the eight positions of the key it holds. */
  ghost predicate AtHome(hash: Hash, t: seq<Element>, i: nat)
    requires i < |t|
  {
    i in Locs(hash, |t|, t[i].key)
  }

  /** Every slot that must be kept holds an element at one of its own positions; the others may still be blank. */
  ghost predicate Placed(hash: Hash, blank: Element, t: seq<Element>, f: seq<bool>) {
    && |f| == |t|
    && forall i :: 0 <= i < |t| ==> AtHome(hash, t, i) || (f[i] && t[i] == blank)
  }

  /** No key but the blank one occurs twice. */
  ghost predicate Distinct(blank: Element, t: seq<Element>) {
    forall i, j :: 0 <= i < j < |t| && t[i].key == t[j].key ==> t[i].key == blank.key
  }

  /** The elements in slots that are not collectable. */
  ghost function Live(t: seq<Element>, f: seq<bool>): multiset<Element>
    requires |t| == |f|
  {
    if t == [] then multiset{}
    else Live(t[..|t| - 1], f[..|t| - 1]) + One(t[|t| - 1], f[|t| - 1])
  }

  ghost function One(e: Element, collected: bool): multiset<Element> {
    if collected then multiset{} else multiset{e}
  }

  lemma LiveNext(t: seq<Element>, f: seq<bool>)
    requires |t| == |f|
    ensures Live(t, f) == if t == [] then multiset{} else Live(t[..|t| - 1], f[..|t| - 1]) + One(t[|t| - 1], f[|t| - 1])
  {
    hide One;
  }

  lemma {:induction false} LiveSplit(t: seq<Element>, f: seq<bool>, i: nat)
    requires |t| == |f| && i < |t|
    ensures Live(t, f) == Live(t[..i], f[..i]) + One(t[i], f[i]) + Live(t[i + 1..], f[i + 1..])
  {
    hide One, Live;
    var n := |t| - 1;
    var r, g := t[i + 1..], f[i + 1..];
    LiveNext(t, f);
    LiveNext(r, g);
    if i < n {
      LiveSplit(t[..n], f[..n], i);
      assert t[..n][..i] == t[..i] && f[..n][..i] == f[..i];
      assert r[..n - i - 1] == t[..n][i + 1..] && g[..n - i - 1] == f[..n][i + 1..];
      Reassociate(Live(t[..i], f[..i]), One(t[i], f[i]), Live(r[..n - i - 1], g[..n - i - 1]), One(t[n], f[n]));
    } else {
      assert Live(r, g) == multiset{};
    }
  }

  lemma Reassociate(a: multiset<Element>, b: multiset<Element>, c: multiset<Element>, d: multiset<Element>)
    ensures a + b + c + d == a + b + (c + d)
  {
  }

  /** Changing one slot changes only what it contributes. */
  lemma LiveChange(t: seq<Element>, f: seq<bool>, i: nat, e: Element, collected: bool)
    requires |t| == |f| && i < |t|
    ensures One(t[i], f[i]) <= Live(t, f)
    ensures Live(t[i := e], f[i := collected]) == Live(t, f) - One(t[i], f[i]) + One(e, collected)
  {
    hide Live;
    LiveSplit(t, f, i);
    LiveSplit(t[i := e], f[i := collected], i);
    assert t[i := e][..i] == t[..i] && f[i := collected][..i] == f[..i];
    assert t[i := e][i + 1..] == t[i + 1..] && f[i := collected][i + 1..] == f[i + 1..];
  }

  /** The first of the eight positions that satisfies a test, or 8. */
  function FirstAt(locs: seq<nat>, ok: seq<bool>): (j: nat)
    ensures j <= |locs| && (j < |locs| ==> locs[j] < |ok| && ok[locs[j]])
    ensures forall k :: 0 <= k < j ==> !(locs[k] < |ok| && ok[locs[k]])
  {
    if locs == [] || (locs[0] < |ok| && ok[locs[0]]) then 0 else 1 + FirstAt(locs[1..], ok)
  }

  /** The key is nowhere in the table, unless it is the blank one. */
  ghost predicate Absent(blank: Element, t: seq<Element>, key: nat) {
    key != blank.key ==> forall i :: 0 <= i < |t| ==> t[i].key != key
  }

  /** Looking at the eight positions of a key is looking everywhere. */
  lemma AbsentIfNotFound(hash: Hash, blank: Element, t: seq<Element>, f: seq<bool>, key: nat)
    requires Placed(hash, blank, t, f)
    requires forall i :: i in Locs(hash, |t|, key) && i < |t| ==> t[i].key != key
    ensures Absent(blank, t, key)
  {
    forall i | 0 <= i < |t| && key != blank.key
      ensures t[i].key != key
    {
      assert AtHome(hash, t, i) || t[i] == blank;
    }
  }

  /** Moving the held element into one of its own positions keeps the table in order, for either kind of slot. */
  lemma SwapKeeps(hash: Hash, blank: Element, t: seq<Element>, f: seq<bool>, held: Element, at: nat)
    requires Placed(hash, blank, t, f) && Distinct(blank, t) && Absent(blank, t, held.key)
    requires at < |t| && at in Locs(hash, |t|, held.key)
    ensures Placed(hash, blank, t[at := held], f) && Placed(hash, blank, t[at := held], f[at := false])
    ensures Distinct(blank, t[at := held])
    ensures Absent(blank, t[at := held], t[at].key)
    ensures multiset(t[at := held]) + multiset{t[at]} == multiset(t) + multiset{held}
  {
    var u := t[at := held];
    forall i | 0 <= i < |u|
      ensures AtHome(hash, u, i) || (i != at && f[i] && u[i] == blank)
    {
      assert AtHome(hash, t, i) || (f[i] && t[i] == blank);
    }
  }

  /** What an insert did: the key was there, or it went into a collectable slot, or an element had to go. */
  datatype Outcome = Present(at: nat) | Stored(at: nat) | Dropped(element: Element)

  /** All eight positions of the key are to be kept. */
  ghost predicate Blocked(hash: Hash, size: nat, f: seq<bool>, key: nat) {
    forall i :: i in Locs(hash, size, key) && i < |f| ==> !f[i]
  }

  /** The first of them that is not is the one at j. */
  ghost predicate FirstOpen(hash: Hash, size: nat, f: seq<bool>, key: nat, j: nat) {
    var locs := Locs(hash, size, key);
    && j < |locs| && (forall k :: 0 <= k <= j ==> locs[k] < |f|)
    && f[locs[j]] && forall k :: 0 <= k < j ==> !f[locs[k]]
  }

  class Cache {
    const hash: Hash
    const blank: Element
    const size: nat
    const epochSize: nat
    const depthLimit: nat
    const collection: Flags
    var table: seq<Element>
    var epoch: seq<bool>
    var counter: nat

    ghost predicate Sized()
      reads this
    {
      && IsHash(hash) && 2 <= size <= 8 * collection.mem.Length && depthLimit >= 1
      && |table| == |epoch| == size
    }

    /** The collection flags. */
    ghost function F(): (f: seq<bool>)
      requires size <= 8 * collection.mem.Length
      reads collection.mem
      ensures |f| == size
    {
      collection.All(size)
    }

    ghost predicate Valid()
      reads this, collection.mem
    {
      Sized() && Placed(hash, blank, table, F()) && Distinct(blank, table)
    }

    /** setup; the depth limit comes from a floating-point logarithm. */
    constructor (hash: Hash, blank: Element, newSize: nat, depthLimit: nat)
      requires IsHash(hash) && newSize < UINT32 && depthLimit >= 1
      ensures fresh(collection.mem) && size == (if newSize < 2 then 2 else newSize)
      ensures Valid() <==> size <= UINT32 - 8
      ensures this.hash == hash && this.blank == blank && this.depthLimit == depthLimit && counter == epochSize >= 1
      ensures
        var share := (45 * size) % 0x1_0000_0000;
        share < 100 * (epochSize + 1) && (epochSize == 1 || 100 * epochSize <= share)
      ensures Valid() ==> Live(table, F()) == multiset{} && Kept(table, F(), epoch) == {} && Recent(epoch, F()) == 0
    {
      this.hash, this.blank, this.depthLimit := hash, blank, depthLimit;
      var n := if newSize < 2 then 2 else newSize;
      size := n;
      table := seq(n, i => blank);
      collection := new Flags(n);
      epoch := seq(n, i => false);
      epochSize := if ((45 * n) % UINT32) / 100 < 1 then 1 else ((45 * n) % UINT32) / 100;
      counter := epochSize;
      new;
      if n <= UINT32 - 8 {
        NoneLive(table, F());
        NoneRecent(epoch, F());
      }
    }

    method AllowErase(i: nat)
      requires Valid() && i < size
      modifies collection.mem
      ensures Valid() && F() == old(F())[i := true]
    {
      hide Distinct;
      ghost var f := F();
      collection.Set(i);
      assert F() == f[i := true];
      forall j | 0 <= j < |table|
        ensures AtHome(hash, table, j) || (F()[j] && table[j] == blank)
      {
        assert AtHome(hash, table, j) || (f[j] && table[j] == blank);
      }
    }

    /** please_keep. */
    method PleaseKeep(i: nat)
      requires Sized() && i < size
      modifies collection.mem
      ensures F() == old(F())[i := false]
    {
      ghost var f := F();
      collection.Unset(i);
      assert F() == f[i := false];
    }

    /** find: looks at the eight positions only, and may mark what it finds as collectable. */
    method Find(key: nat, erase: bool) returns (r: Option<Element>)
      requires Valid()
      modifies collection.mem
      ensures Valid()
      ensures
        var locs := Locs(hash, size, key);
        var j := FirstAt(locs, Holds(table, key));
        if j == 8 then r == None && F() == old(F())
        else r == Some(table[locs[j]]) && F() == if erase then old(F())[locs[j] := true] else old(F())
      ensures forall i :: 0 <= i < size && !old(F())[i] && table[i].key == key ==>
        r.Some? && r.value.key == key && (key != blank.key ==> r.value == table[i])
    {
      hide Distinct, Placed, Locs;
      var locs := Locs(hash, size, key);
      LocsInRange(hash, size, key);
      FoundIfLive(hash, blank, table, F(), key);
      r := None;
      for j := 0 to 8
        invariant Valid() && F() == old(F()) && r == None
        invariant forall k :: 0 <= k < j ==> table[locs[k]].key != key
      {
        var loc := locs[j];
        if table[loc].key == key {
          FirstIs(locs, Holds(table, key), j);
          r := Some(table[loc]);
          if erase {
            AllowErase(loc);
          }
          return;
        }
      }
      FirstIs(locs, Holds(table, key), 8);
    }

    /** epoch_check: when its counter runs out, may make the old epoch collectable and start a new one. */
    method EpochCheck()
      requires Valid()
      modifies this`epoch, this`counter, collection.mem
      ensures Valid()
      ensures
        var n := Recent(old(epoch), old(F()));
        if old(counter) == 0 && n >= epochSize then
          F() == Aged(old(epoch), old(F())) && epoch == seq(size, i => false) && counter == epochSize
        else
          && F() == old(F()) && epoch == old(epoch)
          && counter == if old(counter) != 0 then old(counter) - 1 else Max(1, Max(epochSize / 16, epochSize - n))
    {
      hide Distinct, Placed, Aged;
      if counter != 0 {
        counter := counter - 1;
        return;
      }
      var unused := CountRecent();
      if unused >= epochSize {
        StartEpoch();
        counter := epochSize;
      } else {
        counter := Max(1, Max(epochSize / 16, epochSize - unused));
      }
    }

    method CountRecent() returns (n: nat)
      requires Sized()
      ensures n == Recent(epoch, F())
    {
      n := 0;
      for i := 0 to size
        invariant n == Recent(epoch[..i], F()[..i])
      {
        RecentNext(epoch, F(), i);
        if epoch[i] && !collection.IsSet(i) {
          n := n + 1;
        }
      }
      assert epoch[..size] == epoch && F()[..size] == F();
    }

    /** Makes the old epoch collectable and the current one old. */
    method StartEpoch()
      requires Valid()
      modifies this`epoch, collection.mem
      ensures Valid() && F() == Aged(old(epoch), old(F())) && epoch == seq(size, i => false)
    {
      hide Distinct, Placed;
      ghost var f, ep := F(), epoch;
      for i := 0 to size
        invariant Valid()
        invariant forall j :: 0 <= j < size ==> F()[j] == if j < i then Aged(ep, f)[j] else f[j]
        invariant forall j :: 0 <= j < size ==> epoch[j] == if j < i then false else ep[j]
      {
        if epoch[i] {
          epoch := epoch[i := false];
        } else {
          AllowErase(i);
        }
      }
      assert F() == Aged(ep, f);
    }

    /** Puts e into slot i and keeps it there. */
    method Put(e: Element, i: nat, recent: bool)
      requires Valid() && i < size && i in Locs(hash, size, e.key) && Absent(blank, table, e.key)
      modifies this`table, this`epoch, collection.mem
      ensures Valid() && table == old(table)[i := e] && F() == old(F())[i := false] && epoch == old(epoch)[i := recent]
    {
      hide Distinct, Placed, Absent;
      SwapKeeps(hash, blank, table, F(), e, i);
      table := table[i := e];
      PleaseKeep(i);
      epoch := epoch[i := recent];
    }

    /** Where the key is, if it is there. */
    method Lookup(key: nat) returns (at: Option<nat>)
      requires Sized()
      ensures at.Some? ==> at.value < size && at.value in Locs(hash, size, key) && table[at.value].key == key
      ensures at.None? ==> forall i :: i in Locs(hash, size, key) && i < size ==> table[i].key != key
    {
      hide Locs;
      var locs := Locs(hash, size, key);
      LocsInRange(hash, size, key);
      for j := 0 to 8
        invariant forall k :: 0 <= k < j ==> table[locs[k]].key != key
      {
        if table[locs[j]].key == key {
          return Some(locs[j]);
        }
      }
      return None;
    }

    /** The first collectable position of a key. */
    method Collectable(key: nat) returns (at: Option<nat>)
      requires Sized()
      ensures at.Some? ==> at.value < size && at.value in Locs(hash, size, key) && F()[at.value]
      ensures at.Some? ==> exists j: nat :: FirstOpen(hash, size, F(), key, j) && at.value == Locs(hash, size, key)[j]
      ensures at.None? ==> Blocked(hash, size, F(), key)
    {
      hide Locs;
      var locs := Locs(hash, size, key);
      LocsInRange(hash, size, key);
      for j := 0 to 8
        invariant forall k :: 0 <= k < j ==> !F()[locs[k]]
      {
        if collection.IsSet(locs[j]) {
          assert FirstOpen(hash, size, F(), key, j);
          return Some(locs[j]);
        }
      }
      return None;
    }

    /** The key is in slot i already: keeps it, replacing the element if asked to. */
    method Revive(i: nat, e: Element, replace: bool)
      requires Valid() && i < size && i in Locs(hash, size, e.key) && table[i].key == e.key
      modifies this`table, this`epoch, collection.mem
      ensures Valid() && F() == old(F())[i := false] && epoch == old(epoch)[i := true]
      ensures table == if replace then old(table)[i := e] else old(table)
    {
      hide Distinct, Placed;
      RevivePlaced(hash, blank, table, F(), i, if replace then e else table[i]);
      if replace {
        table := table[i := e];
      }
      PleaseKeep(i);
      epoch := epoch[i := true];
    }

    /** Puts the held element into a slot that is kept and takes up the one that was there. */
    method Swap(e: Element, recent: bool, i: nat) returns (held: Element, wasRecent: bool)
      requires Valid() && i < size && i in Locs(hash, size, e.key) && Absent(blank, table, e.key) && !F()[i]
      modifies this`table, this`epoch
      ensures Valid() && table == old(table)[i := e] && held == old(table)[i] && Absent(blank, table, held.key)
      ensures epoch == old(epoch)[i := recent] && wasRecent == old(epoch)[i]
    {
      hide Distinct, Placed, Absent;
      SwapKeeps(hash, blank, table, F(), e, i);
      held, wasRecent := table[i], epoch[i];
      table, epoch := table[i := e], epoch[i := recent];
    }

    /** insert once the epoch has been checked. */
    method InsertAged(e: Element, replace: bool)
      returns (ghost out: Outcome, ghost path: seq<Element>, ghost gone: Dated, ghost way: Way)
      requires Valid()
      modifies this`table, this`epoch, collection.mem
      ensures Valid()
      ensures !out.Present? ==> Moves(hash, old(table), old(F()), e, table, out, path, way, depthLimit)
      ensures out.Present? ==>
        && out.at in Locs(hash, size, e.key) && out.at < size && old(table)[out.at].key == e.key
        && table == (if replace then old(table)[out.at := e] else old(table)) && F() == old(F())[out.at := false]
        && epoch == old(epoch)[out.at := true]
      ensures !out.Present? ==>
        Absent(blank, old(table), e.key) && Accounts(hash, old(table), old(F()), e, table, F(), out, path, depthLimit)
      ensures !out.Present? ==> Admits(old(table), old(F()), old(epoch), e, table, F(), epoch, out, gone)
      ensures out.Dropped? ==> Absent(blank, table, out.element.key)
    {
      hide Distinct, Placed, Absent, Locs, Accounts, Admits, Moves;
      path, gone, way := [], Dated(e, true), Way([], e);
      var at := Lookup(e.key);
      if at.Some? {
        Revive(at.value, e, replace);
        out := Present(at.value);
        return;
      }
      AbsentIfNotFound(hash, blank, table, F(), e.key);
      out, path, gone, way := Displace(e);
    }

    /** Finds a slot for a new element, moving others on, and drops the last one if there is none. */
    method Displace(e: Element) returns (ghost out: Outcome, ghost path: seq<Element>, ghost gone: Dated, ghost way: Way)
      requires Valid() && Absent(blank, table, e.key)
      modifies this`table, this`epoch, collection.mem
      ensures Valid() && !out.Present?
      ensures Moves(hash, old(table), old(F()), e, table, out, path, way, depthLimit)
      ensures Accounts(hash, old(table), old(F()), e, table, F(), out, path, depthLimit)
      ensures Admits(old(table), old(F()), old(epoch), e, table, F(), epoch, out, gone)
      ensures out.Dropped? ==> Absent(blank, table, out.element.key)
    {
      hide Distinct, Placed, Absent, Live, Blocked, Locs, Displaced, AllBlocked, Accounts, Moving, Admits,
           Trail, Moved, Moves, Steps, FirstOpen;
      path, way := [], Way([], e);
      ghost var t0, f0, ep0 := table, F(), epoch;
      DisplacedStart(hash, t0, f0, e);
      MovingStart(t0, f0, ep0, e);
      TrailStart(hash, t0, e);
      var held, recent, lastLoc: nat := e, true, UINT32 - 1;
      for depth := 0 to depthLimit
        invariant Valid() && Absent(blank, table, held.key) && F() == f0
        invariant Displaced(t0, f0, e, table, held)
        invariant |path| == depth && (if depth == 0 then held == e else path[0] == e)
        invariant AllBlocked(hash, f0, path)
        invariant Moving(t0, f0, ep0, e, table, epoch, Dated(held, recent))
        invariant way.hand == held && |way.slots| == depth && Trail(hash, t0, e, path, way.slots, held)
        invariant table == Moved(t0, path, way.slots) && lastLoc == LastOf(way.slots)
      {
        var open := Collectable(held.key);
        if open.Some? {
          MovesStored(hash, t0, f0, e, table, path, way, open.value, depthLimit);
          StoredAccounts(hash, t0, f0, e, table, held, open.value, path, depthLimit);
          gone := Dated(table[open.value], epoch[open.value]);
          MovingEnds(t0, f0, ep0, e, table, epoch, Dated(held, recent), open.value, gone);
          Put(held, open.value, recent);
          out := Stored(open.value);
          return;
        }
        DisplacedSwap(t0, f0, e, table, held);
        BlockedNext(hash, f0, path, held);
        lastLoc := NextLoc(hash, size, held.key, lastLoc);
        TrailNext(hash, t0, e, path, way.slots, held, lastLoc);
        path, way := path + [held], Way(way.slots + [lastLoc], table[lastLoc]);
        BlockedAt(hash, f0, held.key, lastLoc);
        MovingOn(t0, f0, ep0, e, table, epoch, Dated(held, recent), lastLoc);
        held, recent := Swap(held, recent, lastLoc);
      }
      out, gone := Dropped(held), Dated(held, recent);
      MovesDropped(hash, t0, f0, e, table, path, way, depthLimit);
      DroppedAccounts(hash, t0, f0, e, table, held, path, depthLimit);
      MovingDrops(t0, f0, ep0, e, table, epoch, Dated(held, recent));
    }

    /** insert: ages the epochs, then inserts. */
    method Insert(e: Element, replace: bool)
      returns (ghost out: Outcome, ghost path: seq<Element>, ghost gone: Dated, ghost way: Way,
               ghost rolled: bool, ghost aged: seq<bool>, ghost dates: seq<bool>)
      requires Valid()
      modifies this, collection.mem
      ensures Valid() && |aged| == |dates| == size
      ensures !out.Present? ==> Moves(hash, old(table), aged, e, table, out, path, way, depthLimit)
      ensures rolled <==> old(counter) == 0 && Recent(old(epoch), old(F())) >= epochSize
      ensures if rolled then aged == Aged(old(epoch), old(F())) && dates == seq(size, i => false)
              else aged == old(F()) && dates == old(epoch)
      ensures counter == if rolled then epochSize else if old(counter) != 0 then old(counter) - 1
                         else Max(1, Max(epochSize / 16, epochSize - Recent(old(epoch), old(F()))))
      ensures out.Present? ==>
        && out.at in Locs(hash, size, e.key) && out.at < size && old(table)[out.at].key == e.key
        && table == (if replace then old(table)[out.at := e] else old(table)) && F() == aged[out.at := false]
        && epoch == dates[out.at := true]
      ensures !out.Present? ==>
        Absent(blank, old(table), e.key) && Accounts(hash, old(table), aged, e, table, F(), out, path, depthLimit)
      ensures !out.Present? ==> Admits(old(table), aged, dates, e, table, F(), epoch, out, gone)
      ensures out.Dropped? ==> Absent(blank, table, out.element.key)
    {
      hide Distinct, Placed, Absent, Locs, Accounts, Aged, Admits, Recent, Moves;
      rolled := counter == 0 && Recent(epoch, F()) >= epochSize;
      EpochCheck();
      aged, dates := F(), epoch;
      out, path, gone, way := InsertAged(e, replace);
    }
  }

  /** The slots that elements on the way were put into, and the element then in hand. */
  datatype Way = Way(slots: seq<nat>, hand: Element)

  /** The table after each element on the path was put into its slot. */
  ghost function Moved(t: seq<Element>, path: seq<Element>, slots: seq<nat>): (r: seq<Element>)
    requires |path| == |slots|
    ensures |r| == |t|
  {
    if path == [] then t
    else
      var n := |path| - 1;
      var r := Moved(t, path[..n], slots[..n]);
      if slots[n] < |r| then r[slots[n] := path[n]] else r
  }

  /** The slot used last, or one that does not exist. */
  ghost function LastOf(slots: seq<nat>): nat {
    if slots == [] then UINT32 - 1 else slots[|slots| - 1]
  }

  /** Beginning with e, each element was taken from the slot that the one before it was put into, the next of its own positions. */
  ghost predicate Trail(hash: Hash, t: seq<Element>, e: Element, path: seq<Element>, slots: seq<nat>, hand: Element) {
    && |path| == |slots|
    && if path == [] then hand == e
       else
         var n := |path| - 1;
         && Trail(hash, t, e, path[..n], slots[..n], path[n])
         && slots[n] < |t| && Steps(Locs(hash, |t|, path[n].key), LastOf(slots[..n]), slots[n])
         && hand == Moved(t, path[..n], slots[..n])[slots[n]]
  }

  /**
   How an insert of a new key goes: elements without a collectable position are moved on, until one has such a
   position and takes the first of them, or as many were moved as the limit allows.
   */
  ghost predicate Moves(hash: Hash, t0: seq<Element>, f0: seq<bool>, e: Element, t: seq<Element>,
                        out: Outcome, path: seq<Element>, way: Way, depthLimit: nat)
  {
    && Trail(hash, t0, e, path, way.slots, way.hand) && AllBlocked(hash, f0, path)
    && match out
       case Present(_) => false
       case Stored(at) =>
         && |path| < depthLimit && at < |t0| && t == Moved(t0, path, way.slots)[at := way.hand]
         && exists j: nat :: FirstOpen(hash, |f0|, f0, way.hand.key, j) && at == Locs(hash, |f0|, way.hand.key)[j]
       case Dropped(x) => |path| == depthLimit && t == Moved(t0, path, way.slots) && x == way.hand
  }

  lemma TrailStart(hash: Hash, t: seq<Element>, e: Element)
    ensures Trail(hash, t, e, [], [], e) && Moved(t, [], []) == t && LastOf([]) == UINT32 - 1
  {
  }

  lemma TrailNext(hash: Hash, t: seq<Element>, e: Element, path: seq<Element>, slots: seq<nat>, hand: Element, loc: nat)
    requires Trail(hash, t, e, path, slots, hand) && |path| == |slots|
    requires loc < |t| && Steps(Locs(hash, |t|, hand.key), LastOf(slots), loc)
    ensures Moved(t, path + [hand], slots + [loc]) == Moved(t, path, slots)[loc := hand]
    ensures Trail(hash, t, e, path + [hand], slots + [loc], Moved(t, path, slots)[loc]) && LastOf(slots + [loc]) == loc
  {
    hide Steps, Locs;
    assert (path + [hand])[..|path|] == path && (slots + [loc])[..|slots|] == slots;
  }

  lemma MovesStored(hash: Hash, t0: seq<Element>, f0: seq<bool>, e: Element, t: seq<Element>, path: seq<Element>, way: Way,
                    at: nat, depthLimit: nat)
    requires Trail(hash, t0, e, path, way.slots, way.hand) && AllBlocked(hash, f0, path)
    requires |path| == |way.slots| < depthLimit && t == Moved(t0, path, way.slots) && at < |t0|
    requires exists j: nat :: FirstOpen(hash, |f0|, f0, way.hand.key, j) && at == Locs(hash, |f0|, way.hand.key)[j]
    ensures Moves(hash, t0, f0, e, t[at := way.hand], Stored(at), path, way, depthLimit)
  {
    hide Trail, Moved, FirstOpen, Locs, AllBlocked;
  }

  lemma MovesDropped(hash: Hash, t0: seq<Element>, f0: seq<bool>, e: Element, t: seq<Element>, path: seq<Element>, way: Way,
                     depthLimit: nat)
    requires Trail(hash, t0, e, path, way.slots, way.hand) && AllBlocked(hash, f0, path)
    requires |path| == |way.slots| == depthLimit && t == Moved(t0, path, way.slots)
    ensures Moves(hash, t0, f0, e, t, Dropped(way.hand), path, way, depthLimit)
  {
    hide Trail, Moved, AllBlocked;
  }

  /** The table with the held element is the old table with e, and nothing moved into or out of a collectable slot. */
  ghost predicate Displaced(t0: seq<Element>, f: seq<bool>, e: Element, t: seq<Element>, held: Element) {
    && |t0| == |t| == |f|
    && multiset(t) + multiset{held} == multiset(t0) + multiset{e}
    && Live(t, f) + multiset{held} == Live(t0, f) + multiset{e}
    && forall i :: 0 <= i < |f| && f[i] ==> t[i] == t0[i]
  }

  ghost predicate AllBlocked(hash: Hash, f: seq<bool>, path: seq<Element>) {
    forall i :: 0 <= i < |path| ==> Blocked(hash, |f|, f, path[i].key)
  }

  /**
   What becomes of the elements. Stored: a collectable element goes, and every live one stays.
   Dropped: exactly one element goes, after as many moves as the limit allows met no collectable slot.
   */
  ghost predicate Accounts(hash: Hash, t0: seq<Element>, f0: seq<bool>, e: Element, t: seq<Element>, f: seq<bool>,
                           out: Outcome, path: seq<Element>, depthLimit: nat)
  {
    && |t0| == |f0| == |t| == |f|
    && match out
       case Present(_) => false
       case Stored(at) =>
         && at < |f0| && f0[at] && f == f0[at := false]
         && multiset(t) + multiset{t0[at]} == multiset(t0) + multiset{e}
         && Live(t, f) == Live(t0, f0) + multiset{e}
       case Dropped(x) =>
         && f == f0 && |path| == depthLimit && (depthLimit > 0 ==> path[0] == e) && AllBlocked(hash, f0, path)
         && multiset(t) + multiset{x} == multiset(t0) + multiset{e}
         && Live(t, f) + multiset{x} == Live(t0, f0) + multiset{e}
  }

  /** An element with the epoch it belongs to. */
  datatype Dated = Dated(element: Element, recent: bool)

  /** The elements in slots that are not collectable, with their epochs. */
  ghost function Kept(t: seq<Element>, f: seq<bool>, ep: seq<bool>): set<Dated>
    requires |t| == |f| == |ep|
  {
    set i | 0 <= i < |t| && !f[i] :: Dated(t[i], ep[i])
  }

  function Unit(b: bool): nat {
    if b then 1 else 0
  }

  /** Elements moved on to make room for e: all but the one in hand are kept, each in its epoch. */
  ghost predicate Moving(t0: seq<Element>, f: seq<bool>, ep0: seq<bool>, e: Element, t: seq<Element>, ep: seq<bool>, held: Dated) {
    && |t0| == |f| == |ep0| == |t| == |ep|
    && Kept(t, f, ep) + {held} == Kept(t0, f, ep0) + {Dated(e, true)}
    && Recent(ep, f) + Unit(held.recent) == Recent(ep0, f) + 1
  }

  /** What an insert of a new key does to the elements that are kept; gone is the one that was dropped. */
  ghost predicate Admits(t0: seq<Element>, f0: seq<bool>, ep0: seq<bool>, e: Element,
                         t: seq<Element>, f: seq<bool>, ep: seq<bool>, out: Outcome, gone: Dated)
  {
    && |t0| == |f0| == |ep0| == |t| == |f| == |ep| && Recent(ep, f) <= Recent(ep0, f0) + 1
    && match out
       case Present(_) => false
       case Stored(_) => Kept(t, f, ep) == Kept(t0, f0, ep0) + {Dated(e, true)}
       case Dropped(x) => gone.element == x && Kept(t, f, ep) + {gone} == Kept(t0, f0, ep0) + {Dated(e, true)}
  }

  lemma MovingStart(t: seq<Element>, f: seq<bool>, ep: seq<bool>, e: Element)
    requires |t| == |f| == |ep|
    ensures Moving(t, f, ep, e, t, ep, Dated(e, true))
  {
  }

  lemma {:induction false} RecentChange(ep: seq<bool>, f: seq<bool>, i: nat, recent: bool, collected: bool)
    requires |ep| == |f| && i < |f|
    ensures Recent(ep[i := recent], f[i := collected]) + Unit(ep[i] && !f[i]) == Recent(ep, f) + Unit(recent && !collected)
  {
    var n := |f| - 1;
    if i < n {
      RecentChange(ep[..n], f[..n], i, recent, collected);
      assert ep[i := recent][..n] == ep[..n][i := recent] && f[i := collected][..n] == f[..n][i := collected];
    } else {
      assert ep[i := recent][..n] == ep[..n] && f[i := collected][..n] == f[..n];
    }
  }

  /** Writing a slot: what is kept afterwards, up to what was there. */
  lemma KeptChange(t: seq<Element>, f: seq<bool>, ep: seq<bool>, i: nat, d: Dated)
    requires |t| == |f| == |ep| && i < |t|
    ensures
      var now := Kept(t[i := d.element], f[i := false], ep[i := d.recent]);
      if f[i] then now == Kept(t, f, ep) + {d} else now + {Dated(t[i], ep[i])} == Kept(t, f, ep) + {d}
  {
    var u, g, ep' := t[i := d.element], f[i := false], ep[i := d.recent];
    var was, now := Kept(t, f, ep), Kept(u, g, ep');
    assert Dated(u[i], ep'[i]) == d;
    assert !f[i] ==> Dated(t[i], ep[i]) in was;
    forall x | x in was
      ensures x in now || (!f[i] && x == Dated(t[i], ep[i]))
    {
      var k :| 0 <= k < |t| && !f[k] && x == Dated(t[k], ep[k]);
      assert k != i ==> !g[k] && x == Dated(u[k], ep'[k]);
    }
    forall x | x in now
      ensures x in was || x == d
    {
      var k :| 0 <= k < |u| && !g[k] && x == Dated(u[k], ep'[k]);
      assert k != i ==> !f[k] && x == Dated(t[k], ep[k]);
    }
  }

  lemma MovingOn(t0: seq<Element>, f: seq<bool>, ep0: seq<bool>, e: Element, t: seq<Element>, ep: seq<bool>, held: Dated, i: nat)
    requires Moving(t0, f, ep0, e, t, ep, held) && i < |t| && !f[i]
    ensures Moving(t0, f, ep0, e, t[i := held.element], ep[i := held.recent], Dated(t[i], ep[i]))
  {
    hide Kept, Recent;
    KeptChange(t, f, ep, i, held);
    RecentChange(ep, f, i, held.recent, false);
    assert f[i := false] == f;
  }

  lemma MovingEnds(t0: seq<Element>, f: seq<bool>, ep0: seq<bool>, e: Element, t: seq<Element>, ep: seq<bool>, held: Dated, i: nat,
                   gone: Dated)
    requires Moving(t0, f, ep0, e, t, ep, held) && i < |t| && f[i]
    ensures Admits(t0, f, ep0, e, t[i := held.element], f[i := false], ep[i := held.recent], Stored(i), gone)
  {
    hide Kept, Recent;
    KeptChange(t, f, ep, i, held);
    RecentChange(ep, f, i, held.recent, false);
  }

  lemma MovingDrops(t0: seq<Element>, f: seq<bool>, ep0: seq<bool>, e: Element, t: seq<Element>, ep: seq<bool>, held: Dated)
    requires Moving(t0, f, ep0, e, t, ep, held)
    ensures Admits(t0, f, ep0, e, t, f, ep, Dropped(held.element), held)
  {
    hide Kept, Recent;
  }

  lemma {:induction false} NoneRecent(ep: seq<bool>, f: seq<bool>)
    requires |ep| == |f| && forall i :: 0 <= i < |f| ==> !ep[i]
    ensures Recent(ep, f) == 0
  {
    if ep != [] {
      NoneRecent(ep[..|ep| - 1], f[..|ep| - 1]);
    }
  }

  lemma DisplacedStart(hash: Hash, t: seq<Element>, f: seq<bool>, e: Element)
    requires |t| == |f|
    ensures Displaced(t, f, e, t, e) && AllBlocked(hash, f, [])
  {
  }

  lemma DisplacedSwap(t0: seq<Element>, f: seq<bool>, e: Element, t: seq<Element>, held: Element)
    requires Displaced(t0, f, e, t, held)
    ensures forall i :: 0 <= i < |f| && !f[i] ==> Displaced(t0, f, e, t[i := held], t[i])
  {
    hide Live;
    forall i | 0 <= i < |f| && !f[i]
      ensures Displaced(t0, f, e, t[i := held], t[i])
    {
      LiveChange(t, f, i, held, false);
      assert f[i := false] == f;
      Exchanged(Live(t, f), t[i], held);
      Exchanged(multiset(t), t[i], held);
    }
  }

  lemma Exchanged(m: multiset<Element>, x: Element, y: Element)
    requires x in m
    ensures m - multiset{x} + multiset{y} + multiset{x} == m + multiset{y}
  {
  }

  lemma StoredAccounts(hash: Hash, t0: seq<Element>, f: seq<bool>, e: Element, t: seq<Element>, held: Element, at: nat,
                       path: seq<Element>, depthLimit: nat)
    requires Displaced(t0, f, e, t, held) && at < |f| && f[at]
    ensures Accounts(hash, t0, f, e, t[at := held], f[at := false], Stored(at), path, depthLimit)
  {
    hide Live;
    LiveChange(t, f, at, held, false);
    Exchanged(multiset(t), t[at], held);
  }

  lemma DroppedAccounts(hash: Hash, t0: seq<Element>, f: seq<bool>, e: Element, t: seq<Element>, held: Element,
                        path: seq<Element>, depthLimit: nat)
    requires Displaced(t0, f, e, t, held) && |path| == depthLimit && (depthLimit > 0 ==> path[0] == e)
    requires AllBlocked(hash, f, path)
    ensures Accounts(hash, t0, f, e, t, f, Dropped(held), path, depthLimit)
  {
  }

  lemma BlockedNext(hash: Hash, f: seq<bool>, path: seq<Element>, held: Element)
    requires AllBlocked(hash, f, path) && Blocked(hash, |f|, f, held.key)
    ensures AllBlocked(hash, f, path + [held])
  {
  }

  lemma BlockedAt(hash: Hash, f: seq<bool>, key: nat, i: nat)
    requires Blocked(hash, |f|, f, key) && i in Locs(hash, |f|, key) && i < |f|
    ensures !f[i]
  {
  }

  /** Which slots hold a key. */
  function Holds(t: seq<Element>, key: nat): (ok: seq<bool>)
    ensures |ok| == |t| && forall i :: 0 <= i < |t| ==> ok[i] == (t[i].key == key)
  {
    seq(|t|, i requires 0 <= i < |t| => t[i].key == key)
  }

  lemma {:induction false} FirstIs(locs: seq<nat>, ok: seq<bool>, j: nat)
    requires j <= |locs| && (j < |locs| ==> locs[j] < |ok| && ok[locs[j]])
    requires forall k :: 0 <= k < j ==> !(locs[k] < |ok| && ok[locs[k]])
    ensures FirstAt(locs, ok) == j
  {
  }

  lemma {:induction false} NoneLive(t: seq<Element>, f: seq<bool>)
    requires |t| == |f| && forall i :: 0 <= i < |f| ==> f[i]
    ensures Live(t, f) == multiset{}
  {
    if t != [] {
      NoneLive(t[..|t| - 1], f[..|t| - 1]);
    }
  }

  /** An element to be kept is found by its key, and found itself unless its key is the blank one. */
  lemma FoundIfLive(hash: Hash, blank: Element, t: seq<Element>, f: seq<bool>, key: nat)
    requires Placed(hash, blank, t, f) && Distinct(blank, t)
    ensures
      var locs := Locs(hash, |t|, key);
      var j := FirstAt(locs, Holds(t, key));
      forall i :: 0 <= i < |t| && !f[i] && t[i].key == key ==> j < 8 && (key != blank.key ==> locs[j] == i)
  {
    hide Locs;
    var locs := Locs(hash, |t|, key);
    var j := FirstAt(locs, Holds(t, key));
    forall i | 0 <= i < |t| && !f[i] && t[i].key == key
      ensures j < 8 && (key != blank.key ==> locs[j] == i)
    {
      assert AtHome(hash, t, i);
      var k :| 0 <= k < |locs| && locs[k] == i;
    }
  }

  lemma RevivePlaced(hash: Hash, blank: Element, t: seq<Element>, f: seq<bool>, i: nat, e: Element)
    requires Placed(hash, blank, t, f) && Distinct(blank, t) && i < |t| && i in Locs(hash, |t|, e.key) && t[i].key == e.key
    ensures Placed(hash, blank, t[i := e], f[i := false]) && Distinct(blank, t[i := e]) && (e == t[i] ==> t[i := e] == t)
  {
    hide Locs;
    var u := t[i := e];
    forall j | 0 <= j < |u|
      ensures AtHome(hash, u, j) || (j != i && f[j] && u[j] == blank)
    {
      assert AtHome(hash, t, j) || (f[j] && t[j] == blank);
    }
  }

  /** From the first of the eight positions that is last, the step is to the one after it; else to the second one. */
  ghost predicate Steps(locs: seq<nat>, last: nat, loc: nat)
    requires |locs| == 8
  {
    && (last !in locs ==> loc == locs[1])
    && forall i :: 0 <= i < 8 && locs[i] == last && last !in locs[..i] ==> loc == locs[(1 + i) % 8]
  }

  /**
   The position after the last one looked at; a position that is not among them counts as the ninth.
   With eight different positions this is never the place of the element that was just moved.
   */
  method NextLoc(hash: Hash, size: nat, key: nat, last: nat) returns (loc: nat)
    requires IsHash(hash) && size > 0
    ensures loc in Locs(hash, size, key) && loc < size && Steps(Locs(hash, size, key), last, loc)
    ensures (forall i, j :: 0 <= i < j < 8 ==> Locs(hash, size, key)[i] != Locs(hash, size, key)[j]) ==> loc != last
  {
    hide Locs;
    var locs := Locs(hash, size, key);
    LocsInRange(hash, size, key);
    var i := 0;
    while i < 8 && locs[i] != last
      invariant i <= 8 && last !in locs[..i]
    {
      i := i + 1;
    }
    assert i == 8 ==> locs[..i] == locs;
    assert forall k :: 0 <= k < i ==> locs[k] in locs[..i];
    loc := locs[(1 + i) % 8];
  }

  /** How many slots of the current epoch are to be kept. */
  ghost function Recent(epoch: seq<bool>, f: seq<bool>): nat
    requires |epoch| == |f|
  {
    if epoch == [] then 0
    else Recent(epoch[..|epoch| - 1], f[..|epoch| - 1]) + if epoch[|epoch| - 1] && !f[|epoch| - 1] then 1 else 0
  }

  lemma RecentNext(epoch: seq<bool>, f: seq<bool>, i: nat)
    requires |epoch| == |f| && i < |f|
    ensures Recent(epoch[..i + 1], f[..i + 1]) == Recent(epoch[..i], f[..i]) + if epoch[i] && !f[i] then 1 else 0
  {
    assert epoch[..i + 1][..i] == epoch[..i] && f[..i + 1][..i] == f[..i];
  }

  /** The flags once the old epoch is collectable. */
  ghost function Aged(epoch: seq<bool>, f: seq<bool>): (g: seq<bool>)
    requires |epoch| == |f|
    ensures |g| == |f| && forall i :: 0 <= i < |f| ==> g[i] == (f[i] || !epoch[i])
  {
    seq(|f|, i requires 0 <= i < |f| => f[i] || !epoch[i])
  }
}
