/**
 BlockAssembler (src/miner.cpp, src/miner.h): greedy selection of ancestor packages
 with incrementally adjusted ancestor sums.
 */
module Miner {
  import opened Numbers
  import opened Collections
  import opened Mempool
  import opened Feerate

  // ---- What the selection keeps

  /** What of a package is not in the block yet. */
  function Rest(p: Pool, t: Tx, block: set<Tx>): set<Tx> {
    WithAncestors(p, t) - block
  }

  ghost predicate Closed(p: Pool, block: set<Tx>) {
    block <= p.Keys && forall t :: t in block ==> Ancestors(p, t) <= block
  }

  ghost function Elements(s: seq<Tx>): set<Tx> {
    set t | t in s
  }

  /** The block lists each of its transactions once, after all of its ancestors. */
  ghost predicate Listed(p: Pool, block: set<Tx>, entries: seq<Tx>) {
    && (forall t :: t in entries <==> t in block)
    && (forall i, j :: 0 <= i < j < |entries| ==> entries[i] != entries[j])
    && (forall j :: 0 <= j < |entries| ==> Ancestors(p, entries[j]) <= Elements(entries[..j]))
  }

  /**
   The kept fees after the ancestors in taken were deducted, first before the others: the modified fees
   of what remains, and the drift of every ancestor after the first.
   */
  ghost predicate Owes(p: Pool, t: Tx, modFees: int, taken: set<Tx>, first: Tx) {
    first in taken && modFees == ModFeeSum(p, WithAncestors(p, t) - taken) + DriftSum(p, taken - {first})
  }

  /** The kept fees of an entry; those of one that never failed account for all its ancestors in the block. */
  ghost predicate FeesOwed(p: Pool, block: set<Tx>, t: Tx, modFees: int, exact: bool) {
    exists taken, first ::
      taken <= Ancestors(p, t) * block && (exact ==> taken == Ancestors(p, t) * block) && Owes(p, t, modFees, taken, first)
  }

  /** The fees of a package: the pool's, or those kept for it. */
  ghost predicate FeesKnown(p: Pool, block: set<Tx>, t: Tx, modFees: int, exact: bool) {
    || (modFees == ModFeeSum(p, WithAncestors(p, t)) && (exact ==> Ancestors(p, t) * block == {}))
    || FeesOwed(p, block, t, modFees, exact)
  }

  /** Known sums never fall below the true ones, and are exact for a package that never failed; fees are as said above. */
  ghost predicate Covers(p: Pool, block: set<Tx>, t: Tx, e: Modified, exact: bool) {
    && FeesKnown(p, block, t, e.modFees, exact)
    && e.size >= SizeSum(p, Rest(p, t, block)) && e.sigOps >= SigOpSum(p, Rest(p, t, block))
    && (exact ==> e.size == SizeSum(p, Rest(p, t, block)) && e.sigOps == SigOpSum(p, Rest(p, t, block)))
  }

  ghost predicate Tracked(p: Pool, block: set<Tx>, m: ModMap, failed: set<Tx>) {
    && m.Keys <= p.Keys && m.Keys !! block
    && (forall t :: t in m ==> Covers(p, block, t, m[t], t !in failed) && FeesOwed(p, block, t, m[t].modFees, t !in failed))
    && (forall t :: t in p && t !in block && Ancestors(p, t) * block != {} ==> t in m || t in failed)
  }

  // ---- UpdatePackagesForAdded

  function Descendants(p: Pool, t: Tx): (s: set<Tx>)
    ensures s <= p.Keys
  {
    set d | d in p && (d == t || t in Ancestors(p, d))
  }

  /** An entry after one more ancestor went into the block; a new entry and an old one differ in the fee they use. */
  function Deducted(p: Pool, m: ModMap, d: Tx, t: Tx): Modified
    requires d in p && t in p
  {
    if d in m
    then Modified(m[d].size - p[t].size, m[d].modFees - p[t].fee, m[d].sigOps - p[t].sigOps)
    else Modified(Fresh(p, d).size - p[t].size, Fresh(p, d).modFees - p[t].modifiedFee, Fresh(p, d).sigOps - p[t].sigOps)
  }

  /** The map with t deducted from those descendants in done that are not themselves being added. */
  ghost predicate DeductedFor(p: Pool, t: Tx, added: set<Tx>, m0: ModMap, done: set<Tx>, m: ModMap)
    requires done <= p.Keys && t in p
  {
    && m.Keys == m0.Keys + (done - added)
    && forall d :: d in m ==> m[d] == if d in done && d !in added then Deducted(p, m0, d, t) else m0[d]
  }

  lemma DeductedStep(p: Pool, t: Tx, added: set<Tx>, m0: ModMap, done: set<Tx>, m: ModMap, d: Tx)
    requires done <= p.Keys && t in p && d in p && d !in done && DeductedFor(p, t, added, m0, done, m)
    ensures DeductedFor(p, t, added, m0, done + {d}, if d in added then m else m[d := Deducted(p, m, d, t)])
  {
  }

  lemma DeductedNone(p: Pool, t: Tx, added: set<Tx>, m0: ModMap)
    requires t in p
    ensures DeductedFor(p, t, added, m0, {}, m0)
  {
  }

  /** Working off a set: one element fewer to do is one more done. */
  lemma OneFewer(all: set<Tx>, todo: set<Tx>, t: Tx)
    requires todo <= all && t in todo
    ensures t !in all - todo && t in all && todo - {t} <= all && |todo - {t}| < |todo|
    ensures all - (todo - {t}) == all - todo + {t}
  {
  }

  lemma WorkedOff(all: set<Tx>)
    ensures all - all == {} && all - {} == all
  {
  }

  lemma CountStep(done: set<Tx>, added: set<Tx>, t: Tx)
    requires t !in done
    ensures |done + {t} - added| == |done - added| + if t in added then 0 else 1
  {
    if t in added {
      assert done + {t} - added == done - added;
    } else {
      assert done + {t} - added == done - added + {t};
    }
  }

  /** How many descendants were updated for the transactions in done, those being added themselves apart. */
  ghost function Touched(p: Pool, added: set<Tx>, done: set<Tx>): nat {
    Sum(done, x => |Descendants(p, x) - added|)
  }

  lemma TouchedStep(p: Pool, added: set<Tx>, done: set<Tx>, t: Tx)
    requires t !in done
    ensures Touched(p, added, done + {t}) == Touched(p, added, done) + |Descendants(p, t) - added|
    ensures Touched(p, added, {}) == 0
  {
    SumAdd(done, t, x => |Descendants(p, x) - added|);
  }

  method Deduct(p: Pool, t: Tx, added: set<Tx>, m0: ModMap) returns (m: ModMap, updated: nat)
    requires t in p
    ensures DeductedFor(p, t, added, m0, Descendants(p, t), m) && updated == |Descendants(p, t) - added|
  {
    hide Descendants, DeductedFor, Deducted;
    m, updated := m0, 0;
    var all := Descendants(p, t);
    var todo := all;
    WorkedOff(all);
    DeductedNone(p, t, added, m0);
    while todo != {}
      invariant todo <= all && DeductedFor(p, t, added, m0, all - todo, m) && updated == |all - todo - added|
      decreases |todo|
    {
      var desc :| desc in todo;
      OneFewer(all, todo, desc);
      CountStep(all - todo, added, desc);
      DeductedStep(p, t, added, m0, all - todo, m, desc);
      if desc !in added {
        updated := updated + 1;
        m := m[desc := Deducted(p, m, desc, t)];
      }
      todo := todo - {desc};
    }
  }

  /** The ancestors of d whose sums have been deducted so far. */
  ghost function Taken(p: Pool, added: set<Tx>, done: set<Tx>, d: Tx): set<Tx> {
    if d in added then {} else Ancestors(p, d) * done
  }

  ghost function Base(p: Pool, m: ModMap, d: Tx): Modified
    requires d in m || d in p
  {
    if d in m then m[d] else Fresh(p, d)
  }

  /** The map with every added ancestor's size and signature operations deducted from each descendant. */
  ghost predicate Lessened(p: Pool, m0: ModMap, added: set<Tx>, done: set<Tx>, m: ModMap) {
    && (forall d :: d in m <==> d in m0 || (d in p && Taken(p, added, done, d) != {}))
    && (forall d :: d in m ==>
          && m[d].size == Base(p, m0, d).size - SizeSum(p, Taken(p, added, done, d))
          && m[d].sigOps == Base(p, m0, d).sigOps - SigOpSum(p, Taken(p, added, done, d)))
  }

  /** The fees left after taken was deducted: an entry made on the way gave up one modified fee. */
  ghost predicate FeesAfter(p: Pool, m0: ModMap, d: Tx, taken: set<Tx>, modFees: int)
    requires d in p
  {
    if d in m0 then modFees == m0[d].modFees - FeeSum(p, taken)
    else exists first :: first in taken && modFees == Fresh(p, d).modFees - FeeSum(p, taken) - Drift(p, first)
  }

  ghost predicate FeesLessened(p: Pool, m0: ModMap, added: set<Tx>, done: set<Tx>, m: ModMap) {
    forall d :: d in m && d in p ==> FeesAfter(p, m0, d, Taken(p, added, done, d), m[d].modFees)
  }

  lemma FeesLessenedStep(p: Pool, m0: ModMap, added: set<Tx>, done: set<Tx>, m: ModMap, t: Tx, m': ModMap)
    requires Lessened(p, m0, added, done, m) && FeesLessened(p, m0, added, done, m) && t in p && t !in done && t in added
    requires DeductedFor(p, t, added, m, Descendants(p, t), m')
    ensures FeesLessened(p, m0, added, done + {t}, m')
  {
    hide Taken, SizeSum, SigOpSum, FeeSum, Drift;
    forall d | d in m' && d in p
      ensures FeesAfter(p, m0, d, Taken(p, added, done + {t}, d), m'[d].modFees)
    {
      TakenStep(p, added, done, d, t);
      EmptySums(p, Taken(p, added, done, d));
      DriftOf(p, t);
    }
  }

  lemma DriftOf(p: Pool, t: Tx)
    requires t in p
    ensures p[t].modifiedFee == p[t].fee + Drift(p, t)
  {
  }

  lemma TakenStep(p: Pool, added: set<Tx>, done: set<Tx>, d: Tx, t: Tx)
    requires t in p && t !in done && t in added
    ensures
      var was, now := Taken(p, added, done, d), Taken(p, added, done + {t}, d);
      if d in Descendants(p, t) - added
      then now == was + {t} && SizeSum(p, now) == SizeSum(p, was) + p[t].size
           && SigOpSum(p, now) == SigOpSum(p, was) + p[t].sigOps && FeeSum(p, now) == FeeSum(p, was) + p[t].fee
      else now == was
  {
    hide Sum;
    var was := Taken(p, added, done, d);
    SumsAdd(p, was, t);
    if d in Descendants(p, t) - added {
      assert Taken(p, added, done + {t}, d) == was + {t};
    } else {
      assert Taken(p, added, done + {t}, d) == was;
    }
  }

  lemma LessenedStep(p: Pool, m0: ModMap, added: set<Tx>, done: set<Tx>, m: ModMap, t: Tx, m': ModMap)
    requires Lessened(p, m0, added, done, m) && t in p && t !in done && t in added
    requires DeductedFor(p, t, added, m, Descendants(p, t), m')
    ensures Lessened(p, m0, added, done + {t}, m')
  {
    hide Taken, SizeSum, SigOpSum;
    forall d
      ensures d in m' <==> d in m0 || (d in p && Taken(p, added, done + {t}, d) != {})
      ensures d in m' ==> m'[d].size == Base(p, m0, d).size - SizeSum(p, Taken(p, added, done + {t}, d))
      ensures d in m' ==> m'[d].sigOps == Base(p, m0, d).sigOps - SigOpSum(p, Taken(p, added, done + {t}, d))
    {
      TakenStep(p, added, done, d, t);
      EmptySums(p, Taken(p, added, done, d));
    }
  }

  lemma EmptySums(p: Pool, s: set<Tx>)
    ensures s == {} ==> SizeSum(p, s) == 0 && SigOpSum(p, s) == 0 && FeeSum(p, s) == 0
  {
  }

  method UpdatePackagesForAdded(p: Pool, added: set<Tx>, m0: ModMap) returns (m: ModMap, updated: nat)
    requires added <= p.Keys && m0.Keys <= p.Keys
    ensures Lessened(p, m0, added, added, m) && FeesLessened(p, m0, added, added, m) && updated == Touched(p, added, added)
  {
    hide Lessened, FeesLessened, DeductedFor, Descendants, Touched;
    NoneTouched(p, added);
    m, updated := m0, 0;
    var todo := added;
    WorkedOff(added);
    NothingTaken(p, m0, added);
    while todo != {}
      invariant todo <= added && Lessened(p, m0, added, added - todo, m) && FeesLessened(p, m0, added, added - todo, m)
      invariant updated == Touched(p, added, added - todo)
      decreases |todo|
    {
      var t :| t in todo;
      OneFewer(added, todo, t);
      ghost var before := m;
      var n;
      m, n := Deduct(p, t, added, m);
      LessenedStep(p, m0, added, added - todo, before, t, m);
      FeesLessenedStep(p, m0, added, added - todo, before, t, m);
      TouchedStep(p, added, added - todo, t);
      updated := updated + n;
      todo := todo - {t};
    }
  }

  lemma NoneTouched(p: Pool, added: set<Tx>)
    ensures Touched(p, added, {}) == 0
  {
  }

  lemma NothingTaken(p: Pool, m0: ModMap, added: set<Tx>)
    requires m0.Keys <= p.Keys
    ensures Lessened(p, m0, added, {}, m0) && FeesLessened(p, m0, added, {}, m0)
  {
    forall d
      ensures Taken(p, added, {}, d) == {}
    {
    }
    EmptySums(p, {});
  }

  /** Putting a package into the block: what d's rest loses is exactly what was deducted from it. */
  lemma RestAfter(p: Pool, block: set<Tx>, package: set<Tx>, d: Tx)
    requires package !! block && d !in package
    ensures
      var gone := Taken(p, package, package, d);
      && Rest(p, d, block + package) == Rest(p, d, block) - gone && gone <= Rest(p, d, block)
      && SizeSum(p, Rest(p, d, block + package)) == SizeSum(p, Rest(p, d, block)) - SizeSum(p, gone)
      && SigOpSum(p, Rest(p, d, block + package)) == SigOpSum(p, Rest(p, d, block)) - SigOpSum(p, gone)
  {
    hide Sum;
    var gone := Taken(p, package, package, d);
    assert Rest(p, d, block + package) == Rest(p, d, block) - gone;
    SumsSplit(p, Rest(p, d, block), gone);
  }

  /** The pool's own sums cover the rest of any package, exactly while no ancestor is in the block. */
  lemma FreshCovers(p: Pool, block: set<Tx>, d: Tx)
    requires Good(p) && d in p && d !in block
    ensures Covers(p, block, d, Fresh(p, d), Ancestors(p, d) * block == {})
  {
    hide Sum, Acyclic, CachedRight;
    CountRight(p, d);
    var all := WithAncestors(p, d);
    SumsSplit(p, all, Rest(p, d, block));
    if Ancestors(p, d) * block == {} {
      assert forall x :: x in all && x in block ==> x in Ancestors(p, d) * block;
      assert Rest(p, d, block) == all;
    }
  }

  /** Deducting a package's fees from an entry continues its account. */
  lemma OwesMore(p: Pool, t: Tx, modFees: int, taken: set<Tx>, first: Tx, gone: set<Tx>)
    requires Owes(p, t, modFees, taken, first) && gone !! taken && gone <= WithAncestors(p, t)
    ensures Owes(p, t, modFees - FeeSum(p, gone), taken + gone, first)
  {
    hide ModFeeSum, DriftSum, FeeSum;
    var left, late := WithAncestors(p, t) - taken, taken - {first};
    SumsSplit(p, left, gone);
    SumsSplit(p, late + gone, gone);
    ModFeesSplit(p, gone);
    assert left - gone == WithAncestors(p, t) - (taken + gone);
    assert late + gone == taken + gone - {first} && late + gone - gone == late;
  }

  /** The account of an entry made while the package was deducted. */
  lemma OwesFirst(p: Pool, t: Tx, modFees: int, gone: set<Tx>, first: Tx)
    requires Good(p) && t in p && gone <= WithAncestors(p, t) && first in gone
    requires modFees == Fresh(p, t).modFees - FeeSum(p, gone) - Drift(p, first)
    ensures Owes(p, t, modFees, gone, first)
  {
    hide Acyclic, CachedRight, ModFeeSum, DriftSum, FeeSum, Drift;
    CountRight(p, t);
    SumsSplit(p, WithAncestors(p, t), gone);
    ModFeesSplit(p, gone);
    SumsAdd(p, gone - {first}, first);
    assert gone - {first} + {first} == gone;
  }

  /** The kept fees are those of what is left and the drift of the ancestors deducted after the first. */
  lemma FeesRightExactly(p: Pool, block: set<Tx>, m: ModMap, failed: set<Tx>, t: Tx) returns (first: Tx)
    requires Tracked(p, block, m, failed) && t in m && t !in failed
    ensures
      var taken := Ancestors(p, t) * block;
      && first in taken
      && m[t].modFees == ModFeeSum(p, Rest(p, t, block)) + DriftSum(p, taken - {first})
      && (m[t].modFees == ModFeeSum(p, Rest(p, t, block)) <==> DriftSum(p, taken - {first}) == 0)
  {
    hide ModFeeSum, DriftSum, Covers;
    var taken := Ancestors(p, t) * block;
    first :| Owes(p, t, m[t].modFees, taken, first);
    assert WithAncestors(p, t) - taken == Rest(p, t, block);
  }

  /** They are right wherever no ancestor in the block has a drift. */
  lemma FeesRightWithoutDrift(p: Pool, block: set<Tx>, m: ModMap, failed: set<Tx>, t: Tx)
    requires Tracked(p, block, m, failed) && t in m && t !in failed
    requires forall a :: a in Ancestors(p, t) * block ==> Drift(p, a) == 0
    ensures m[t].modFees == ModFeeSum(p, Rest(p, t, block))
  {
    hide Tracked, Drift, ModFeeSum;
    var first := FeesRightExactly(p, block, m, failed, t);
    NoDrift(p, Ancestors(p, t) * block - {first});
  }

  lemma OwedAfter(p: Pool, block: set<Tx>, m: ModMap, failed: set<Tx>, package: set<Tx>, m': ModMap, t: Tx)
    requires Good(p) && Tracked(p, block, m, failed) && package <= p.Keys && package !! block
    requires Lessened(p, m - package, package, package, m') && FeesLessened(p, m - package, package, package, m')
    requires t in m' && t in p && t !in block + package
    ensures FeesOwed(p, block + package, t, m'[t].modFees, t !in failed)
  {
    hide Good, SizeSum, SigOpSum, ModFeeSum, DriftSum, FeeSum, Drift, Owes, Covers, Lessened;
    var gone := Taken(p, package, package, t);
    var modFees := m'[t].modFees;
    assert FeesAfter(p, m - package, t, gone, modFees);
    if t in m {
      var taken, first :|
        taken <= Ancestors(p, t) * block && (t !in failed ==> taken == Ancestors(p, t) * block) &&
        Owes(p, t, m[t].modFees, taken, first);
      OwesMore(p, t, m[t].modFees, taken, first, gone);
      assert t !in failed ==> taken + gone == Ancestors(p, t) * (block + package);
      assert Owes(p, t, modFees, taken + gone, first);
    } else {
      var first :| first in gone && modFees == Fresh(p, t).modFees - FeeSum(p, gone) - Drift(p, first);
      OwesFirst(p, t, modFees, gone, first);
      assert Ancestors(p, t) * (block + package) == Ancestors(p, t) * block + gone;
      assert t !in failed ==> Ancestors(p, t) * block == {};
      assert Owes(p, t, modFees, gone, first);
    }
  }

  /** After a package is added and its descendants updated, every kept sum still covers what is left. */
  lemma TrackedAfter(p: Pool, block: set<Tx>, m: ModMap, failed: set<Tx>, package: set<Tx>, m': ModMap)
    requires Good(p) && Closed(p, block) && Tracked(p, block, m, failed)
    requires package <= p.Keys && package !! block
    requires Lessened(p, m - package, package, package, m') && FeesLessened(p, m - package, package, package, m')
    ensures Tracked(p, block + package, m', failed)
  {
    hide Good, SizeSum, SigOpSum, FeeSum, Rest, FeesOwed, FeesLessened;
    forall t | t in m'
      ensures t in p && t !in block + package && Covers(p, block + package, t, m'[t], t !in failed)
      ensures FeesOwed(p, block + package, t, m'[t].modFees, t !in failed)
    {
      CoversAfter(p, block, m, failed, package, m', t);
    }
    forall t | t in p && t !in block + package && Ancestors(p, t) * (block + package) != {}
      ensures t in m' || t in failed
    {
      assert Ancestors(p, t) * (block + package) == Ancestors(p, t) * block + Ancestors(p, t) * package;
    }
  }

  lemma CoversAfter(p: Pool, block: set<Tx>, m: ModMap, failed: set<Tx>, package: set<Tx>, m': ModMap, t: Tx)
    requires Good(p) && Closed(p, block) && Tracked(p, block, m, failed)
    requires package <= p.Keys && package !! block
    requires Lessened(p, m - package, package, package, m') && FeesLessened(p, m - package, package, package, m') && t in m'
    ensures t in p && t !in block + package && Covers(p, block + package, t, m'[t], t !in failed)
    ensures FeesOwed(p, block + package, t, m'[t].modFees, t !in failed)
  {
    hide Good, SizeSum, SigOpSum, FeeSum, ModFeeSum, Rest, FeesOwed, FeesLessened;
    assert t !in block || Ancestors(p, t) * package == {};
    RestAfter(p, block, package, t);
    OwedAfter(p, block, m, failed, package, m', t);
    if t !in m {
      FreshCovers(p, block, t);
    }
  }

  /** A child c of a and b, when a and then b go into the block: what is kept for c is off by the drift of b. */
  lemma TwoParents(p: Pool, a: Tx, b: Tx, c: Tx)
    requires Good(p) && c in p && Ancestors(p, c) == {a, b} && a != b
    ensures
      var one := map[c := Deducted(p, map[], c, a)];
      Deducted(p, one, c, b).modFees == ModFeeSum(p, Rest(p, c, {a, b})) + Drift(p, b)
  {
    hide CachedRight, ModFeeSum;
    CountRight(p, c);
    assert WithAncestors(p, c) - {a, b} == {c};
    assert Rest(p, c, {a, b}) == {c};
    SumsSplit(p, WithAncestors(p, c), {c});
    assert WithAncestors(p, c) - {c} == {a, b};
    PairSum(p, a, b);
  }

  lemma PairSum(p: Pool, a: Tx, b: Tx)
    requires a != b
    ensures ModFeeSum(p, {a, b}) == ModFee(p, a) + ModFee(p, b)
  {
    SumRemove({a, b}, a, x => ModFee(p, x));
    assert {a, b} - {a} == {b};
    SumRemove({b}, b, x => ModFee(p, x));
    assert {b} - {b} == {};
  }

  /** There is such a pool, in which b was given a priority. */
  lemma SomeFeesWrong() returns (p: Pool, a: Tx, b: Tx, c: Tx)
    ensures Good(p) && c in p && Ancestors(p, c) == {a, b} && a != b
    ensures
      var one := map[c := Deducted(p, map[], c, a)];
      Deducted(p, one, c, b).modFees != ModFeeSum(p, Rest(p, c, {a, b}))
  {
    a, b, c := Tx(0), Tx(1), Tx(2);
    p := map[
      a := Info(1, 1, 1, 1, {}, 1, 1, 1, 1),
      b := Info(1, 1, 1, 5, {}, 1, 1, 1, 5),
      c := Info(1, 1, 1, 1, {a, b}, 3, 3, 3, 7)];
    ThreeGood(p, a, b, c);
    TwoParents(p, a, b, c);
  }

  lemma ThreeGood(p: Pool, a: Tx, b: Tx, c: Tx)
    requires a != b && a != c && b != c && p.Keys == {a, b, c}
    requires p[a] == Info(1, 1, 1, 1, {}, 1, 1, 1, 1) && p[b] == Info(1, 1, 1, 5, {}, 1, 1, 1, 5)
    requires p[c] == Info(1, 1, 1, 1, {a, b}, 3, 3, 3, 7)
    ensures Good(p)
  {
    hide Acyclic, RightAt;
    ThreeAcyclic(p, a, b, c);
    AloneRight(p, a);
    AloneRight(p, b);
    ChildRight(p, a, b, c);
  }

  lemma AloneRight(p: Pool, t: Tx)
    requires t in p && p[t] == Info(1, 1, 1, p[t].modifiedFee, {}, 1, 1, 1, p[t].modifiedFee)
    ensures RightAt(p, t)
  {
    hide SizeSum, SigOpSum, ModFeeSum;
    SumsOfOne(p, t);
    assert WithAncestors(p, t) == {t};
  }

  lemma ChildRight(p: Pool, a: Tx, b: Tx, c: Tx)
    requires a != b && a != c && b != c && a in p && b in p && c in p && p[c].ancestors == {a, b} && p[c].countWithAncestors == 3
    requires p[c].sizeWithAncestors == p[a].size + p[b].size + p[c].size
    requires p[c].sigOpsWithAncestors == p[a].sigOps + p[b].sigOps + p[c].sigOps
    requires p[c].modFeesWithAncestors == p[a].modifiedFee + p[b].modifiedFee + p[c].modifiedFee
    ensures RightAt(p, c)
  {
    hide SizeSum, SigOpSum, ModFeeSum;
    SumsOfOne(p, a);
    SumsOfOne(p, b);
    SumsOfOne(p, c);
    var all := WithAncestors(p, c);
    SumsSplit(p, all, {c});
    assert all - {c} == {a, b};
    SumsSplit(p, {a, b}, {a});
    assert {a, b} - {a} == {b};
  }

  lemma ThreeAcyclic(p: Pool, a: Tx, b: Tx, c: Tx)
    requires a != b && a != c && b != c && p.Keys == {a, b, c}
    requires p[a].ancestors == {} && p[b].ancestors == {} && p[c].ancestors == {a, b}
    ensures Acyclic(p)
  {
  }

  lemma SumsOfOne(p: Pool, t: Tx)
    requires t in p
    ensures SizeSum(p, {t}) == p[t].size && SigOpSum(p, {t}) == p[t].sigOps && ModFeeSum(p, {t}) == p[t].modifiedFee
  {
    assert {t} - {t} == {};
    SumRemove({t}, t, x => Size(p, x));
    SumRemove({t}, t, x => SigOps(p, x));
    SumRemove({t}, t, x => ModFee(p, x));
  }

  // ---- The order inside a package

  /** CompareTxIterByAncestorCount. */
  predicate Before(p: Pool, a: Tx, b: Tx)
    requires a in p && b in p
  {
    if p[a].countWithAncestors != p[b].countWithAncestors
    then p[a].countWithAncestors < p[b].countWithAncestors
    else a.id < b.id
  }

  ghost predicate Least(p: Pool, s: set<Tx>, t: Tx)
    requires s <= p.Keys
  {
    t in s && forall x :: x in s && x != t ==> Before(p, t, x)
  }

  lemma {:induction false} HasLeast(p: Pool, s: set<Tx>) returns (t: Tx)
    requires s != {} && s <= p.Keys
    ensures Least(p, s, t)
    decreases |s|
  {
    var x :| x in s;
    if s == {x} {
      t := x;
    } else {
      var rest := s - {x};
      assert rest != {};
      var u := HasLeast(p, rest);
      assert x == Tx(x.id) && u == Tx(u.id);
      t := if Before(p, x, u) then x else u;
      forall y | y in s && y != t
        ensures Before(p, t, y)
      {
        assert y in rest || y == x;
      }
    }
  }

  /** Ascending by ancestor count, so after a prefix everything later is not before anything earlier. */
  ghost predicate Sorted(p: Pool, s: seq<Tx>) {
    && (forall i :: 0 <= i < |s| ==> s[i] in p)
    && (forall i, j :: 0 <= i < j < |s| ==> Before(p, s[i], s[j]))
  }

  method SortForBlock(p: Pool, package: set<Tx>) returns (sorted: seq<Tx>)
    requires package <= p.Keys
    ensures Sorted(p, sorted) && forall t :: t in sorted <==> t in package
  {
    sorted := [];
    var todo := package;
    while todo != {}
      invariant todo <= package && Sorted(p, sorted)
      invariant forall t :: t in sorted <==> t in package && t !in todo
      invariant forall i, t :: 0 <= i < |sorted| && t in todo ==> Before(p, sorted[i], t)
      decreases |todo|
    {
      ghost var least := HasLeast(p, todo);
      var t :| t in todo && forall x :: x in todo && x != t ==> Before(p, t, x);
      sorted := sorted + [t];
      todo := todo - {t};
    }
  }

  /** In a package sorted by ancestor count, every ancestor comes first. */
  lemma SortedIsTopological(p: Pool, sorted: seq<Tx>, j: nat, a: Tx)
    requires Good(p) && Sorted(p, sorted) && j < |sorted|
    requires a in Ancestors(p, sorted[j]) && a in sorted
    ensures a in sorted[..j]
  {
    hide Good;
    FewerAncestors(p, a, sorted[j]);
    var i :| 0 <= i < |sorted| && sorted[i] == a;
    assert i < j;
    assert sorted[..j][i] == a;
  }

  // ---- Adding one package

  /** Adding the next transaction of a sorted package keeps the block closed and its list in order. */
  lemma ListedNext(p: Pool, block: set<Tx>, entries: seq<Tx>, sorted: seq<Tx>, k: nat)
    requires Good(p) && Sorted(p, sorted) && k < |sorted|
    requires Closed(p, block) && Listed(p, block, entries) && sorted[k] !in block
    requires forall i :: 0 <= i < k ==> sorted[i] in block
    requires Ancestors(p, sorted[k]) <= block + Elements(sorted)
    ensures Closed(p, block + {sorted[k]}) && Listed(p, block + {sorted[k]}, entries + [sorted[k]])
  {
    hide Good;
    var t := sorted[k];
    forall a | a in Ancestors(p, t)
      ensures a in block
    {
      if a !in block {
        SortedIsTopological(p, sorted, k, a);
      }
    }
    var after := entries + [t];
    forall j | 0 <= j < |after|
      ensures Ancestors(p, after[j]) <= Elements(after[..j])
    {
      if j < |entries| {
        assert after[..j] == entries[..j];
      } else {
        assert after[..j] == entries;
      }
    }
  }

  lemma PartialSum(p: Pool, package: set<Tx>, todo: set<Tx>, t: Tx)
    requires t in todo && todo <= package && package <= p.Keys
    ensures SizeSum(p, package - (todo - {t})) == SizeSum(p, package - todo) + p[t].size <= SizeSum(p, package)
  {
    hide SizeSum, SigOpSum, FeeSum;
    var done := package - todo;
    assert package - (todo - {t}) == done + {t};
    SumsAdd(p, done, t);
    SumsSplit(p, package, done + {t});
  }

  const MAX_CONSECUTIVE_FAILURES := 1000
  const BLOCK_MAXBYTES_MAXSIGCHECKS_RATIO := 141

  /** A size limit that the options allow: at least 1000, and in 64 bits a thousand below the excessive size. */
  ghost predicate SizeAllowed(v: int, nExcessiveBlockSize: nat, nMaxSize: nat) {
    1000 <= v <= nMaxSize && v <= (nExcessiveBlockSize - 1000) % 0x1_0000_0000_0000_0000
  }

  /** The block only grew, and only by transactions that are final. */
  ghost predicate Grown(final: Tx -> bool, block0: set<Tx>, entries0: seq<Tx>, block: set<Tx>, entries: seq<Tx>) {
    block0 <= block && entries0 <= entries && forall t :: t in block && t !in block0 ==> final(t)
  }

  lemma NotGrown(final: Tx -> bool, block: set<Tx>, entries: seq<Tx>)
    ensures Grown(final, block, entries, block, entries)
  {
  }

  lemma GrownBy(final: Tx -> bool, block0: set<Tx>, entries0: seq<Tx>, block: set<Tx>, entries: seq<Tx>,
                package: set<Tx>, entries': seq<Tx>)
    requires Grown(final, block0, entries0, block, entries) && entries <= entries'
    requires forall t :: t in package ==> final(t)
    ensures Grown(final, block0, entries0, block + package, entries')
  {
  }

  lemma MoreInBlock(p: Pool, block: set<Tx>, package: set<Tx>, t: Tx)
    requires t in p && t !in block && t in package
    ensures p.Keys - (block + package) < p.Keys - block
  {
    assert t in p.Keys - block;
  }

  lemma FewerModified(m: ModMap, t: Tx)
    requires t in m
    ensures |m - {t}| < |m|
  {
    assert (m - {t}).Keys == m.Keys - {t};
    SubsetSize((m - {t}).Keys, m.Keys);
  }

  lemma LessenedKeys(p: Pool, m0: ModMap, added: set<Tx>, done: set<Tx>, m: ModMap)
    requires Lessened(p, m0, added, done, m)
    ensures m0.Keys <= m.Keys
  {
  }

  // ---- What a whole selection does

  datatype Verdict = TooCheap | TooBig | NotFinal | Added

  /** A package considered, with the sums it was judged by. */
  datatype Attempt = Attempt(t: Tx, package: Modified, verdict: Verdict)

  datatype Rules = Rules(maxSize: int, maxSigOps: int, minFee: int -> int, final: Tx -> bool)

  /** The verdict is the right one for a block with these transactions, and the sums cover what is left of the package. */
  ghost predicate Judged(p: Pool, rules: Rules, block: set<Tx>, a: Attempt, exact: bool) {
    && a.t in p && a.t !in block && Covers(p, block, a.t, a.package, exact)
    && (a.verdict == TooCheap <==> a.package.modFees < rules.minFee(a.package.size))
    && (a.verdict == TooBig <==>
          && a.verdict != TooCheap
          && (1000 + SizeSum(p, block) + a.package.size >= rules.maxSize ||
              100 + SigOpSum(p, block) + a.package.sigOps >= rules.maxSigOps))
    && (a.verdict == NotFinal <==>
          && a.verdict != TooCheap && a.verdict != TooBig
          && exists x :: x in Rest(p, a.t, block) && !rules.final(x))
  }

  /** The block after some attempts: what was left of each package added has gone in. */
  ghost function After(p: Pool, log: seq<Attempt>, block: set<Tx>): set<Tx> {
    if log == [] then block
    else
      var a, was := log[|log| - 1], After(p, log[..|log| - 1], block);
      if a.verdict == Added then was + Rest(p, a.t, was) else was
  }

  ghost predicate Tried(log: seq<Attempt>, t: Tx) {
    exists k :: 0 <= k < |log| && log[k].t == t
  }

  ghost predicate Refused(log: seq<Attempt>, t: Tx) {
    exists k :: 0 <= k < |log| && log[k].t == t && log[k].verdict != Added
  }

  /** Every attempt was judged right at its time, by exact sums if it was the first at its transaction. */
  ghost predicate History(p: Pool, rules: Rules, log: seq<Attempt>, block: set<Tx>) {
    forall k :: 0 <= k < |log| ==>
      Judged(p, rules, After(p, log[..k], block), log[k], !Tried(log[..k], log[k].t))
  }

  ghost function AddedIn(log: seq<Attempt>): nat {
    if log == [] then 0 else AddedIn(log[..|log| - 1]) + if log[|log| - 1].verdict == Added then 1 else 0
  }

  /** How many descendants were updated for all packages added. */
  ghost function UpdatedIn(p: Pool, log: seq<Attempt>, block: set<Tx>): nat {
    if log == [] then 0
    else
      var n := |log| - 1;
      var package := Rest(p, log[n].t, After(p, log[..n], block));
      UpdatedIn(p, log[..n], block) + if log[n].verdict == Added then Touched(p, package, package) else 0
  }

  lemma UpdatedNext(p: Pool, log: seq<Attempt>, block: set<Tx>, a: Attempt)
    ensures
      var package := Rest(p, a.t, After(p, log, block));
      UpdatedIn(p, log + [a], block) == UpdatedIn(p, log, block) + if a.verdict == Added then Touched(p, package, package) else 0
  {
    hide Rest, After, Touched;
    assert (log + [a])[..|log|] == log;
  }

  /** What there was to choose from: the entries kept, with those that had failed, and the pool from the next entry on. */
  datatype Choice = Choice(rivals: ModMap, failed: set<Tx>, waiting: seq<Tx>)

  /** A choice among all transactions neither in the block nor refused before. */
  ghost predicate Complete(p: Pool, order: seq<Tx>, block: set<Tx>, before: seq<Attempt>, c: Choice) {
    && Tracked(p, block, c.rivals, c.failed) && (forall t :: t in c.failed ==> Refused(before, t))
    && |c.waiting| <= |order| && c.waiting == order[|order| - |c.waiting|..]
    && (c.waiting != [] ==> c.waiting[0] in p && c.waiting[0] !in c.rivals)
    && forall t :: t in order ==> t in block || t in c.rivals || Refused(before, t) || t in c.waiting
  }

  /** The package is that of a kept entry or of the next one of the pool, and none of these is preferred to it. */
  ghost predicate Outranks(p: Pool, bytesPerSigOp: nat, t: Tx, package: Modified, c: Choice) {
    && t in p && c.rivals.Keys <= p.Keys && (c.waiting != [] ==> c.waiting[0] in p)
    && (if t in c.rivals then package == c.rivals[t] else c.waiting != [] && t == c.waiting[0] && package == Fresh(p, t))
    && (forall x :: x in c.rivals && x != t ==> Prefers(p, bytesPerSigOp, t, package, x, c.rivals[x]))
    && (c.waiting != [] && c.waiting[0] != t ==> Prefers(p, bytesPerSigOp, t, package, c.waiting[0], Fresh(p, c.waiting[0])))
  }

  ghost predicate WellChosen(p: Pool, bytesPerSigOp: nat, order: seq<Tx>, block0: set<Tx>,
                             before: seq<Attempt>, a: Attempt, c: Choice)
  {
    Complete(p, order, After(p, before, block0), before, c) && Outranks(p, bytesPerSigOp, a.t, a.package, c)
  }

  ghost predicate AllWellChosen(p: Pool, bytesPerSigOp: nat, order: seq<Tx>, block0: set<Tx>,
                                log: seq<Attempt>, choices: seq<Choice>)
  {
    && |choices| == |log|
    && forall k :: 0 <= k < |log| ==> WellChosen(p, bytesPerSigOp, order, block0, log[..k], log[k], choices[k])
  }

  lemma NoChoices(p: Pool, bytesPerSigOp: nat, order: seq<Tx>, block0: set<Tx>)
    ensures AllWellChosen(p, bytesPerSigOp, order, block0, [], [])
  {
  }

  lemma ChosenIs(p: Pool, bytesPerSigOp: nat, order: seq<Tx>, block0: set<Tx>, before: seq<Attempt>, a: Attempt, c: Choice)
    requires Complete(p, order, After(p, before, block0), before, c) && Outranks(p, bytesPerSigOp, a.t, a.package, c)
    ensures WellChosen(p, bytesPerSigOp, order, block0, before, a, c)
  {
  }

  lemma ChosenNext(p: Pool, bytesPerSigOp: nat, order: seq<Tx>, block0: set<Tx>, log: seq<Attempt>, choices: seq<Choice>,
                   a: Attempt, c: Choice)
    requires AllWellChosen(p, bytesPerSigOp, order, block0, log, choices)
    requires WellChosen(p, bytesPerSigOp, order, block0, log, a, c)
    ensures AllWellChosen(p, bytesPerSigOp, order, block0, log + [a], choices + [c])
  {
    hide WellChosen;
    var l, cs := log + [a], choices + [c];
    forall k | 0 <= k < |l|
      ensures WellChosen(p, bytesPerSigOp, order, block0, l[..k], l[k], cs[k])
    {
      if k < |log| {
        assert l[..k] == log[..k];
      } else {
        assert l[..k] == log;
      }
    }
  }

  lemma SelectingComplete(p: Pool, rules: Rules, order: seq<Tx>, mi: nat, block0: set<Tx>, block: set<Tx>,
                          m: ModMap, failed: set<Tx>, log: seq<Attempt>)
    requires Selecting(p, rules, order, mi, block0, block, m, failed, log) && mi <= |order|
    requires mi < |order| ==> order[mi] in p && order[mi] !in m
    ensures Complete(p, order, block, log, Choice(m, failed, order[mi..])) && block == After(p, log, block0)
  {
    hide Tracked, History, After, Refused;
    var waiting := order[mi..];
    forall t | t in order
      ensures t in block || t in m || Refused(log, t) || t in waiting
    {
      var i :| 0 <= i < |order| && order[i] == t;
      assert i >= mi ==> waiting[i - mi] == t;
    }
  }

  /** Kept sums and the pool's own cover at least the transaction itself. */
  lemma TrackedSizable(p: Pool, block: set<Tx>, m: ModMap, failed: set<Tx>)
    requires Tracked(p, block, m, failed)
    ensures Sizable(p, m)
  {
    hide SizeSum, SigOpSum, FeesOwed, FeesKnown;
    forall t | t in m
      ensures m[t].size >= 1
    {
      assert Covers(p, block, t, m[t], t !in failed);
      AtLeastItself(p, Rest(p, t, block), t);
    }
  }

  lemma AtLeastItself(p: Pool, s: set<Tx>, t: Tx)
    requires t in s && t in p
    ensures SizeSum(p, s) >= p[t].size >= 1
  {
    SumRemove(s, t, x => Size(p, x));
  }

  lemma FreshSizable(p: Pool, t: Tx)
    requires Good(p) && t in p
    ensures Fresh(p, t).size >= 1
  {
    hide SizeSum, SigOpSum;
    CountRight(p, t);
    AtLeastItself(p, WithAncestors(p, t), t);
  }

  /** The better of the best entry kept and the next one of the pool. */
  lemma PickOutranks(p: Pool, bytesPerSigOp: nat, m: ModMap, failed: set<Tx>, waiting: seq<Tx>, best: Tx, modified: bool)
    requires Good(p) && Sizable(p, m) && (waiting != [] ==> waiting[0] in p && waiting[0] !in m)
    requires m != map[] ==> Best(p, bytesPerSigOp, m, best)
    requires modified ==> m != map[]
    requires !modified ==> waiting != []
    requires m != map[] && waiting != [] ==>
      (modified <==> Prefers(p, bytesPerSigOp, best, m[best], waiting[0], Fresh(p, waiting[0])))
    ensures
      if modified then Outranks(p, bytesPerSigOp, best, m[best], Choice(m, failed, waiting))
      else Outranks(p, bytesPerSigOp, waiting[0], Fresh(p, waiting[0]), Choice(m, failed, waiting))
  {
    hide Prefers, Good;
    if !modified {
      var t := waiting[0];
      FreshSizable(p, t);
      forall x | x in m
        ensures Prefers(p, bytesPerSigOp, t, Fresh(p, t), x, m[x])
      {
        PrefersOrders(p, bytesPerSigOp, t, Fresh(p, t), best, m[best], x, m[x]);
      }
    }
  }

  /** The best entry kept, unless the next one of the pool is preferred to it. */
  method NextPackage(pool: Pool, bytesPerSigOp: nat, order: seq<Tx>, mi: nat, m: ModMap, ghost failed: set<Tx>)
    returns (t: Tx, package: Modified, usingModified: bool)
    requires Good(pool) && Sizable(pool, m) && mi <= |order| && (mi == |order| ==> m != map[])
    requires mi < |order| ==> order[mi] in pool && order[mi] !in m
    ensures if usingModified then t in m && package == m[t] else mi < |order| && t == order[mi] && package == Fresh(pool, t)
    ensures Outranks(pool, bytesPerSigOp, t, package, Choice(m, failed, order[mi..]))
  {
    hide Prefers, Good, Outranks;
    usingModified := mi == |order|;
    if m != map[] {
      ghost var some := HasBest(pool, bytesPerSigOp, m);
      t :| t in m && Best(pool, bytesPerSigOp, m, t);
      package := m[t];
      if mi < |order| {
        usingModified := Prefers(pool, bytesPerSigOp, t, package, order[mi], Fresh(pool, order[mi]));
      }
      PickOutranks(pool, bytesPerSigOp, m, failed, order[mi..], t, usingModified);
    } else {
      PickOutranks(pool, bytesPerSigOp, m, failed, order[mi..], order[mi], usingModified);
    }
    if !usingModified {
      t := order[mi];
      package := Fresh(pool, t);
    }
  }

  /** The pool's own order, by the sums that the pool keeps. */
  ghost predicate ByScore(p: Pool, bytesPerSigOp: nat, order: seq<Tx>) {
    && (forall t :: t in order ==> t in p)
    && forall i, j :: 0 <= i < j < |order| ==>
         Prefers(p, bytesPerSigOp, order[i], Fresh(p, order[i]), order[j], Fresh(p, order[j]))
  }

  /** If the pool comes in that order, no transaction that could still go in is preferred to the one considered. */
  lemma NothingBetter(p: Pool, bytesPerSigOp: nat, order: seq<Tx>, block0: set<Tx>,
                      before: seq<Attempt>, a: Attempt, c: Choice, t: Tx)
    requires Good(p) && ByScore(p, bytesPerSigOp, order) && WellChosen(p, bytesPerSigOp, order, block0, before, a, c)
    requires t in order && t != a.t && t !in After(p, before, block0) && !Refused(before, t)
    ensures Prefers(p, bytesPerSigOp, a.t, a.package, t, if t in c.rivals then c.rivals[t] else Fresh(p, t))
  {
    hide Prefers, Good, Tracked, After, Refused;
    if t !in c.rivals {
      var i :| 0 <= i < |c.waiting| && c.waiting[i] == t;
      var w, k := c.waiting[0], |order| - |c.waiting|;
      TrackedSizable(p, After(p, before, block0), c.rivals, c.failed);
      FreshSizable(p, t);
      FreshSizable(p, w);
      if i > 0 {
        assert order[k] == w && order[k + i] == t;
        assert Prefers(p, bytesPerSigOp, w, Fresh(p, w), t, Fresh(p, t));
        if a.t != w {
          PrefersOrders(p, bytesPerSigOp, a.t, a.package, w, Fresh(p, w), t, Fresh(p, t));
        }
      }
    }
  }

  /** The packages too big since the last one that went in. */
  ghost function TooBigInARow(log: seq<Attempt>): nat {
    if log == [] then 0
    else
      match log[|log| - 1].verdict
      case Added => 0
      case TooBig => TooBigInARow(log[..|log| - 1]) + 1
      case _ => TooBigInARow(log[..|log| - 1])
  }

  /** More than a thousand in a row were too big, and the block is full but for less than a thousand bytes. */
  ghost predicate Hopeless(p: Pool, rules: Rules, log: seq<Attempt>, block0: set<Tx>) {
    && log != [] && log[|log| - 1].verdict == TooBig
    && TooBigInARow(log) > 1000 && 1000 + SizeSum(p, After(p, log, block0)) > rules.maxSize - 1000
  }

  /** No part of the log before its end was hopeless. */
  ghost predicate NeverHopeless(p: Pool, rules: Rules, log: seq<Attempt>, block0: set<Tx>) {
    forall k :: 0 <= k < |log| ==> !Hopeless(p, rules, log[..k], block0)
  }

  lemma HopelessNext(p: Pool, rules: Rules, log: seq<Attempt>, block0: set<Tx>, a: Attempt)
    requires NeverHopeless(p, rules, log, block0) && !Hopeless(p, rules, log, block0)
    ensures NeverHopeless(p, rules, log + [a], block0)
    ensures TooBigInARow(log + [a]) ==
            if a.verdict == Added then 0 else if a.verdict == TooBig then TooBigInARow(log) + 1 else TooBigInARow(log)
  {
    hide Hopeless;
    var next := log + [a];
    assert next[..|log|] == log;
    forall k | 0 <= k < |next|
      ensures !Hopeless(p, rules, next[..k], block0)
    {
      if k < |log| {
        assert next[..k] == log[..k];
      }
    }
  }

  lemma HopelessIs(p: Pool, rules: Rules, log: seq<Attempt>, block0: set<Tx>, a: Attempt)
    ensures Hopeless(p, rules, log + [a], block0) <==>
            && a.verdict == TooBig && TooBigInARow(log + [a]) > 1000
            && 1000 + SizeSum(p, After(p, log + [a], block0)) > rules.maxSize - 1000
  {
  }

  lemma NotHopelessYet(p: Pool, rules: Rules, block0: set<Tx>)
    ensures NeverHopeless(p, rules, [], block0) && !Hopeless(p, rules, [], block0) && TooBigInARow([]) == 0
  {
  }

  lemma HistoryNext(p: Pool, rules: Rules, log: seq<Attempt>, block: set<Tx>, a: Attempt)
    requires History(p, rules, log, block) && Judged(p, rules, After(p, log, block), a, !Tried(log, a.t))
    ensures History(p, rules, log + [a], block)
  {
    hide Judged, After, Tried;
    var next := log + [a];
    forall k | 0 <= k < |next|
      ensures Judged(p, rules, After(p, next[..k], block), next[k], !Tried(next[..k], next[k].t))
    {
      if k < |log| {
        assert next[..k] == log[..k];
      } else {
        assert next[..k] == log;
      }
    }
  }

  lemma RefusedNext(log: seq<Attempt>, a: Attempt, t: Tx)
    requires Refused(log, t) || (a.t == t && a.verdict != Added)
    ensures Refused(log + [a], t)
  {
    var next := log + [a];
    if Refused(log, t) {
      var k :| 0 <= k < |log| && log[k].t == t && log[k].verdict != Added;
      assert next[k] == log[k];
    } else {
      assert next[|log|] == a;
    }
  }

  lemma AfterNext(p: Pool, log: seq<Attempt>, block: set<Tx>, a: Attempt)
    ensures AddedIn(log + [a]) == AddedIn(log) + if a.verdict == Added then 1 else 0
    ensures
      var was := After(p, log, block);
      After(p, log + [a], block) == if a.verdict == Added then was + Rest(p, a.t, was) else was
  {
    hide Rest;
    assert (log + [a])[..|log|] == log;
  }

  /** One more attempt, judged right. */
  lemma LogNext(p: Pool, rules: Rules, log: seq<Attempt>, block: set<Tx>, a: Attempt)
    requires History(p, rules, log, block) && Judged(p, rules, After(p, log, block), a, !Tried(log, a.t))
    ensures History(p, rules, log + [a], block) && AddedIn(log + [a]) == AddedIn(log) + if a.verdict == Added then 1 else 0
    ensures
      var was := After(p, log, block);
      After(p, log + [a], block) == if a.verdict == Added then was + Rest(p, a.t, was) else was
    ensures forall t :: Refused(log, t) ==> Refused(log + [a], t)
    ensures a.verdict != Added ==> Refused(log + [a], a.t)
  {
    hide Judged, After, Tried, History, Refused, AddedIn, Rest;
    HistoryNext(p, rules, log, block, a);
    AfterNext(p, log, block, a);
    forall t | Refused(log, t) || (a.t == t && a.verdict != Added)
      ensures Refused(log + [a], t)
    {
      RefusedNext(log, a, t);
    }
  }

  /** A selection under way, with the first mi transactions of the pool behind it. */
  ghost predicate Selecting(p: Pool, rules: Rules, order: seq<Tx>, mi: nat, block0: set<Tx>, block: set<Tx>,
                            m: ModMap, failed: set<Tx>, log: seq<Attempt>)
  {
    && Tracked(p, block, m, failed)
    && History(p, rules, log, block0) && block == After(p, log, block0)
    && (forall t :: t in failed ==> Refused(log, t))
    && mi <= |order| && (forall i :: 0 <= i < mi ==> order[i] in block || order[i] in m || Refused(log, order[i]))
  }

  lemma SelectingStart(p: Pool, rules: Rules, order: seq<Tx>, block: set<Tx>, m: ModMap)
    requires Tracked(p, block, m, {})
    ensures Selecting(p, rules, order, 0, block, block, m, {}, [])
  {
    hide Tracked, Judged;
  }

  lemma SelectingSkip(p: Pool, rules: Rules, order: seq<Tx>, mi: nat, block0: set<Tx>, block: set<Tx>,
                      m: ModMap, failed: set<Tx>, log: seq<Attempt>)
    requires Selecting(p, rules, order, mi, block0, block, m, failed, log)
    requires mi < |order| && (order[mi] in m || order[mi] in block || order[mi] in failed)
    ensures Selecting(p, rules, order, mi + 1, block0, block, m, failed, log)
  {
    hide Tracked, History, After, Refused;
  }

  /** The package picked is judged by sums that cover what is left of it, exactly if it was not tried before. */
  lemma PickedCovers(p: Pool, rules: Rules, order: seq<Tx>, mi: nat, block0: set<Tx>, block: set<Tx>,
                     m: ModMap, failed: set<Tx>, log: seq<Attempt>, t: Tx, modified: bool)
    requires Selecting(p, rules, order, mi, block0, block, m, failed, log) && Good(p)
    requires if modified then t in m else t in p && t !in m && t !in block && t !in failed
    ensures t in p && t !in block
    ensures Covers(p, block, t, if modified then m[t] else Fresh(p, t), !Tried(log, t))
  {
    hide History, After, Good, SizeSum, SigOpSum;
    if modified {
      assert Refused(log, t) ==> Tried(log, t);
    } else {
      FreshCovers(p, block, t);
    }
  }

  lemma SelectingRefused(p: Pool, rules: Rules, order: seq<Tx>, mi: nat, block0: set<Tx>, block: set<Tx>,
                         m: ModMap, failed: set<Tx>, log: seq<Attempt>, a: Attempt, modified: bool)
    requires Selecting(p, rules, order, mi, block0, block, m, failed, log)
    requires Judged(p, rules, block, a, !Tried(log, a.t)) && a.verdict != Added
    requires modified || (mi < |order| && order[mi] == a.t)
    ensures if modified then Selecting(p, rules, order, mi, block0, block, m - {a.t}, failed + {a.t}, log + [a])
            else Selecting(p, rules, order, mi + 1, block0, block, m, failed, log + [a])
  {
    hide History, After, Refused, Judged, Tracked, Tried;
    LogNext(p, rules, log, block0, a);
    TrackedFailure(p, block, m, failed, a.t);
  }

  lemma SelectingAdded(p: Pool, rules: Rules, order: seq<Tx>, mi: nat, block0: set<Tx>, block: set<Tx>,
                       m: ModMap, failed: set<Tx>, log: seq<Attempt>, a: Attempt, modified: bool, m': ModMap)
    requires Selecting(p, rules, order, mi, block0, block, m, failed, log)
    requires Judged(p, rules, block, a, !Tried(log, a.t)) && a.verdict == Added && a.t in p && a.t !in block
    requires modified || (mi < |order| && order[mi] == a.t)
    requires Tracked(p, block + Rest(p, a.t, block), m', failed) && m.Keys <= m'.Keys + (block + Rest(p, a.t, block))
    ensures Selecting(p, rules, order, if modified then mi else mi + 1, block0, block + Rest(p, a.t, block),
                      m', failed, log + [a])
  {
    hide History, After, Refused, Judged, Tracked, Tried;
    LogNext(p, rules, log, block0, a);
    assert a.t in Rest(p, a.t, block);
  }

  lemma SelectingTracked(p: Pool, rules: Rules, order: seq<Tx>, mi: nat, block0: set<Tx>, block: set<Tx>,
                         m: ModMap, failed: set<Tx>, log: seq<Attempt>)
    requires Selecting(p, rules, order, mi, block0, block, m, failed, log)
    ensures Tracked(p, block, m, failed) && History(p, rules, log, block0) && block == After(p, log, block0)
  {
    hide Tracked, History, After;
  }

  lemma SelectingWithin(p: Pool, rules: Rules, order: seq<Tx>, mi: nat, block0: set<Tx>, block: set<Tx>,
                        m: ModMap, failed: set<Tx>, log: seq<Attempt>)
    requires Selecting(p, rules, order, mi, block0, block, m, failed, log)
    ensures mi <= |order|
  {
  }

  lemma NoneAdded(p: Pool, block: set<Tx>)
    ensures AddedIn([]) == 0 && UpdatedIn(p, [], block) == 0
  {
  }

  lemma RestHas(p: Pool, t: Tx, block: set<Tx>)
    requires t !in block
    ensures t in Rest(p, t, block)
  {
  }

  /** Once everything is considered, each transaction of the pool is in the block or was refused. */
  lemma SelectingEnd(p: Pool, rules: Rules, order: seq<Tx>, block0: set<Tx>, block: set<Tx>,
                     failed: set<Tx>, log: seq<Attempt>)
    requires Selecting(p, rules, order, |order|, block0, block, map[], failed, log)
    ensures forall t :: t in order ==> t in block || Refused(log, t)
  {
    hide Tracked, History, After, Refused;
  }

  class BlockAssembler {
    const pool: Pool
    const nMaxGeneratedBlockSize: int
    const nMaxGeneratedBlockSigChecks: int
    const bytesPerSigOp: nat      // nBytesPerSigOp
    const minFee: int -> int      // blockMinFeeRate.GetFee
    const final: Tx -> bool       // ContextualCheckTransaction in this block's context
    var entries: seq<Tx>          // the template's entries after the coinbase
    var nBlockSize: int
    var nBlockTx: int
    var nBlockSigOps: int
    var nFees: int
    var inBlock: set<Tx>

    /** The counters are exact, and the block is closed under ancestors and listed in order. */
    ghost predicate Valid()
      reads this
    {
      && Good(pool)
      && Closed(pool, inBlock)
      && Listed(pool, inBlock, entries)
      && nBlockSize == 1000 + SizeSum(pool, inBlock)
      && nBlockSigOps == 100 + SigOpSum(pool, inBlock)
      && nBlockTx == |entries| && nFees == FeeSum(pool, inBlock)
    }

    ghost predicate WithinLimits()
      reads this
    {
      nBlockSize < nMaxGeneratedBlockSize && nBlockSigOps < nMaxGeneratedBlockSigChecks
    }

    constructor (pool: Pool, nExcessiveBlockSize: nat, nMaxSize: nat, bytesPerSigOp: nat,
                 minFee: int -> int, final: Tx -> bool)
      requires Good(pool) && nExcessiveBlockSize < UINT64
      ensures Valid() && this.pool == pool && entries == [] && inBlock == {} && this.minFee == minFee && this.final == final
      ensures this.bytesPerSigOp == bytesPerSigOp
      ensures nMaxGeneratedBlockSize >= 1000
      ensures 2000 <= nExcessiveBlockSize ==> nMaxGeneratedBlockSize <= nExcessiveBlockSize - 1000
      ensures 1000 <= nMaxSize ==> nMaxGeneratedBlockSize <= nMaxSize
      ensures forall v :: SizeAllowed(v, nExcessiveBlockSize, nMaxSize) ==> v <= nMaxGeneratedBlockSize
      ensures SizeAllowed(nMaxGeneratedBlockSize, nExcessiveBlockSize, nMaxSize) ||
              (nMaxGeneratedBlockSize == 1000 && forall v :: !SizeAllowed(v, nExcessiveBlockSize, nMaxSize))
      ensures nMaxGeneratedBlockSigChecks * 141 <= nExcessiveBlockSize < (nMaxGeneratedBlockSigChecks + 1) * 141
    {
      this.pool, this.bytesPerSigOp, this.minFee, this.final := pool, bytesPerSigOp, minFee, final;
      nMaxGeneratedBlockSize := Max(1000, Min((nExcessiveBlockSize - 1000) % UINT64, nMaxSize));
      nMaxGeneratedBlockSigChecks := nExcessiveBlockSize / BLOCK_MAXBYTES_MAXSIGCHECKS_RATIO;
      entries, inBlock := [], {};
      nBlockSize, nBlockSigOps, nBlockTx, nFees := 1000, 100, 0, 0;
      new;
      EmptySums(pool, inBlock);
    }

    method ResetBlock()
      requires Good(pool)
      modifies this
      ensures Valid() && inBlock == {} && entries == []
    {
      inBlock, entries := {}, [];
      nBlockSize, nBlockSigOps, nBlockTx, nFees := 1000, 100, 0, 0;
      EmptySums(pool, inBlock);
    }

    /** Keeps what is not in the block yet. */
    method OnlyUnconfirmed(s: set<Tx>) returns (r: set<Tx>)
      ensures r == s - inBlock
    {
      r := s;
      var todo := s;
      while todo != {}
        invariant todo <= s && r == s - (inBlock - todo)
        decreases |todo|
      {
        var t :| t in todo;
        todo := todo - {t};
        if t in inBlock {
          r := r - {t};
        }
      }
    }

    predicate TestPackage(size: int, sigOps: int)
      reads this
    {
      nBlockSize + size < nMaxGeneratedBlockSize && nBlockSigOps + sigOps < nMaxGeneratedBlockSigChecks
    }

    /** Checking prefix by prefix, in whatever order, comes to checking finality and the total size. */
    method TestPackageTransactions(package: set<Tx>) returns (ok: bool)
      requires package <= pool.Keys
      ensures ok <==> && (forall t :: t in package ==> final(t))
                      && (package != {} ==> nBlockSize + SizeSum(pool, package) < nMaxGeneratedBlockSize)
    {
      hide SizeSum, SigOpSum, FeeSum;
      var potential := nBlockSize;
      var todo := package;
      assert package - todo == {};
      EmptySums(pool, {});
      while todo != {}
        invariant todo <= package && potential == nBlockSize + SizeSum(pool, package - todo)
        invariant forall t :: t in package - todo ==> final(t)
        invariant package != todo ==> potential < nMaxGeneratedBlockSize
        decreases |todo|
      {
        var t :| t in todo;
        PartialSum(pool, package, todo, t);
        if !final(t) {
          return false;
        }
        if potential + pool[t].size >= nMaxGeneratedBlockSize {
          return false;
        }
        potential := potential + pool[t].size;
        todo := todo - {t};
      }
      assert package - todo == package;
      return true;
    }

    method AddToBlock(t: Tx)
      requires t in pool && t !in inBlock
      modifies this
      ensures entries == old(entries) + [t] && inBlock == old(inBlock) + {t}
      ensures nBlockSize == old(nBlockSize) + pool[t].size && nBlockSigOps == old(nBlockSigOps) + pool[t].sigOps
      ensures nBlockTx == old(nBlockTx) + 1 && nFees == old(nFees) + pool[t].fee
    {
      entries := entries + [t];
      nBlockSize := nBlockSize + pool[t].size;
      nBlockTx := nBlockTx + 1;
      nBlockSigOps := nBlockSigOps + pool[t].sigOps;
      nFees := nFees + pool[t].fee;
      inBlock := inBlock + {t};
    }

    /** Adds the transactions of a sorted package one by one. */
    method AddSorted(sorted: seq<Tx>, m0: ModMap) returns (m: ModMap)
      requires Valid() && Sorted(pool, sorted) && Elements(sorted) !! inBlock
      requires forall t :: t in sorted ==> Ancestors(pool, t) <= inBlock + Elements(sorted)
      modifies this
      ensures Valid() && inBlock == old(inBlock) + Elements(sorted)
      ensures entries == old(entries) + sorted && m == m0 - Elements(sorted)
    {
      hide Good, SizeSum, SigOpSum, FeeSum, Listed, Closed;
      m := m0;
      for k := 0 to |sorted|
        invariant Valid() && inBlock == old(inBlock) + Elements(sorted[..k])
        invariant entries == old(entries) + sorted[..k] && m == m0 - Elements(sorted[..k])
      {
        var t := sorted[k];
        NotYet(pool, sorted, k);
        ListedNext(pool, inBlock, entries, sorted, k);
        SumsAdd(pool, inBlock, t);
        AddToBlock(t);
        m := m - {t};
        assert sorted[..k + 1] == sorted[..k] + [t];
        assert Elements(sorted[..k + 1]) == Elements(sorted[..k]) + {t};
      }
      assert sorted[..|sorted|] == sorted;
    }

    /** Adds a package: t and those of its ancestors that are not in the block yet. */
    method AddPackage(t: Tx, package: set<Tx>, m0: ModMap, ghost failed: set<Tx>) returns (m: ModMap, updated: nat)
      requires Valid() && t in pool && t !in inBlock && package == Rest(pool, t, inBlock)
      requires Tracked(pool, inBlock, m0, failed)
      modifies this
      ensures Valid() && inBlock == old(inBlock) + package && old(entries) <= entries
      ensures nBlockSize == old(nBlockSize) + SizeSum(pool, package)
      ensures nBlockSigOps == old(nBlockSigOps) + SigOpSum(pool, package)
      ensures Tracked(pool, inBlock, m, failed) && m0.Keys <= m.Keys + inBlock && updated == Touched(pool, package, package)
    {
      hide Good, SizeSum, SigOpSum, FeeSum, Listed, Tracked, Closed, Sorted, Lessened, Rest, Touched;
      ghost var block := inBlock;
      RestCloses(pool, inBlock, t);
      var sorted := SortForBlock(pool, package);
      assert Elements(sorted) == package;
      m := AddSorted(sorted, m0);
      SumsSplit(pool, inBlock, package);
      assert inBlock - package == block;
      TrackedKeys(pool, block, m0, failed);
      ghost var kept := m;
      m, updated := UpdatePackagesForAdded(pool, package, m);
      LessenedKeys(pool, kept, package, package, m);
      TrackedAfter(pool, block, m0, failed, package, m);
    }

    /** The next transaction to consider is in the map of modified entries, in the block, or has failed. */
    predicate SkipMapTxEntry(t: Tx, m: ModMap, failed: set<Tx>)
      reads this
    {
      t in m || t in inBlock || t in failed
    }

    ghost function Limits(): Rules
    {
      Rules(nMaxGeneratedBlockSize, nMaxGeneratedBlockSigChecks, minFee, final)
    }

    /** Tries to add the package of t, judging it by its kept sums; a package that fails changes nothing. */
    method TryPackage(t: Tx, package: Modified, m0: ModMap, ghost failed: set<Tx>, ghost exact: bool)
      returns (verdict: Verdict, m: ModMap, updated: nat)
      requires Valid() && t in pool && t !in inBlock
      requires Tracked(pool, inBlock, m0, failed) && Covers(pool, inBlock, t, package, exact)
      modifies this
      ensures Valid() && Tracked(pool, inBlock, m, failed) && m0.Keys <= m.Keys + inBlock
      ensures Judged(pool, Limits(), old(inBlock), Attempt(t, package, verdict), exact)
      ensures verdict != Added ==> m == m0 && inBlock == old(inBlock) && entries == old(entries)
      ensures verdict != Added ==> nBlockSize == old(nBlockSize) && nBlockSigOps == old(nBlockSigOps)
      ensures verdict == Added ==> WithinLimits() && inBlock == old(inBlock) + Rest(pool, t, old(inBlock))
      ensures verdict == Added ==> old(entries) <= entries && forall x :: x in Rest(pool, t, old(inBlock)) ==> final(x)
      ensures verdict == Added ==> updated == Touched(pool, Rest(pool, t, old(inBlock)), Rest(pool, t, old(inBlock)))
    {
      hide Good, SizeSum, SigOpSum, FeeSum, Listed, Tracked, Closed, Touched;
      m, updated := m0, 0;
      if package.modFees < minFee(package.size) {
        verdict := TooCheap;
        return;
      }
      if !TestPackage(package.size, package.sigOps) {
        verdict := TooBig;
        return;
      }
      var ancestors := OnlyUnconfirmed(pool[t].ancestors);
      ancestors := ancestors + {t};
      RestIs(pool, t, inBlock, ancestors);
      RestCloses(pool, inBlock, t);
      var ok := TestPackageTransactions(ancestors);
      if !ok {
        verdict := NotFinal;
        return;
      }
      m, updated := AddPackage(t, ancestors, m, failed);
      verdict := Added;
    }

    /** One turn with the package of t: it goes in, or t has failed and is not considered again. */
    method Consider(t: Tx, package: Modified, usingModified: bool, order: seq<Tx>, mi: nat, m0: ModMap, failed0: set<Tx>,
                    ghost block0: set<Tx>, ghost log0: seq<Attempt>)
      returns (verdict: Verdict, next: nat, m: ModMap, failed: set<Tx>, updated: nat, ghost log: seq<Attempt>)
      requires Valid() && Selecting(pool, Limits(), order, mi, block0, inBlock, m0, failed0, log0)
      requires t in pool && t !in inBlock && Covers(pool, inBlock, t, package, !Tried(log0, t))
      requires if usingModified then t in m0 else mi < |order| && order[mi] == t
      modifies this
      ensures Valid() && Selecting(pool, Limits(), order, next, block0, inBlock, m, failed, log) && next <= |order|
      ensures log == log0 + [Attempt(t, package, verdict)]
      ensures AddedIn(log) == AddedIn(log0) + if verdict == Added then 1 else 0
      ensures UpdatedIn(pool, log, block0) == UpdatedIn(pool, log0, block0) + if verdict == Added then updated else 0
      ensures verdict == Added ==> WithinLimits() && pool.Keys - inBlock < pool.Keys - old(inBlock)
      ensures verdict == Added ==>
        forall b, es :: Grown(final, b, es, old(inBlock), old(entries)) ==> Grown(final, b, es, inBlock, entries)
      ensures verdict != Added ==> inBlock == old(inBlock) && entries == old(entries)
      ensures verdict != Added ==> nBlockSize == old(nBlockSize) && nBlockSigOps == old(nBlockSigOps)
      ensures verdict != Added ==> |order| - next + |m| < |order| - mi + |m0|
    {
      hide Good, SizeSum, SigOpSum, FeeSum, Listed, Tracked, Closed, Rest, Covers, Grown,
           Selecting, History, After, Judged, Refused, Tried, AddedIn, UpdatedIn, Touched;
      SelectingTracked(pool, Limits(), order, mi, block0, inBlock, m0, failed0, log0);
      next := if usingModified then mi else mi + 1;
      failed := failed0;
      verdict, m, updated := TryPackage(t, package, m0, failed, !Tried(log0, t));
      ghost var a := Attempt(t, package, verdict);
      log := log0 + [a];
      UpdatedNext(pool, log0, block0, a);
      LogNext(pool, Limits(), log0, block0, a);
      if verdict == Added {
        SelectingAdded(pool, Limits(), order, mi, block0, old(inBlock), m0, failed, log0, a, usingModified, m);
        RestHas(pool, t, old(inBlock));
        MoreInBlock(pool, old(inBlock), Rest(pool, t, old(inBlock)), t);
        forall b, es | Grown(final, b, es, old(inBlock), old(entries))
          ensures Grown(final, b, es, inBlock, entries)
        {
          GrownBy(final, b, es, old(inBlock), old(entries), Rest(pool, t, old(inBlock)), entries);
        }
      } else {
        SelectingRefused(pool, Limits(), order, mi, block0, old(inBlock), m0, failed, log0, a, usingModified);
        if usingModified {
          FewerModified(m, t);
          m := m - {t};
          failed := failed + {t};
        }
      }
      SelectingWithin(pool, Limits(), order, next, block0, inBlock, m, failed, log);
    }

    /** One turn with the package preferred to all others. */
    method Turn(order: seq<Tx>, mi: nat, m0: ModMap, failed0: set<Tx>,
                ghost block0: set<Tx>, ghost log0: seq<Attempt>, ghost choices0: seq<Choice>)
      returns (verdict: Verdict, next: nat, m: ModMap, failed: set<Tx>, updated: nat,
               ghost log: seq<Attempt>, ghost choices: seq<Choice>)
      requires Valid() && Selecting(pool, Limits(), order, mi, block0, inBlock, m0, failed0, log0)
      requires mi <= |order| && (mi == |order| ==> m0 != map[])
      requires mi < |order| ==> order[mi] in pool && order[mi] !in m0 && order[mi] !in inBlock && order[mi] !in failed0
      requires AllWellChosen(pool, bytesPerSigOp, order, block0, log0, choices0)
      requires NeverHopeless(pool, Limits(), log0, block0) && !Hopeless(pool, Limits(), log0, block0)
      modifies this
      ensures Valid() && Selecting(pool, Limits(), order, next, block0, inBlock, m, failed, log) && next <= |order|
      ensures AllWellChosen(pool, bytesPerSigOp, order, block0, log, choices)
      ensures NeverHopeless(pool, Limits(), log, block0)
      ensures TooBigInARow(log) ==
        if verdict == Added then 0 else if verdict == TooBig then TooBigInARow(log0) + 1 else TooBigInARow(log0)
      ensures Hopeless(pool, Limits(), log, block0) <==>
        verdict == TooBig && TooBigInARow(log) > 1000 && nBlockSize > nMaxGeneratedBlockSize - 1000
      ensures AddedIn(log) == AddedIn(log0) + if verdict == Added then 1 else 0
      ensures UpdatedIn(pool, log, block0) == UpdatedIn(pool, log0, block0) + if verdict == Added then updated else 0
      ensures verdict == Added ==> WithinLimits() && pool.Keys - inBlock < pool.Keys - old(inBlock)
      ensures verdict == Added ==>
        forall b, es :: Grown(final, b, es, old(inBlock), old(entries)) ==> Grown(final, b, es, inBlock, entries)
      ensures verdict != Added ==> inBlock == old(inBlock) && entries == old(entries)
      ensures verdict != Added ==> nBlockSize == old(nBlockSize) && nBlockSigOps == old(nBlockSigOps)
      ensures verdict != Added ==> |order| - next + |m| < |order| - mi + |m0|
    {
      hide Good, SizeSum, SigOpSum, FeeSum, Listed, Tracked, Closed, Rest, Covers, Grown, Selecting, History, After, Judged,
           Refused, Tried, AddedIn, UpdatedIn, Hopeless, NeverHopeless, TooBigInARow, AllWellChosen, WellChosen, Complete,
           Outranks, Sizable;
      SelectingTracked(pool, Limits(), order, mi, block0, inBlock, m0, failed0, log0);
      TrackedSizable(pool, inBlock, m0, failed0);
      SelectingComplete(pool, Limits(), order, mi, block0, inBlock, m0, failed0, log0);
      var t, package, usingModified := NextPackage(pool, bytesPerSigOp, order, mi, m0, failed0);
      PickedCovers(pool, Limits(), order, mi, block0, inBlock, m0, failed0, log0, t, usingModified);
      verdict, next, m, failed, updated, log := Consider(t, package, usingModified, order, mi, m0, failed0, block0, log0);
      ghost var a := Attempt(t, package, verdict);
      ghost var choice := Choice(m0, failed0, order[mi..]);
      ChosenIs(pool, bytesPerSigOp, order, block0, log0, a, choice);
      ChosenNext(pool, bytesPerSigOp, order, block0, log0, choices0, a, choice);
      choices := choices0 + [choice];
      HopelessNext(pool, Limits(), log0, block0, a);
      HopelessIs(pool, Limits(), log0, block0, a);
      SelectingTracked(pool, Limits(), order, next, block0, inBlock, m, failed, log);
    }

    /**
     Selects packages until none is left to consider, each time the better one of the best modified entry
     and the next entry of the pool, whose order is arbitrary. The log says what was tried: each package
     was judged right at its time, the block is what the log makes of it, and unless the search was given
     up each transaction of the pool is in the block or was refused.
     */
    method AddPackageTxs(order: seq<Tx>)
      returns (packages: nat, updated: nat, ghost log: seq<Attempt>, ghost choices: seq<Choice>, ghost gaveUp: bool)
      requires Valid() && forall t :: t in order ==> t in pool
      modifies this
      ensures Valid() && Grown(final, old(inBlock), old(entries), inBlock, entries)
      ensures entries != old(entries) ==> WithinLimits()
      ensures History(pool, Limits(), log, old(inBlock)) && inBlock == After(pool, log, old(inBlock))
      ensures packages == AddedIn(log) && updated == UpdatedIn(pool, log, old(inBlock))
      ensures AllWellChosen(pool, bytesPerSigOp, order, old(inBlock), log, choices)
      ensures gaveUp <==> Hopeless(pool, Limits(), log, old(inBlock))
      ensures NeverHopeless(pool, Limits(), log, old(inBlock))
      ensures !gaveUp ==> forall t :: t in order ==> t in inBlock || Refused(log, t)
    {
      hide Good, SizeSum, SigOpSum, FeeSum, Listed, Tracked, Closed, Rest, Covers, Grown, Lessened,
           Selecting, History, After, Judged, Refused, Tried, AddedIn, UpdatedIn, Hopeless, NeverHopeless, TooBigInARow,
           AllWellChosen, WellChosen, Complete, Outranks, Prefers, Best, Sizable;
      assert Grown(final, inBlock, entries, inBlock, entries) by { NotGrown(final, inBlock, entries); }
      packages, updated, log, choices, gaveUp := 0, 0, [], [], false;
      assert AllWellChosen(pool, bytesPerSigOp, order, inBlock, [], []) by { NoChoices(pool, bytesPerSigOp, order, inBlock); }
      NoneAdded(pool, inBlock);
      NotHopelessYet(pool, Limits(), inBlock);
      ClosedKeys(pool, inBlock);
      var m, n := UpdatePackagesForAdded(pool, inBlock, map[]);
      var failed: set<Tx> := {};
      var mi: nat, consecutiveFailed := 0, 0;
      TrackedAtStart(pool, inBlock, m);
      SelectingStart(pool, Limits(), order, inBlock, m);
      while mi < |order| || m != map[]
        invariant Valid() && Grown(final, old(inBlock), old(entries), inBlock, entries)
        invariant Selecting(pool, Limits(), order, mi, old(inBlock), inBlock, m, failed, log) && mi <= |order|
        invariant entries != old(entries) ==> WithinLimits()
        invariant packages == AddedIn(log) && updated == UpdatedIn(pool, log, old(inBlock))
        invariant consecutiveFailed == TooBigInARow(log) && !gaveUp
        invariant AllWellChosen(pool, bytesPerSigOp, order, old(inBlock), log, choices)
        invariant NeverHopeless(pool, Limits(), log, old(inBlock)) && !Hopeless(pool, Limits(), log, old(inBlock))
        decreases pool.Keys - inBlock, |order| - mi + |m|
      {
        if mi < |order| && SkipMapTxEntry(order[mi], m, failed) {
          SelectingSkip(pool, Limits(), order, mi, old(inBlock), inBlock, m, failed, log);
          mi := mi + 1;
          continue;
        }
        var verdict;
        verdict, mi, m, failed, n, log, choices := Turn(order, mi, m, failed, old(inBlock), log, choices);
        if verdict == Added {
          consecutiveFailed := 0;
          packages, updated := packages + 1, updated + n;
        } else if verdict == TooBig {
          consecutiveFailed := consecutiveFailed + 1;
          if consecutiveFailed > MAX_CONSECUTIVE_FAILURES && nBlockSize > nMaxGeneratedBlockSize - 1000 {
            gaveUp := true;
            break;
          }
        }
      }
      SelectingTracked(pool, Limits(), order, mi, old(inBlock), inBlock, m, failed, log);
      if !gaveUp {
        SelectingEnd(pool, Limits(), order, old(inBlock), inBlock, failed, log);
      }
    }
  }

  /** What is left of a package is disjoint from the block, and with the block closed under ancestors. */
  lemma RestCloses(p: Pool, block: set<Tx>, t: Tx)
    requires Good(p) && Closed(p, block) && t in p && t !in block
    ensures Rest(p, t, block) <= p.Keys && Rest(p, t, block) !! block && t in Rest(p, t, block)
    ensures forall x :: x in Rest(p, t, block) ==> Ancestors(p, x) <= block + Rest(p, t, block)
  {
    hide CachedRight;
  }

  lemma NotYet(p: Pool, sorted: seq<Tx>, k: nat)
    requires Sorted(p, sorted) && k < |sorted|
    ensures sorted[k] !in Elements(sorted[..k]) && sorted[k] in Elements(sorted)
    ensures forall i :: 0 <= i < k ==> sorted[i] in Elements(sorted[..k])
  {
    forall i | 0 <= i < k
      ensures sorted[i] in Elements(sorted[..k]) && sorted[i] != sorted[k]
    {
      assert sorted[..k][i] == sorted[i];
      assert Before(p, sorted[i], sorted[k]);
    }
  }

  lemma RestIs(p: Pool, t: Tx, block: set<Tx>, s: set<Tx>)
    requires t in p && t !in block && s == p[t].ancestors - block + {t}
    ensures s == Rest(p, t, block)
  {
  }

  lemma ClosedKeys(p: Pool, block: set<Tx>)
    requires Closed(p, block)
    ensures block <= p.Keys
  {
  }

  lemma TrackedKeys(p: Pool, block: set<Tx>, m: ModMap, failed: set<Tx>)
    requires Tracked(p, block, m, failed)
    ensures m.Keys <= p.Keys && m.Keys !! block
  {
  }

  /** With nothing considered yet, exactly the descendants of what is in the block are tracked, with exact sums. */
  lemma TrackedAtStart(p: Pool, block: set<Tx>, m: ModMap)
    requires Good(p) && Closed(p, block) && Lessened(p, map[], block, block, m) && FeesLessened(p, map[], block, block, m)
    ensures Tracked(p, block, m, {})
  {
    hide Good, SizeSum, SigOpSum, FeeSum;
    assert Tracked(p, {}, map[], {});
    var none: ModMap := map[];
    assert none - block == none;
    assert {} + block == block;
    TrackedAfter(p, {}, map[], {}, block, m);
  }

  lemma TrackedFailure(p: Pool, block: set<Tx>, m: ModMap, failed: set<Tx>, t: Tx)
    requires Tracked(p, block, m, failed)
    ensures Tracked(p, block, m - {t}, failed + {t})
  {
    hide Covers;
    forall x | x in m - {t}
      ensures Covers(p, block, x, m[x], x !in failed + {t})
    {
      assert Covers(p, block, x, m[x], x !in failed);
    }
  }
}
