/**
 What the block assembler sees of the memory pool (src/txmempool.h): a finite set of
 transactions whose ancestor sets are transitively closed and whose cached sums are right.
 */
module Mempool {
  import opened Collections

  datatype Tx = Tx(id: nat)

  /** A serialized transaction is never empty. */
  type Pos = n: nat | n >= 1 witness 1

  datatype Info = Info(
    size: Pos, sigOps: nat, fee: nat, modifiedFee: int, ancestors: set<Tx>,
    countWithAncestors: nat, sizeWithAncestors: int, sigOpsWithAncestors: int, modFeesWithAncestors: int)

  type Pool = map<Tx, Info>

  function Ancestors(p: Pool, t: Tx): set<Tx> {
    if t in p then p[t].ancestors else {}
  }

  function Size(p: Pool, t: Tx): nat {
    if t in p then p[t].size else 0
  }

  function SigOps(p: Pool, t: Tx): nat {
    if t in p then p[t].sigOps else 0
  }

  function Fee(p: Pool, t: Tx): nat {
    if t in p then p[t].fee else 0
  }

  function ModFee(p: Pool, t: Tx): int {
    if t in p then p[t].modifiedFee else 0
  }

  /** By how much the priority given to a transaction changes its fee. */
  function Drift(p: Pool, t: Tx): int {
    ModFee(p, t) - Fee(p, t)
  }

  // ---- Sums over sets of transactions

  ghost function Sum(s: set<Tx>, w: Tx -> int): (r: int)
    ensures (forall t :: t in s ==> w(t) >= 0) ==> r >= 0
  {
    if s == {} then 0 else
      var t :| t in s;
      w(t) + Sum(s - {t}, w)
  }

  lemma {:induction false} SumRemove(s: set<Tx>, t: Tx, w: Tx -> int)
    requires t in s
    ensures Sum(s, w) == w(t) + Sum(s - {t}, w)
    decreases |s|
  {
    var u :| u in s && Sum(s, w) == w(u) + Sum(s - {u}, w);
    if u != t {
      SumRemove(s - {u}, t, w);
      SumRemove(s - {t}, u, w);
      assert s - {u} - {t} == s - {t} - {u};
    }
  }

  lemma SumAdd(s: set<Tx>, t: Tx, w: Tx -> int)
    requires t !in s
    ensures Sum(s + {t}, w) == Sum(s, w) + w(t)
  {
    SumRemove(s + {t}, t, w);
    assert s + {t} - {t} == s;
  }

  /** A sum splits over a subset and what is left. */
  lemma {:induction false} SumSplit(s: set<Tx>, part: set<Tx>, w: Tx -> int)
    requires part <= s
    ensures Sum(s, w) == Sum(part, w) + Sum(s - part, w)
    decreases |part|
  {
    if part == {} {
      assert s - part == s;
    } else {
      var t :| t in part;
      SumRemove(s, t, w);
      SumRemove(part, t, w);
      SumSplit(s - {t}, part - {t}, w);
      assert s - {t} - (part - {t}) == s - part;
    }
  }

  // ---- The pool

  function WithAncestors(p: Pool, t: Tx): set<Tx> {
    Ancestors(p, t) + {t}
  }

  /** Ancestors are in the pool, never loop back, and include their own ancestors. */
  ghost predicate Acyclic(p: Pool) {
    forall t :: t in p ==>
      && Ancestors(p, t) <= p.Keys && t !in Ancestors(p, t)
      && forall a :: a in Ancestors(p, t) ==> Ancestors(p, a) <= Ancestors(p, t)
  }

  ghost function SizeSum(p: Pool, s: set<Tx>): nat {
    Sum(s, x => Size(p, x))
  }

  ghost function SigOpSum(p: Pool, s: set<Tx>): nat {
    Sum(s, x => SigOps(p, x))
  }

  ghost function FeeSum(p: Pool, s: set<Tx>): nat {
    Sum(s, x => Fee(p, x))
  }

  ghost function ModFeeSum(p: Pool, s: set<Tx>): int {
    Sum(s, x => ModFee(p, x))
  }

  ghost function DriftSum(p: Pool, s: set<Tx>): int {
    Sum(s, x => Drift(p, x))
  }

  lemma {:induction false} ModFeesSplit(p: Pool, s: set<Tx>)
    ensures ModFeeSum(p, s) == FeeSum(p, s) + DriftSum(p, s)
    decreases |s|
  {
    if s != {} {
      var t :| t in s;
      ModFeesSplit(p, s - {t});
      SumRemove(s, t, x => ModFee(p, x));
      SumRemove(s, t, x => Fee(p, x));
      SumRemove(s, t, x => Drift(p, x));
    }
  }

  lemma {:induction false} NoDrift(p: Pool, s: set<Tx>)
    requires forall t :: t in s ==> Drift(p, t) == 0
    ensures DriftSum(p, s) == 0
    decreases |s|
  {
    hide Drift;
    if s != {} {
      var t :| t in s;
      NoDrift(p, s - {t});
      SumRemove(s, t, x => Drift(p, x));
    }
  }

  lemma SumsAdd(p: Pool, s: set<Tx>, t: Tx)
    requires t !in s
    ensures SizeSum(p, s + {t}) == SizeSum(p, s) + Size(p, t)
    ensures SigOpSum(p, s + {t}) == SigOpSum(p, s) + SigOps(p, t)
    ensures FeeSum(p, s + {t}) == FeeSum(p, s) + Fee(p, t)
    ensures DriftSum(p, s + {t}) == DriftSum(p, s) + Drift(p, t)
  {
    SumAdd(s, t, x => Size(p, x));
    SumAdd(s, t, x => SigOps(p, x));
    SumAdd(s, t, x => Fee(p, x));
    SumAdd(s, t, x => Drift(p, x));
  }

  lemma SumsSplit(p: Pool, s: set<Tx>, part: set<Tx>)
    requires part <= s
    ensures SizeSum(p, s) == SizeSum(p, part) + SizeSum(p, s - part)
    ensures SigOpSum(p, s) == SigOpSum(p, part) + SigOpSum(p, s - part)
    ensures ModFeeSum(p, s) == ModFeeSum(p, part) + ModFeeSum(p, s - part)
    ensures DriftSum(p, s) == DriftSum(p, part) + DriftSum(p, s - part)
  {
    SumSplit(s, part, x => Size(p, x));
    SumSplit(s, part, x => SigOps(p, x));
    SumSplit(s, part, x => ModFee(p, x));
    SumSplit(s, part, x => Drift(p, x));
  }

  ghost predicate RightAt(p: Pool, t: Tx)
    requires t in p
  {
    && p[t].countWithAncestors == |p[t].ancestors| + 1
    && p[t].sizeWithAncestors == SizeSum(p, WithAncestors(p, t))
    && p[t].sigOpsWithAncestors == SigOpSum(p, WithAncestors(p, t))
    && p[t].modFeesWithAncestors == ModFeeSum(p, WithAncestors(p, t))
  }

  ghost predicate CachedRight(p: Pool) {
    forall t :: t in p ==> RightAt(p, t)
  }

  ghost predicate Good(p: Pool) {
    Acyclic(p) && CachedRight(p)
  }

  /** An ancestor has fewer ancestors. */
  lemma FewerAncestors(p: Pool, a: Tx, t: Tx)
    requires Good(p) && t in p && a in Ancestors(p, t)
    ensures a in p && p[a].countWithAncestors < p[t].countWithAncestors
  {
    hide CachedRight;
    assert p[a].ancestors < p[t].ancestors;
    SubsetSize(p[a].ancestors, p[t].ancestors);
    CountRight(p, a);
    CountRight(p, t);
  }

  lemma CountRight(p: Pool, t: Tx)
    requires Good(p) && t in p
    ensures RightAt(p, t)
  {
    hide Acyclic, Sum;
  }
}
