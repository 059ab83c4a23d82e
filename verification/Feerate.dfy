/**
 The order in which packages are considered (CompareTxMemPoolEntryByAncestorFee in
 src/txmempool.h): by fee rate, a transaction counting for no more than its package.
 The products are exact here; the source computes them in double precision.
 */
module Feerate {
  import opened Numbers
  import opened Mempool

  /** CTxMemPoolModifiedEntry: a transaction's sums without the ancestors already in the block. */
  datatype Modified = Modified(size: int, modFees: int, sigOps: int)

  type ModMap = map<Tx, Modified>

  /** A new entry holds the pool's sums. */
  function Fresh(p: Pool, t: Tx): Modified
    requires t in p
  {
    Modified(p[t].sizeWithAncestors, p[t].modFeesWithAncestors, p[t].sigOpsWithAncestors)
  }

  /** GetVirtualTransactionSize */
  function VirtualSize(size: int, sigOps: int, bytesPerSigOp: nat): int {
    Max(size, sigOps * bytesPerSigOp)
  }

  /** A fee for a size. */
  datatype Rate = Rate(fee: int, size: int)

  function OwnRate(p: Pool, t: Tx, bytesPerSigOp: nat): Rate
    requires t in p
  {
    Rate(p[t].modifiedFee, VirtualSize(p[t].size, p[t].sigOps, bytesPerSigOp))
  }

  function PackageRate(e: Modified, bytesPerSigOp: nat): Rate {
    Rate(e.modFees, VirtualSize(e.size, e.sigOps, bytesPerSigOp))
  }

  /** a.fee / a.size > b.fee / b.size, for positive sizes */
  predicate Higher(a: Rate, b: Rate) {
    Times(a.fee, b.size) > Times(a.size, b.fee)
  }

  function Times(x: int, y: int): int {
    x * y
  }

  /** GetModFeeAndSize */
  function RateOf(p: Pool, t: Tx, e: Modified, bytesPerSigOp: nat): Rate
    requires t in p
  {
    var own, all := OwnRate(p, t, bytesPerSigOp), PackageRate(e, bytesPerSigOp);
    if Times(all.size, own.fee) > Times(own.size, all.fee) then all else own
  }

  predicate Prefers(p: Pool, bytesPerSigOp: nat, a: Tx, ea: Modified, b: Tx, eb: Modified)
    requires a in p && b in p
  {
    var x, y := RateOf(p, a, ea, bytesPerSigOp), RateOf(p, b, eb, bytesPerSigOp);
    if Times(x.fee, y.size) == Times(x.size, y.fee) then a.id < b.id else Higher(x, y)
  }

  // ---- Rates as fractions

  /** a.fee / a.size */
  function Real(a: Rate): real
    requires a.size > 0
  {
    a.fee as real / a.size as real
  }

  /** Cross-multiplication compares fractions. */
  lemma CrossCompares(a: Rate, b: Rate)
    requires a.size > 0 && b.size > 0
    ensures Times(a.fee, b.size) > Times(a.size, b.fee) <==> Real(a) > Real(b)
    ensures Times(a.fee, b.size) == Times(a.size, b.fee) <==> Real(a) == Real(b)
  {
    var f, g, s, t := a.fee as real, b.fee as real, a.size as real, b.size as real;
    var x, y := Real(a), Real(b);
    assert x * s == f && y * t == g;
    assert Times(a.fee, b.size) as real == f * t && Times(a.size, b.fee) as real == s * g;
    assert f * t == x * (s * t) && s * g == y * (s * t);
    Scaled(x, y, s * t);
  }

  lemma Scaled(x: real, y: real, k: real)
    requires k > 0.0
    ensures x * k > y * k <==> x > y
    ensures x * k == y * k <==> x == y
  {
    if x > y {
      assert (x - y) * k > 0.0;
    } else if x < y {
      assert (y - x) * k > 0.0;
    }
  }

  /** A package with a positive size has a rate, and it is the lower one of its own and the transaction's. */
  lemma LowerRate(p: Pool, t: Tx, e: Modified, bytesPerSigOp: nat)
    requires t in p && e.size >= 1
    ensures OwnRate(p, t, bytesPerSigOp).size >= 1 && PackageRate(e, bytesPerSigOp).size >= 1
    ensures RateOf(p, t, e, bytesPerSigOp).size >= 1
    ensures
      var own, all := Real(OwnRate(p, t, bytesPerSigOp)), Real(PackageRate(e, bytesPerSigOp));
      Real(RateOf(p, t, e, bytesPerSigOp)) == if own > all then all else own
  {
    hide Times, Real;
    CrossCompares(OwnRate(p, t, bytesPerSigOp), PackageRate(e, bytesPerSigOp));
    TimesSwap(OwnRate(p, t, bytesPerSigOp).fee, PackageRate(e, bytesPerSigOp).size);
  }

  lemma TimesSwap(x: int, y: int)
    ensures Times(x, y) == Times(y, x)
  {
  }

  /** The order: the higher rate first, and among equal rates the smaller id. */
  lemma PrefersExactly(p: Pool, bytesPerSigOp: nat, a: Tx, ea: Modified, b: Tx, eb: Modified)
    requires a in p && b in p && ea.size >= 1 && eb.size >= 1
    ensures RateOf(p, a, ea, bytesPerSigOp).size >= 1 && RateOf(p, b, eb, bytesPerSigOp).size >= 1
    ensures
      var x, y := Real(RateOf(p, a, ea, bytesPerSigOp)), Real(RateOf(p, b, eb, bytesPerSigOp));
      Prefers(p, bytesPerSigOp, a, ea, b, eb) <==> x > y || (x == y && a.id < b.id)
  {
    hide Times, Real, RateOf;
    LowerRate(p, a, ea, bytesPerSigOp);
    LowerRate(p, b, eb, bytesPerSigOp);
    CrossCompares(RateOf(p, a, ea, bytesPerSigOp), RateOf(p, b, eb, bytesPerSigOp));
  }

  /** It is a strict total order. */
  lemma PrefersOrders(p: Pool, bytesPerSigOp: nat, a: Tx, ea: Modified, b: Tx, eb: Modified, c: Tx, ec: Modified)
    requires a in p && b in p && c in p && ea.size >= 1 && eb.size >= 1 && ec.size >= 1
    ensures !Prefers(p, bytesPerSigOp, a, ea, a, ea)
    ensures a != b ==> (Prefers(p, bytesPerSigOp, a, ea, b, eb) <==> !Prefers(p, bytesPerSigOp, b, eb, a, ea))
    ensures Prefers(p, bytesPerSigOp, a, ea, b, eb) && Prefers(p, bytesPerSigOp, b, eb, c, ec) ==>
            Prefers(p, bytesPerSigOp, a, ea, c, ec)
  {
    hide Prefers, RateOf, Real;
    PrefersExactly(p, bytesPerSigOp, a, ea, a, ea);
    PrefersExactly(p, bytesPerSigOp, a, ea, b, eb);
    PrefersExactly(p, bytesPerSigOp, b, eb, a, ea);
    PrefersExactly(p, bytesPerSigOp, b, eb, c, ec);
    PrefersExactly(p, bytesPerSigOp, a, ea, c, ec);
  }

  /** Entries of transactions of the pool, all with positive sizes. */
  predicate Sizable(p: Pool, m: ModMap) {
    m.Keys <= p.Keys && forall t :: t in m ==> m[t].size >= 1
  }

  /** The first entry of the index by ancestor score. */
  predicate Best(p: Pool, bytesPerSigOp: nat, m: ModMap, t: Tx)
    requires Sizable(p, m)
  {
    t in m && forall x :: x in m && x != t ==> Prefers(p, bytesPerSigOp, t, m[t], x, m[x])
  }

  lemma {:induction false} HasBest(p: Pool, bytesPerSigOp: nat, m: ModMap) returns (t: Tx)
    requires Sizable(p, m) && m != map[]
    ensures Best(p, bytesPerSigOp, m, t)
    decreases |m|
  {
    hide Prefers;
    var x :| x in m;
    var rest := m - {x};
    assert m == rest[x := m[x]];
    if rest == map[] {
      t := x;
    } else {
      assert rest.Keys == m.Keys - {x};
      var y := HasBest(p, bytesPerSigOp, rest);
      t := if Prefers(p, bytesPerSigOp, x, m[x], y, m[y]) then x else y;
      forall z | z in m && z != t
        ensures Prefers(p, bytesPerSigOp, t, m[t], z, m[z])
      {
        PrefersOrders(p, bytesPerSigOp, x, m[x], y, m[y], z, m[z]);
      }
    }
  }
}
