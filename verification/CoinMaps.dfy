/**
 The unspent coins (src/coins.h) as plain maps, and what one layer of cached
 entries with DIRTY and FRESH flags means on top of such a map.
 */
module CoinMaps {

  datatype OutPoint = OutPoint(txid: nat, n: nat)

  datatype TxOut = TxOut(value: int, script: seq<int>)

  /** The value that marks a spent output. */
  const NULL_VALUE := -1
  const OP_RETURN := 0x6a
  const MAX_SCRIPT_SIZE := 10000

  datatype Coin = Coin(out: TxOut, height: nat, coinbase: bool) {
    predicate IsSpent() {
      out.value == NULL_VALUE
    }
  }

  const NO_COIN := Coin(TxOut(NULL_VALUE, []), 0, false)

  predicate IsUnspendable(script: seq<int>) {
    (|script| > 0 && script[0] == OP_RETURN) || |script| > MAX_SCRIPT_SIZE
  }

  /** A cached coin, with its two flags. */
  datatype Entry = Entry(coin: Coin, isDirty: bool, isFresh: bool)

  /** Outpoints to unspent coins. */
  type Coins = map<OutPoint, Coin>
  type Layer = map<OutPoint, Entry>

  /** Only unspent coins are present. */
  ghost predicate AllUnspent(v: Coins) {
    forall o :: o in v ==> !v[o].IsSpent()
  }

  /** What a map of unspent coins shows once outpoint o holds the given coin, spent or not. */
  ghost function Put(v: Coins, o: OutPoint, c: Coin): Coins {
    if c.IsSpent() then v - {o} else v[o := c]
  }

  /** The coins seen through a layer of entries over v. */
  ghost function Over(v: Coins, layer: Layer): Coins {
    map o | o in v.Keys + layer.Keys && (if o in layer then !layer[o].coin.IsSpent() else o in v) ::
      if o in layer then layer[o].coin else v[o]
  }

  /**
   The meaning of the flags: an entry not DIRTY agrees with the view below, and
   an entry FRESH is over an outpoint that has no unspent coin below.
   */
  ghost predicate EntryOk(v: Coins, o: OutPoint, e: Entry) {
    && (e.isFresh ==> o !in v)
    && (!e.isDirty ==> if e.coin.IsSpent() then o !in v else o in v && v[o] == e.coin)
  }

  ghost predicate LayerOk(v: Coins, layer: Layer) {
    forall o :: o in layer ==> EntryOk(v, o, layer[o])
  }

  lemma OverUnspent(v: Coins, layer: Layer)
    requires AllUnspent(v)
    ensures AllUnspent(Over(v, layer))
  {
  }

  lemma OverNothing(v: Coins)
    ensures Over(v, map[]) == v
  {
  }

  lemma NoEntries(v: Coins)
    ensures LayerOk(v, map[]) && Over(v, map[]) == v
  {
    OverNothing(v);
  }

  lemma OverPut(v: Coins, layer: Layer, o: OutPoint, e: Entry)
    ensures Over(v, layer[o := e]) == Put(Over(v, layer), o, e.coin)
  {
  }

  /** An entry that agrees with the view below may be dropped or added. */
  lemma OverAgreeing(v: Coins, layer: Layer, o: OutPoint)
    requires o in layer && (if layer[o].coin.IsSpent() then o !in v else o in v && v[o] == layer[o].coin)
    ensures Over(v, layer - {o}) == Over(v, layer)
  {
  }

  lemma AgreeingOk(v: Coins, layer: Layer, o: OutPoint)
    requires o in v && !v[o].IsSpent()
    ensures LayerOk(v, layer) ==> LayerOk(v, layer[o := Entry(v[o], false, false)])
  {
  }

  /** Dropping a spent entry over an outpoint that has no coin below. */
  lemma OverDropped(v: Coins, layer: Layer, o: OutPoint)
    requires o !in v
    ensures Over(v, layer - {o}) == Over(v, layer) - {o}
  {
  }

  /** Spending a cached coin erases a FRESH entry and leaves any other as spent. */
  function Erased(layer: Layer, o: OutPoint): Layer
    requires o in layer
  {
    if layer[o].isFresh then layer - {o} else layer[o := Entry(NO_COIN, true, false)]
  }

  lemma ErasedOk(v: Coins, layer: Layer, o: OutPoint)
    requires o in layer
    ensures LayerOk(v, layer) ==> LayerOk(v, Erased(layer, o)) && Over(v, Erased(layer, o)) == Over(v, layer) - {o}
  {
    if LayerOk(v, layer) {
      assert EntryOk(v, o, layer[o]);
      if layer[o].isFresh {
        OverDropped(v, layer, o);
      } else {
        OverPut(v, layer, o, Entry(NO_COIN, true, false));
      }
    }
  }

  /** A new DIRTY entry, where there was none or a right one. */
  lemma AddedOk(v: Coins, layer: Layer, o: OutPoint, e: Entry)
    requires e.isDirty && (o in layer ==> EntryOk(v, o, layer[o]))
    ensures LayerOk(v, layer[o := e]) <==> LayerOk(v, layer) && (e.isFresh ==> o !in v)
  {
    var now := layer[o := e];
    assert LayerOk(v, now) ==> EntryOk(v, o, now[o]);
    if LayerOk(v, now) {
      forall x | x in layer
        ensures EntryOk(v, x, layer[x])
      {
        assert x != o ==> now[x] == layer[x];
      }
    }
  }

  // ---- Writing one layer into the one below

  /** The parent layer after entry e of the child at o is written to it. */
  function Merged(parent: Layer, o: OutPoint, e: Entry): Layer {
    if !e.isDirty then parent
    else if o !in parent then
      if e.isFresh && e.coin.IsSpent() then parent else parent[o := Entry(e.coin, true, e.isFresh)]
    else if parent[o].isFresh && e.coin.IsSpent() then parent - {o}
    else parent[o := Entry(e.coin, true, parent[o].isFresh)]
  }

  /** Is this the case that is reported as a misapplied FRESH flag? */
  predicate Misapplied(parent: Layer, o: OutPoint, e: Entry) {
    e.isDirty && e.isFresh && o in parent && !parent[o].coin.IsSpent()
  }

  /**
   What FRESH is for: a coin unknown to the parent that is created and spent above it leaves no trace in the
   parent, whether it is spent before it is written there, after that in the parent, or after that in the child.
   */
  lemma LeavesNoTrace(parent: Layer, o: OutPoint, c: Coin, e: Entry)
    requires o !in parent && !c.IsSpent() && e.isDirty && e.coin.IsSpent()
    ensures e.isFresh ==> Merged(parent, o, e) == parent
    ensures
      var written := Merged(parent, o, Entry(c, true, true));
      && written == parent[o := written[o]] && written[o].coin == c && written[o].isDirty
      && Erased(written, o) == parent && Merged(written, o, e) == parent
      && forall d: Coin, fresh_: bool :: !d.IsSpent() ==> Erased(Merged(written, o, Entry(d, true, fresh_)), o) == parent
  {
  }

  /** And without it a spent coin stays on record, as one below may have to be overwritten. */
  lemma LeavesRecord(parent: Layer, o: OutPoint, e: Entry)
    requires e.isDirty && e.coin.IsSpent() && !e.isFresh && (o in parent ==> !parent[o].isFresh)
    ensures
      var written := Merged(parent, o, e);
      written == parent[o := written[o]] && written[o].coin.IsSpent() && written[o].isDirty && !written[o].isFresh
  {
  }

  predicate SameAt(a: Layer, b: Layer, o: OutPoint) {
    (o in a <==> o in b) && (o in a ==> a[o] == b[o])
  }

  /** Merging an entry touches its outpoint only. */
  lemma MergedAt(parent: Layer, before: Layer, o: OutPoint, e: Entry)
    requires SameAt(parent, before, o)
    ensures Misapplied(parent, o, e) <==> Misapplied(before, o, e)
    ensures SameAt(Merged(parent, o, e), Merged(before, o, e), o)
    ensures forall x :: x != o ==> SameAt(Merged(parent, o, e), parent, x)
  {
  }

  lemma MergedView(v: Coins, parent: Layer, o: OutPoint, e: Entry)
    requires LayerOk(v, parent) && EntryOk(Over(v, parent), o, e)
    ensures !Misapplied(parent, o, e)
    ensures LayerOk(v, Merged(parent, o, e))
    ensures Over(v, Merged(parent, o, e)) == Put(Over(v, parent), o, e.coin)
  {
    if e.isDirty && !(o !in parent && e.isFresh && e.coin.IsSpent()) {
      if o in parent && parent[o].isFresh && e.coin.IsSpent() {
        OverDropped(v, parent, o);
      } else {
        OverPut(v, parent, o, Merged(parent, o, e)[o]);
      }
    }
  }

  /** The rest of the child's entries still say the same about the new view below. */
  lemma RestOk(v: Coins, child: Layer, o: OutPoint)
    requires o in child && LayerOk(v, child)
    ensures EntryOk(v, o, child[o]) && (!child[o].isDirty ==> Put(v, o, child[o].coin) == v)
    ensures LayerOk(Put(v, o, child[o].coin), child - {o})
    ensures Over(Put(v, o, child[o].coin), child - {o}) == Over(v, child)
  {
  }

  // ---- Writing a whole layer

  /** Of child, all but rest has been merged into what was before, and no entry was misapplied. */
  ghost predicate Progress(before: Layer, now: Layer, child: Layer, rest: Layer) {
    && (forall o :: o in rest ==> o in child && rest[o] == child[o] && SameAt(now, before, o))
    && (forall o :: o in child && o !in rest ==>
          !Misapplied(before, o, child[o]) && SameAt(now, Merged(before, o, child[o]), o))
    && (forall o :: o !in child ==> SameAt(now, before, o))
  }

  lemma ProgressStart(before: Layer, child: Layer)
    ensures Progress(before, before, child, child)
  {
  }

  lemma ProgressStep(before: Layer, now: Layer, child: Layer, rest: Layer, o: OutPoint)
    requires Progress(before, now, child, rest) && o in rest
    ensures o in child && (Misapplied(now, o, rest[o]) <==> Misapplied(before, o, child[o]))
    ensures !Misapplied(now, o, rest[o]) ==> Progress(before, Merged(now, o, rest[o]), child, rest - {o})
  {
    MergedAt(now, before, o, rest[o]);
    var now' := Merged(now, o, rest[o]);
    hide Merged, Misapplied;
    forall x | x in rest - {o}
      ensures SameAt(now', before, x)
    {
      assert SameAt(now', now, x) && SameAt(now, before, x);
    }
    if !Misapplied(now, o, rest[o]) {
      forall x | x in child && x !in rest - {o}
        ensures !Misapplied(before, x, child[x]) && SameAt(now', Merged(before, x, child[x]), x)
      {
        if x != o {
          assert SameAt(now', now, x);
        }
      }
    }
    forall x | x !in child
      ensures SameAt(now', before, x)
    {
      assert SameAt(now', now, x) && SameAt(now, before, x);
    }
  }

  lemma ProgressEnd(before: Layer, now: Layer, child: Layer)
    requires Progress(before, now, child, map[])
    ensures forall o :: o in child ==> !Misapplied(before, o, child[o]) && SameAt(now, Merged(before, o, child[o]), o)
    ensures forall o :: o !in child ==> SameAt(now, before, o)
  {
  }

  /** Over v, the layer now and the entries still to be written together show target. */
  ghost predicate Flowing(v: Coins, now: Layer, rest: Layer, target: Coins) {
    LayerOk(v, now) && LayerOk(Over(v, now), rest) && Over(Over(v, now), rest) == target
  }

  lemma FlowStart(v: Coins, now: Layer, rest: Layer)
    requires LayerOk(v, now)
    ensures LayerOk(Over(v, now), rest) ==> Flowing(v, now, rest, Over(Over(v, now), rest))
  {
  }

  lemma FlowStep(v: Coins, now: Layer, rest: Layer, target: Coins, o: OutPoint)
    requires Flowing(v, now, rest, target) && o in rest
    ensures !Misapplied(now, o, rest[o]) && Flowing(v, Merged(now, o, rest[o]), rest - {o}, target)
  {
    hide Merged, Misapplied, LayerOk, Over;
    RestOk(Over(v, now), rest, o);
    MergedView(v, now, o, rest[o]);
  }

  lemma FlowEnd(v: Coins, now: Layer, target: Coins)
    requires Flowing(v, now, map[], target)
    ensures LayerOk(v, now) && Over(v, now) == target
  {
    OverNothing(Over(v, now));
  }
}
