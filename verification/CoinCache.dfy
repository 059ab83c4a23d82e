/**
 CCoinsViewCache (src/coins.cpp): caches of coins stacked on one another and,
 at the bottom, on a database. Whatever the flags allow a cache to drop or
 skip, the stack behaves like a stack of plain maps of unspent coins.
 */
module CoinCache {
  import opened Options
  import opened CoinMaps

  /** The database at the bottom of a stack (src/txdb.cpp). */
  class Database {
    var coins: Coins

    constructor (coins: Coins)
      ensures this.coins == coins
    {
      this.coins := coins;
    }

    method GetCoin(o: OutPoint) returns (found: bool, coin: Coin)
      ensures found <==> o in coins
      ensures found ==> coin == coins[o]
    {
      if o in coins {
        return true, coins[o];
      }
      return false, NO_COIN;
    }

    method BatchWrite(layer: Layer)
      modifies this
      ensures LayerOk(old(coins), layer) ==> coins == Over(old(coins), layer)
    {
      hide LayerOk, Over, EntryOk;
      ghost var ok := LayerOk(coins, layer);
      var rest := layer;
      OverNothing(coins);
      while rest != map[]
        invariant ok ==> LayerOk(coins, rest) && Over(coins, rest) == Over(old(coins), layer)
        decreases |rest|
      {
        var o :| o in rest;
        var e := rest[o];
        if ok {
          RestOk(coins, rest, o);
        }
        if e.isDirty {
          if e.coin.IsSpent() {
            coins := coins - {o};
          } else {
            coins := coins[o := e.coin];
          }
        }
        rest := rest - {o};
      }
      OverNothing(coins);
    }
  }

  datatype Base = Disk(db: Database) | Cached(cache: Cache)

  class Cache {
    const base: Base
    var cacheCoins: Layer
    ghost const depth: nat
    ghost const Repr: set<object>

    /** The objects of the stack up to this cache do not overlap. */
    ghost predicate Stacked()
      decreases depth
    {
      && this in Repr
      && match base
         case Disk(db) => db in Repr
         case Cached(c) => c in Repr && c.Repr <= Repr && this !in c.Repr && c.depth < depth && c.Stacked()
    }

    /** The plain maps the stack stands for, the database first and this cache last. */
    ghost function Views(): (vs: seq<Coins>)
      requires Stacked()
      reads Repr
      ensures |vs| >= 2
      decreases depth
    {
      match base
      case Disk(db) => [db.coins, Over(db.coins, cacheCoins)]
      case Cached(c) => var vs := c.Views(); vs + [Over(vs[|vs| - 1], cacheCoins)]
    }

    /** The objects below this cache. */
    ghost function BaseRepr(): set<object> {
      match base
      case Disk(db) => {db}
      case Cached(c) => c.Repr
    }

    ghost function BaseViews(): (vs: seq<Coins>)
      requires Stacked()
      reads BaseRepr()
      ensures |vs| >= 1
    {
      match base
      case Disk(db) => [db.coins]
      case Cached(c) => c.Views()
    }

    /** The coins of the view below. */
    ghost function Below(): Coins
      requires Stacked()
      reads BaseRepr()
    {
      BaseViews()[|BaseViews()| - 1]
    }

    /** The coins of this cache. */
    ghost function View(): Coins
      requires Stacked()
      reads Repr
      ensures View() == Over(Below(), cacheCoins)
    {
      Views()[|Views()| - 1]
    }

    ghost predicate Valid()
      reads Repr
      decreases depth
    {
      && Stacked()
      && LayerOk(Below(), cacheCoins)
      && match base
         case Disk(db) => AllUnspent(db.coins)
         case Cached(c) => c.Valid()
    }

    /** The view below is consistent in itself. */
    ghost predicate Kept()
      requires Stacked()
      reads BaseRepr()
    {
      match base
      case Disk(db) => AllUnspent(db.coins)
      case Cached(c) => c.Valid()
    }

    lemma ValidIs()
      requires Stacked()
      ensures this !in BaseRepr()
      ensures Valid() <==> Kept() && LayerOk(Below(), cacheCoins)
      ensures Views() == BaseViews() + [View()]
    {
    }

    lemma Unfolded()
      requires Valid()
      ensures this !in BaseRepr()
      ensures Stacked() && Kept() && LayerOk(Below(), cacheCoins)
      ensures Views() == BaseViews() + [View()]
    {
    }

    constructor OnDisk(db: Database)
      requires AllUnspent(db.coins)
      ensures Valid() && fresh(Repr - {db}) && base == Disk(db)
      ensures Views() == [db.coins, db.coins]
    {
      base := Disk(db);
      cacheCoins := map[];
      depth := 0;
      Repr := {this, db};
      new;
      OverNothing(db.coins);
    }

    constructor OnCache(c: Cache)
      requires c.Valid()
      ensures Valid() && fresh(Repr - c.Repr) && base == Cached(c)
      ensures Views() == c.Views() + [c.View()]
    {
      base := Cached(c);
      cacheCoins := map[];
      depth := c.depth + 1;
      Repr := {this} + c.Repr;
      new;
      OverNothing(c.View());
    }

    lemma Unspent()
      requires Stacked() && Kept()
      ensures AllUnspent(Below()) && AllUnspent(View())
      decreases depth
    {
      match base {
        case Disk(db) =>
        case Cached(c) => c.Unspent();
      }
      OverUnspent(Below(), cacheCoins);
    }

    /** This cache's own entries change, and nothing below. */
    method Assign(layer: Layer)
      requires Stacked() && Kept()
      modifies this
      ensures Stacked() && Kept() && cacheCoins == layer && (LayerOk(Below(), layer) ==> Valid())
      ensures BaseViews() == old(BaseViews()) && View() == Over(old(Below()), layer)
      ensures Views() == old(BaseViews()) + [View()]
    {
      hide LayerOk, Over, Valid, Views, BaseViews, Kept;
      ValidIs();
      cacheCoins := layer;
      ValidIs();
    }

    /** Looks o up in the view below; no view changes. */
    method LookBelow(o: OutPoint) returns (found: bool, coin: Coin)
      requires Stacked() && Kept()
      modifies BaseRepr()
      ensures Stacked() && Kept() && BaseViews() == old(BaseViews()) && cacheCoins == old(cacheCoins)
      ensures found <==> o in Below()
      ensures found ==> coin == Below()[o]
      decreases depth, 0
    {
      match base {
        case Disk(db) => found, coin := db.GetCoin(o);
        case Cached(c) => found, coin := c.GetCoin(o);
      }
    }

    /** The entries once o was looked up: one that is only below is copied here. */
    ghost function Fetched(o: OutPoint): Layer
      requires Stacked()
      reads Repr
    {
      if o !in cacheCoins && o in Below() then cacheCoins[o := Entry(Below()[o], false, false)] else cacheCoins
    }

    /** The entry for o is brought into this cache, if there is one below; no view changes. */
    method FetchCoin(o: OutPoint) returns (found: bool)
      requires Stacked() && Kept()
      modifies Repr
      ensures Stacked() && Kept() && Views() == old(Views()) && BaseViews() == old(BaseViews())
      ensures found <==> o in cacheCoins
      ensures cacheCoins == old(Fetched(o))
      ensures old(Valid()) ==> Valid()
      decreases depth, 1
    {
      hide LayerOk, Over, Valid, Views, BaseViews, Kept;
      ValidIs();
      if o in cacheCoins {
        return true;
      }
      Unspent();
      var got, tmp := LookBelow(o);
      ValidIs();
      if !got {
        return false;
      }
      // An empty entry below, which the contract of GetCoin rules out, would make ours FRESH.
      var layer := cacheCoins[o := Entry(tmp, false, tmp.IsSpent())];
      OverAgreeing(Below(), layer, o);
      assert layer - {o} == cacheCoins;
      AgreeingOk(Below(), cacheCoins, o);
      Assign(layer);
      return true;
    }

    /** The flags at o are right. */
    ghost predicate SoundAt(o: OutPoint)
      requires Stacked()
      reads Repr
    {
      o in cacheCoins ==> EntryOk(Below(), o, cacheCoins[o])
    }

    lemma Shown(o: OutPoint)
      requires Stacked()
      ensures o in cacheCoins ==>
                if cacheCoins[o].coin.IsSpent() then o !in View() else o in View() && View()[o] == cacheCoins[o].coin
      ensures o !in cacheCoins ==>
                if o in Below() then o in View() && View()[o] == Below()[o] else o !in View()
      ensures Valid() ==> SoundAt(o)
    {
    }

    method GetCoin(o: OutPoint) returns (found: bool, coin: Coin)
      requires Valid()
      modifies Repr
      ensures Valid() && Views() == old(Views())
      ensures found <==> o in View()
      ensures found ==> coin == View()[o]
      decreases depth, 2
    {
      var fetched := FetchCoin(o);
      if !fetched {
        return false, NO_COIN;
      }
      coin := cacheCoins[o].coin;
      found := !coin.IsSpent();
    }

    method HaveCoin(o: OutPoint) returns (have: bool)
      requires Stacked() && Kept()
      modifies Repr
      ensures Stacked() && Kept() && Views() == old(Views()) && BaseViews() == old(BaseViews())
      ensures have <==> o in View()
      ensures have ==> o in cacheCoins && !cacheCoins[o].coin.IsSpent()
      ensures old(Valid()) ==> Valid()
    {
      hide LayerOk, Valid, Kept;
      ValidIs();
      Shown(o);
      var fetched := FetchCoin(o);
      Shown(o);
      have := fetched && !cacheCoins[o].coin.IsSpent();
    }

    /** The coin of o, or a spent one if there is none. */
    method AccessCoin(o: OutPoint) returns (coin: Coin)
      requires Valid()
      modifies Repr
      ensures Valid() && Views() == old(Views())
      ensures if o in View() then coin == View()[o] else coin.IsSpent()
    {
      var fetched := FetchCoin(o);
      coin := if fetched then cacheCoins[o].coin else NO_COIN;
    }

    /** The entry that AddCoin leaves for o. */
    function Added(o: OutPoint, coin: Coin, possibleOverwrite: bool): Entry
      reads this
    {
      var e := if o in cacheCoins then cacheCoins[o] else Entry(NO_COIN, false, false);
      Entry(coin, true, e.isFresh || (!possibleOverwrite && !e.isDirty))
    }

    /** Is the caller's promise that nothing is overwritten kept? */
    ghost predicate Promised(o: OutPoint, possibleOverwrite: bool)
      requires Stacked()
      reads Repr
    {
      possibleOverwrite || o !in View()
    }

    /**
     Adds an unspent coin. The caller says with possibleOverwrite whether there
     may be one already. A broken promise is noticed only when the coin is
     in this very cache; otherwise the FRESH flag is misapplied.
     */
    method AddCoin(o: OutPoint, coin: Coin, possibleOverwrite: bool) returns (thrown: bool)
      requires Stacked() && Kept() && !coin.IsSpent()
      modifies this
      ensures BaseViews() == old(BaseViews()) && Stacked() && Kept() && Views() == BaseViews() + [View()]
      ensures thrown || IsUnspendable(coin.out.script) ==> cacheCoins == old(cacheCoins) && (old(Valid()) <==> Valid())
      ensures thrown <==> !IsUnspendable(coin.out.script) && !possibleOverwrite &&
                          o in old(cacheCoins) && !old(cacheCoins)[o].coin.IsSpent()
      ensures !thrown && !IsUnspendable(coin.out.script) ==>
                && cacheCoins == old(cacheCoins)[o := old(Added(o, coin, possibleOverwrite))]
                && View() == old(View())[o := coin]
                && (old(SoundAt(o)) ==> (Valid() <==> old(Valid()) && old(Promised(o, possibleOverwrite))))
      ensures
        var s := coin.out.script;
        if |s| > 10_000 || (s != [] && s[0] == 0x6a) then !thrown && View() == old(View())
        else !thrown ==> View() == old(View())[o := coin]
      ensures !thrown && !IsUnspendable(coin.out.script) ==>
                && o in cacheCoins && cacheCoins[o].coin == coin && cacheCoins[o].isDirty
                && (cacheCoins[o].isFresh <==>
                      || (o in old(cacheCoins) && old(cacheCoins)[o].isFresh)
                      || (!possibleOverwrite && (o in old(cacheCoins) ==> !old(cacheCoins)[o].isDirty)))
      ensures old(Promised(o, possibleOverwrite)) ==> !thrown
      ensures old(Valid()) && old(Promised(o, possibleOverwrite)) ==> Valid()
    {
      hide LayerOk, Over, Valid, Views, BaseViews, Kept;
      ValidIs();
      Shown(o);
      ghost var sound := SoundAt(o);
      thrown := false;
      if IsUnspendable(coin.out.script) {
        return;
      }
      var e := if o in cacheCoins then cacheCoins[o] else Entry(NO_COIN, false, false);
      var isFresh := false;
      if !possibleOverwrite {
        if !e.coin.IsSpent() {
          return true;
        }
        isFresh := !e.isDirty;
      }
      if sound {
        AddedOk(Below(), cacheCoins, o, Entry(coin, true, e.isFresh || isFresh));
      }
      OverPut(Below(), cacheCoins, o, Entry(coin, true, e.isFresh || isFresh));
      cacheCoins := cacheCoins[o := Entry(coin, true, e.isFresh || isFresh)];
      ValidIs();
    }

    /** The second half of SpendCoin: a cached entry is erased or marked spent. */
    method Erase(o: OutPoint)
      requires Stacked() && Kept() && o in cacheCoins
      modifies this
      ensures Stacked() && Kept() && BaseViews() == old(BaseViews()) && Views() == BaseViews() + [View()]
      ensures cacheCoins == Erased(old(cacheCoins), o)
      ensures old(Valid()) ==> Valid() && View() == old(View()) - {o}
    {
      hide LayerOk, Over, Valid, Views, BaseViews, Kept;
      ValidIs();
      ErasedOk(Below(), cacheCoins, o);
      if cacheCoins[o].isFresh {
        Assign(cacheCoins - {o});
      } else {
        Assign(cacheCoins[o := Entry(NO_COIN, true, cacheCoins[o].isFresh)]);
      }
    }

    /**
     Spends a coin. The answer is true also for a coin that is known here to be spent, and then the coin
     handed out is a spent one.
     */
    method SpendCoin(o: OutPoint) returns (spent: bool, moveout: Coin)
      requires Stacked() && Kept()
      modifies Repr
      ensures Stacked() && Kept() && BaseViews() == old(BaseViews()) && Views() == BaseViews() + [View()]
      ensures spent <==> o in old(Fetched(o))
      ensures cacheCoins == if spent then Erased(old(Fetched(o)), o) else old(cacheCoins)
      ensures old(Valid()) ==> Valid() && View() == old(View()) - {o}
      ensures old(Valid()) ==> if o in old(View()) then spent && moveout == old(View())[o] else moveout.IsSpent()
    {
      hide LayerOk, Over, Valid, Views, BaseViews, Kept, Erased;
      ValidIs();
      spent := FetchCoin(o);
      ValidIs();
      if Valid() {
        Shown(o);
      }
      if !spent {
        return false, NO_COIN;
      }
      moveout := cacheCoins[o].coin;
      Erase(o);
    }

    /** Drops the entry for o if it is unmodified; no view changes. */
    method Uncache(o: OutPoint)
      requires Valid()
      modifies this
      ensures Valid() && Views() == old(Views())
      ensures cacheCoins ==
              if o in old(cacheCoins) && !old(cacheCoins)[o].isDirty && !old(cacheCoins)[o].isFresh
              then old(cacheCoins) - {o} else old(cacheCoins)
    {
      ValidIs();
      if o in cacheCoins && !cacheCoins[o].isDirty && !cacheCoins[o].isFresh {
        OverAgreeing(Below(), cacheCoins, o);
        Assign(cacheCoins - {o});
      }
    }

    /**
     Takes over the entries of a child cache. The misapplied-FRESH exception is
     thrown exactly when some entry calls for it, and never for the entries of
     a child that is consistent with this view. The entries in rest were not
     taken over.
     */
    method BatchWrite(child: Layer) returns (thrown: bool, rest: Layer)
      requires Valid()
      modifies this
      ensures Stacked() && BaseViews() == old(BaseViews())
      ensures thrown <==> exists o :: o in child && Misapplied(old(cacheCoins), o, child[o])
      ensures Progress(old(cacheCoins), cacheCoins, child, rest)
      ensures if thrown then exists o :: o in rest && Misapplied(cacheCoins, o, rest[o]) else rest == map[]
      ensures !thrown ==> forall o :: o in child ==> SameAt(cacheCoins, Merged(old(cacheCoins), o, child[o]), o)
      ensures !thrown ==> forall o :: o !in child ==> SameAt(cacheCoins, old(cacheCoins), o)
      ensures LayerOk(old(View()), child) ==>
                !thrown && Valid() && View() == Over(old(View()), child) && Views() == BaseViews() + [View()]
    {
      hide LayerOk, Over, BaseViews, Views, Valid, Progress, Flowing, Misapplied, Merged;
      Unfolded();
      ghost var below, before, target := Below(), cacheCoins, Over(View(), child);
      ghost var ok := LayerOk(View(), child);
      FlowStart(below, cacheCoins, child);
      ProgressStart(before, child);
      rest := child;
      while rest != map[]
        invariant Stacked() && BaseViews() == old(BaseViews()) && Kept()
        invariant Progress(before, cacheCoins, child, rest)
        invariant ok ==> Flowing(below, cacheCoins, rest, target)
        decreases |rest|
      {
        var o :| o in rest;
        ProgressStep(before, cacheCoins, child, rest, o);
        if ok {
          FlowStep(below, cacheCoins, rest, target, o);
        }
        thrown := Merge(o, rest[o]);
        if thrown {
          return;
        }
        rest := rest - {o};
      }
      ProgressEnd(before, cacheCoins, child);
      if ok {
        FlowEnd(below, cacheCoins, target);
        ValidIs();
      }
      thrown := false;
    }

    /** One entry of a child cache is written to this one. */
    method Merge(o: OutPoint, e: Entry) returns (thrown: bool)
      requires Stacked() && Kept()
      modifies this
      ensures Stacked() && Kept() && BaseViews() == old(BaseViews())
      ensures thrown <==> Misapplied(old(cacheCoins), o, e)
      ensures cacheCoins == if thrown then old(cacheCoins) else Merged(old(cacheCoins), o, e)
    {
      hide BaseViews, Kept;
      ValidIs();
      thrown := false;
      if e.isDirty {
        if o !in cacheCoins {
          if !(e.isFresh && e.coin.IsSpent()) {
            cacheCoins := cacheCoins[o := Entry(e.coin, true, false)];
            if e.isFresh {
              cacheCoins := cacheCoins[o := cacheCoins[o].(isFresh := true)];
            }
          }
        } else {
          if e.isFresh && !cacheCoins[o].coin.IsSpent() {
            return true;
          }
          if cacheCoins[o].isFresh && e.coin.IsSpent() {
            cacheCoins := cacheCoins - {o};
          } else {
            cacheCoins := cacheCoins[o := Entry(e.coin, true, cacheCoins[o].isFresh)];
          }
        }
      }
    }

    /** Some entry is FRESH over a coin that the cache below has. */
    ghost predicate Refused()
      requires Stacked()
      reads Repr
    {
      match base
      case Disk(_) => false
      case Cached(c) => exists o :: o in cacheCoins && Misapplied(c.cacheCoins, o, cacheCoins[o])
    }

    /** The view below takes over all changes. */
    method WriteBelow() returns (thrown: bool, rest: Layer)
      requires Stacked() && Kept()
      modifies BaseRepr()
      ensures Stacked() && cacheCoins == old(cacheCoins) && (thrown <==> old(Refused()))
      ensures if thrown then forall o :: o in rest ==> o in cacheCoins && rest[o] == cacheCoins[o] else rest == map[]
      ensures old(Valid()) ==> !thrown && Kept() && BaseViews() == old(BaseViews())[|old(BaseViews())| - 1 := old(View())]
    {
      hide Over, LayerOk;
      ValidIs();
      match base {
        case Disk(db) =>
          OverUnspent(db.coins, cacheCoins);
          db.BatchWrite(cacheCoins);
          thrown, rest := false, map[];
        case Cached(c) =>
          c.Unfolded();
          thrown, rest := c.BatchWrite(cacheCoins);
      }
    }

    /** Writes all changes to the view below, which then shows what this cache shows. */
    method Flush() returns (thrown: bool)
      requires Stacked() && Kept()
      modifies Repr
      ensures Stacked() && (thrown <==> old(Refused()))
      ensures if thrown then forall o :: o in cacheCoins ==> o in old(cacheCoins) && cacheCoins[o] == old(cacheCoins)[o]
              else cacheCoins == map[]
      ensures old(Valid()) ==> !thrown && Valid() && View() == old(View())
      ensures old(Valid()) ==> Views() == old(Views())[|old(Views())| - 2 := old(View())]
    {
      hide Over, LayerOk, Valid, Views, BaseViews, Kept, Refused;
      ValidIs();
      var rest;
      thrown, rest := WriteBelow();
      cacheCoins := rest;
      if thrown {
        return;
      }
      NoEntries(Below());
      ValidIs();
    }
  }

  // ---- A transaction's outputs

  /** The outputs of a transaction, as AddCoins is given them. */
  datatype Outputs = Outputs(txid: nat, outs: seq<TxOut>, height: nat, coinbase: bool, check: bool)

  /** The coins after the first n outputs were added, unspendable ones excepted. */
  ghost function WithOutputs(v: Coins, t: Outputs, n: nat): Coins
    requires n <= |t.outs|
  {
    if n == 0 then v
    else
      var w := WithOutputs(v, t, n - 1);
      if IsUnspendable(t.outs[n - 1].script) then w else w[OutPoint(t.txid, n - 1) := Coin(t.outs[n - 1], t.height, t.coinbase)]
  }

  lemma {:induction false} OutputsElsewhere(v: Coins, t: Outputs, n: nat, o: OutPoint)
    requires n <= |t.outs| && (o.txid != t.txid || o.n >= n)
    ensures o in WithOutputs(v, t, n) <==> o in v
  {
    if n > 0 {
      OutputsElsewhere(v, t, n - 1, o);
    }
  }

  /** Output i is added as a new coin without looking whether there is one. */
  ghost predicate Unchecked(t: Outputs, i: nat)
    requires i < |t.outs|
  {
    !t.check && !t.coinbase && !IsUnspendable(t.outs[i].script)
  }

  /** The coin that output i would overwrite is in the cache itself, where it is noticed. */
  ghost predicate Noticed(layer: Layer, t: Outputs, i: nat)
    requires i < |t.outs|
  {
    var o := OutPoint(t.txid, i);
    Unchecked(t, i) && o in layer && !layer[o].coin.IsSpent()
  }

  /** None of the first n outputs overwrites a coin that was not looked for. */
  ghost predicate Fair(v: Coins, t: Outputs, n: nat)
    requires n <= |t.outs|
  {
    forall i :: 0 <= i < n && Unchecked(t, i) ==> OutPoint(t.txid, i) !in v
  }

  /**
   Adds the outputs of a transaction. With check set, looks first whether each one exists; without,
   overwrites are assumed possible for coinbases only. An exception ends it at output n, exactly when
   that is the first one noticed; the flags stay right exactly when no coin was overwritten unnoticed.
   */
  method AddCoins(cache: Cache, t: Outputs) returns (thrown: bool, ghost n: nat)
    requires cache.Valid() && forall i :: 0 <= i < |t.outs| ==> t.outs[i].value != NULL_VALUE
    modifies cache.Repr
    ensures n <= |t.outs| && (thrown <==> n < |t.outs|)
    ensures thrown ==> Noticed(old(cache.cacheCoins), t, n)
    ensures forall i :: 0 <= i < n ==> !Noticed(old(cache.cacheCoins), t, i)
    ensures cache.Stacked() && cache.Views() == old(cache.BaseViews()) + [WithOutputs(old(cache.View()), t, n)]
    ensures cache.Valid() <==> Fair(old(cache.View()), t, n)
  {
    hide Over, LayerOk, Cache.Valid, Cache.Views, Cache.BaseViews, Cache.Kept, WithOutputs;
    cache.Unfolded();
    ghost var v, layer := cache.View(), cache.cacheCoins;
    OutputsNone(v, t);
    n, thrown := 0, false;
    for i := 0 to |t.outs|
      invariant n == i && cache.Stacked() && cache.Kept() && cache.BaseViews() == old(cache.BaseViews())
      invariant cache.View() == WithOutputs(v, t, i) && cache.Views() == cache.BaseViews() + [cache.View()]
      invariant forall k :: 0 <= k < i ==> !Noticed(layer, t, k)
      invariant t.check ==> cache.Valid()
      invariant !t.check ==> forall k :: i <= k < |t.outs| ==> SameAt(cache.cacheCoins, layer, OutPoint(t.txid, k))
      invariant !t.check ==> forall k :: i <= k < |t.outs| ==> cache.SoundAt(OutPoint(t.txid, k))
      invariant cache.Valid() <==> Fair(v, t, i)
    {
      var o := OutPoint(t.txid, i);
      OutputsElsewhere(v, t, i, o);
      OutputsNext(v, t, i);
      ghost var before := cache.cacheCoins;
      thrown := AddOutput(cache, o, Coin(t.outs[i], t.height, t.coinbase), t.check);
      if thrown {
        return;
      }
      if !t.check {
        forall k | i < k < |t.outs|
          ensures SameAt(cache.cacheCoins, layer, OutPoint(t.txid, k))
        {
          assert SameAt(cache.cacheCoins, before, OutPoint(t.txid, k));
        }
      }
      n := i + 1;
    }
  }

  /** One turn of the loop in AddCoins. */
  method AddOutput(cache: Cache, o: OutPoint, coin: Coin, check: bool) returns (thrown: bool)
    requires cache.Stacked() && cache.Kept() && !coin.IsSpent()
    modifies cache.Repr
    ensures cache.Stacked() && cache.Kept() && cache.BaseViews() == old(cache.BaseViews())
    ensures cache.Views() == cache.BaseViews() + [cache.View()]
    ensures cache.View() == if thrown || IsUnspendable(coin.out.script) then old(cache.View()) else old(cache.View())[o := coin]
    ensures thrown <==> !check && !coin.coinbase && !IsUnspendable(coin.out.script) &&
                        o in old(cache.cacheCoins) && !old(cache.cacheCoins)[o].coin.IsSpent()
    ensures check ==> !thrown && (old(cache.Valid()) ==> cache.Valid())
    ensures !check ==> forall x :: x != o ==> SameAt(cache.cacheCoins, old(cache.cacheCoins), x)
    ensures !check && old(cache.SoundAt(o)) ==>
              (cache.Valid() <==>
                old(cache.Valid()) && (thrown || IsUnspendable(coin.out.script) || coin.coinbase || o !in old(cache.View())))
  {
    hide Over, LayerOk, Cache.Valid, Cache.Views, Cache.BaseViews, Cache.Kept;
    var overwrite := coin.coinbase;
    cache.ValidIs();
    if check {
      overwrite := cache.HaveCoin(o);
      cache.ValidIs();
    }
    thrown := cache.AddCoin(o, coin, overwrite);
    cache.ValidIs();
  }

  lemma OutputsNone(v: Coins, t: Outputs)
    ensures WithOutputs(v, t, 0) == v
  {
  }

  lemma OutputsNext(v: Coins, t: Outputs, n: nat)
    requires n < |t.outs|
    ensures WithOutputs(v, t, n + 1) ==
            if IsUnspendable(t.outs[n].script) then WithOutputs(v, t, n)
            else WithOutputs(v, t, n)[OutPoint(t.txid, n) := Coin(t.outs[n], t.height, t.coinbase)]
  {
  }

  // ---- Whole runs

  datatype Op =
    | Get(o: OutPoint)
    | Have(o: OutPoint)
    | Access(o: OutPoint)
    | Add(o: OutPoint, coin: Coin, possibleOverwrite: bool)
    | Spend(o: OutPoint)
    | Uncache(o: OutPoint)
    | Flush
    | Push
    | Pop

  /** What an operation on the topmost view does to a stack of plain maps. */
  ghost function Plain(vs: seq<Coins>, op: Op): (r: seq<Coins>)
    requires |vs| >= 2
    ensures |r| >= 2
  {
    var top := |vs| - 1;
    match op
    case Add(o, coin, _) => if IsUnspendable(coin.out.script) then vs else vs[top := vs[top][o := coin]]
    case Spend(o) => vs[top := vs[top] - {o}]
    case Flush => vs[top - 1 := vs[top]]
    case Push => vs + [vs[top]]
    case Pop => if top == 1 then vs else vs[..top]
    case _ => vs
  }

  /** What a call hands back: an unspent coin or none, or whether there is one. */
  datatype Answer = Unspent(coin: Option<Coin>) | Presence(have: bool) | Silent

  /** The answer of the topmost plain map. */
  ghost function PlainAnswer(vs: seq<Coins>, op: Op): Answer
    requires |vs| >= 2
  {
    var v := vs[|vs| - 1];
    match op
    case Get(o) => Unspent(if o in v then Some(v[o]) else None)
    case Access(o) => Unspent(if o in v then Some(v[o]) else None)
    case Spend(o) => Unspent(if o in v then Some(v[o]) else None)
    case Have(o) => Presence(o in v)
    case _ => Silent
  }

  /** A coin, unless it is a spent one. */
  function IfUnspent(coin: Coin): Option<Coin> {
    if coin.IsSpent() then None else Some(coin)
  }

  ghost function PlainAnswers(vs: seq<Coins>, ops: seq<Op>): seq<Answer>
    requires |vs| >= 2
    decreases |ops|
  {
    if ops == [] then [] else [PlainAnswer(vs, ops[0])] + PlainAnswers(Plain(vs, ops[0]), ops[1..])
  }

  /** A coin is added as new only where there is none. */
  ghost predicate Legal(vs: seq<Coins>, op: Op)
    requires |vs| >= 2
  {
    op.Add? ==> !op.coin.IsSpent() && (op.possibleOverwrite || op.o !in vs[|vs| - 1])
  }

  ghost function PlainRun(vs: seq<Coins>, ops: seq<Op>): seq<Coins>
    requires |vs| >= 2
    decreases |ops|
  {
    if ops == [] then vs else PlainRun(Plain(vs, ops[0]), ops[1..])
  }

  ghost predicate LegalRun(vs: seq<Coins>, ops: seq<Op>)
    requires |vs| >= 2
    decreases |ops|
  {
    ops == [] || (Legal(vs, ops[0]) && LegalRun(Plain(vs, ops[0]), ops[1..]))
  }

  method Step(cache: Cache, op: Op) returns (top: Cache, answer: Answer)
    requires cache.Valid() && Legal(cache.Views(), op)
    modifies cache.Repr
    ensures fresh(top.Repr - cache.Repr) && top.Valid()
    ensures top.Views() == Plain(old(cache.Views()), op) && answer == PlainAnswer(old(cache.Views()), op)
  {
    hide Over, LayerOk, Cache.Valid, Cache.Views, Cache.BaseViews, Cache.Kept;
    top, answer := cache, Silent;
    cache.Unfolded();
    cache.ValidIs();
    cache.Unspent();
    match op
    case Get(o) =>
      var found, coin := cache.GetCoin(o);
      answer := Unspent(if found then Some(coin) else None);
    case Have(o) =>
      var have := cache.HaveCoin(o);
      answer := Presence(have);
    case Access(o) =>
      var coin := cache.AccessCoin(o);
      answer := Unspent(IfUnspent(coin));
    case Add(o, coin, possibleOverwrite) =>
      var thrown := cache.AddCoin(o, coin, possibleOverwrite);
      cache.ValidIs();
    case Spend(o) =>
      var spent, coin := cache.SpendCoin(o);
      answer := Unspent(if spent then IfUnspent(coin) else None);
    case Uncache(o) => cache.Uncache(o);
    case Flush => var thrown := cache.Flush();
    case Push => top := Pushed(cache);
    case Pop => top := Popped(cache);
  }

  method Pushed(cache: Cache) returns (top: Cache)
    requires cache.Valid()
    ensures fresh(top.Repr - cache.Repr) && top.Valid() && top.Views() == Plain(cache.Views(), Push)
  {
    ghost var vs := cache.Views();
    assert cache.View() == vs[|vs| - 1];
    hide Cache.Valid, Cache.Views, Cache.View, Cache.Stacked;
    top := new Cache.OnCache(cache);
  }

  method Popped(cache: Cache) returns (top: Cache)
    requires cache.Valid()
    ensures top.Repr <= cache.Repr && top.Valid() && top.Views() == Plain(cache.Views(), Pop)
  {
    cache.ValidIs();
    match cache.base {
      case Disk(_) => top := cache;
      case Cached(c) => top := c;
    }
  }

  /** Any legal run of a stack of caches shows and answers what the same run of plain maps does. */
  method Run(cache: Cache, ops: seq<Op>) returns (top: Cache, answers: seq<Answer>)
    requires cache.Valid() && LegalRun(cache.Views(), ops)
    modifies cache.Repr
    ensures top.Valid() && top.Views() == PlainRun(old(cache.Views()), ops)
    ensures answers == PlainAnswers(old(cache.Views()), ops)
    decreases |ops|
  {
    if ops == [] {
      return cache, [];
    }
    var next, answer := Step(cache, ops[0]);
    var rest;
    top, rest := Run(next, ops[1..]);
    answers := [answer] + rest;
  }

  /** A coin of the view below is spent twice: both times the answer is true, and the second coin handed out is a spent one. */
  method SpentTwice(cache: Cache, o: OutPoint) returns (first: bool, second: bool, coin: Coin)
    requires cache.Valid() && o in cache.Below() && o !in cache.cacheCoins
    modifies cache.Repr
    ensures first && second && coin.IsSpent() && cache.Valid() && o !in cache.View()
  {
    hide LayerOk, Over, Cache.Valid, Cache.Views, Cache.BaseViews, Cache.Kept;
    cache.Unfolded();
    first, coin := cache.SpendCoin(o);
    second, coin := cache.SpendCoin(o);
  }

  // ---- A broken promise

  /**
   A coin that exists below and is not cached here is added as new: nothing is noticed, and once it is
   spent again the coin below shows, as if it had never been overwritten or spent.
   */
  method AddedThenSpent(cache: Cache, o: OutPoint, coin: Coin) returns (thrown: bool, spent: bool)
    requires cache.Valid() && o in cache.Below() && o !in cache.cacheCoins
    requires !coin.IsSpent() && !IsUnspendable(coin.out.script)
    modifies cache.Repr
    ensures !thrown && spent && cache.Valid() && cache.Views() == old(cache.Views())
    ensures o in cache.View() && cache.View()[o] == old(cache.Below())[o]
  {
    hide LayerOk, Over, Cache.Valid, Cache.Views, Cache.BaseViews, Cache.Kept;
    cache.Unfolded();
    cache.Shown(o);
    ghost var layer := cache.cacheCoins;
    thrown := cache.AddCoin(o, coin, false);
    cache.ValidIs();
    assert cache.cacheCoins == layer[o := Entry(coin, true, true)];
    var moveout;
    spent, moveout := cache.SpendCoin(o);
    assert cache.cacheCoins == layer;
    cache.ValidIs();
    cache.Shown(o);
  }

  /** The same coin, flushed before it is spent, is refused if the cache below has the one it overwrites. */
  method AddedThenFlushed(cache: Cache, parent: Cache, o: OutPoint, coin: Coin) returns (thrown: bool, refused: bool)
    requires cache.Valid() && cache.base == Cached(parent) && o !in cache.cacheCoins
    requires o in parent.cacheCoins && !parent.cacheCoins[o].coin.IsSpent()
    requires !coin.IsSpent() && !IsUnspendable(coin.out.script)
    modifies cache.Repr
    ensures !thrown && refused
  {
    hide LayerOk, Over, Cache.Valid, Cache.Views, Cache.BaseViews, Cache.Kept;
    cache.Unfolded();
    thrown := cache.AddCoin(o, coin, false);
    cache.ValidIs();
    assert Misapplied(parent.cacheCoins, o, cache.cacheCoins[o]);
    refused := cache.Flush();
  }
}
