/**
 The heap form of the layered coin cache: objects that point at the view below them. Every method
 performs the function of the same name in module Coins on the stack it stands for, and keeps the
 cached memory total of every level exact.
 */
module CoinsHeap {
  import opened Collections
  import opened Coins

  // ---------------------------------------------------------------- memory held by a cache

  ghost function Sizes(cache: Cache): map<OutPoint, nat> { map o | o in cache :: cache[o].coin.mem }

  ghost function Usage(cache: Cache): nat { Total(Sizes(cache)) }

  lemma UsageOfNone()
    ensures Usage(map[]) == 0
  {
    assert Sizes(map[]) == map[];
  }

  lemma UsageWithout(cache: Cache, o: OutPoint)
    requires o in cache
    ensures Usage(cache) == cache[o].coin.mem + Usage(cache - {o})
  {
    TotalRemove(Sizes(cache), o);
    assert Sizes(cache) - {o} == Sizes(cache - {o});
  }

  lemma UsageWith(cache: Cache, o: OutPoint, e: Entry)
    ensures Usage(cache[o := e]) == Usage(cache) - (if o in cache then cache[o].coin.mem else 0) + e.coin.mem
  {
    TotalUpdate(Sizes(cache), o, e.coin.mem);
    assert Sizes(cache[o := e]) == Sizes(cache)[o := e.coin.mem];
  }

  // ---------------------------------------------------------------- writing one child entry at a time

  lemma MergeOne(cache: Cache, done: Cache, o: OutPoint, e: Entry)
    requires o !in done
    ensures
      var now, next := Merge(cache, done), Merge(cache, done[o := e]);
      var merged := MergeEntry(cache, map[o := e], o);
      next == if merged.Some? then now[o := merged.value] else now - {o}
  {
    forall p ensures MergeEntry(cache, done[o := e], p)
                     == if p == o then MergeEntry(cache, map[o := e], o) else MergeEntry(cache, done, p) {}
  }

  /** Nothing written so far has touched the entry at `o`. */
  lemma MergeAhead(cache: Cache, done: Cache, child: Cache, o: OutPoint)
    requires o !in done && o in child
    ensures MergeEntry(Merge(cache, done), map[o := child[o]], o) == MergeEntry(cache, map[o := child[o]], o)
    ensures Misapplied(Merge(cache, done), map[o := child[o]], o) <==> Misapplied(cache, child, o)
  {
  }

  lemma OnlyOfChild(cache: Cache, child: Cache, o: OutPoint)
    ensures Misapplied(cache, child, o) ==> o in child
  {
  }

  lemma MergeNothing(cache: Cache)
    ensures Merge(cache, map[]) == cache
  {
  }

  lemma WriteBackOne(coins: Utxo, done: Cache, o: OutPoint, e: Entry)
    requires o !in done
    ensures
      var now, next := WriteBack(coins, done), WriteBack(coins, done[o := e]);
      next == if !e.isDirty then now else if e.coin.IsSpent() then now - {o} else now[o := e.coin]
  {
  }

  class CoinsViewDB {
    var coins: Utxo

    constructor ()
      ensures coins == map[]
    {
      coins := map[];
    }

    method BatchWrite(mapCoins: Cache)
      modifies this
      ensures coins == WriteBack(old(coins), mapCoins)
    {
      var rest, done: Cache := mapCoins, map[];
      while rest != map[]
        invariant done.Keys !! rest.Keys && done + rest == mapCoins
        invariant coins == WriteBack(old(coins), done)
        decreases rest.Keys
      {
        var o :| o in rest;
        WriteBackOne(old(coins), done, o, rest[o]);
        if rest[o].isDirty {
          if rest[o].coin.IsSpent() {
            coins := coins - {o};
          } else {
            coins := coins[o := rest[o].coin];
          }
        }
        done := done[o := rest[o]];
        rest := rest - {o};
      }
      assert done == mapCoins;
    }
  }

  datatype Backend = OnDatabase(db: CoinsViewDB) | OnCache(parent: CoinsViewCache)

  class CoinsViewCache {
    const base: Backend
    ghost const depth: nat
    var cacheCoins: Cache
    var cachedCoinsUsage: int

    /** The chain of bases ends in a database. */
    ghost predicate Grounded()
      decreases depth
    {
      base.OnCache? ==> base.parent.depth < depth && base.parent.Grounded()
    }

    /** The objects of the stack, this one included. */
    ghost function Repr(): set<object>
      requires Grounded()
      decreases depth
    {
      {this} + if base.OnDatabase? then {base.db} else base.parent.Repr()
    }

    /** The stack this object is the top of. */
    ghost function Abs(): Chain
      requires Grounded()
      reads Repr()
      decreases depth
    {
      Layer(cacheCoins, if base.OnDatabase? then Database(base.db.coins) else base.parent.Abs())
    }

    ghost predicate UsageExact()
      requires Grounded()
      reads Repr()
      decreases depth
    {
      cachedCoinsUsage == Usage(cacheCoins) && (base.OnCache? ==> base.parent.UsageExact())
    }

    ghost predicate Valid()
      reads if Grounded() then Repr() else {}
    {
      Grounded() && Inv(Abs()) && UsageExact()
    }

    lemma Apart()
      requires Grounded() && base.OnCache?
      ensures this !in base.parent.Repr()
      ensures forall x :: x in base.parent.Repr() ==> allocated(x)
    {
      base.parent.ReprDepth();
    }

    lemma {:induction false} ReprDepth()
      requires Grounded()
      ensures forall x :: x in Repr() && x is CoinsViewCache ==> (x as CoinsViewCache).depth <= depth
      ensures forall x :: x in Repr() ==> allocated(x)
      decreases depth
    {
      if base.OnCache? { base.parent.ReprDepth(); }
    }

    constructor OverDatabase(db: CoinsViewDB)
      requires forall o :: o in db.coins ==> !db.coins[o].IsSpent()
      ensures Valid() && Repr() == {this, db} && Abs() == Layer(map[], Database(db.coins))
    {
      base, depth := OnDatabase(db), 0;
      cacheCoins, cachedCoinsUsage := map[], 0;
    }

    constructor OverCache(parent: CoinsViewCache)
      requires parent.Valid()
      ensures Valid() && Repr() == {this} + parent.Repr()
      ensures Abs() == Layer(map[], old(parent.Abs()))
    {
      base, depth := OnCache(parent), parent.depth + 1;
      cacheCoins, cachedCoinsUsage := map[], 0;
      parent.ReprDepth();
      new;
    }

    /** Asks the view below. */
    method BaseGetCoin(o: OutPoint) returns (r: Option<Coin>)
      requires Valid()
      modifies Repr() - {this}
      ensures Grounded() && UsageExact()
      ensures Abs() == Layer(old(Abs()).cache, Coins.GetCoin(old(Abs()).base, o).0)
      ensures r == Coins.GetCoin(old(Abs()).base, o).1
      decreases depth, 0
    {
      if base.OnCache? {
        Apart();
        r := base.parent.GetCoin(o);
      } else {
        r := if o in base.db.coins then Some(base.db.coins[o]) else None;
      }
    }

    method FetchCoin(o: OutPoint)
      requires Valid()
      modifies Repr()
      ensures Valid() && Abs() == Coins.FetchCoin(old(Abs()), o)
      decreases depth, 1
    {
      hide Usage, LayerOk, SameViews;
      GetCoinKeepsViews(Abs(), o);
      if o in cacheCoins {
        return;
      }
      var got := BaseGetCoin(o);
      if base.OnCache? { Apart(); }
      if got.Some? {
        UsageWith(cacheCoins, o, Entry(got.value, false, got.value.IsSpent()));
        cacheCoins := cacheCoins[o := Entry(got.value, false, got.value.IsSpent())];
        cachedCoinsUsage := cachedCoinsUsage + got.value.mem;
      }
    }

    method GetCoin(o: OutPoint) returns (r: Option<Coin>)
      requires Valid()
      modifies Repr()
      ensures Valid()
      ensures Abs() == Coins.GetCoin(old(Abs()), o).0 && SameViews(old(Abs()), Abs())
      ensures r == Coins.GetCoin(old(Abs()), o).1 == Lookup(old(Abs()), o)
      decreases depth, 2
    {
      GetCoinKeepsViews(Abs(), o);
      FetchCoin(o);
      r := if o in cacheCoins && !cacheCoins[o].coin.IsSpent() then Some(cacheCoins[o].coin) else None;
    }

    method HaveCoinInCache(o: OutPoint) returns (have: bool)
      requires Valid()
      ensures have ==> Lookup(Abs(), o).Some?
      ensures !have ==> Lookup(Abs(), o) == if o in cacheCoins then None else Lookup(Abs().base, o)
    {
      have := o in cacheCoins && !cacheCoins[o].coin.IsSpent();
    }

    /** Throwing leaves the entry in place but its memory already subtracted. */
    method AddCoin(o: OutPoint, coin: Coin, possibleOverwrite: bool) returns (threw: bool)
      requires Valid() && !coin.IsSpent()
      modifies this
      ensures threw <==> AddThrows(old(cacheCoins), o, coin, possibleOverwrite)
      ensures Grounded() && Abs() == Layer(Coins.AddCoin(old(cacheCoins), o, coin, possibleOverwrite), old(Abs()).base)
      ensures cachedCoinsUsage == Usage(cacheCoins) - if threw then cacheCoins[o].coin.mem else 0
      ensures possibleOverwrite || Lookup(old(Abs()), o).None? ==> !threw && Valid()
    {
      if base.OnCache? { Apart(); }
      if coin.IsUnspendable() {
        return false;
      }
      AddPreservesInv(Abs(), o, coin, possibleOverwrite);
      var entry := Entry(NULL_COIN, false, false);
      if o in cacheCoins {
        entry := cacheCoins[o];
        cachedCoinsUsage := cachedCoinsUsage - entry.coin.mem;
      }
      var nowFresh := false;
      if !possibleOverwrite {
        if !entry.coin.IsSpent() {
          return true;
        }
        nowFresh := !entry.isDirty;
      }
      UsageWith(cacheCoins, o, Entry(coin, true, entry.isFresh || nowFresh));
      cacheCoins := cacheCoins[o := Entry(coin, true, entry.isFresh || nowFresh)];
      cachedCoinsUsage := cachedCoinsUsage + coin.mem;
      return false;
    }

    static lemma AddPreservesInv(c: Chain, o: OutPoint, coin: Coin, possibleOverwrite: bool)
      requires c.Layer? && Inv(c) && !coin.IsSpent() && !coin.IsUnspendable()
      ensures possibleOverwrite || Lookup(c, o).None? ==>
                && !AddThrows(c.cache, o, coin, possibleOverwrite)
                && Inv(Layer(Coins.AddCoin(c.cache, o, coin, possibleOverwrite), c.base))
    {
      if possibleOverwrite || Lookup(c, o).None? { AddCoinMeaning(c, o, coin, possibleOverwrite); }
    }

    method SpendCoin(o: OutPoint) returns (ok: bool, moveout: Coin)
      requires Valid()
      modifies Repr()
      ensures Valid() && Abs() == Coins.SpendCoin(old(Abs()), o).0
      ensures Coins.SpendCoin(old(Abs()), o).1 == if ok then Some(moveout) else None
      ensures forall p :: Lookup(Abs(), p) == if p == o then None else Lookup(old(Abs()), p)
    {
      hide Coins.FetchCoin, Lookup, Inv, SameViews, Usage, SpendEntry;
      SpendCoinMeaning(Abs(), o);
      FetchCoin(o);
      if o !in cacheCoins {
        SpendNothing(cacheCoins, o);
        return false, NULL_COIN;
      }
      moveout := cacheCoins[o].coin;
      SpendFound(o);
      ok := true;
    }

    static lemma SpendNothing(cache: Cache, o: OutPoint)
      requires o !in cache
      ensures SpendEntry(cache, o) == cache
    {
    }

    /** The second half of SpendCoin. */
    method SpendFound(o: OutPoint)
      requires Grounded() && UsageExact() && o in cacheCoins
      modifies this
      ensures UsageExact() && Abs() == Layer(SpendEntry(old(cacheCoins), o), old(Abs()).base)
    {
      hide Usage;
      if base.OnCache? { Apart(); }
      cachedCoinsUsage := cachedCoinsUsage - cacheCoins[o].coin.mem;
      if cacheCoins[o].isFresh {
        UsageWithout(cacheCoins, o);
        cacheCoins := cacheCoins - {o};
      } else {
        UsageWith(cacheCoins, o, Entry(NULL_COIN, true, false));
        cacheCoins := cacheCoins[o := Entry(NULL_COIN, true, false)];
      }
    }

    method Uncache(o: OutPoint)
      requires Valid()
      modifies this
      ensures Valid() && Abs() == Layer(Coins.Uncache(old(cacheCoins), o), old(Abs()).base)
      ensures SameViews(old(Abs()), Abs())
    {
      if base.OnCache? { Apart(); }
      UncacheMeaning(Abs(), o);
      if o in cacheCoins && !cacheCoins[o].isDirty && !cacheCoins[o].isFresh {
        UsageWithout(cacheCoins, o);
        cachedCoinsUsage := cachedCoinsUsage - cacheCoins[o].coin.mem;
        cacheCoins := cacheCoins - {o};
      }
    }

    /** The body of the loop in BatchWrite: one entry of the child. */
    method WriteEntry(o: OutPoint, e: Entry) returns (threw: bool)
      requires cachedCoinsUsage == Usage(cacheCoins)
      modifies this
      ensures cachedCoinsUsage == Usage(cacheCoins)
      ensures threw <==> Misapplied(old(cacheCoins), map[o := e], o)
      ensures
        var merged := MergeEntry(old(cacheCoins), map[o := e], o);
        cacheCoins == if threw then old(cacheCoins)
                      else if merged.Some? then old(cacheCoins)[o := merged.value] else old(cacheCoins) - {o}
    {
      if e.isDirty {
        if o !in cacheCoins {
          if !(e.isFresh && e.coin.IsSpent()) {
            UsageWith(cacheCoins, o, Entry(e.coin, true, e.isFresh));
            cacheCoins := cacheCoins[o := Entry(e.coin, true, e.isFresh)];
            cachedCoinsUsage := cachedCoinsUsage + e.coin.mem;
          }
        } else {
          var us := cacheCoins[o];
          if e.isFresh && !us.coin.IsSpent() {
            return true;
          }
          cachedCoinsUsage := cachedCoinsUsage - us.coin.mem;
          if us.isFresh && e.coin.IsSpent() {
            UsageWithout(cacheCoins, o);
            cacheCoins := cacheCoins - {o};
          } else {
            UsageWith(cacheCoins, o, Entry(e.coin, true, us.isFresh));
            cacheCoins := cacheCoins[o := Entry(e.coin, true, us.isFresh)];
            cachedCoinsUsage := cachedCoinsUsage + e.coin.mem;
          }
        }
      }
      threw := false;
    }

    /** The loop of BatchWrite. */
    method WriteEntries(mapCoins: Cache) returns (threw: bool)
      requires cachedCoinsUsage == Usage(cacheCoins)
      modifies this
      ensures cachedCoinsUsage == Usage(cacheCoins)
      ensures threw <==> exists o :: Misapplied(old(cacheCoins), mapCoins, o)
      ensures !threw ==> cacheCoins == Merge(old(cacheCoins), mapCoins)
    {
      hide Total, Merge, MergeEntry, Misapplied;
      ghost var before := cacheCoins;
      var rest := mapCoins;
      ghost var done: Cache := map[];
      MergeNothing(before);
      while rest != map[]
        invariant done.Keys !! rest.Keys && done + rest == mapCoins
        invariant cacheCoins == Merge(before, done)
        invariant cachedCoinsUsage == Usage(cacheCoins)
        invariant forall o :: o in done ==> !Misapplied(before, mapCoins, o)
        decreases rest.Keys
      {
        var o :| o in rest;
        var e := rest[o];
        assert e == mapCoins[o];
        MergeOne(before, done, o, e);
        MergeAhead(before, done, mapCoins, o);
        threw := WriteEntry(o, e);
        if threw {
          assert Misapplied(before, mapCoins, o);
          return;
        }
        done := done[o := e];
        rest := rest - {o};
      }
      assert done == mapCoins;
      forall o ensures !Misapplied(before, mapCoins, o) { OnlyOfChild(before, mapCoins, o); }
      threw := false;
    }

    /** Takes over the entries of a child cache; `threw` is the "FRESH flag misapplied" exception. */
    method BatchWrite(mapCoins: Cache) returns (threw: bool)
      requires Valid()
      modifies this
      ensures Grounded() && UsageExact()
      ensures threw <==> BatchThrows(old(Abs()), mapCoins)
      ensures !threw ==> Abs() == Coins.BatchWrite(old(Abs()), mapCoins)
    {
      if base.OnCache? { Apart(); }
      threw := WriteEntries(mapCoins);
    }

    /** Never throws, changes nothing this cache shows, and makes the level below show the same. */
    method Flush() returns (threw: bool)
      requires Valid()
      modifies Repr()
      ensures !threw && Valid() && Abs() == Coins.Flush(old(Abs()))
      ensures forall o :: Lookup(Abs(), o) == Lookup(Abs().base, o) == Lookup(old(Abs()), o)
    {
      hide Merge, WriteBack, LayerOk, Usage;
      UsageOfNone();
      FlushMeaning(Abs());
      threw := false;
      if base.OnCache? {
        Apart();
        threw := base.parent.BatchWrite(cacheCoins);
      } else {
        base.db.BatchWrite(cacheCoins);
      }
      cacheCoins := map[];
      cachedCoinsUsage := 0;
    }
  }
}
