/**
 The layered cache of unspent transaction outputs.

 A stack of write-back caches sits on a database. Every cache entry carries two flags: DIRTY (it may
 differ from the level below) and FRESH (the level below shows no unspent coin). This is the value model
 of a stack, `Chain`, with one function per operation and the theorem that any run behaves like flat maps.
 The methods of module CoinsHeap are proved to perform exactly these functions.
 */
module Coins {
  import opened Collections

  datatype OutPoint = OutPoint(hash: nat, n: nat)

  const OP_RETURN := 0x6a
  const MAX_SCRIPT_SIZE := 10000

  /** A coin; `mem` is the dynamic memory its script holds. */
  datatype Coin = Coin(value: int, script: seq<int>, mem: nat, height: nat, coinBase: bool) {
    predicate IsSpent() { value == -1 }

    predicate IsUnspendable() {
      (|script| > 0 && script[0] == OP_RETURN) || |script| > MAX_SCRIPT_SIZE
    }
  }

  /** What Coin::Clear leaves behind. */
  const NULL_COIN := Coin(-1, [], 0, 0, false)

  datatype Entry = Entry(coin: Coin, isDirty: bool, isFresh: bool)

  type Cache = map<OutPoint, Entry>
  type Utxo = map<OutPoint, Coin>

  /** A stack of caches, top first, ending in a database. */
  datatype Chain = Database(coins: Utxo) | Layer(cache: Cache, base: Chain)

  // ---------------------------------------------------------------- the view of a stack

  /** The unspent coin that a level shows at `o`, if any. */
  function Lookup(c: Chain, o: OutPoint): Option<Coin> {
    match c
    case Database(coins) => if o in coins && !coins[o].IsSpent() then Some(coins[o]) else None
    case Layer(cache, base) =>
      if o in cache then (if cache[o].coin.IsSpent() then None else Some(cache[o].coin))
      else Lookup(base, o)
  }

  function Get(m: Utxo, o: OutPoint): Option<Coin> {
    if o in m then Some(m[o]) else None
  }

  /** The level `c` behaves like the flat map `m`. */
  ghost predicate Shows(c: Chain, m: Utxo) {
    forall o :: Lookup(c, o) == Get(m, o)
  }

  /** What the flags of an entry promise about the level below, which shows `below` at this outpoint. */
  predicate EntryOk(e: Entry, below: Option<Coin>) {
    && (e.isFresh ==> below.None?)
    && (!e.isDirty ==> !e.isFresh && below == Some(e.coin) && !e.coin.IsSpent())
  }

  ghost predicate LayerOk(cache: Cache, base: Chain) {
    forall o :: o in cache ==> EntryOk(cache[o], Lookup(base, o))
  }

  /** The invariant of a whole stack. */
  ghost predicate Inv(c: Chain) {
    match c
    case Database(coins) => forall o :: o in coins ==> !coins[o].IsSpent()
    case Layer(cache, base) => LayerOk(cache, base) && Inv(base)
  }

  /** The two stacks have the same height and show the same coins on every level. */
  ghost predicate SameViews(c: Chain, d: Chain) {
    && c.Layer? == d.Layer?
    && (forall o :: Lookup(c, o) == Lookup(d, o))
    && (c.Layer? ==> SameViews(c.base, d.base))
  }

  // ---------------------------------------------------------------- operations on values

  function FetchCoin(c: Chain, o: OutPoint): (r: Chain)
    requires c.Layer?
    ensures r.Layer?
    decreases c, 0
  {
    if o in c.cache then c
    else
      var (base', got) := GetCoin(c.base, o);
      match got
      case None => Layer(c.cache, base')
      case Some(coin) => Layer(c.cache[o := Entry(coin, false, coin.IsSpent())], base')
  }

  function GetCoin(c: Chain, o: OutPoint): (Chain, Option<Coin>)
    decreases c, 1
  {
    match c
    case Database(coins) => (c, Get(coins, o))
    case Layer(_, _) =>
      var c' := FetchCoin(c, o);
      (c', if o in c'.cache && !c'.cache[o].coin.IsSpent() then Some(c'.cache[o].coin) else None)
  }

  /** AddCoin throws when the caller rules out an overwrite but the cache holds an unspent coin. */
  predicate AddThrows(cache: Cache, o: OutPoint, coin: Coin, possibleOverwrite: bool) {
    !coin.IsUnspendable() && !possibleOverwrite && o in cache && !cache[o].coin.IsSpent()
  }

  function AddCoin(cache: Cache, o: OutPoint, coin: Coin, possibleOverwrite: bool): Cache {
    if coin.IsUnspendable() || AddThrows(cache, o, coin, possibleOverwrite) then cache
    else
      var was := if o in cache then cache[o] else Entry(NULL_COIN, false, false);
      var nowFresh := !possibleOverwrite && !was.isDirty;
      cache[o := Entry(coin, true, was.isFresh || nowFresh)]
  }

  /** A FRESH entry is forgotten, any other is kept as a spent one. */
  function SpendEntry(cache: Cache, o: OutPoint): Cache {
    if o !in cache then cache
    else if cache[o].isFresh then cache - {o}
    else cache[o := Entry(NULL_COIN, true, false)]
  }

  /** The new stack and the coin moved out; SpendCoin returns true when there is one. */
  function SpendCoin(c: Chain, o: OutPoint): (r: (Chain, Option<Coin>))
    requires c.Layer?
    ensures r.0.Layer?
  {
    var c' := FetchCoin(c, o);
    (Layer(SpendEntry(c'.cache, o), c'.base), if o in c'.cache then Some(c'.cache[o].coin) else None)
  }

  /** A child entry that claims FRESH over an unspent coin of the cache below. */
  predicate Misapplied(cache: Cache, child: Cache, o: OutPoint) {
    o in child && child[o].isDirty && child[o].isFresh && o in cache && !cache[o].coin.IsSpent()
  }

  /** The entry the cache ends up with at `o` when the child's entry there is written into it. */
  function MergeEntry(cache: Cache, child: Cache, o: OutPoint): Option<Entry> {
    if o !in child || !child[o].isDirty then (if o in cache then Some(cache[o]) else None)
    else
      var e := child[o];
      if o !in cache then
        if e.isFresh && e.coin.IsSpent() then None else Some(Entry(e.coin, true, e.isFresh))
      else if cache[o].isFresh && e.coin.IsSpent() then None
      else Some(Entry(e.coin, true, cache[o].isFresh))
  }

  function Merge(cache: Cache, child: Cache): Cache {
    map o | o in cache.Keys + child.Keys && MergeEntry(cache, child, o).Some?
      :: MergeEntry(cache, child, o).value
  }

  /** The database stores unspent dirty coins and erases spent ones. */
  function WriteBack(coins: Utxo, child: Cache): Utxo {
    map o | o in coins.Keys + child.Keys && (if o in child && child[o].isDirty then !child[o].coin.IsSpent() else o in coins)
      :: if o in child && child[o].isDirty then child[o].coin else coins[o]
  }

  function BatchWrite(c: Chain, child: Cache): Chain {
    match c
    case Database(coins) => Database(WriteBack(coins, child))
    case Layer(cache, base) => Layer(Merge(cache, child), base)
  }

  ghost predicate BatchThrows(c: Chain, child: Cache) {
    c.Layer? && exists o :: Misapplied(c.cache, child, o)
  }

  function Flush(c: Chain): Chain
    requires c.Layer?
  {
    Layer(map[], BatchWrite(c.base, c.cache))
  }

  function Uncache(cache: Cache, o: OutPoint): Cache {
    if o in cache && !cache[o].isDirty && !cache[o].isFresh then cache - {o} else cache
  }

  // ---------------------------------------------------------------- what each operation does to the view

  /** Reading fills caches but no level shows anything different, and the answer is the view's. */
  lemma {:induction false} GetCoinKeepsViews(c: Chain, o: OutPoint)
    requires Inv(c)
    ensures Inv(GetCoin(c, o).0) && SameViews(c, GetCoin(c, o).0)
    ensures GetCoin(c, o).1 == Lookup(c, o)
    ensures c.Layer? ==> GetCoin(c, o).0 == FetchCoin(c, o)
  {
    if c.Layer? && o !in c.cache {
      GetCoinKeepsViews(c.base, o);
    } else {
      SameViewsReflexive(c);
    }
  }

  lemma {:induction false} SameViewsReflexive(c: Chain)
    ensures SameViews(c, c)
  {
    if c.Layer? { SameViewsReflexive(c.base); }
  }

  /** AddCoin always makes the coin visible; the invariant survives exactly when the caller's promise
      about the level below is true (or needs no promise). */
  lemma AddCoinMeaning(c: Chain, o: OutPoint, coin: Coin, possibleOverwrite: bool)
    requires c.Layer? && Inv(c) && !coin.IsSpent() && !coin.IsUnspendable()
    requires !AddThrows(c.cache, o, coin, possibleOverwrite)
    ensures
      var c' := Layer(AddCoin(c.cache, o, coin, possibleOverwrite), c.base);
      && (forall p :: Lookup(c', p) == if p == o then Some(coin) else Lookup(c, p))
      && (Inv(c') <==> possibleOverwrite || o in c.cache || Lookup(c.base, o).None?)
  {
    var c' := Layer(AddCoin(c.cache, o, coin, possibleOverwrite), c.base);
    assert EntryOk(c'.cache[o], Lookup(c.base, o)) <==> possibleOverwrite || o in c.cache || Lookup(c.base, o).None? by {
      if o in c.cache { assert EntryOk(c.cache[o], Lookup(c.base, o)); }
    }
    forall p | p in c'.cache && p != o ensures EntryOk(c'.cache[p], Lookup(c.base, p)) {
      assert p in c.cache;
    }
  }

  /** A coin that only the level below holds is not noticed by the check in AddCoin, and the entry made
      for it is then wrongly FRESH: spending it forgets the entry, and the old coin is visible again. */
  lemma AddCoinMisuse(o: OutPoint, coin: Coin, coin': Coin)
    requires !coin.IsSpent() && !coin'.IsSpent() && !coin'.IsUnspendable()
    ensures
      var c := Layer(map[], Database(map[o := coin]));
      var c' := Layer(AddCoin(c.cache, o, coin', false), c.base);
      && Inv(c) && !AddThrows(c.cache, o, coin', false) && !Inv(c')
      && SpendCoin(c', o).1 == Some(coin') && Lookup(SpendCoin(c', o).0, o) == Some(coin)
  {
    var c := Layer(map[], Database(map[o := coin]));
    assert Lookup(c.base, o) == Some(coin);
    AddCoinMeaning(c, o, coin', false);
  }

  /** SpendCoin removes the coin from the view and hands it out, and touches no other coin and no other
      level. It also returns true for an entry that is already spent but still in the cache. */
  lemma SpendCoinMeaning(c: Chain, o: OutPoint)
    requires c.Layer? && Inv(c)
    ensures
      var (c', moved) := SpendCoin(c, o);
      && Inv(c') && SameViews(c.base, c'.base)
      && (forall p :: Lookup(c', p) == if p == o then None else Lookup(c, p))
      && (moved.Some? <==> o in c.cache || Lookup(c, o).Some?)
      && (moved.Some? ==> Lookup(c, o) == if moved.value.IsSpent() then None else moved)
  {
    GetCoinKeepsViews(c, o);
    var f := FetchCoin(c, o);
    SpendFetched(f.cache, f.base, o);
  }

  /** The second half of SpendCoin, once the coin has been fetched. */
  lemma SpendFetched(cache: Cache, base: Chain, o: OutPoint)
    requires LayerOk(cache, base) && (o in cache || Lookup(base, o).None?)
    ensures LayerOk(SpendEntry(cache, o), base)
    ensures forall p :: Lookup(Layer(SpendEntry(cache, o), base), p)
                        == if p == o then None else Lookup(Layer(cache, base), p)
  {
    if o in cache { assert EntryOk(cache[o], Lookup(base, o)); }
  }

  /** One outpoint through BatchWrite: the level below ends up showing what the child shows. */
  lemma MergeEntryMeaning(cache: Cache, base: Chain, child: Cache, o: OutPoint)
    requires LayerOk(cache, base)
    requires o in child ==> EntryOk(child[o], Lookup(Layer(cache, base), o))
    ensures !Misapplied(cache, child, o)
    ensures Lookup(Layer(Merge(cache, child), base), o) == Lookup(Layer(child, Layer(cache, base)), o)
    ensures o in Merge(cache, child) ==> EntryOk(Merge(cache, child)[o], Lookup(base, o))
  {
    if o in cache { assert EntryOk(cache[o], Lookup(base, o)); }
  }

  /** Flush never trips over the FRESH check, leaves the cache's own view alone, and gives that view to
      the level below; deeper levels are not touched. */
  lemma FlushMeaning(c: Chain)
    requires c.Layer? && Inv(c)
    ensures !BatchThrows(c.base, c.cache)
    ensures Inv(Flush(c))
    ensures forall o :: Lookup(Flush(c), o) == Lookup(Flush(c).base, o) == Lookup(c, o)
    ensures c.base.Layer? ==> Flush(c).base.Layer? && Flush(c).base.base == c.base.base
  {
    forall o ensures Lookup(Flush(c).base, o) == Lookup(c, o)
             ensures c.base.Layer? ==> !Misapplied(c.base.cache, c.cache, o)
             ensures c.base.Layer? && o in Flush(c).base.cache ==>
                       EntryOk(Flush(c).base.cache[o], Lookup(c.base.base, o))
    {
      if o in c.cache { assert EntryOk(c.cache[o], Lookup(c.base, o)); }
      if c.base.Layer? { MergeEntryMeaning(c.base.cache, c.base.base, c.cache, o); }
    }
  }

  lemma UncacheMeaning(c: Chain, o: OutPoint)
    requires c.Layer? && Inv(c)
    ensures Inv(Layer(Uncache(c.cache, o), c.base))
    ensures SameViews(c, Layer(Uncache(c.cache, o), c.base))
  {
    if o in c.cache { assert EntryOk(c.cache[o], Lookup(c.base, o)); }
    SameViewsReflexive(c.base);
  }

  // ---------------------------------------------------------------- runs over stacks

  /** What can happen to a stack. Only the top cache is written to, since a cache has one live child;
      reads, evictions and flushes may happen on any level (`level` counts from the top). */
  datatype Op =
    | Push
    | Pop
    | Add(o: OutPoint, coin: Coin, possibleOverwrite: bool)
    | Spend(o: OutPoint)
    | Read(level: nat, o: OutPoint)
    | Evict(level: nat, o: OutPoint)
    | FlushAt(level: nat)

  /** The real stack takes a step. */
  function Step(c: Chain, op: Op): Chain
    decreases if op.Read? || op.Evict? || op.FlushAt? then op.level else 0
  {
    match op
    case Push => Layer(map[], c)
    case Pop => if c.Layer? then c.base else c
    case Add(o, coin, ow) => if c.Layer? then Layer(AddCoin(c.cache, o, coin, ow), c.base) else c
    case Spend(o) => if c.Layer? then SpendCoin(c, o).0 else c
    case Read(k, o) =>
      if k == 0 || c.Database? then GetCoin(c, o).0 else Layer(c.cache, Step(c.base, Read(k - 1, o)))
    case Evict(k, o) =>
      if c.Database? then c
      else if k == 0 then Layer(Uncache(c.cache, o), c.base) else Layer(c.cache, Step(c.base, Evict(k - 1, o)))
    case FlushAt(k) =>
      if c.Database? then c
      else if k == 0 then Flush(c) else Layer(c.cache, Step(c.base, FlushAt(k - 1)))
  }

  /** The specification: one flat map per level, top first. */
  function SpecStep(views: seq<Utxo>, op: Op): seq<Utxo>
    requires |views| > 0
  {
    match op
    case Push => [views[0]] + views
    case Pop => if |views| > 1 then views[1..] else views
    case Add(o, coin, _) => if |views| > 1 && !coin.IsUnspendable() then views[0 := views[0][o := coin]] else views
    case Spend(o) => if |views| > 1 then views[0 := views[0] - {o}] else views
    case Read(_, _) => views
    case Evict(_, _) => views
    case FlushAt(k) => if k + 1 < |views| then views[k + 1 := views[k]] else views
  }

  /** What the callers of AddCoin owe: an unspent coin, and no unspent coin to overwrite unless announced. */
  predicate CallerOk(views: seq<Utxo>, op: Op)
    requires |views| > 0
  {
    op.Add? ==> !op.coin.IsSpent() && (op.possibleOverwrite || op.o !in views[0])
  }

  ghost predicate Refines(c: Chain, views: seq<Utxo>)
    decreases c
  {
    |views| > 0 && Shows(c, views[0]) &&
    if c.Layer? then Refines(c.base, views[1..]) else |views| == 1
  }

  /** One of the two exceptions of the source would be thrown by this step. */
  ghost predicate Throws(c: Chain, op: Op)
    decreases c
  {
    match op
    case Add(o, coin, ow) => c.Layer? && AddThrows(c.cache, o, coin, ow)
    case FlushAt(k) => c.Layer? && if k == 0 then BatchThrows(c.base, c.cache) else Throws(c.base, FlushAt(k - 1))
    case _ => false
  }

  lemma {:induction false} RefinesSameViews(c: Chain, d: Chain, views: seq<Utxo>)
    requires Refines(c, views) && SameViews(c, d)
    ensures Refines(d, views)
    decreases c
  {
    assert forall o :: Lookup(d, o) == Lookup(c, o) == Get(views[0], o);
    if c.Layer? { RefinesSameViews(c.base, d.base, views[1..]); }
  }

  /** Replacing the lower part of a stack by one that shows the same keeps the layer above correct. */
  lemma LayerOver(cache: Cache, base: Chain, base': Chain)
    requires LayerOk(cache, base) && forall o :: Lookup(base, o) == Lookup(base', o)
    ensures LayerOk(cache, base') && forall o :: Lookup(Layer(cache, base), o) == Lookup(Layer(cache, base'), o)
  {
  }

  /** Reads and evictions anywhere in the stack show nothing new. */
  lemma {:induction false} QuietStep(c: Chain, op: Op)
    requires Inv(c) && (op.Read? || op.Evict?)
    ensures Inv(Step(c, op)) && SameViews(c, Step(c, op))
    decreases op.level
  {
    SameViewsReflexive(c);
    if c.Layer? && op.level > 0 {
      var lower := if op.Read? then Read(op.level - 1, op.o) else Evict(op.level - 1, op.o);
      QuietStep(c.base, lower);
      LayerOver(c.cache, c.base, Step(c.base, lower));
    } else if op.Read? {
      GetCoinKeepsViews(c, op.o);
    } else if c.Layer? {
      UncacheMeaning(c, op.o);
    }
  }

  lemma {:induction false} FlushStep(c: Chain, k: nat, views: seq<Utxo>)
    requires Inv(c) && Refines(c, views)
    ensures !Throws(c, FlushAt(k))
    ensures Inv(Step(c, FlushAt(k))) && Refines(Step(c, FlushAt(k)), SpecStep(views, FlushAt(k)))
    ensures forall o :: Lookup(Step(c, FlushAt(k)), o) == Lookup(c, o)
    decreases k
  {
    if c.Layer? {
      var after := Step(c, FlushAt(k));
      var views' := SpecStep(views, FlushAt(k));
      assert |views[1..]| > 0;
      if k == 0 {
        FlushMeaning(c);
        assert forall o :: Lookup(after.base, o) == Get(views[0], o);
        assert views'[1..][1..] == views[1..][1..];
      } else {
        FlushStep(c.base, k - 1, views[1..]);
        LayerOver(c.cache, c.base, after.base);
        assert views'[1..] == SpecStep(views[1..], FlushAt(k - 1));
      }
      assert forall o :: Lookup(after, o) == Get(views'[0], o);
    }
  }

  /** One step of any stack is one step of the flat maps, and nothing is thrown. */
  lemma StepRefines(c: Chain, op: Op, views: seq<Utxo>)
    requires Inv(c) && Refines(c, views) && CallerOk(views, op)
    ensures !Throws(c, op)
    ensures Inv(Step(c, op)) && Refines(Step(c, op), SpecStep(views, op))
  {
    var after, views' := Step(c, op), SpecStep(views, op);
    match op
    case Push =>
      assert forall o :: Lookup(after, o) == Lookup(c, o);
      assert views'[1..] == views;
    case Pop =>
    case Add(o, coin, ow) =>
      if c.Layer? {
        assert Lookup(c, o) == Get(views[0], o);
        if !coin.IsUnspendable() {
          AddCoinMeaning(c, o, coin, ow);
          assert forall p :: Lookup(after, p) == Get(views'[0], p);
          assert views'[1..] == views[1..];
        }
      }
    case Spend(o) =>
      if c.Layer? {
        SpendCoinMeaning(c, o);
        assert forall p :: Lookup(after, p) == Get(views'[0], p);
        assert views'[1..] == views[1..];
        RefinesSameViews(c.base, after.base, views[1..]);
      }
    case Read(_, _) => QuietStep(c, op); RefinesSameViews(c, after, views);
    case Evict(_, _) => QuietStep(c, op); RefinesSameViews(c, after, views);
    case FlushAt(k) => FlushStep(c, k, views);
  }

  function Run(c: Chain, ops: seq<Op>): Chain {
    if ops == [] then c else Step(Run(c, ops[..|ops| - 1]), ops[|ops| - 1])
  }

  function SpecRun(views: seq<Utxo>, ops: seq<Op>): (r: seq<Utxo>)
    requires |views| > 0
    ensures |r| > 0
  {
    if ops == [] then views else SpecStep(SpecRun(views, ops[..|ops| - 1]), ops[|ops| - 1])
  }

  ghost predicate CallersOk(views: seq<Utxo>, ops: seq<Op>)
    requires |views| > 0
  {
    forall i {:trigger ops[i]} :: 0 <= i < |ops| ==> CallerOk(SpecRun(views, ops[..i]), ops[i])
  }

  /** Every run over a stack that starts as a bare database: each level shows exactly the flat map driven
      by the same operations, the flags stay truthful, and neither exception is ever thrown. */
  lemma {:induction false} RunRefines(db: Utxo, ops: seq<Op>)
    requires forall o :: o in db ==> !db[o].IsSpent()
    requires CallersOk([db], ops)
    ensures Inv(Run(Database(db), ops))
    ensures Refines(Run(Database(db), ops), SpecRun([db], ops))
    ensures forall i {:trigger ops[i]} :: 0 <= i < |ops| ==> !Throws(Run(Database(db), ops[..i]), ops[i])
  {
    if ops != [] {
      var n := |ops| - 1;
      var before := ops[..n];
      forall i {:trigger before[i]} | 0 <= i < |before| ensures CallerOk(SpecRun([db], before[..i]), before[i]) {
        assert before[..i] == ops[..i] && ops[i] == before[i];
      }
      RunRefines(db, before);
      assert CallerOk(SpecRun([db], ops[..n]), ops[n]);
      StepRefines(Run(Database(db), before), ops[n], SpecRun([db], before));
      forall i {:trigger ops[i]} | 0 <= i < |ops| ensures !Throws(Run(Database(db), ops[..i]), ops[i]) {
        if i < n { assert before[..i] == ops[..i] && ops[i] == before[i]; }
      }
    }
  }
}
