/**
 The mempool as the block assembler sees it: a finite set of transactions with the relation "is an in-pool
 ancestor of", sizes and signature operation counts, and the cached totals over ancestors. The modified
 entries that stand in for stale totals, and what keeps them from ever being too small.
 */
module Mempool {

  type TxId = nat

  /** `order` lists every transaction once (the order in which the assembler walks the pool), `ancestors`
      holds all in-pool ancestors of a transaction, without itself. */
  datatype Pool = Pool(order: seq<TxId>, ancestors: map<TxId, set<TxId>>, size: map<TxId, nat>, sigOps: map<TxId, nat>)

  ghost predicate Distinct(q: seq<TxId>) {
    forall i, j :: 0 <= i < j < |q| ==> q[i] != q[j]
  }

  /** Ancestry is a strict partial order on the pool, as in any acyclic dependency graph. */
  ghost predicate WellFormed(p: Pool) {
    && Distinct(p.order) && (forall t :: t in p.ancestors <==> t in p.order)
    && p.size.Keys == p.sigOps.Keys == p.ancestors.Keys
    && (forall t :: t in p.ancestors ==> p.ancestors[t] <= p.ancestors.Keys && t !in p.ancestors[t])
    && (forall t, u :: t in p.ancestors && u in p.ancestors[t] && u in p.ancestors ==> p.ancestors[u] <= p.ancestors[t])
  }

  // ---------------------------------------------------------------- sums over sets of transactions

  /** The total of `w` over the transactions of `s`. */
  function Sum(order: seq<TxId>, w: map<TxId, nat>, s: set<TxId>): nat {
    if order == [] then 0
    else (if order[0] in s && order[0] in w then w[order[0]] else 0) + Sum(order[1..], w, s)
  }

  lemma {:induction false} SumSplit(order: seq<TxId>, w: map<TxId, nat>, a: set<TxId>, b: set<TxId>)
    requires a !! b
    ensures Sum(order, w, a + b) == Sum(order, w, a) + Sum(order, w, b)
  {
    if order != [] { SumSplit(order[1..], w, a, b); }
  }

  lemma SumSubset(order: seq<TxId>, w: map<TxId, nat>, a: set<TxId>, b: set<TxId>)
    requires a <= b
    ensures Sum(order, w, b) == Sum(order, w, a) + Sum(order, w, b - a)
  {
    assert b == a + (b - a);
    SumSplit(order, w, a, b - a);
  }

  lemma {:induction false} SumEmpty(order: seq<TxId>, w: map<TxId, nat>)
    ensures Sum(order, w, {}) == 0
  {
    if order != [] { SumEmpty(order[1..], w); }
  }

  lemma {:induction false} SumOutside(order: seq<TxId>, w: map<TxId, nat>, t: TxId)
    requires t !in order
    ensures Sum(order, w, {t}) == 0
  {
    if order != [] { SumOutside(order[1..], w, t); }
  }

  lemma {:induction false} SumOne(order: seq<TxId>, w: map<TxId, nat>, t: TxId)
    requires Distinct(order) && t in order && t in w
    ensures Sum(order, w, {t}) == w[t]
  {
    if order[0] == t {
      assert t !in order[1..];
      SumOutside(order[1..], w, t);
    } else {
      SumOne(order[1..], w, t);
    }
  }

  // ---------------------------------------------------------------- cached and modified totals

  /** Size and signature operations of a package. */
  datatype Totals = Totals(size: int, sigOps: int)

  function TotalOf(p: Pool, s: set<TxId>): Totals {
    Totals(Sum(p.order, p.size, s), Sum(p.order, p.sigOps, s))
  }

  function Minus(a: Totals, b: Totals): Totals { Totals(a.size - b.size, a.sigOps - b.sigOps) }

  predicate AtMost(a: Totals, b: Totals) { a.size <= b.size && a.sigOps <= b.sigOps }

  function WithAncestors(p: Pool, t: TxId): set<TxId>
    requires t in p.ancestors
  {
    p.ancestors[t] + {t}
  }

  /** The totals the mempool caches for a transaction with all its ancestors. */
  function Cached(p: Pool, t: TxId): Totals
    requires t in p.ancestors
  {
    TotalOf(p, WithAncestors(p, t))
  }

  /** What adding a transaction now would add to the block. */
  function Package(p: Pool, inBlock: set<TxId>, t: TxId): set<TxId>
    requires t in p.ancestors
  {
    WithAncestors(p, t) - inBlock
  }

  /** A block must contain the ancestors of everything it contains. */
  ghost predicate Closed(p: Pool, s: set<TxId>) {
    s <= p.ancestors.Keys && forall t :: t in s ==> p.ancestors[t] <= s
  }

  type Modified = map<TxId, Totals>

  /** A modified total covers at least what is still missing of the package, and at most the cached total. */
  predicate EntryOk(p: Pool, inBlock: set<TxId>, t: TxId, e: Totals)
    requires t in p.ancestors
  {
    t !in inBlock && AtMost(TotalOf(p, Package(p, inBlock, t)), e) && AtMost(e, Cached(p, t))
  }

  /** Totals are never too small, and they are exact until a transaction has failed: only an entry made anew for
      a failed transaction misses the ancestors that were in the block before. A transaction without a modified
      entry that has not failed has no ancestor in the block. */
  ghost predicate TotalsOk(p: Pool, inBlock: set<TxId>, modified: Modified, failed: set<TxId>) {
    && modified.Keys <= p.ancestors.Keys
    && (forall t :: t in modified ==> EntryOk(p, inBlock, t, modified[t]))
    && (forall t :: t in modified && t !in failed ==> modified[t] == TotalOf(p, Package(p, inBlock, t)))
    && (forall t :: t in p.ancestors && t !in inBlock && t !in modified && t !in failed ==> p.ancestors[t] !! inBlock)
  }

  // ---------------------------------------------------------------- updating descendants of added transactions

  /** The entry of `d` once the transactions `done` of the package `added` have been accounted for. */
  function Entry(p: Pool, added: set<TxId>, done: set<TxId>, modified: Modified, d: TxId): Totals
    requires d in p.ancestors || d in modified
  {
    var gone := if d in p.ancestors && d !in added then p.ancestors[d] * done else {};
    if gone == {} then (if d in modified then modified[d] else Cached(p, d))
    else Minus(if d in modified then modified[d] else Cached(p, d), TotalOf(p, gone))
  }

  /** The transactions that have an entry then. */
  function Affected(p: Pool, added: set<TxId>, done: set<TxId>, modified: Modified): set<TxId> {
    modified.Keys + set d | d in p.ancestors && d !in added && p.ancestors[d] * done != {}
  }

  function Updated(p: Pool, added: set<TxId>, done: set<TxId>, modified: Modified): Modified {
    map d | d in Affected(p, added, done, modified) :: Entry(p, added, done, modified, d)
  }

  /** Accounting for one more added transaction. */
  lemma EntryStep(p: Pool, added: set<TxId>, done: set<TxId>, modified: Modified, it: TxId, d: TxId)
    requires WellFormed(p) && it in p.ancestors && it !in done && d in p.ancestors && d !in added && it in p.ancestors[d]
    ensures Entry(p, added, done + {it}, modified, d) == Minus(Entry(p, added, done, modified, d), Totals(p.size[it], p.sigOps[it]))
  {
    var gone := p.ancestors[d] * done;
    assert p.ancestors[d] * (done + {it}) == gone + {it};
    assert it !in gone && gone !! {it};
    SumSplit(p.order, p.size, gone, {it});
    SumSplit(p.order, p.sigOps, gone, {it});
    SumOne(p.order, p.size, it);
    SumOne(p.order, p.sigOps, it);
    SumEmpty(p.order, p.size);
    SumEmpty(p.order, p.sigOps);
  }

  lemma EntrySame(p: Pool, added: set<TxId>, done: set<TxId>, modified: Modified, it: TxId, d: TxId)
    requires (d in p.ancestors || d in modified) && (d in p.ancestors && d !in added ==> it !in p.ancestors[d])
    ensures Entry(p, added, done + {it}, modified, d) == Entry(p, added, done, modified, d)
  {
    if d in p.ancestors && d !in added { assert p.ancestors[d] * (done + {it}) == p.ancestors[d] * done; }
  }

  lemma AffectedStep(p: Pool, added: set<TxId>, done: set<TxId>, modified: Modified, it: TxId, d: TxId)
    ensures d in Affected(p, added, done + {it}, modified)
            <==> d in Affected(p, added, done, modified) || (d in p.ancestors && d !in added && it in p.ancestors[d])
  {
    if d in p.ancestors && d !in added {
      if it in p.ancestors[d] { assert it in p.ancestors[d] * (done + {it}); }
      else { assert p.ancestors[d] * (done + {it}) == p.ancestors[d] * done; }
    }
  }

  lemma TotalSubset(p: Pool, a: set<TxId>, b: set<TxId>)
    requires a <= b
    ensures TotalOf(p, b - a) == Minus(TotalOf(p, b), TotalOf(p, a)) && AtMost(TotalOf(p, a), TotalOf(p, b))
  {
    SumSubset(p.order, p.size, a, b);
    SumSubset(p.order, p.sigOps, a, b);
  }

  /** One entry after a whole package has been added. */
  lemma EntryUpdated(p: Pool, inBlock: set<TxId>, added: set<TxId>, modified: Modified, d: TxId)
    requires WellFormed(p) && Closed(p, inBlock) && added !! inBlock && d in p.ancestors && d !in added
    requires d in modified ==> EntryOk(p, inBlock, d, modified[d])
    requires d in modified || p.ancestors[d] * added != {}
    ensures EntryOk(p, inBlock + added, d, Entry(p, added, added, modified, d))
    ensures (if d in modified then modified[d] else Cached(p, d)) == TotalOf(p, Package(p, inBlock, d))
            ==> Entry(p, added, added, modified, d) == TotalOf(p, Package(p, inBlock + added, d))
  {
    var gone := p.ancestors[d] * added;
    var before, after := Package(p, inBlock, d), Package(p, inBlock + added, d);
    assert after == before - gone && gone <= before;
    TotalSubset(p, gone, before);
    TotalSubset(p, before, WithAncestors(p, d));
    TotalSubset(p, gone, WithAncestors(p, d));
    if gone == {} { assert after == before; }
  }

  /** The package total that is tested never undercuts what is then added, and is exact unless the transaction
      failed before. */
  lemma PackageCovered(p: Pool, inBlock: set<TxId>, modified: Modified, failed: set<TxId>, t: TxId)
    requires TotalsOk(p, inBlock, modified, failed) && t in p.ancestors && t !in inBlock
    ensures t in modified ==> AtMost(TotalOf(p, Package(p, inBlock, t)), modified[t])
    ensures t !in failed ==> TotalOf(p, Package(p, inBlock, t)) == if t in modified then modified[t] else Cached(p, t)
  {
    if t !in modified && t !in failed { assert Package(p, inBlock, t) == WithAncestors(p, t); }
  }

  /** After a package has been added and its descendants updated, the totals are right for the new block. */
  lemma UpdateKeepsTotals(p: Pool, inBlock: set<TxId>, added: set<TxId>, modified: Modified, failed: set<TxId>)
    requires WellFormed(p) && Closed(p, inBlock) && added !! inBlock
    requires TotalsOk(p, inBlock, modified, failed) && modified.Keys !! added
    ensures TotalsOk(p, inBlock + added, Updated(p, added, added, modified), failed)
  {
    var modified' := Updated(p, added, added, modified);
    forall d | d in modified' ensures EntryOk(p, inBlock + added, d, modified'[d]) {
      EntryUpdated(p, inBlock, added, modified, d);
    }
    forall d | d in modified' && d !in failed ensures modified'[d] == TotalOf(p, Package(p, inBlock + added, d)) {
      EntryUpdated(p, inBlock, added, modified, d);
      PackageCovered(p, inBlock, modified, failed, d);
    }
    forall t | t in p.ancestors && t !in inBlock + added && t !in modified' && t !in failed
      ensures p.ancestors[t] !! inBlock + added
    {
      assert t !in Affected(p, added, added, modified);
      forall x | x in p.ancestors[t] ensures x !in inBlock + added {
        assert x in p.ancestors[t] * added <==> x in added;
      }
    }
  }

  lemma PackageKnown(p: Pool, inBlock: set<TxId>, t: TxId)
    requires WellFormed(p) && t in p.ancestors
    ensures Package(p, inBlock, t) <= p.ancestors.Keys && Package(p, inBlock, t) !! inBlock
  {
  }

  /** Adding a package keeps the block closed. */
  lemma PackageCloses(p: Pool, inBlock: set<TxId>, t: TxId)
    requires WellFormed(p) && Closed(p, inBlock) && t in p.ancestors
    ensures Closed(p, inBlock + Package(p, inBlock, t))
  {
    var all := inBlock + Package(p, inBlock, t);
    forall u | u in all ensures p.ancestors[u] <= all {
      if u !in inBlock { assert p.ancestors[u] <= p.ancestors[t] || u == t; }
    }
  }

  // ---------------------------------------------------------------- block order

  /** Every transaction comes after all its in-pool ancestors. */
  ghost predicate Topological(p: Pool, block: seq<TxId>) {
    forall i, a :: 0 <= i < |block| && block[i] in p.ancestors && a in p.ancestors[block[i]] ==> a in block[..i]
  }

  function Elements(q: seq<TxId>): set<TxId> { set t | t in q }

  function AncestorCount(p: Pool, t: TxId): nat
    requires t in p.ancestors
  {
    |p.ancestors[t]| + 1
  }

  ghost predicate SortedByCount(p: Pool, q: seq<TxId>) {
    && (forall i :: 0 <= i < |q| ==> q[i] in p.ancestors)
    && forall i, j :: 0 <= i < j < |q| ==> AncestorCount(p, q[i]) <= AncestorCount(p, q[j])
  }

  /** An ancestor has strictly fewer ancestors. */
  lemma CountSmaller(p: Pool, a: TxId, t: TxId)
    requires WellFormed(p) && t in p.ancestors && a in p.ancestors[t]
    ensures a in p.ancestors && AncestorCount(p, a) < AncestorCount(p, t)
  {
    assert p.ancestors[a] <= p.ancestors[t] - {a};
    var rest := p.ancestors[t] - p.ancestors[a];
    assert p.ancestors[t] == p.ancestors[a] + rest && a in rest;
  }

  /** A package sorted by ancestor count can be appended to a block. */
  lemma AppendSorted(p: Pool, block: seq<TxId>, t: TxId, sorted: seq<TxId>)
    requires WellFormed(p) && t in p.ancestors && Topological(p, block) && Closed(p, Elements(block))
    requires SortedByCount(p, sorted) && Elements(sorted) == Package(p, Elements(block), t)
    ensures Topological(p, block + sorted)
  {
    hide WellFormed, Closed, SortedByCount, Package;
    var all := block + sorted;
    forall i, a | 0 <= i < |all| && all[i] in p.ancestors && a in p.ancestors[all[i]] ensures a in all[..i] {
      if i < |block| {
        assert all[..i] == block[..i];
      } else {
        assert all[..i] == block + sorted[..i - |block|];
        AppendedAfter(p, block, t, sorted, i - |block|, a);
      }
    }
  }

  /** The ancestors of a transaction of the package are in the block or earlier in the package. */
  lemma AppendedAfter(p: Pool, block: seq<TxId>, t: TxId, sorted: seq<TxId>, k: nat, a: TxId)
    requires WellFormed(p) && t in p.ancestors && SortedByCount(p, sorted) && Elements(sorted) == Package(p, Elements(block), t)
    requires k < |sorted| && sorted[k] in p.ancestors && a in p.ancestors[sorted[k]]
    ensures a in block + sorted[..k]
  {
    hide SortedByCount;
    var u := sorted[k];
    assert u in Elements(sorted);
    CountSmaller(p, a, u);
    assert a in WithAncestors(p, t);
    assert a in Elements(block) || a in Elements(sorted);
    AncestorBefore(p, block, sorted, k, a);
  }

  lemma AncestorBefore(p: Pool, block: seq<TxId>, sorted: seq<TxId>, k: nat, a: TxId)
    requires SortedByCount(p, sorted) && k < |sorted| && a in p.ancestors && AncestorCount(p, a) < AncestorCount(p, sorted[k])
    requires a in block || a in sorted
    ensures a in block + sorted[..k]
  {
    if a !in block {
      var j :| 0 <= j < |sorted| && sorted[j] == a;
      assert j < k;
      assert a in sorted[..k];
    }
  }
}
