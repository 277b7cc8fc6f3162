/**
 The block assembler: greedy selection of packages from the mempool. Scores and fee rates only steer which
 package is tried next and when to stop; both are left open here (any choice is allowed), so that the theorem
 covers every scoring.
 */
module BlockAssembler {
  import opened Bits
  import opened Mempool

  const MAX_CONSECUTIVE_FAILURES := 1000

  /** How the evaluation of a package ends. */
  datatype Outcome = Added | TooBig | Unsafe

  type Word32 = x: nat | x < UINT32

  class Assembler {
    const pool: Pool
    /** Transactions that are final and safe to mine. */
    const allowed: set<TxId>
    const nBlockMaxSize: Word32
    const maxBlockSigOps: Word32
    /** What the block held before mempool transactions (coinbase reserve, quorum commitments). */
    const sizeBase: nat
    const sigOpsBase: nat
    var block: seq<TxId>
    var inBlock: set<TxId>
    // The running totals and the packages' totals are words of 64 and 32 bits. They are only ever added,
    // subtracted and then compared, so that they are kept whole here and cut off where they are compared.
    var nBlockSize: nat
    var nBlockSigOps: nat

    constructor (pool: Pool, allowed: set<TxId>, maxSize: Word32, maxSigOps: Word32, size: nat, sigOps: nat)
      ensures this.pool == pool && this.allowed == allowed && nBlockMaxSize == maxSize && maxBlockSigOps == maxSigOps
      ensures sizeBase == size && sigOpsBase == sigOps && block == [] && Consistent()
    {
      this.pool, this.allowed, nBlockMaxSize, maxBlockSigOps := pool, allowed, maxSize, maxSigOps;
      sizeBase, sigOpsBase, nBlockSize, nBlockSigOps := size, sigOps, size, sigOps;
      block, inBlock := [], {};
      SumEmpty(pool.order, pool.size);
      SumEmpty(pool.order, pool.sigOps);
    }

    /** The block holds no transaction twice, each after its ancestors, and its totals are exact. */
    ghost predicate Consistent()
      reads this
    {
      && Distinct(block) && inBlock == Elements(block) && Closed(pool, inBlock)
      && Topological(pool, block) && inBlock <= allowed
      && nBlockSize == sizeBase + Sum(pool.order, pool.size, inBlock)
      && nBlockSigOps == sigOpsBase + Sum(pool.order, pool.sigOps, inBlock)
    }

    /** The package of a transaction cannot join a block holding `s`: it contains a transaction that is not
        allowed, or the block would reach a limit. */
    ghost predicate Refused(t: TxId, s: set<TxId>)
      requires t in pool.ancestors
    {
      var package := Package(pool, s, t);
      || !(package <= allowed)
      || sizeBase + Sum(pool.order, pool.size, s) + TotalOf(pool, package).size >= nBlockMaxSize
      || sigOpsBase + Sum(pool.order, pool.sigOps, s) + TotalOf(pool, package).sigOps >= maxBlockSigOps
    }

    ghost predicate WithinLimits()
      reads this
    {
      nBlockSize < nBlockMaxSize && nBlockSigOps < maxBlockSigOps
    }

    /** Machine words are wide enough for the block as it is, and for one within its limits, together with any one
        transaction and its ancestors. */
    ghost predicate WordsSuffice()
      reads this
    {
      forall t :: t in pool.ancestors ==> SufficeFor(Cached(pool, t))
    }

    predicate SufficeFor(package: Totals)
      reads this
    {
      && nBlockMaxSize + package.size <= UINT64 && nBlockSize + package.size < UINT64
      && maxBlockSigOps + package.sigOps <= UINT32 && nBlockSigOps + package.sigOps < UINT32
    }

    method TestPackage(packageSize: nat, packageSigOps: nat) returns (ok: bool)
      ensures ok <==> Passes(Totals(packageSize, packageSigOps))
    {
      if (nBlockSize + packageSize) % UINT64 >= nBlockMaxSize {
        return false;
      }
      if (nBlockSigOps + packageSigOps) % UINT32 >= maxBlockSigOps {
        return false;
      }
      return true;
    }

    method TestPackageTransactions(package: set<TxId>) returns (ok: bool)
      ensures ok <==> package <= allowed
    {
      var rest := package;
      while rest != {}
        invariant rest <= package && package - rest <= allowed
        decreases rest
      {
        var t :| t in rest;
        if t !in allowed {
          return false;
        }
        rest := rest - {t};
      }
      return true;
    }

    method OnlyUnconfirmed(testSet: set<TxId>) returns (r: set<TxId>)
      ensures r == testSet - inBlock
    {
      r := testSet;
      var rest := testSet;
      while rest != {}
        invariant rest <= testSet && r == testSet - (inBlock - rest)
        decreases rest
      {
        var t :| t in rest;
        if t in inBlock {
          r := r - {t};
        }
        rest := rest - {t};
      }
    }

    /** Sorts a package by ancestor count. */
    method SortForBlock(package: set<TxId>) returns (sortedEntries: seq<TxId>)
      requires package <= pool.ancestors.Keys
      ensures SortedByCount(pool, sortedEntries) && Elements(sortedEntries) == package && Distinct(sortedEntries)
    {
      sortedEntries := [];
      var rest := package;
      while rest != {}
        invariant rest <= package && SortedByCount(pool, sortedEntries) && Distinct(sortedEntries)
        invariant Elements(sortedEntries) == package - rest
        invariant forall t, i :: t in rest && 0 <= i < |sortedEntries| ==> AncestorCount(pool, sortedEntries[i]) <= AncestorCount(pool, t)
        decreases rest
      {
        var t := Smallest(rest);
        ghost var was := sortedEntries;
        sortedEntries := sortedEntries + [t];
        rest := rest - {t};
        assert t !in Elements(was);
        forall i | 0 <= i < |was| ensures was[i] != t { assert was[i] in Elements(was); }
        assert Elements(sortedEntries) == Elements(was) + {t};
      }
    }

    method Smallest(rest: set<TxId>) returns (t: TxId)
      requires rest != {} && rest <= pool.ancestors.Keys
      ensures t in rest && forall u :: u in rest ==> AncestorCount(pool, t) <= AncestorCount(pool, u)
    {
      t :| t in rest;
      var left := rest - {t};
      while left != {}
        invariant t in rest && left <= rest
        invariant forall u :: u in rest && u !in left ==> AncestorCount(pool, t) <= AncestorCount(pool, u)
        decreases left
      {
        var u :| u in left;
        if AncestorCount(pool, u) < AncestorCount(pool, t) {
          t := u;
        }
        left := left - {u};
      }
    }

    /** All descendants of a transaction, itself included. */
    function Descendants(it: TxId): set<TxId> {
      set d | d in pool.ancestors && (it in pool.ancestors[d] || d == it)
    }

    /** The inner loop of UpdatePackagesForAdded: one added transaction. */
    method UpdateForOne(alreadyAdded: set<TxId>, it: TxId, modified: Modified, ghost done: set<TxId>, ghost original: Modified)
      returns (m: Modified)
      requires WellFormed(pool) && it in pool.ancestors && it in alreadyAdded && it !in done && original.Keys <= pool.ancestors.Keys
      requires modified == Updated(pool, alreadyAdded, done, original)
      ensures m == Updated(pool, alreadyAdded, done + {it}, original)
    {
      hide Entry, Affected, WellFormed, Minus;
      m := modified;
      Known(it);
      AffectedKnown(alreadyAdded, done, original);
      var w := Totals(pool.size[it], pool.sigOps[it]);
      var rest := Descendants(it);
      ghost var touched: set<TxId> := {};
      while rest != {}
        invariant touched !! rest && touched + rest == Descendants(it)
        invariant m.Keys == Affected(pool, alreadyAdded, done, original) + (touched - alreadyAdded)
        invariant forall d :: d in m ==>
          (d in pool.ancestors || d in original) && m[d] == Entry(pool, alreadyAdded, if d in touched then done + {it} else done, original, d)
        decreases rest
      {
        var desc :| desc in rest;
        if desc !in alreadyAdded {
          EntryStep(pool, alreadyAdded, done, original, it, desc);
          if desc !in m {
            FreshEntry(desc, alreadyAdded, done, original);
            m := m[desc := Minus(Cached(pool, desc), w)];
          } else {
            m := m[desc := Minus(m[desc], w)];
          }
        } else {
          EntrySame(pool, alreadyAdded, done, original, it, desc);
        }
        rest := rest - {desc};
        touched := touched + {desc};
      }
      AllTouched(alreadyAdded, it, done, original, m);
    }

    lemma Known(it: TxId)
      requires WellFormed(pool) && it in pool.ancestors
      ensures it in pool.size && it in pool.sigOps
    {
    }

    lemma AffectedKnown(added: set<TxId>, done: set<TxId>, original: Modified)
      ensures forall d :: d in Affected(pool, added, done, original) ==> d in pool.ancestors || d in original
    {
    }

    lemma AllTouched(added: set<TxId>, it: TxId, done: set<TxId>, original: Modified, m: Modified)
      requires it in added && m.Keys == Affected(pool, added, done, original) + (Descendants(it) - added)
      requires forall d :: d in m ==>
        (d in pool.ancestors || d in original) && m[d] == Entry(pool, added, if d in Descendants(it) then done + {it} else done, original, d)
      ensures m == Updated(pool, added, done + {it}, original)
    {
      hide Entry, Affected;
      forall d ensures d in m.Keys <==> d in Affected(pool, added, done + {it}, original) {
        AffectedStep(pool, added, done, original, it, d);
      }
      forall d | d in m ensures m[d] == Entry(pool, added, done + {it}, original, d) {
        if d !in Descendants(it) { EntrySame(pool, added, done, original, it, d); }
      }
    }

    lemma FreshEntry(d: TxId, added: set<TxId>, done: set<TxId>, original: Modified)
      requires d in pool.ancestors && d !in added && d !in Affected(pool, added, done, original)
      ensures d !in original && Entry(pool, added, done, original, d) == Cached(pool, d)
    {
    }

    /** Every not yet added descendant of the added transactions gets or keeps an entry, from which all its
        added ancestors are subtracted. */
    method UpdatePackagesForAdded(alreadyAdded: set<TxId>, modified: Modified) returns (m: Modified)
      requires WellFormed(pool) && alreadyAdded <= pool.ancestors.Keys && modified.Keys <= pool.ancestors.Keys
      ensures m == Updated(pool, alreadyAdded, alreadyAdded, modified)
    {
      m := modified;
      var todo := alreadyAdded;
      ghost var done: set<TxId> := {};
      NothingDone(alreadyAdded, modified);
      while todo != {}
        invariant done !! todo && done + todo == alreadyAdded
        invariant m == Updated(pool, alreadyAdded, done, modified)
        decreases todo
      {
        var it :| it in todo;
        m := UpdateForOne(alreadyAdded, it, m, done, modified);
        todo := todo - {it};
        done := done + {it};
      }
      assert done == alreadyAdded;
    }

    lemma NothingDone(added: set<TxId>, modified: Modified)
      ensures Updated(pool, added, {}, modified) == modified
    {
      assert forall d :: d in pool.ancestors ==> pool.ancestors[d] * {} == {};
    }

    method AddToBlock(t: TxId)
      requires t in pool.size && t in pool.sigOps
      modifies this
      ensures block == old(block) + [t] && inBlock == old(inBlock) + {t}
      ensures nBlockSize == old(nBlockSize) + pool.size[t] && nBlockSigOps == old(nBlockSigOps) + pool.sigOps[t]
    {
      block := block + [t];
      nBlockSize := nBlockSize + pool.size[t];
      nBlockSigOps := nBlockSigOps + pool.sigOps[t];
      inBlock := inBlock + {t};
    }

    /** Adds a sorted package and forgets its modified entries. */
    method AddSorted(sortedEntries: seq<TxId>, modified: Modified) returns (m: Modified)
      requires WellFormed(pool) && Distinct(sortedEntries) && Elements(sortedEntries) <= pool.ancestors.Keys - inBlock
      modifies this
      ensures block == old(block) + sortedEntries && inBlock == old(inBlock) + Elements(sortedEntries)
      ensures nBlockSize == old(nBlockSize) + Sum(pool.order, pool.size, Elements(sortedEntries))
      ensures nBlockSigOps == old(nBlockSigOps) + Sum(pool.order, pool.sigOps, Elements(sortedEntries))
      ensures m == modified - Elements(sortedEntries)
    {
      m := modified;
      SumEmpty(pool.order, pool.size);
      SumEmpty(pool.order, pool.sigOps);
      assert Elements(sortedEntries[..0]) == {};
      for i := 0 to |sortedEntries|
        invariant block == old(block) + sortedEntries[..i] && inBlock == old(inBlock) + Elements(sortedEntries[..i])
        invariant nBlockSize == old(nBlockSize) + Sum(pool.order, pool.size, Elements(sortedEntries[..i]))
        invariant nBlockSigOps == old(nBlockSigOps) + Sum(pool.order, pool.sigOps, Elements(sortedEntries[..i]))
        invariant m == modified - Elements(sortedEntries[..i])
      {
        var t := sortedEntries[i];
        ghost var before := Elements(sortedEntries[..i]);
        assert t in Elements(sortedEntries) && t in pool.order;
        assert sortedEntries[..i + 1] == sortedEntries[..i] + [t];
        assert Elements(sortedEntries[..i + 1]) == before + {t} && t !in before;
        SumSplit(pool.order, pool.size, before, {t});
        SumSplit(pool.order, pool.sigOps, before, {t});
        SumOne(pool.order, pool.size, t);
        SumOne(pool.order, pool.sigOps, t);
        AddToBlock(t);
        m := m - {t};
      }
      assert sortedEntries[..|sortedEntries|] == sortedEntries;
    }

    /** Takes a package into the block: the transaction with those of its ancestors that are not there yet. */
    method AddPackage(iter: TxId, ancestors: set<TxId>, modified: Modified, ghost failed: set<TxId>) returns (m: Modified)
      requires WellFormed(pool) && Consistent() && iter in pool.ancestors && iter !in inBlock
      requires ancestors == Package(pool, inBlock, iter) && ancestors <= allowed
      requires TotalsOk(pool, inBlock, modified, failed)
      modifies this
      ensures Consistent() && TotalsOk(pool, inBlock, m, failed) && inBlock == old(inBlock) + ancestors && old(block) <= block
      ensures nBlockSize == old(nBlockSize) + TotalOf(pool, ancestors).size
      ensures nBlockSigOps == old(nBlockSigOps) + TotalOf(pool, ancestors).sigOps
      ensures modified.Keys <= m.Keys + inBlock
    {
      hide WellFormed, Closed, Topological, TotalsOk, SortedByCount, Sum, Updated, Package, Distinct;
      ghost var before, blockBefore := inBlock, block;
      PackageKnown(pool, inBlock, iter);
      var sortedEntries := SortForBlock(ancestors);
      AppendSorted(pool, block, iter, sortedEntries);
      PackageCloses(pool, inBlock, iter);
      m := AddSorted(sortedEntries, modified);
      ElementsAppend(blockBefore, sortedEntries);
      SumSplit(pool.order, pool.size, before, ancestors);
      SumSplit(pool.order, pool.sigOps, before, ancestors);
      DistinctAppend(blockBefore, sortedEntries);
      Forgotten(before, modified, failed, ancestors);
      UpdateKeepsTotals(pool, before, ancestors, m, failed + ancestors);
      KeysStay(ancestors, m);
      m := UpdatePackagesForAdded(ancestors, m);
      Settled(before, m, failed, ancestors);
    }

    lemma KeysStay(added: set<TxId>, modified: Modified)
      ensures modified.Keys <= Updated(pool, added, added, modified).Keys
    {
    }

    static lemma ElementsAppend(a: seq<TxId>, b: seq<TxId>)
      ensures Elements(a + b) == Elements(a) + Elements(b)
    {
    }

    /** Entries of added transactions may go: those transactions are in the block from now on. */
    lemma Forgotten(inBlock': set<TxId>, modified: Modified, failed: set<TxId>, gone: set<TxId>)
      requires TotalsOk(pool, inBlock', modified, failed)
      ensures TotalsOk(pool, inBlock', modified - gone, failed + gone) && (modified - gone).Keys !! gone
      ensures (modified - gone).Keys <= pool.ancestors.Keys
    {
    }

    lemma Settled(before: set<TxId>, m: Modified, failed: set<TxId>, added: set<TxId>)
      requires TotalsOk(pool, before + added, m, failed + added)
      ensures TotalsOk(pool, before + added, m, failed)
    {
    }

    static lemma DistinctAppend(a: seq<TxId>, b: seq<TxId>)
      requires Distinct(a) && Distinct(b) && Elements(a) !! Elements(b)
      ensures Distinct(a + b)
    {
      forall i, j | 0 <= i < j < |a + b| ensures (a + b)[i] != (a + b)[j] {
        if i < |a| <= j { assert a[i] in Elements(a) && b[j - |a|] in Elements(b); }
      }
    }

    /** What holds between two evaluations; `wide` tells whether words were wide enough at the start. */
    ghost predicate Selecting(mi: nat, modified: Modified, failedTx: set<TxId>, refused: set<TxId>, wide: bool)
      reads this
    {
      && mi <= |pool.order| && Consistent() && TotalsOk(pool, inBlock, modified, failedTx)
      && failedTx <= refused && (wide ==> WordsSuffice() && AllRefused(refused, inBlock))
      && Accounted(pool.order[..mi], inBlock + modified.Keys + refused)
    }

    /** Picks the next package and evaluates it. */
    method TryNext(mi: nat, modified: Modified, failedTx: set<TxId>, ghost refused: set<TxId>, ghost wide: bool)
      returns (outcome: Outcome, mi': nat, m: Modified, f: set<TxId>, ghost r: set<TxId>)
      requires WellFormed(pool) && Selecting(mi, modified, failedTx, refused, wide)
      requires mi < |pool.order| || modified != map[]
      requires mi < |pool.order| ==> !SkipMapTxEntry(pool.order[mi], modified, failedTx)
      modifies this
      ensures Selecting(mi', m, f, r, wide) && Grown(old(block), old(inBlock), outcome.Added?, wide)
      ensures if outcome.Added? then pool.ancestors.Keys - inBlock < pool.ancestors.Keys - old(inBlock)
              else |pool.order| - mi' + |m| < |pool.order| - mi + |modified| && WithinLimits() == old(WithinLimits())
    {
      hide WellFormed, Closed, Topological, TotalsOk, Sum, Updated, Package, Distinct, WordsSuffice, Consistent, Refused, AllRefused, Accounted, WithinLimits;
      ghost var known := inBlock + modified.Keys + refused;
      var iter, fUsingModified := Choose(mi, modified);
      outcome, m, f := TryPackage(iter, fUsingModified, modified, failedTx);
      r := refused;
      if wide { AllRefusedStay(refused, old(inBlock)); }
      if !outcome.Added? {
        r := refused + {iter};
        if wide { OneMoreRefused(refused, iter); }
      }
      AccountedMore(pool.order[..mi], known, inBlock + m.Keys + r);
      mi' := mi;
      if !fUsingModified {
        AccountedNext(pool.order, mi, known, inBlock + m.Keys + r);
        mi' := mi + 1;
      }
    }

    /** The block is an extension of an earlier one, and within the limits if it took something in. */
    ghost predicate Grown(before: seq<TxId>, inBefore: set<TxId>, added: bool, wide: bool)
      reads this
    {
      && before <= block && inBefore <= inBlock && (wide ==> WordsSuffice())
      && if added then wide ==> WithinLimits() else block == before && inBlock == inBefore
    }

    /** Package selection. It always ends; the block it leaves has every transaction once and after all its
        in-pool ancestors and contains only allowed transactions. Words that are wide enough for each package keep
        a block that took anything in strictly below both limits, and then, unless selection stops early, the
        block is maximal: no transaction left out could still join with its ancestors. */
    method AddPackageTxs() returns (early: bool)
      requires WellFormed(pool) && Consistent()
      modifies this
      ensures Consistent() && old(block) <= block
      ensures old(WordsSuffice()) ==> block == old(block) || WithinLimits()
      ensures old(WordsSuffice() && WithinLimits()) ==> WithinLimits()
      ensures old(WordsSuffice()) && !early ==> forall t :: t in pool.order && t !in inBlock ==> t in pool.ancestors && Refused(t, inBlock)
    {
      hide WellFormed, Closed, Topological, TotalsOk, Sum, Updated, Package, Distinct, WordsSuffice, Consistent, Refused, Selecting, WithinLimits;
      var failedTx: set<TxId> := {};
      ghost var refused: set<TxId>, wide := {}, WordsSuffice();
      StartTotals();
      var mapModifiedTx := UpdatePackagesForAdded(inBlock, map[]);
      var mi: nat := 0;
      var nConsecutiveFailed := 0;
      SelectionStarts(mapModifiedTx);
      while mi < |pool.order| || mapModifiedTx != map[]
        invariant Selecting(mi, mapModifiedTx, failedTx, refused, wide) && old(block) <= block
        invariant wide ==> block == old(block) || WithinLimits()
        invariant wide && old(WithinLimits()) ==> WithinLimits()
        decreases pool.ancestors.Keys - inBlock, |pool.order| - mi + |mapModifiedTx|
      {
        if mi < |pool.order| && SkipMapTxEntry(pool.order[mi], mapModifiedTx, failedTx) {
          Skipped(mi, mapModifiedTx, failedTx, refused, wide);
          mi := mi + 1;
          continue;
        }
        SelectionSound(mi, mapModifiedTx, failedTx, refused, wide);
        if * {
          return true;  // the fee rate is below the minimum, and so is everything after it
        }
        ghost var blockBefore := block;
        var outcome;
        outcome, mi, mapModifiedTx, failedTx, refused := TryNext(mi, mapModifiedTx, failedTx, refused, wide);
        PrefixTransitive(old(block), blockBefore, block);
        SelectionSound(mi, mapModifiedTx, failedTx, refused, wide);
        if outcome.TooBig? {
          nConsecutiveFailed := nConsecutiveFailed + 1;
          if nConsecutiveFailed > MAX_CONSECUTIVE_FAILURES && nBlockSize % UINT64 > (nBlockMaxSize - 1000) % UINT32 {
            return true;  // close to full, and nothing has fitted for a while
          }
        } else if outcome.Added? {
          nConsecutiveFailed := 0;
        }
      }
      early := false;
      SelectionSound(mi, mapModifiedTx, failedTx, refused, wide);
      AllAccounted(mi, mapModifiedTx, failedTx, refused, wide);
    }

    lemma SelectionStarts(modified: Modified)
      requires Consistent() && TotalsOk(pool, inBlock, modified, {})
      ensures Selecting(0, modified, {}, {}, WordsSuffice())
    {
      hide Consistent, TotalsOk, Refused;
    }

    lemma SelectionSound(mi: nat, modified: Modified, failedTx: set<TxId>, refused: set<TxId>, wide: bool)
      requires Selecting(mi, modified, failedTx, refused, wide)
      ensures mi <= |pool.order| && Consistent()
    {
      hide Consistent, TotalsOk, Refused;
    }

    lemma Skipped(mi: nat, modified: Modified, failedTx: set<TxId>, refused: set<TxId>, wide: bool)
      requires Selecting(mi, modified, failedTx, refused, wide) && mi < |pool.order| && SkipMapTxEntry(pool.order[mi], modified, failedTx)
      ensures Selecting(mi + 1, modified, failedTx, refused, wide)
    {
      hide Consistent, TotalsOk, Refused, Accounted;
      var known := inBlock + modified.Keys + refused;
      AccountedNext(pool.order, mi, known, known);
    }

    /** Everything seen so far is known: in the block, waiting as a modified entry, or refused. */
    static ghost predicate Accounted(seen: seq<TxId>, known: set<TxId>) {
      forall i :: 0 <= i < |seen| ==> seen[i] in known
    }

    static lemma AccountedMore(seen: seq<TxId>, known: set<TxId>, more: set<TxId>)
      requires Accounted(seen, known) && known <= more
      ensures Accounted(seen, more)
    {
    }

    static lemma AccountedNext(order: seq<TxId>, mi: nat, known: set<TxId>, more: set<TxId>)
      requires mi < |order| && Accounted(order[..mi], known) && known <= more && order[mi] in more
      ensures Accounted(order[..mi + 1], more)
    {
      assert order[..mi + 1] == order[..mi] + [order[mi]];
    }

    ghost predicate AllRefused(refused: set<TxId>, s: set<TxId>) {
      forall t :: t in refused ==> t in pool.ancestors && Refused(t, s)
    }

    lemma AllRefusedStay(refused: set<TxId>, before: set<TxId>)
      requires AllRefused(refused, before) && before <= inBlock && Consistent()
      ensures AllRefused(refused, inBlock)
    {
      hide Refused;
      forall t | t in refused ensures Refused(t, inBlock) { RefusedStays(t, before, inBlock); }
    }

    lemma AllAccounted(mi: nat, modified: Modified, failedTx: set<TxId>, refused: set<TxId>, wide: bool)
      requires Selecting(mi, modified, failedTx, refused, wide) && mi >= |pool.order| && modified == map[]
      ensures wide ==> forall t :: t in pool.order && t !in inBlock ==> t in pool.ancestors && Refused(t, inBlock)
    {
      hide Refused, Consistent, TotalsOk, WordsSuffice;
      assert pool.order[..mi] == pool.order;
    }

    lemma OneMoreRefused(refused: set<TxId>, t: TxId)
      requires AllRefused(refused, inBlock) && t in pool.ancestors && (t in refused || Refused(t, inBlock))
      ensures AllRefused(refused + {t}, inBlock)
    {
      hide Refused;
    }

    /** Whatever else joins the block, a refused transaction stays refused: its missing ancestors shrink by no
        more than the block grows. */
    lemma RefusedStays(t: TxId, before: set<TxId>, after: set<TxId>)
      requires t in pool.ancestors && Refused(t, before) && before <= after <= allowed
      ensures Refused(t, after)
    {
      hide Sum;
      var all := WithAncestors(pool, t);
      if Package(pool, before, t) <= allowed {
        PackageSum(t, before);
        PackageSum(t, after);
        TotalSubset(pool, before + all, after + all);
      } else {
        var x :| x in Package(pool, before, t) && x !in allowed;
        assert x in Package(pool, after, t);
      }
    }

    lemma PackageSum(t: TxId, s: set<TxId>)
      requires t in pool.ancestors
      ensures TotalOf(pool, s + WithAncestors(pool, t)).size == Sum(pool.order, pool.size, s) + TotalOf(pool, Package(pool, s, t)).size
      ensures TotalOf(pool, s + WithAncestors(pool, t)).sigOps == Sum(pool.order, pool.sigOps, s) + TotalOf(pool, Package(pool, s, t)).sigOps
    {
      hide Sum;
      var package := Package(pool, s, t);
      assert s + WithAncestors(pool, t) == s + package;
      SumSplit(pool.order, pool.size, s, package);
      SumSplit(pool.order, pool.sigOps, s, package);
    }

    /** The two comparisons of a package's totals with the limits. */
    predicate Passes(package: Totals)
      reads this
    {
      (nBlockSize + package.size) % UINT64 < nBlockMaxSize && (nBlockSigOps + package.sigOps) % UINT32 < maxBlockSigOps
    }

    /** What did not pass the tests with its exact total is refused at the present block. */
    lemma RefusedNow(t: TxId, package: Totals)
      requires Consistent() && t in pool.ancestors && SufficeFor(package)
      requires package == TotalOf(pool, Package(pool, inBlock, t))
      requires !Passes(package) || !(Package(pool, inBlock, t) <= allowed)
      ensures Refused(t, inBlock)
    {
      hide Topological, Distinct, Package, Sum;
    }

    /** A refused transaction that is evaluated again, with totals that are not too small, fails again. */
    lemma FailsAgain(t: TxId, package: Totals)
      requires Consistent() && t in pool.ancestors && SufficeFor(package) && Refused(t, inBlock)
      requires AtMost(TotalOf(pool, Package(pool, inBlock, t)), package)
      ensures !Passes(package) || !(Package(pool, inBlock, t) <= allowed)
    {
      hide Topological, Distinct, Package, Sum;
    }

    /** Words are wide enough for a block within its limits together with any one package. */
    ghost predicate LimitsSuffice() {
      forall t :: t in pool.ancestors ==>
        nBlockMaxSize + Cached(pool, t).size <= UINT64 && maxBlockSigOps + Cached(pool, t).sigOps <= UINT32
    }

    /** For a block within its limits this is all that is asked of the words. */
    lemma LimitsDecide()
      ensures WordsSuffice() ==> LimitsSuffice()
      ensures WithinLimits() && LimitsSuffice() ==> WordsSuffice()
    {
      hide Cached;
    }

    static lemma PrefixTransitive(a: seq<TxId>, b: seq<TxId>, c: seq<TxId>)
      requires a <= b && b <= c
      ensures a <= c
    {
    }

    /** The totals an entry is tested with. */
    function Tested(iter: TxId, fUsingModified: bool, modified: Modified): Totals
      requires if fUsingModified then iter in modified else iter in pool.ancestors
    {
      if fUsingModified then modified[iter] else Cached(pool, iter)
    }

    /** Evaluates one package: it is either added, or dropped from the modified entries if it came from
        there. Failing for the first time means that it is refused; failing again, it had been refused before.
        For any widths, a package added by its exact total keeps a limit exactly when the new total is a word. */
    method TryPackage(iter: TxId, fUsingModified: bool, modified: Modified, failedTx: set<TxId>)
      returns (outcome: Outcome, m: Modified, f: set<TxId>)
      requires WellFormed(pool) && Consistent() && TotalsOk(pool, inBlock, modified, failedTx)
      requires if fUsingModified then iter in modified else iter in pool.order && !SkipMapTxEntry(iter, modified, failedTx)
      modifies this
      ensures Consistent() && TotalsOk(pool, inBlock, m, f) && iter in pool.ancestors
      ensures outcome.Added? <==> old(Passes(Tested(iter, fUsingModified, modified))) && Package(pool, old(inBlock), iter) <= allowed
      ensures Grown(old(block), old(inBlock), outcome.Added?, old(WordsSuffice()))
      ensures if outcome.Added? then iter in inBlock && iter !in old(inBlock) && inBlock == old(inBlock) + Package(pool, old(inBlock), iter)
              else |m| == (if fUsingModified then |modified| - 1 else |modified|) && WithinLimits() == old(WithinLimits())
      ensures modified.Keys <= m.Keys + inBlock + (if outcome.Added? then {} else {iter})
      ensures old(WordsSuffice()) && !outcome.Added? && iter !in failedTx ==> Refused(iter, inBlock)
      ensures old(WordsSuffice() && iter in pool.ancestors && Refused(iter, inBlock)) ==> !outcome.Added?
      ensures outcome.Added? && iter !in failedTx ==>
        (nBlockSize < nBlockMaxSize <==> nBlockSize < UINT64) && (nBlockSigOps < maxBlockSigOps <==> nBlockSigOps < UINT32)
      ensures f <= failedTx + (if outcome.Added? then {} else {iter})
    {
      hide WellFormed, Closed, Topological, TotalsOk, Sum, Updated, Package, Distinct, Consistent, TotalOf, Cached, AtMost, Refused, Passes, SufficeFor, LimitsSuffice, WordsSuffice;
      m, f := modified, failedTx;
      Candidate(iter, fUsingModified, modified, failedTx);
      assert iter !in inBlock;
      var package := Tested(iter, fUsingModified, modified);
      if WordsSuffice() { LessSuffices(iter, package); }
      LimitsDecide();
      var fits := TestPackage(package.size, package.sigOps);
      outcome := TooBig;
      if fits {
        var ancestors := OnlyUnconfirmed(pool.ancestors[iter]);
        ancestors := ancestors + {iter};
        PackageIs(iter, ancestors);
        var safe := TestPackageTransactions(ancestors);
        if safe {
          if WordsSuffice() {
            if Refused(iter, inBlock) { FailsAgain(iter, package); }
            FitsExactly(package, ancestors);
          }
          if iter !in failedTx { FitsUnlessWrapped(ancestors); }
          m := AddPackage(iter, ancestors, modified, failedTx);
          LimitsDecide();
          return Added, m, f;
        }
        outcome := Unsafe;
      }
      if WordsSuffice() && iter !in failedTx { RefusedNow(iter, package); }
      if fUsingModified {
        Erased(modified, failedTx, iter);
        m, f := modified - {iter}, failedTx + {iter};
      }
    }

    predicate SkipMapTxEntry(t: TxId, modified: Modified, failedTx: set<TxId>)
      reads this
    {
      t in modified || t in inBlock || t in failedTx
    }

    /** The next transaction to evaluate: the next of the pool or any modified entry, by a score left open. */
    method Choose(mi: nat, modified: Modified) returns (iter: TxId, fUsingModified: bool)
      requires mi < |pool.order| || modified != map[]
      ensures if fUsingModified then iter in modified else mi < |pool.order| && iter == pool.order[mi]
    {
      if mi >= |pool.order| {
        iter :| iter in modified;
        return iter, true;
      }
      if modified != map[] {
        if * {
          iter :| iter in modified;
          return iter, true;
        }
      }
      return pool.order[mi], false;
    }

    lemma StartTotals()
      requires WellFormed(pool) && Consistent()
      ensures inBlock <= pool.ancestors.Keys && TotalsOk(pool, inBlock, Updated(pool, inBlock, inBlock, map[]), {})
    {
      assert TotalsOk(pool, {}, map[], {});
      UpdateKeepsTotals(pool, {}, inBlock, map[], {});
      assert {} + inBlock == inBlock;
    }

    /** What is known of a transaction about to be evaluated. */
    lemma Candidate(t: TxId, fUsingModified: bool, modified: Modified, failed: set<TxId>)
      requires WellFormed(pool) && TotalsOk(pool, inBlock, modified, failed)
      requires if fUsingModified then t in modified else t in pool.order && !SkipMapTxEntry(t, modified, failed)
      ensures t in pool.ancestors && t !in inBlock
      ensures
        var package := if fUsingModified then modified[t] else Cached(pool, t);
        && AtMost(TotalOf(pool, Package(pool, inBlock, t)), package) && AtMost(package, Cached(pool, t))
        && (t !in failed ==> package == TotalOf(pool, Package(pool, inBlock, t)))
        && package.size >= 0 && package.sigOps >= 0
    {
      PackageCovered(pool, inBlock, modified, failed, t);
    }

    /** An entry that failed is dropped. */
    lemma Erased(modified: Modified, failed: set<TxId>, t: TxId)
      requires TotalsOk(pool, inBlock, modified, failed) && t in modified
      ensures TotalsOk(pool, inBlock, modified - {t}, failed + {t}) && |modified - {t}| == |modified| - 1
    {
      assert (modified - {t}).Keys == modified.Keys - {t};
    }

    lemma PackageIs(t: TxId, ancestors: set<TxId>)
      requires t in pool.ancestors && t !in inBlock && ancestors == pool.ancestors[t] - inBlock + {t}
      ensures ancestors == Package(pool, inBlock, t)
    {
    }

    /** No wrap-around, and the block after adding is within what was tested. */
    lemma FitsExactly(package: Totals, ancestors: set<TxId>)
      requires SufficeFor(package) && AtMost(TotalOf(pool, ancestors), package) && Passes(package)
      ensures nBlockSize + TotalOf(pool, ancestors).size < nBlockMaxSize
      ensures nBlockSigOps + TotalOf(pool, ancestors).sigOps < maxBlockSigOps
    {
      hide Sum;
    }

    /** For any widths: a package that passes with its exact total fits exactly when the sums do not wrap around. */
    lemma FitsUnlessWrapped(ancestors: set<TxId>)
      requires Passes(TotalOf(pool, ancestors))
      ensures nBlockSize + TotalOf(pool, ancestors).size < nBlockMaxSize <==> nBlockSize + TotalOf(pool, ancestors).size < UINT64
      ensures nBlockSigOps + TotalOf(pool, ancestors).sigOps < maxBlockSigOps <==> nBlockSigOps + TotalOf(pool, ancestors).sigOps < UINT32
    {
      hide Sum;
    }

    lemma LessSuffices(t: TxId, package: Totals)
      requires WordsSuffice() && t in pool.ancestors && AtMost(package, Cached(pool, t))
      ensures SufficeFor(package)
    {
    }
  }

  /** A parent and its child with 2^31 signature operations each. */
  function BigPair(): Pool {
    var half := UINT32 / 2;
    Pool([0, 1], map[0 := {}, 1 := {0}], map[0 := 1, 1 := 1], map[0 := half, 1 := half])
  }

  lemma BigPairFormed()
    ensures WellFormed(BigPair()) && TotalsOk(BigPair(), {}, map[], {}) && 1 in BigPair().order && 1 in BigPair().ancestors
  {
  }

  lemma BigPairTotals()
    ensures 1 in BigPair().ancestors && Package(BigPair(), {}, 1) == {0, 1}
    ensures Cached(BigPair(), 1) == TotalOf(BigPair(), {0, 1}) == Totals(2, UINT32)
  {
    hide Sum;
    var p := BigPair();
    assert WithAncestors(p, 1) == {0, 1};
    SumOfTwo(p.size, 1);
    SumOfTwo(p.sigOps, UINT32 / 2);
  }

  lemma SumOfTwo(w: map<TxId, nat>, n: nat)
    requires w == map[0 := n, 1 := n]
    ensures Sum([0, 1], w, {0, 1}) == 2 * n
  {
    SumSplit([0, 1], w, {0}, {1});
    SumOne([0, 1], w, 0);
    SumOne([0, 1], w, 1);
    assert {0} + {1} == {0, 1};
  }

  /** The case that breaks the limit: each of the two fits its own word, their total wraps around to nothing, and a
      block within its limits takes both and is far over. */
  method WrappedPair(maxSize: Word32, maxSigOps: Word32, size: nat, sigOps: nat) returns (a: Assembler)
    requires size + 2 < maxSize && sigOps < maxSigOps
    ensures fresh(a) && WellFormed(a.pool) && a.Consistent()
    ensures a.nBlockMaxSize == maxSize && a.maxBlockSigOps == maxSigOps && a.sizeBase == size && a.sigOpsBase == sigOps
    ensures a.inBlock == {0, 1} && a.nBlockSigOps == sigOps + UINT32 > maxSigOps
  {
    hide BigPair, WellFormed, TotalsOk, Package, Cached, Assembler.Refused, Assembler.WordsSuffice, Assembler.Consistent, Assembler.Passes;
    BigPairFormed();
    BigPairTotals();
    a := new Assembler(BigPair(), {0, 1}, maxSize, maxSigOps, size, sigOps);
    Beginning(a);
    var outcome, m, f := a.TryPackage(1, false, map[], {});
    SigOpsOf(a);
  }

  lemma Beginning(a: Assembler)
    requires a.pool == BigPair() && a.Consistent() && a.block == [] && a.sizeBase + 2 < a.nBlockMaxSize && a.sigOpsBase < a.maxBlockSigOps
    ensures a.inBlock == {} && a.Passes(Totals(2, UINT32))
  {
    hide Closed, Topological, Sum;
    SumEmpty(a.pool.order, a.pool.size);
    SumEmpty(a.pool.order, a.pool.sigOps);
    assert a.inBlock == {};
  }

  lemma SigOpsOf(a: Assembler)
    requires a.Consistent()
    ensures a.nBlockSigOps == a.sigOpsBase + TotalOf(a.pool, a.inBlock).sigOps
  {
    hide Closed, Topological, Sum;
  }
}
