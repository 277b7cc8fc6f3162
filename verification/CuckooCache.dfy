/**
 The cuckoo cache. Elements sit on one of eight hashed slots; slots carry a collection flag (may be
 overwritten) and an epoch flag (recent or old). Inserting moves elements around but takes exactly one
 element out of the table, and epoch aging bounds the number of live elements.
 */
module CuckooCache {
  import opened Bits
  import opened Collections

  type Element = nat

  /** The default-constructed element that fills an unused slot. */
  const DEFAULT: Element := 0

  const INVALID := UINT32 - 1

  // ---------------------------------------------------------------- bit-packed flags

  class BitPackedFlags {
    const mem: array<bv8>

    /** All flags are set at first. */
    constructor (size: nat)
      ensures fresh(mem) && mem.Length == (size + 7) / 8 && forall s :: 0 <= s < 8 * mem.Length ==> IsSet(s)
    {
      mem := new bv8[(size + 7) / 8](_ => 0xFF);
      new;
      forall s | 0 <= s < 8 * mem.Length ensures IsSet(s) { AllSet(s % 8); }
    }

    static lemma AllSet(k: nat)
      requires k < 8
      ensures BitOf(0xFF, k)
    {
    }

    predicate IsSet(s: nat)
      requires s < 8 * mem.Length
      reads mem
    {
      BitOf(mem[s / 8], s % 8)
    }

    /** The flags as a sequence. */
    ghost function View(): (v: seq<bool>)
      reads mem
      ensures |v| == 8 * mem.Length
    {
      seq(8 * mem.Length, s requires 0 <= s < 8 * mem.Length reads mem => IsSet(s))
    }

    method BitSet(s: nat)
      requires s < 8 * mem.Length
      modifies mem
      ensures View() == old(View())[s := true]
    {
      ghost var was := mem[..];
      mem[s / 8] := mem[s / 8] | Mask(s % 8);
      forall j | 0 <= j < 8 * mem.Length ensures IsSet(j) == (j == s || old(IsSet(j))) {
        OrMask(was[s / 8], s % 8, j % 8);
        assert j == 8 * (j / 8) + j % 8 && s == 8 * (s / 8) + s % 8;
      }
    }

    method BitUnset(s: nat)
      requires s < 8 * mem.Length
      modifies mem
      ensures View() == old(View())[s := false]
    {
      ghost var was := mem[..];
      mem[s / 8] := mem[s / 8] & !Mask(s % 8);
      forall j | 0 <= j < 8 * mem.Length ensures IsSet(j) == (j != s && old(IsSet(j))) {
        AndNotMask(was[s / 8], s % 8, j % 8);
        assert j == 8 * (j / 8) + j % 8 && s == 8 * (s / 8) + s % 8;
      }
    }
  }

  // ---------------------------------------------------------------- live entries

  /** Slots among the first `n` that are not collected and have this epoch flag. */
  function Live(flags: seq<bool>, epochs: seq<bool>, recent: bool, n: nat): (r: nat)
    requires n <= |flags| && n <= |epochs|
    ensures r <= n
  {
    if n == 0 then 0 else Live(flags, epochs, recent, n - 1) + if !flags[n - 1] && epochs[n - 1] == recent then 1 else 0
  }

  function One(b: bool): nat { if b then 1 else 0 }

  lemma {:induction false} LiveUpdate(flags: seq<bool>, epochs: seq<bool>, recent: bool, n: nat, i: nat, f: bool, e: bool)
    requires i < n <= |flags| && n <= |epochs|
    ensures Live(flags[i := f], epochs[i := e], recent, n)
            == Live(flags, epochs, recent, n) - One(!flags[i] && epochs[i] == recent) + One(!f && e == recent)
  {
    if i < n - 1 {
      LiveUpdate(flags, epochs, recent, n - 1, i, f, e);
    } else {
      LiveSame(flags, flags[i := f], epochs, epochs[i := e], recent, n - 1);
    }
  }

  lemma {:induction false} LiveSame(flags: seq<bool>, flags': seq<bool>, epochs: seq<bool>, epochs': seq<bool>, recent: bool, n: nat)
    requires n <= |flags| && n <= |epochs| && n <= |flags'| && n <= |epochs'|
    requires forall j :: 0 <= j < n ==> flags[j] == flags'[j] && epochs[j] == epochs'[j]
    ensures Live(flags, epochs, recent, n) == Live(flags', epochs', recent, n)
  {
    if n > 0 { LiveSame(flags, flags', epochs, epochs', recent, n - 1); }
  }

  /** Aging: recent entries become old, old ones are collected. */
  lemma {:induction false} LiveAged(flags: seq<bool>, flags': seq<bool>, epochs: seq<bool>, epochs': seq<bool>, n: nat)
    requires n <= |flags| && n <= |epochs| && n <= |flags'| && n <= |epochs'|
    requires forall j :: 0 <= j < n ==> flags'[j] == (flags[j] || !epochs[j]) && !epochs'[j]
    ensures Live(flags', epochs', true, n) == 0
    ensures Live(flags', epochs', false, n) == Live(flags, epochs, true, n)
  {
    if n > 0 { LiveAged(flags, flags', epochs, epochs', n - 1); }
  }

  lemma {:induction false} LiveNone(flags: seq<bool>, epochs: seq<bool>, recent: bool, n: nat)
    requires n <= |flags| && n <= |epochs| && forall j :: 0 <= j < n ==> flags[j]
    ensures Live(flags, epochs, recent, n) == 0
  {
    if n > 0 { LiveNone(flags, epochs, recent, n - 1); }
  }

  // ---------------------------------------------------------------- slots of an element

  type Hasher = (nat, Element) -> nat

  function Loc(hash: Hasher, size: nat, e: Element, i: nat): (r: nat)
    requires size > 0
    ensures r < size
  {
    FastMod(hash(i, e) % UINT32, size)
  }

  function Locs(hash: Hasher, size: nat, e: Element): (r: seq<nat>)
    requires size > 0
    ensures |r| == 8 && forall i :: 0 <= i < 8 ==> r[i] < size
  {
    seq<nat>(8, i requires 0 <= i < 8 => Loc(hash, size, e, i))
  }

  /** Elements sit on their own slots only. */
  ghost predicate OwnSlots(hash: Hasher, table: seq<Element>) {
    |table| > 0 && forall i :: 0 <= i < |table| && table[i] != DEFAULT ==> i in Locs(hash, |table|, table[i])
  }

  /** No element is stored twice. */
  ghost predicate NoTwins(t: multiset<Element>) {
    forall e :: e != DEFAULT ==> t[e] <= 1
  }

  lemma SwapBag(q: seq<Element>, i: nat, e: Element)
    requires i < |q|
    ensures multiset(q[i := e]) + multiset{q[i]} == multiset(q) + multiset{e}
  {
    assert q == q[..i] + [q[i]] + q[i + 1..];
    assert q[i := e] == q[..i] + [e] + q[i + 1..];
  }

  class Cache {
    const hash: Hasher
    const size: nat
    const table: array<Element>
    const collectionFlags: BitPackedFlags
    const epochFlags: array<bool>
    const epochSize: nat
    const depthLimit: nat
    var epochHeuristicCounter: nat

    ghost predicate Sized() {
      && size >= 2 && table.Length == size && epochFlags.Length == size && size <= 8 * collectionFlags.mem.Length
      && epochSize >= 1 && depthLimit >= 1
      && epochFlags as object != collectionFlags.mem && table as object != collectionFlags.mem && table as object != epochFlags
    }

    /** Live entries with the given epoch flag. */
    ghost function LiveIn(recent: bool): nat
      requires Sized()
      reads collectionFlags.mem, epochFlags
    {
      Live(collectionFlags.View(), epochFlags[..], recent, size)
    }

    /** No epoch holds more live entries than this. */
    function Bound(): nat { epochSize + Max(1, epochSize / 16) }

    ghost predicate Valid()
      reads this, table, collectionFlags.mem, epochFlags
    {
      && Sized() && OwnSlots(hash, table[..]) && NoTwins(multiset(table[..]))
      && LiveIn(true) + epochHeuristicCounter <= Bound() && LiveIn(false) <= Bound()
    }

    /** `depthLimit` is log2 of the size, at least one. */
    constructor (hash: Hasher, newSize: nat, depthLimit: nat)
      requires depthLimit >= 1
      ensures Valid() && size == Max(2, newSize) && LiveIn(true) == LiveIn(false) == 0
      ensures fresh(table) && fresh(collectionFlags) && fresh(collectionFlags.mem) && fresh(epochFlags)
    {
      this.hash, this.depthLimit := hash, depthLimit;
      size := Max(2, newSize);
      table := new Element[Max(2, newSize)](_ => DEFAULT);
      collectionFlags := new BitPackedFlags(Max(2, newSize));
      epochFlags := new bool[Max(2, newSize)](_ => false);
      epochSize := Max(1, 45 * Max(2, newSize) % UINT32 / 100);
      epochHeuristicCounter := Max(1, 45 * Max(2, newSize) % UINT32 / 100);
      new;
      LiveNone(collectionFlags.View(), epochFlags[..], true, size);
      LiveNone(collectionFlags.View(), epochFlags[..], false, size);
      OnlyDefaults(table[..]);
    }

    static lemma OnlyDefaults(t: seq<Element>)
      requires forall i :: 0 <= i < |t| ==> t[i] == DEFAULT
      ensures NoTwins(multiset(t))
    {
      forall e | e != DEFAULT ensures multiset(t)[e] == 0 { assert e !in t; }
    }

    /** At most one live entry per epoch bound: the table is never fuller than this. */
    lemma LoadBound()
      requires Valid()
      ensures LiveIn(true) + LiveIn(false) <= 2 * Bound()
    {
    }

    method CountRecent() returns (n: nat)
      requires Sized()
      ensures n == LiveIn(true)
    {
      n := 0;
      for i := 0 to size
        invariant n == Live(collectionFlags.View(), epochFlags[..], true, i)
      {
        if epochFlags[i] && !collectionFlags.IsSet(i) {
          n := n + 1;
        }
      }
    }

    /** Recent entries become old, old ones may be overwritten. */
    method Age()
      requires Sized()
      modifies epochFlags, collectionFlags.mem
      ensures LiveIn(true) == 0 && LiveIn(false) == old(LiveIn(true))
      ensures Sized() && forall j :: 0 <= j < size && old(collectionFlags.View()[j]) ==> collectionFlags.View()[j]
    {
      hide BitPackedFlags.View;
      ghost var flags, epochs := collectionFlags.View(), epochFlags[..];
      for i := 0 to size
        invariant forall j :: 0 <= j < size ==> epochFlags[j] == (j >= i && epochs[j])
        invariant forall j :: 0 <= j < size ==> collectionFlags.View()[j] == (flags[j] || (j < i && !epochs[j]))
      {
        if epochFlags[i] {
          epochFlags[i] := false;
        } else {
          collectionFlags.BitSet(i);
        }
      }
      LiveAged(flags, collectionFlags.View(), epochs, epochFlags[..], size);
    }

    /** Leaves room for one more recent entry within the bound. */
    method EpochCheck()
      requires Valid()
      modifies this, epochFlags, collectionFlags.mem
      ensures Sized() && LiveIn(true) + epochHeuristicCounter + 1 <= Bound() && LiveIn(false) <= Bound()
      ensures forall j :: 0 <= j < size && old(collectionFlags.View()[j]) ==> collectionFlags.View()[j]
    {
      if epochHeuristicCounter != 0 {
        epochHeuristicCounter := epochHeuristicCounter - 1;
        return;
      }
      var epochUnusedCount := CountRecent();
      if epochUnusedCount >= epochSize {
        Age();
        epochHeuristicCounter := epochSize;
      } else {
        epochHeuristicCounter := Max(1, Max(epochSize / 16, epochSize - epochUnusedCount));
      }
    }

    /** The first of an element's slots that holds it. */
    method FindOwn(e: Element) returns (r: Option<nat>)
      requires Sized()
      ensures r.Some? ==> r.value < size && r.value in Locs(hash, size, e) && table[r.value] == e
      ensures r.None? ==> forall k :: k in Locs(hash, size, e) ==> table[k] != e
    {
      var locs := Locs(hash, size, e);
      for i := 0 to 8
        invariant forall j :: 0 <= j < i ==> table[locs[j]] != e
      {
        if table[locs[i]] == e {
          return Some(locs[i]);
        }
      }
      return None;
    }

    /** The first of these slots that may be overwritten. */
    method FindCollected(locs: seq<nat>) returns (r: Option<nat>)
      requires Sized() && |locs| == 8 && forall i :: 0 <= i < 8 ==> locs[i] < size
      ensures r.Some? ==> r.value in locs && r.value < size && collectionFlags.IsSet(r.value)
      ensures r.None? ==> forall i :: 0 <= i < 8 ==> !collectionFlags.IsSet(locs[i])
    {
      for i := 0 to 8
        invariant forall j :: 0 <= j < i ==> !collectionFlags.IsSet(locs[j])
      {
        if collectionFlags.IsSet(locs[i]) {
          return Some(locs[i]);
        }
      }
      return None;
    }

    /** Puts an element on a slot and marks the slot as kept. */
    method Keep(loc: nat, e: Element, epoch: bool)
      requires Sized() && loc < size
      modifies table, epochFlags, collectionFlags.mem
      ensures table[..] == old(table[..])[loc := e]
      ensures forall recent :: LiveIn(recent) == old(LiveIn(recent)) - One(!old(collectionFlags.IsSet(loc)) && old(epochFlags[loc]) == recent) + One(epoch == recent)
    {
      hide BitPackedFlags.View;
      ghost var flags, epochs := collectionFlags.View(), epochFlags[..];
      ViewAt(loc);
      table[loc] := e;
      collectionFlags.BitUnset(loc);
      epochFlags[loc] := epoch;
      assert epochFlags[..] == epochs[loc := epoch];
      LiveUpdate(flags, epochs, true, size, loc, false, epoch);
      LiveUpdate(flags, epochs, false, size, loc, false, epoch);
    }

    lemma ViewAt(i: nat)
      requires i < 8 * collectionFlags.mem.Length
      ensures collectionFlags.View()[i] == collectionFlags.IsSet(i)
    {
    }

    /** Exchanges the carried element with the one on a slot that is in use. */
    method Swap(loc: nat, e: Element, epoch: bool) returns (e': Element, epoch': bool)
      requires Sized() && loc < size && !collectionFlags.IsSet(loc)
      modifies table, epochFlags
      ensures table[..] == old(table[..])[loc := e] && e' == old(table[loc])
      ensures forall recent :: LiveIn(recent) + One(epoch' == recent) == old(LiveIn(recent)) + One(epoch == recent)
      ensures unchanged(collectionFlags.mem)
    {
      hide BitPackedFlags.View;
      ghost var flags, epochs := collectionFlags.View(), epochFlags[..];
      ViewAt(loc);
      e', epoch' := table[loc], epochFlags[loc];
      table[loc] := e;
      epochFlags[loc] := epoch;
      assert epochFlags[..] == epochs[loc := epoch];
      assert flags[loc := flags[loc]] == flags;
      LiveUpdate(flags, epochs, true, size, loc, flags[loc], epoch);
      LiveUpdate(flags, epochs, false, size, loc, flags[loc], epoch);
    }

    /** std::find: the index of the first match, or the length. */
    static method IndexOf(locs: seq<nat>, x: nat) returns (k: nat)
      ensures k <= |locs| && (k < |locs| ==> locs[k] == x) && x !in locs[..k]
    {
      k := 0;
      while k < |locs| && locs[k] != x
        invariant k <= |locs| && x !in locs[..k]
      {
        k := k + 1;
      }
    }

    /** Inserts an element. Exactly one element (perhaps an unused slot's default, perhaps `e` itself) is
        then missing from the old contents plus `e`; an element that was already there changes nothing. Unused
        slots count as holding the default element, which may thus be there without having been inserted. */
    method Insert(e: Element)
      requires Valid()
      modifies this, table, epochFlags, collectionFlags.mem
      ensures Valid()
      ensures exists out :: multiset(table[..]) + multiset{out} == multiset(old(table[..])) + multiset{e}
      ensures (exists k :: k in Locs(hash, size, e) && old(table[k]) == e) ==> table[..] == old(table[..])
      ensures e != DEFAULT && e in old(table[..]) ==> table[..] == old(table[..])
      ensures (exists k :: k in Locs(hash, size, e) && old(collectionFlags.View()[k])) ==> e in table[..]
    {
      hide BitPackedFlags.View, Live, OwnSlots, NoTwins;
      EpochCheck();
      ghost var was := table[..];
      assert was == old(table[..]);
      var own := FindOwn(e);
      OwnSlotsFound(e, own);
      if own.Some? {
        Keep(own.value, e, true);
        assert was[own.value := e] == was;
        assert multiset(table[..]) + multiset{e} == multiset(was) + multiset{e};
        return;
      }
      ghost var out := Displace(e);
      StillNoTwins(multiset(was), multiset(table[..]), e, out);
    }

    /** The displacement loop; returns the element that ended up outside the table. */
    method Displace(e0: Element) returns (ghost out: Element)
      requires Sized() && OwnSlots(hash, table[..])
      modifies table, epochFlags, collectionFlags.mem
      ensures Sized() && OwnSlots(hash, table[..])
      ensures multiset(table[..]) + multiset{out} == multiset(old(table[..])) + multiset{e0}
      ensures LiveIn(true) <= old(LiveIn(true)) + 1 && LiveIn(false) <= old(LiveIn(false))
      ensures (exists k :: k in Locs(hash, size, e0) && old(collectionFlags.View()[k])) ==> e0 in table[..]
    {
      hide BitPackedFlags.View, Live, OwnSlots;
      var e, lastEpoch := e0, true;
      var lastLoc: nat := INVALID;
      var locs := Locs(hash, size, e);
      var depth := 0;
      while depth < depthLimit
        invariant depth <= depthLimit && OwnSlots(hash, table[..]) && locs == Locs(hash, size, e)
        invariant multiset(table[..]) + multiset{e} == multiset(old(table[..])) + multiset{e0}
        invariant LiveIn(true) + One(lastEpoch) == old(LiveIn(true)) + 1
        invariant LiveIn(false) + One(!lastEpoch) == old(LiveIn(false))
        invariant depth == 0 ==> e == e0 && collectionFlags.View() == old(collectionFlags.View())
        invariant depth > 0 ==> forall k :: k in Locs(hash, size, e0) ==> !old(collectionFlags.View()[k])
      {
        forall k | 0 <= k < size ensures collectionFlags.View()[k] == collectionFlags.IsSet(k) { ViewAt(k); }
        ghost var t := table[..];
        var free := FindCollected(locs);
        if free.Some? {
          OwnSlotsPut(hash, t, free.value, e);
          SwapBag(t, free.value, e);
          out := t[free.value];
          Keep(free.value, e, lastEpoch);
          assert table[free.value] == e;
          return;
        }
        var k := IndexOf(locs, lastLoc);
        lastLoc := locs[(1 + k) % 8];
        OwnSlotsPut(hash, t, lastLoc, e);
        SwapBag(t, lastLoc, e);
        e, lastEpoch := Swap(lastLoc, e, lastEpoch);
        locs := Locs(hash, size, e);
        depth := depth + 1;
      }
      out := e;
    }

    static lemma OwnSlotsPut(hash: Hasher, t: seq<Element>, i: nat, e: Element)
      requires OwnSlots(hash, t) && i < |t| && i in Locs(hash, |t|, e)
      ensures OwnSlots(hash, t[i := e])
    {
    }

    /** An element is in the table only where it is looked for. */
    lemma OwnSlotsFound(e: Element, own: Option<nat>)
      requires Sized() && OwnSlots(hash, table[..])
      requires own.None? ==> forall k :: k in Locs(hash, size, e) ==> table[k] != e
      ensures own.None? && e != DEFAULT ==> e !in table[..]
    {
    }

    static lemma StillNoTwins(before: multiset<Element>, after: multiset<Element>, e: Element, out: Element)
      requires NoTwins(before) && (e != DEFAULT ==> e !in before) && after + multiset{out} == before + multiset{e}
      ensures NoTwins(after)
    {
      forall x | x != DEFAULT ensures after[x] <= 1 {
        assert (after + multiset{out})[x] == (before + multiset{e})[x];
      }
    }

    /** Finds exactly the stored elements, and the default element exactly where one of its slots is unused; erasing
        only marks the slot. */
    method Contains(e: Element, erase: bool) returns (found: bool)
      requires Valid()
      modifies collectionFlags.mem
      ensures Valid() && (found <==> exists k :: k in Locs(hash, size, e) && table[k] == e)
      ensures e != DEFAULT ==> (found <==> e in table[..])
      ensures if found && erase then exists loc :: 0 <= loc < size && table[loc] == e && collectionFlags.View() == old(collectionFlags.View())[loc := true]
              else collectionFlags.View() == old(collectionFlags.View())
    {
      hide BitPackedFlags.View, Live, OwnSlots;
      var own := FindOwn(e);
      OwnSlotsFound(e, own);
      found := own.Some?;
      if found && erase {
        var loc := own.value;
        ghost var flags, epochs := collectionFlags.View(), epochFlags[..];
        collectionFlags.BitSet(loc);
        assert epochs[loc := epochs[loc]] == epochs;
        LiveUpdate(flags, epochs, true, size, loc, true, epochs[loc]);
        LiveUpdate(flags, epochs, false, size, loc, true, epochs[loc]);
      }
    }
  }
}
