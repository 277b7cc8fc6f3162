/**
 Saving and loading the address manager. Ids are renumbered on the way: new entries first, in id order, then tried
 ones. Loading what was saved from a consistent state loses nothing and gives the same tables up to that renumbering.
 */
module AddrManStore {
  import opened Collections
  import opened AddrMan
  import AddrManOps
  import AddrManCheck

  /** The fields of an entry that are saved. */
  datatype Record = Record(addr: Service, services: set<nat>, time: int, source: nat, lastSuccess: int, attempts: int)

  datatype Stored = Stored(version: nat, keySize: nat, key: nat, nNew: int, nTried: int, uBuckets: int,
                           newer: seq<Record>, tried: seq<Record>, buckets: seq<seq<int>>)

  const BIT30 := 0x4000_0000

  function RecordOf(i: Info): Record { Record(i.addr, i.services, i.time, i.source, i.lastSuccess, i.attempts) }

  /** A loaded entry starts with the memory-only fields cleared. */
  function InfoOf(r: Record): Info {
    Info(r.addr, r.services, r.time, r.source, 0, 0, r.lastSuccess, r.attempts, 0, false, -1)
  }

  /** Exclusive or with 2^30, for negative numbers in two's complement. */
  function FlipBit30(x: int): int {
    if (x / BIT30) % 2 == 1 then x - BIT30 else x + BIT30
  }

  // ---------------------------------------------------------------- saving

  predicate Chosen(i: Info, tried: bool) { if tried then i.inTried else i.refCount != 0 }

  /** The ids below `n` that are saved as new, or as tried, in id order. */
  function Picked(info: InfoMap, n: nat, tried: bool): (r: seq<int>)
    ensures forall k :: 0 <= k < |r| ==> 0 <= r[k] < n && r[k] in info && Chosen(info[r[k]], tried)
  {
    if n == 0 then []
    else Picked(info, n - 1, tried) + if n - 1 in info && Chosen(info[n - 1], tried) then [n - 1] else []
  }

  /** The number under which an id is saved. */
  function Rank(info: InfoMap, id: int): nat {
    if id < 0 then 0 else |Picked(info, id, false)|
  }

  function Records(info: InfoMap, ids: seq<int>): (r: seq<Record>)
    requires forall k :: 0 <= k < |ids| ==> ids[k] in info
    ensures |r| == |ids| && forall k :: 0 <= k < |ids| ==> r[k] == RecordOf(info[ids[k]])
  {
    seq(|ids|, k requires 0 <= k < |ids| => RecordOf(info[ids[k]]))
  }

  /** The saved numbers of the ids in the first `i` places of a bucket. */
  function Ranks(s: State, bucket: nat, i: nat): seq<int>
    requires |s.newer| == NEW_BUCKETS * BUCKET_SIZE && bucket < NEW_BUCKETS && i <= BUCKET_SIZE
  {
    if i == 0 then []
    else
      var x := s.newer[bucket * BUCKET_SIZE + i - 1];
      Ranks(s, bucket, i - 1) + if x != EMPTY then [Rank(s.info, x) as int] else []
  }

  function Serialize(s: State): Stored
    requires |s.newer| == NEW_BUCKETS * BUCKET_SIZE && s.idCount >= 0
  {
    Stored(1, 32, s.key, s.nNew, s.nTried, FlipBit30(NEW_BUCKETS),
           Records(s.info, Picked(s.info, s.idCount, false)), Records(s.info, Picked(s.info, s.idCount, true)),
           seq(NEW_BUCKETS, b requires 0 <= b < NEW_BUCKETS => Ranks(s, b, BUCKET_SIZE)))
  }

  // ---------------------------------------------------------------- loading

  /** How often a loop up to a saved count runs: a negative count is accepted and gives no iterations. */
  function Times(count: int): nat { if count < 0 then 0 else count }

  /** The first number given to an entry: the saved count of new entries becomes the next number even if negative. */
  function FirstId(st: Stored): int { if st.nNew < 0 then st.nNew else 0 }

  /** Whether the saved positions in the new table can be used. */
  function Buckets(st: Stored): int { if st.version != 0 then FlipBit30(st.uBuckets) else st.uBuckets }

  predicate Usable(st: Stored) { st.version == 1 && Buckets(st) == NEW_BUCKETS }

  predicate Sized(s: State) { |s.newer| == NEW_BUCKETS * BUCKET_SIZE && |s.tried| == TRIED_BUCKETS * BUCKET_SIZE }

  function LoadNewOne(s: State, st: Stored, n: nat): (t: State)
    requires Sized(s) && n < |st.newer|
    ensures Sized(t)
  {
    var i := InfoOf(st.newer[n]).(randomPos := |s.random|);
    var t := s.(info := s.info[n := i], addr := s.addr[i.addr := n], random := s.random + [n]);
    if Usable(st) then t
    else
      var slot := NewSlot(t, i.addr, NewBucket(t, i.addr, i.source));
      if t.newer[slot] == EMPTY then Place(t, n, slot) else t
  }

  function LoadNew(s: State, st: Stored, n: nat): (t: State)
    requires Sized(s) && n <= |st.newer|
    ensures Sized(t)
  {
    if n == 0 then s else LoadNewOne(LoadNew(s, st, n - 1), st, n - 1)
  }

  function LoadTriedOne(s: State, r: Record): (t: State)
    requires Sized(s)
    ensures Sized(t)
  {
    var slot := TriedSlot(s, r.addr);
    if s.tried[slot] == EMPTY then
      s.(idCount := s.idCount + 1, info := s.info[s.idCount := InfoOf(r).(randomPos := |s.random|, inTried := true)],
         addr := s.addr[r.addr := s.idCount], random := s.random + [s.idCount], tried := s.tried[slot := s.idCount])
    else s.(nTried := s.nTried - 1)
  }

  function LoadTried(s: State, st: Stored, n: nat): (t: State)
    requires Sized(s) && n <= |st.tried|
    ensures Sized(t)
  {
    if n == 0 then s else LoadTriedOne(LoadTried(s, st, n - 1), st.tried[n - 1])
  }

  function LoadIndex(s: State, st: Stored, bucket: nat, index: int): (t: State)
    requires Sized(s)
    ensures Sized(t)
  {
    if 0 <= index < s.nNew && index in s.info && Usable(st) && bucket < NEW_BUCKETS then
      var slot := NewSlot(s, s.info[index].addr, bucket);
      if s.newer[slot] == EMPTY && s.info[index].refCount < MAX_REFS then Place(s, index, slot) else s
    else s
  }

  function LoadBucket(s: State, st: Stored, bucket: nat, list: seq<int>): (t: State)
    requires Sized(s)
    ensures Sized(t)
    decreases |list|
  {
    if list == [] then s
    else LoadIndex(LoadBucket(s, st, bucket, list[..|list| - 1]), st, bucket, list[|list| - 1])
  }

  function LoadBuckets(s: State, st: Stored, n: nat): (t: State)
    requires Sized(s) && n <= |st.buckets|
    ensures Sized(t)
  {
    if n == 0 then s else LoadBucket(LoadBuckets(s, st, n - 1), st, n - 1, st.buckets[n - 1])
  }

  /** Ids are numbered from `lo` up to `n` and listed in that order. */
  ghost predicate Numbered(s: State, lo: int, n: int) {
    && lo <= n && (forall k :: k in s.info <==> lo <= k < n)
    && |s.random| == n - lo && (forall k :: 0 <= k < n - lo ==> s.random[k] == lo + k)
    && (forall k :: lo <= k < n ==> s.info[k].randomPos == k - lo)
  }

  lemma PlaceNumbered(s: State, id: int, k: nat, lo: int, n: int)
    requires Numbered(s, lo, n) && id in s.info && k < |s.newer|
    ensures Numbered(Place(s, id, k), lo, n)
  {
  }

  lemma NewOneNumbered(s: State, st: Stored, n: nat)
    requires Sized(s) && n < |st.newer| && Numbered(s, 0, n)
    ensures Numbered(LoadNewOne(s, st, n), 0, n + 1)
  {
    hide Usable, Place;
    var i := InfoOf(st.newer[n]).(randomPos := |s.random|);
    var t := s.(info := s.info[n := i], addr := s.addr[i.addr := n], random := s.random + [n]);
    assert Numbered(t, 0, n + 1);
    var slot := NewSlot(t, i.addr, NewBucket(t, i.addr, i.source));
    PlaceNumbered(t, n, slot, 0, n + 1);
  }

  lemma {:induction false} NewNumbered(s: State, st: Stored, n: nat)
    requires Sized(s) && n <= |st.newer| && Numbered(s, 0, 0)
    ensures Numbered(LoadNew(s, st, n), 0, n)
  {
    hide LoadNewOne, Numbered;
    if n > 0 {
      NewNumbered(s, st, n - 1);
      NewOneNumbered(LoadNew(s, st, n - 1), st, n - 1);
    }
  }

  lemma TriedOneNumbered(s: State, r: Record, lo: int)
    requires Sized(s) && Numbered(s, lo, s.idCount)
    ensures var t := LoadTriedOne(s, r); Numbered(t, lo, t.idCount)
  {
    hide TriedSlot;
  }

  lemma {:induction false} TriedNumbered(s: State, st: Stored, n: nat, lo: int)
    requires Sized(s) && n <= |st.tried| && Numbered(s, lo, s.idCount)
    ensures var t := LoadTried(s, st, n); Numbered(t, lo, t.idCount)
  {
    hide LoadTriedOne, Numbered;
    if n > 0 {
      TriedNumbered(s, st, n - 1, lo);
      TriedOneNumbered(LoadTried(s, st, n - 1), st.tried[n - 1], lo);
    }
  }

  lemma {:induction false} BucketNumbered(s: State, st: Stored, bucket: nat, list: seq<int>, lo: int, n: int)
    requires Sized(s) && Numbered(s, lo, n)
    ensures Numbered(LoadBucket(s, st, bucket, list), lo, n) && LoadBucket(s, st, bucket, list).idCount == s.idCount
    decreases |list|
  {
    hide Usable;
    if list != [] { BucketNumbered(s, st, bucket, list[..|list| - 1], lo, n); }
  }

  lemma {:induction false} BucketsNumbered(s: State, st: Stored, m: nat, lo: int, n: int)
    requires Sized(s) && m <= |st.buckets| && Numbered(s, lo, n)
    ensures Numbered(LoadBuckets(s, st, m), lo, n) && LoadBuckets(s, st, m).idCount == s.idCount
  {
    hide Numbered, LoadBucket;
    if m > 0 {
      BucketsNumbered(s, st, m - 1, lo, n);
      BucketNumbered(LoadBuckets(s, st, m - 1), st, m - 1, st.buckets[m - 1], lo, n);
    }
  }

  lemma NumberedListed(s: State, lo: int, n: int)
    requires Numbered(s, lo, n)
    ensures RandomOk(s.info, s.random)
  {
  }

  lemma DeleteListed(s: State, id: int)
    requires RandomOk(s.info, s.random) && id in s.info
    ensures Deletable(s, id) && RandomOk(Delete(s, id).info, Delete(s, id).random)
  {
    hide SwapRandom;
    MoveToEnd(s, id);
    var swapped := SwapRandom(s, s.info[id].randomPos, |s.random| - 1);
    DropRandom(swapped, id);
    assert Delete(s, id) == Dropped(swapped, id);
  }

  predicate Homeless(i: Info) { !i.inTried && i.refCount == 0 }

  /** Drops entries that found no place, for the first `n` ids from `lo` on. */
  function Prune(s: State, lo: int, n: nat): (t: State)
    requires RandomOk(s.info, s.random)
    ensures RandomOk(t.info, t.random)
  {
    if n == 0 then s
    else
      var t := Prune(s, lo, n - 1);
      var id := lo + n - 1;
      if id in t.info && Homeless(t.info[id]) then
        DeleteListed(t, id);
        Delete(t, id)
      else t
  }

  predicate Complete(st: Stored) {
    st.nNew <= |st.newer| && st.nTried <= |st.tried| && Buckets(st) <= |st.buckets|
  }

  predicate Acceptable(st: Stored) {
    st.keySize == 32 && st.nNew <= NEW_BUCKETS * BUCKET_SIZE && st.nTried <= TRIED_BUCKETS * BUCKET_SIZE && Complete(st)
  }

  function Start(h: Hashers, byPort: bool, st: Stored): (s: State)
    ensures Sized(s)
  {
    AddrManOps.Fresh(h, st.key, byPort).(nNew := st.nNew, nTried := st.nTried)
  }

  function Filled(h: Hashers, byPort: bool, st: Stored): (s: State)
    requires Complete(st)
    ensures RandomOk(s.info, s.random) && s.idCount >= FirstId(st)
  {
    var s0 := Start(h, byPort, st);
    NewNumbered(s0, st, Times(st.nNew));
    var s1 := LoadNew(s0, st, Times(st.nNew)).(idCount := st.nNew);
    TriedNumbered(s1, st, Times(st.nTried), FirstId(st));
    var s2 := LoadTried(s1, st, Times(st.nTried));
    BucketsNumbered(s2, st, Times(Buckets(st)), FirstId(st), s2.idCount);
    var s3 := LoadBuckets(s2, st, Times(Buckets(st)));
    NumberedListed(s3, FirstId(st), s3.idCount);
    s3
  }

  /** Loads into an empty manager; wrong key sizes, excessive counts and missing data are errors. */
  function Unserialize(h: Hashers, byPort: bool, st: Stored): Option<State> {
    if !Acceptable(st) then None
    else
      var s := Filled(h, byPort, st);
      Some(Prune(s, FirstId(st), s.idCount - FirstId(st)))
  }

  // ---------------------------------------------------------------- the renumbering

  lemma {:induction false} PickedAscends(info: InfoMap, n: nat, tried: bool, j: nat, k: nat)
    requires j < k < |Picked(info, n, tried)|
    ensures Picked(info, n, tried)[j] < Picked(info, n, tried)[k]
  {
    if k < |Picked(info, n - 1, tried)| { PickedAscends(info, n - 1, tried, j, k); }
  }

  /** An id that is saved stands at the number of saved ids below it. */
  lemma {:induction false} PickedAt(info: InfoMap, n: nat, tried: bool, id: nat)
    requires id < n && id in info && Chosen(info[id], tried)
    ensures |Picked(info, id, tried)| < |Picked(info, n, tried)| && Picked(info, n, tried)[|Picked(info, id, tried)|] == id
  {
    if id < n - 1 { PickedAt(info, n - 1, tried, id); }
  }

  ghost function ChosenBelow(info: InfoMap, n: nat, tried: bool): set<int> {
    set id | id in info && 0 <= id < n && Chosen(info[id], tried)
  }

  lemma {:induction false} PickedCount(info: InfoMap, n: nat, tried: bool)
    ensures |Picked(info, n, tried)| == |ChosenBelow(info, n, tried)|
  {
    var all := ChosenBelow(info, n, tried);
    if n == 0 {
      assert all == {};
    } else {
      PickedCount(info, n - 1, tried);
      var below := ChosenBelow(info, n - 1, tried);
      if n - 1 in info && Chosen(info[n - 1], tried) {
        assert all == below + {n - 1};
      } else {
        assert all == below;
      }
    }
  }

  ghost function NewList(s: State): seq<int>
    requires s.idCount >= 0
  {
    Picked(s.info, s.idCount, false)
  }

  ghost function TriedList(s: State): seq<int>
    requires s.idCount >= 0
  {
    Picked(s.info, s.idCount, true)
  }

  /** In a consistent state the two lists hold every entry once, and the counters are their lengths. */
  lemma ListsFacts(s: State)
    requires Inv(s)
    ensures s.idCount >= 0 && |NewList(s)| == s.nNew && |TriedList(s)| == s.nTried
    ensures forall k :: 0 <= k < |NewList(s)| ==> !s.info[NewList(s)[k]].inTried
    ensures forall k :: 0 <= k < |TriedList(s)| ==> s.info[TriedList(s)[k]].inTried
  {
    forall id | id in s.info ensures s.info[id].refCount != 0 <==> !s.info[id].inTried { assert RefsOk(s, {}, id); }
    PickedCount(s.info, s.idCount, false);
    PickedCount(s.info, s.idCount, true);
    assert ChosenBelow(s.info, s.idCount, false) == NewIds(s.info);
    assert ChosenBelow(s.info, s.idCount, true) == TriedIds(s.info);
  }

  /** The number an entry gets when it is saved and loaded again. */
  ghost function Renumbered(s: State, id: int): int
    requires s.idCount >= 0
  {
    if id !in s.info || id < 0 then EMPTY
    else if s.info[id].inTried then |NewList(s)| + |Picked(s.info, id, true)|
    else Rank(s.info, id)
  }

  lemma RenumberedNew(s: State, id: int)
    requires Inv(s) && id in s.info && !s.info[id].inTried
    ensures s.idCount >= 0 && 0 <= Renumbered(s, id) < |NewList(s)| && NewList(s)[Renumbered(s, id)] == id
    ensures Renumbered(s, id) == Rank(s.info, id)
  {
    assert RefsOk(s, {}, id);
    PickedAt(s.info, s.idCount, false, id);
  }

  lemma RenumberedTried(s: State, id: int)
    requires Inv(s) && id in s.info && s.info[id].inTried
    ensures s.idCount >= 0
    ensures var k := Renumbered(s, id) - |NewList(s)|; 0 <= k < |TriedList(s)| && TriedList(s)[k] == id
  {
    PickedAt(s.info, s.idCount, true, id);
  }

  lemma RenumberedBack(s: State, k: nat)
    requires Inv(s)
    ensures s.idCount >= 0
    ensures k < |NewList(s)| ==> Renumbered(s, NewList(s)[k]) == k
    ensures k < |TriedList(s)| ==> Renumbered(s, TriedList(s)[k]) == |NewList(s)| + k
  {
    hide Picked, Mid;
    ListsFacts(s);
    if k < |NewList(s)| {
      var id := NewList(s)[k];
      RenumberedNew(s, id);
      var j := Renumbered(s, id);
      if j < k { PickedAscends(s.info, s.idCount, false, j, k); }
      if k < j { PickedAscends(s.info, s.idCount, false, k, j); }
    }
    if k < |TriedList(s)| {
      var id := TriedList(s)[k];
      RenumberedTried(s, id);
      var j := Renumbered(s, id) - |NewList(s)|;
      if j < k { PickedAscends(s.info, s.idCount, true, j, k); }
      if k < j { PickedAscends(s.info, s.idCount, true, k, j); }
    }
  }

  // ---------------------------------------------------------------- how far loading has come

  /** The entry number `k` of a load. */
  ghost function Entry(s: State, k: nat, slots: nat): Info
    requires s.idCount >= 0 && k < |NewList(s)| + |TriedList(s)| && slots <= |s.newer|
  {
    var n := |NewList(s)|;
    if k < n then InfoOf(RecordOf(s.info[NewList(s)[k]])).(randomPos := k, refCount := multiset(s.newer[..slots])[NewList(s)[k]])
    else InfoOf(RecordOf(s.info[TriedList(s)[k - n]])).(randomPos := k, inTried := true)
  }

  ghost predicate EntriesLoaded(s: State, t: State, n: nat, slots: nat)
    requires s.idCount >= 0 && n <= |NewList(s)| + |TriedList(s)| && slots <= |s.newer|
  {
    && (forall k :: k in t.info <==> 0 <= k < n)
    && (forall k :: 0 <= k < n ==> t.info[k] == Entry(s, k, slots))
    && t.random == seq(n, k => k)
  }

  ghost predicate AddressesLoaded(t: State) {
    && (forall k :: k in t.info ==> t.info[k].addr in t.addr && t.addr[t.info[k].addr] == k)
    && (forall a :: a in t.addr ==> t.addr[a] in t.info && t.info[t.addr[a]].addr == a)
  }

  ghost predicate NewerLoaded(s: State, t: State, slots: nat)
    requires s.idCount >= 0
  {
    |t.newer| == |s.newer| && forall q :: 0 <= q < |s.newer| ==> t.newer[q] == if q < slots then Renumbered(s, s.newer[q]) else EMPTY
  }

  ghost predicate TriedLoaded(s: State, t: State, n: nat)
    requires s.idCount >= 0
  {
    |t.tried| == |s.tried| && forall q :: 0 <= q < |s.tried| ==> t.tried[q] == if Renumbered(s, s.tried[q]) < n then Renumbered(s, s.tried[q]) else EMPTY
  }

  /** `n` entries are loaded, and `slots` slots of the new table. */
  ghost predicate Loaded(s: State, t: State, n: nat, slots: nat) {
    && s.idCount >= 0 && n <= |NewList(s)| + |TriedList(s)| && slots <= |s.newer|
    && t.h == s.h && t.key == s.key && t.byPort == s.byPort && t.nNew == s.nNew && t.nTried == s.nTried
    && EntriesLoaded(s, t, n, slots) && AddressesLoaded(t) && NewerLoaded(s, t, slots) && TriedLoaded(s, t, n)
  }

  /** All entries have different addresses. */
  lemma AddressesDiffer(s: State, j: nat, k: nat, slots: nat)
    requires Inv(s) && s.idCount >= 0 && slots <= |s.newer|
    requires j < k < |NewList(s)| + |TriedList(s)|
    ensures Entry(s, j, slots).addr != Entry(s, k, slots).addr
  {
    hide Picked, NewOk, TriedOk, RandomOk, CountOk;
    ListsFacts(s);
    var n := |NewList(s)|;
    var x := if j < n then NewList(s)[j] else TriedList(s)[j - n];
    var y := if k < n then NewList(s)[k] else TriedList(s)[k - n];
    if k < n { PickedAscends(s.info, s.idCount, false, j, k); }
    if j >= n { PickedAscends(s.info, s.idCount, true, j - n, k - n); }
    assert x != y;
    assert s.addr[Norm(s, s.info[x].addr)] == x && s.addr[Norm(s, s.info[y].addr)] == y;
  }

  /** One more entry, at the end. */
  lemma EntryAdded(s: State, t: State, t': State, n: nat)
    requires Inv(s) && Loaded(s, t, n, 0) && n < |NewList(s)| + |TriedList(s)|
    requires t'.info == t.info[n := Entry(s, n, 0)] && t'.addr == t.addr[Entry(s, n, 0).addr := n] && t'.random == t.random + [n]
    ensures EntriesLoaded(s, t', n + 1, 0) && AddressesLoaded(t')
  {
    hide Entry, Inv, NewList, TriedList;
    var e := Entry(s, n, 0);
    forall k | 0 <= k < n ensures t.info[k].addr != e.addr { AddressesDiffer(s, k, n, 0); }
    forall k | k in t'.info ensures t'.info[k].addr in t'.addr && t'.addr[t'.info[k].addr] == k {
      if k != n { assert k in t.info; }
    }
    forall a | a in t'.addr ensures t'.addr[a] in t'.info && t'.info[t'.addr[a]].addr == a {
      if a != e.addr { assert a in t.addr && t.addr[a] in t.info; }
    }
  }

  // ---------------------------------------------------------------- the stages of a load

  ghost predicate FromState(s: State, st: Stored) {
    Inv(s) && s.idCount >= 0 && |s.newer| == NEW_BUCKETS * BUCKET_SIZE && st == Serialize(s)
  }

  lemma FromStateFacts(s: State, st: Stored)
    requires FromState(s, st)
    ensures Usable(st) && Buckets(st) == NEW_BUCKETS == |st.buckets|
    ensures st.nNew == s.nNew == |NewList(s)| == |st.newer| && st.nTried == s.nTried == |TriedList(s)| == |st.tried|
    ensures |s.newer| == NEW_BUCKETS * BUCKET_SIZE && |s.tried| == TRIED_BUCKETS * BUCKET_SIZE
  {
    hide Picked, Ranks;
    ListsFacts(s);
  }

  /** Before anything is loaded. */
  lemma LoadStarts(s: State, st: Stored)
    requires FromState(s, st)
    ensures Loaded(s, AddrManOps.Fresh(s.h, st.key, s.byPort).(nNew := st.nNew, nTried := st.nTried), 0, 0)
  {
    hide Picked, Ranks, Serialize;
    FromStateFacts(s, st);
    assert st.key == s.key by { StoredKey(s); }
    var t := AddrManOps.Fresh(s.h, st.key, s.byPort).(nNew := st.nNew, nTried := st.nTried);
    forall q | 0 <= q < |s.tried| && Renumbered(s, s.tried[q]) < 0 ensures Renumbered(s, s.tried[q]) == EMPTY {}
  }

  lemma StoredKey(s: State)
    requires |s.newer| == NEW_BUCKETS * BUCKET_SIZE && s.idCount >= 0
    ensures Serialize(s).key == s.key
  {
  }

  lemma StoredRecords(s: State, st: Stored)
    requires FromState(s, st)
    ensures |st.newer| == |NewList(s)| && forall k :: 0 <= k < |st.newer| ==> st.newer[k] == RecordOf(s.info[NewList(s)[k]])
    ensures |st.tried| == |TriedList(s)| && forall k :: 0 <= k < |st.tried| ==> st.tried[k] == RecordOf(s.info[TriedList(s)[k]])
  {
    hide Picked, Ranks;
  }

  /** No tried slot is renumbered below the new entries. */
  lemma TriedAboveNew(s: State, q: nat, n: nat)
    requires Inv(s) && q < |s.tried| && s.idCount >= 0 && n <= |NewList(s)|
    ensures Renumbered(s, s.tried[q]) < n ==> Renumbered(s, s.tried[q]) == EMPTY
  {
    hide Picked;
    if s.tried[q] != EMPTY { assert s.info[s.tried[q]].inTried; }
  }

  lemma NewOneLoaded(s: State, st: Stored, t: State, n: nat)
    requires FromState(s, st) && Loaded(s, t, n, 0) && n < |st.newer| && Sized(t)
    ensures |st.newer| == |NewList(s)| && Loaded(s, LoadNewOne(t, st, n), n + 1, 0)
  {
    hide Picked, Ranks, Serialize, Mid, Renumbered, Buckets;
    FromStateFacts(s, st);
    StoredRecords(s, st);
    var t' := LoadNewOne(t, st, n);
    assert |t.random| == n;
    assert multiset(s.newer[..0]) == multiset{} by { assert s.newer[..0] == []; }
    assert t'.info == t.info[n := Entry(s, n, 0)];
    EntryAdded(s, t, t', n);
    forall q | 0 <= q < |s.tried| ensures t'.tried[q] == if Renumbered(s, s.tried[q]) < n + 1 then Renumbered(s, s.tried[q]) else EMPTY {
      TriedAboveNew(s, q, n + 1);
    }
  }

  lemma {:induction false} NewLoaded(s: State, st: Stored, t: State, n: nat)
    requires FromState(s, st) && Loaded(s, t, 0, 0) && n <= |st.newer| && Sized(t)
    ensures Loaded(s, LoadNew(t, st, n), n, 0)
  {
    hide FromState, Loaded, LoadNewOne;
    if n > 0 {
      NewLoaded(s, st, t, n - 1);
      NewOneLoaded(s, st, LoadNew(t, st, n - 1), n - 1);
    }
  }

  /** The slot of the next tried entry is free, and it is the one it had. */
  lemma TriedSlotFree(s: State, t: State, m: nat)
    requires Inv(s) && s.idCount >= 0 && m < |TriedList(s)| && Loaded(s, t, |NewList(s)| + m, 0)
    ensures
      var id := TriedList(s)[m];
      var q := TriedSlot(t, s.info[id].addr);
      && q < |s.tried| == |t.tried| && s.tried[q] == id && t.tried[q] == EMPTY
      && forall p :: 0 <= p < |s.tried| && p != q ==> Renumbered(s, s.tried[p]) != |NewList(s)| + m
  {
    hide Picked, Renumbered, EntriesLoaded, AddressesLoaded, NewerLoaded, AddrOk, RandomOk, NewOk, CountOk;
    ListsFacts(s);
    RenumberedBack(s, m);
    var id := TriedList(s)[m];
    var q := TriedSlot(t, s.info[id].addr);
    assert q == TriedSlot(s, s.info[id].addr);
    forall p | 0 <= p < |s.tried| && p != q ensures Renumbered(s, s.tried[p]) != |NewList(s)| + m {
      var x := s.tried[p];
      if x == EMPTY { NotAnEntry(s); } else { RenumberedTried(s, x); }
    }
  }

  lemma NotAnEntry(s: State)
    requires Inv(s)
    ensures s.idCount >= 0 && Renumbered(s, EMPTY) == EMPTY
  {
  }

  lemma TriedOneLoaded(s: State, st: Stored, t: State, m: nat)
    requires FromState(s, st) && m < |st.tried| && |st.tried| == |TriedList(s)| && Sized(t)
    requires Loaded(s, t, |NewList(s)| + m, 0) && t.idCount == |NewList(s)| + m
    ensures var t' := LoadTriedOne(t, st.tried[m]); Loaded(s, t', |NewList(s)| + m + 1, 0) && t'.idCount == t.idCount + 1
  {
    hide Picked, Ranks, Serialize, Mid, Renumbered, Buckets;
    FromStateFacts(s, st);
    StoredRecords(s, st);
    TriedSlotFree(s, t, m);
    RenumberedBack(s, m);
    var t' := LoadTriedOne(t, st.tried[m]);
    var n := |NewList(s)| + m;
    assert t'.info == t.info[n := Entry(s, n, 0)];
    EntryAdded(s, t, t', n);
  }

  lemma {:induction false} TriedLoads(s: State, st: Stored, t: State, m: nat)
    requires FromState(s, st) && |st.tried| == |TriedList(s)| && m <= |st.tried| && Sized(t)
    requires Loaded(s, t, |NewList(s)|, 0) && t.idCount == |NewList(s)|
    ensures var t' := LoadTried(t, st, m); Loaded(s, t', |NewList(s)| + m, 0) && t'.idCount == |NewList(s)| + m
  {
    hide FromState, Loaded, LoadTriedOne, NewList, TriedList;
    if m > 0 {
      TriedLoads(s, st, t, m - 1);
      TriedOneLoaded(s, st, LoadTried(t, st, m - 1), m - 1);
    }
  }

  ghost function Entries(s: State): nat
    requires s.idCount >= 0
  {
    |NewList(s)| + |TriedList(s)|
  }

  lemma SlotCounts(s: State, p: nat, id: int)
    requires p < |s.newer|
    ensures multiset(s.newer[..p + 1])[id] == multiset(s.newer[..p])[id] + if s.newer[p] == id then 1 else 0
    ensures multiset(s.newer[..p + 1])[id] <= multiset(s.newer)[id]
  {
    assert s.newer[..p + 1] == s.newer[..p] + [s.newer[p]];
    assert s.newer == s.newer[..p + 1] + s.newer[p + 1..];
  }

  lemma EmptySlotLoaded(s: State, t: State, p: nat)
    requires Inv(s) && s.idCount >= 0 && Loaded(s, t, Entries(s), p) && p < |s.newer| && s.newer[p] == EMPTY
    ensures Loaded(s, t, Entries(s), p + 1)
  {
    hide Picked, RecordOf, InfoOf, AddressesLoaded, TriedLoaded, AddrOk, RandomOk, TriedOk, CountOk;
    NotAnEntry(s);
    forall k | 0 <= k < Entries(s) ensures Entry(s, k, p) == Entry(s, k, p + 1) {
      if k < |NewList(s)| { SlotCounts(s, p, NewList(s)[k]); }
    }
  }

  /** A saved position leads back to the slot it came from. */
  lemma SlotComesBack(s: State, t: State, p: nat)
    requires Inv(s) && s.idCount >= 0 && Loaded(s, t, Entries(s), p) && p < |s.newer| && s.newer[p] != EMPTY
    ensures
      var k := Rank(s.info, s.newer[p]);
      && s.newer[p] in s.info && !s.info[s.newer[p]].inTried && Renumbered(s, s.newer[p]) == k < |NewList(s)| && NewList(s)[k] == s.newer[p]
      && k in t.info && 0 <= k < t.nNew && p / BUCKET_SIZE < NEW_BUCKETS
      && NewSlot(t, t.info[k].addr, p / BUCKET_SIZE) == p && |t.newer| == |s.newer| && t.newer[p] == EMPTY
      && t.info[k].refCount < MAX_REFS
  {
    hide Picked, AddressesLoaded, TriedLoaded, AddrOk, RandomOk, TriedOk, CountOk;
    var x := s.newer[p];
    assert NewSlotOk(s, {}, p);
    assert RefsOk(s, {}, x);
    ListsFacts(s);
    RenumberedNew(s, x);
    SlotCounts(s, p, x);
    var k := Rank(s.info, x);
    assert t.info[k] == Entry(s, k, p);
    assert Position(t, true, p / BUCKET_SIZE, s.info[x].addr) == p % BUCKET_SIZE;
  }

  lemma IndexPlaces(s: State, st: Stored, t: State, p: nat)
    requires FromState(s, st) && Loaded(s, t, Entries(s), p) && p < |s.newer| && s.newer[p] != EMPTY && Sized(t)
    ensures
      var k := Rank(s.info, s.newer[p]);
      k in t.info && LoadIndex(t, st, p / BUCKET_SIZE, k) == Place(t, k, p)
  {
    hide Picked, Ranks, Serialize, Mid, Buckets, Loaded, Place, NewSlot, Rank, Renumbered, NewList, TriedList;
    FromStateFacts(s, st);
    SlotComesBack(s, t, p);
  }

  lemma PlacedEntries(s: State, t: State, p: nat, k: nat)
    requires Inv(s) && s.idCount >= 0 && p < |s.newer| && EntriesLoaded(s, t, Entries(s), p)
    requires k < |NewList(s)| && NewList(s)[k] == s.newer[p] && k in t.info && p < |t.newer|
    ensures EntriesLoaded(s, Place(t, k, p), Entries(s), p + 1)
  {
    hide Picked, Mid, RecordOf, InfoOf;
    var t' := Place(t, k, p);
    forall j | 0 <= j < Entries(s) ensures t'.info[j] == Entry(s, j, p + 1) {
      assert t.info[j] == Entry(s, j, p);
      if j < |NewList(s)| {
        SlotCounts(s, p, NewList(s)[j]);
        RenumberedBack(s, j);
        RenumberedBack(s, k);
      }
    }
  }

  lemma PlacedAddresses(t: State, k: int, p: nat)
    requires AddressesLoaded(t) && k in t.info && p < |t.newer|
    ensures AddressesLoaded(Place(t, k, p))
  {
    var t' := Place(t, k, p);
    forall j | j in t'.info ensures j in t.info && t'.info[j].addr == t.info[j].addr {}
  }

  lemma TakenSlotLoaded(s: State, st: Stored, t: State, p: nat)
    requires FromState(s, st) && Loaded(s, t, Entries(s), p) && p < |s.newer| && s.newer[p] != EMPTY && Sized(t)
    ensures
      var t' := LoadIndex(t, st, p / BUCKET_SIZE, Rank(s.info, s.newer[p]));
      Loaded(s, t', Entries(s), p + 1) && t'.idCount == t.idCount
  {
    hide Mid, LoadIndex, Rank, Renumbered, EntriesLoaded, AddressesLoaded, NewList, TriedList, Usable, Position;
    SlotComesBack(s, t, p);
    var k := Rank(s.info, s.newer[p]);
    IndexPlaces(s, st, t, p);
    PlacedEntries(s, t, p, k);
    PlacedAddresses(t, k, p);
  }

  /** The saved positions of a bucket fill its places in order. */
  lemma {:induction false} BucketLoaded(s: State, st: Stored, t: State, b: nat, i: nat)
    requires FromState(s, st) && b < NEW_BUCKETS && i <= BUCKET_SIZE && Sized(t) && Loaded(s, t, Entries(s), b * BUCKET_SIZE)
    ensures
      var t' := LoadBucket(t, st, b, Ranks(s, b, i));
      Loaded(s, t', Entries(s), b * BUCKET_SIZE + i) && t'.idCount == t.idCount
    decreases i
  {
    hide Loaded, LoadIndex, Rank, Mid, Entries, Serialize;
    if i > 0 {
      BucketLoaded(s, st, t, b, i - 1);
      var p := b * BUCKET_SIZE + i - 1;
      var list := Ranks(s, b, i - 1);
      var u := LoadBucket(t, st, b, list);
      assert p / BUCKET_SIZE == b;
      if s.newer[p] == EMPTY {
        assert Ranks(s, b, i) == list;
        EmptySlotLoaded(s, u, p);
      } else {
        TakenSlotLoaded(s, st, u, p);
        var longer := list + [Rank(s.info, s.newer[p]) as int];
        assert Ranks(s, b, i) == longer && longer[..|longer| - 1] == list;
      }
    }
  }

  lemma {:induction false} BucketsLoaded(s: State, st: Stored, t: State, n: nat)
    requires FromState(s, st) && n <= NEW_BUCKETS == |st.buckets| && Sized(t) && Loaded(s, t, Entries(s), 0)
    ensures
      var t' := LoadBuckets(t, st, n);
      Loaded(s, t', Entries(s), n * BUCKET_SIZE) && t'.idCount == t.idCount
  {
    hide Loaded, LoadBucket, Mid, Entries, Ranks, Records;
    if n > 0 {
      BucketsLoaded(s, st, t, n - 1);
      BucketLoaded(s, st, LoadBuckets(t, st, n - 1), n - 1, BUCKET_SIZE);
    }
  }

  /** Every new entry found a place again, so nothing is dropped. */
  lemma {:induction false} NothingPruned(s: State, t: State, n: nat)
    requires Inv(s) && s.idCount >= 0 && Loaded(s, t, Entries(s), |s.newer|) && RandomOk(t.info, t.random)
    ensures Prune(t, 0, n) == t
  {
    hide Picked, RecordOf, InfoOf, Delete, Deletable, AddrOk, RandomOk, TriedOk, CountOk, Renumbered, NewerLoaded, TriedLoaded;
    if n > 0 {
      NothingPruned(s, t, n - 1);
      if n - 1 in t.info { EntryPlaced(s, t, n - 1); }
    }
  }

  lemma EntryPlaced(s: State, t: State, k: nat)
    requires Inv(s) && s.idCount >= 0 && EntriesLoaded(s, t, Entries(s), |s.newer|) && k in t.info
    ensures t.info[k].inTried || t.info[k].refCount > 0
  {
    hide Picked, AddrOk, RandomOk, TriedOk, CountOk;
    ListsFacts(s);
    assert t.info[k] == Entry(s, k, |s.newer|);
    if k < |NewList(s)| {
      assert RefsOk(s, {}, NewList(s)[k]);
      assert s.newer[..|s.newer|] == s.newer;
    }
  }

  /** Loading what was saved restores every entry and every slot, under the new numbers. */
  lemma RoundTrip(s: State)
    requires Inv(s) && |s.newer| == NEW_BUCKETS * BUCKET_SIZE && s.idCount >= 0
    ensures
      var loaded := Unserialize(s.h, s.byPort, Serialize(s));
      loaded.Some? && Loaded(s, loaded.value, Entries(s), |s.newer|) && loaded.value.idCount == Entries(s)
  {
    hide Serialize, Loaded, LoadNew, LoadTried, LoadBuckets, Prune, Mid, NewList, TriedList, Buckets, RandomOk;
    var st := Serialize(s);
    FromStateFacts(s, st);
    StoredSizes(s);
    LoadStarts(s, st);
    var s0 := AddrManOps.Fresh(s.h, st.key, s.byPort).(nNew := st.nNew, nTried := st.nTried);
    NewLoaded(s, st, s0, st.nNew);
    var u := LoadNew(s0, st, st.nNew);
    IdCountFree(s, u, st.nNew, st.nNew);
    var s1 := u.(idCount := st.nNew);
    TriedLoads(s, st, s1, st.nTried);
    var s2 := LoadTried(s1, st, st.nTried);
    BucketsLoaded(s, st, s2, NEW_BUCKETS);
    var s3 := LoadBuckets(s2, st, NEW_BUCKETS);
    assert s3 == Filled(s.h, s.byPort, st);
    NothingPruned(s, s3, s3.idCount);
  }

  lemma IdCountFree(s: State, t: State, n: nat, idCount: int)
    requires Loaded(s, t, n, 0)
    ensures Loaded(s, t.(idCount := idCount), n, 0)
  {
    hide Entry, Renumbered, NewList, TriedList;
  }

  ghost function Elements(q: seq<int>): set<int> { set x | x in q }

  lemma {:induction false} ElementsBound(q: seq<int>)
    ensures |Elements(q)| <= |q|
  {
    if q == [] {
      assert Elements(q) == {};
    } else {
      var n := |q| - 1;
      ElementsBound(q[..n]);
      assert Elements(q) == Elements(q[..n]) + {q[n]} by { assert q == q[..n] + [q[n]]; }
    }
  }

  /** The counts that were saved pass the limits: every entry has a slot of its own. */
  lemma StoredSizes(s: State)
    requires Inv(s) && |s.newer| == NEW_BUCKETS * BUCKET_SIZE && s.idCount >= 0
    ensures Serialize(s).keySize == 32
    ensures s.nNew <= NEW_BUCKETS * BUCKET_SIZE && s.nTried <= TRIED_BUCKETS * BUCKET_SIZE
  {
    hide Picked, Ranks, AddrOk, RandomOk;
    forall id | id in NewIds(s.info) ensures id in Elements(s.newer) {
      assert RefsOk(s, {}, id);
      assert id in multiset(s.newer);
    }
    forall id | id in TriedIds(s.info) ensures id in Elements(s.tried) {
      assert s.tried[TriedSlot(s, s.info[id].addr)] == id;
    }
    SubsetSize(NewIds(s.info), Elements(s.newer));
    SubsetSize(TriedIds(s.info), Elements(s.tried));
    ElementsBound(s.newer);
    ElementsBound(s.tried);
  }

  // ---------------------------------------------------------------- what a load gives back

  /** `t` is `s` under new numbers: the same entries, references, addresses and slots. */
  ghost predicate SameUpToNumbers(s: State, t: State)
    requires s.idCount >= 0
  {
    && t.key == s.key && t.nNew == s.nNew && t.nTried == s.nTried
    && (forall id :: id in s.info ==>
          var r := Renumbered(s, id);
          && r in t.info && RecordOf(t.info[r]) == RecordOf(s.info[id])
          && t.info[r].inTried == s.info[id].inTried && t.info[r].refCount == s.info[id].refCount
          && s.info[id].addr in t.addr && t.addr[s.info[id].addr] == r)
    && (forall k :: k in t.info ==> exists id :: id in s.info && Renumbered(s, id) == k)
    && (forall i, j :: i in s.info && j in s.info && Renumbered(s, i) == Renumbered(s, j) ==> i == j)
    && |t.newer| == |s.newer| && (forall q :: 0 <= q < |s.newer| ==> t.newer[q] == Renumbered(s, s.newer[q]))
    && |t.tried| == |s.tried| && (forall q :: 0 <= q < |s.tried| ==> t.tried[q] == Renumbered(s, s.tried[q]))
  }

  /** The entry an id becomes. */
  lemma EntryOf(s: State, t: State, id: int)
    requires Inv(s) && s.idCount >= 0 && Loaded(s, t, Entries(s), |s.newer|) && id in s.info
    ensures
      var r := Renumbered(s, id);
      && r in t.info && 0 <= r < Entries(s) && RecordOf(t.info[r]) == RecordOf(s.info[id])
      && t.info[r].inTried == s.info[id].inTried && t.info[r].refCount == s.info[id].refCount
      && s.info[id].addr in t.addr && t.addr[s.info[id].addr] == r
      && id == if r < |NewList(s)| then NewList(s)[r] else TriedList(s)[r - |NewList(s)|]
  {
    hide Picked, AddrOk, RandomOk, TriedOk, CountOk, NewerLoaded, TriedLoaded;
    var r := Renumbered(s, id);
    assert RefsOk(s, {}, id);
    if s.info[id].inTried { RenumberedTried(s, id); } else { RenumberedNew(s, id); }
    assert t.info[r] == Entry(s, r, |s.newer|);
    assert s.newer[..|s.newer|] == s.newer;
  }

  lemma SlotsOfLoad(s: State, t: State)
    requires Inv(s) && s.idCount >= 0 && Loaded(s, t, Entries(s), |s.newer|)
    ensures forall q :: 0 <= q < |s.tried| ==> t.tried[q] == Renumbered(s, s.tried[q])
  {
    hide Picked, AddrOk, RandomOk, NewOk, CountOk, EntriesLoaded, AddressesLoaded, NewerLoaded;
    NotAnEntry(s);
    forall q | 0 <= q < |s.tried| ensures t.tried[q] == Renumbered(s, s.tried[q]) {
      if s.tried[q] != EMPTY { RenumberedTried(s, s.tried[q]); }
    }
  }

  lemma LoadedIsSame(s: State, t: State)
    requires Inv(s) && s.idCount >= 0 && Loaded(s, t, Entries(s), |s.newer|)
    ensures SameUpToNumbers(s, t)
  {
    hide Picked, Mid, Renumbered, Entry, RecordOf;
    SlotsOfLoad(s, t);
    forall id | id in s.info ensures Renumbered(s, id) in t.info { EntryOf(s, t, id); }
    forall id | id in s.info
      ensures
        var r := Renumbered(s, id);
        && RecordOf(t.info[r]) == RecordOf(s.info[id])
        && t.info[r].inTried == s.info[id].inTried && t.info[r].refCount == s.info[id].refCount
        && s.info[id].addr in t.addr && t.addr[s.info[id].addr] == r
    {
      EntryOf(s, t, id);
    }
    forall k | k in t.info ensures exists id :: id in s.info && Renumbered(s, id) == k {
      var n := |NewList(s)|;
      RenumberedBack(s, if k < n then k else k - n);
      var id := if k < n then NewList(s)[k] else TriedList(s)[k - n];
      assert id in s.info && Renumbered(s, id) == k;
    }
    forall i, j | i in s.info && j in s.info && Renumbered(s, i) == Renumbered(s, j) ensures i == j {
      EntryOf(s, t, i);
      EntryOf(s, t, j);
    }
  }

  /** As many slots hold the new number as held the old one. */
  lemma {:induction false} SameReferences(s: State, t: State, id: int, p: nat)
    requires Inv(s) && s.idCount >= 0 && NewerLoaded(s, t, |s.newer|) && id in s.info && p <= |s.newer|
    ensures multiset(t.newer[..p])[Renumbered(s, id)] == multiset(s.newer[..p])[id]
    decreases p
  {
    hide AddrOk, RandomOk, TriedOk, CountOk, Renumbered;
    if p == 0 {
      assert t.newer[..0] == [] && s.newer[..0] == [];
    } else {
      SameReferences(s, t, id, p - 1);
      SlotCounts(s, p - 1, id);
      SlotCounts(t, p - 1, Renumbered(s, id));
      assert NewSlotOk(s, {}, p - 1);
      NumbersDiffer(s, id, s.newer[p - 1]);
    }
  }

  lemma NumbersDiffer(s: State, i: int, j: int)
    requires Inv(s) && i in s.info && (j in s.info || j == EMPTY)
    ensures s.idCount >= 0 && (Renumbered(s, i) == Renumbered(s, j) <==> i == j)
    ensures Renumbered(s, i) >= 0
  {
    hide Picked, Mid;
    NotAnEntry(s);
    if s.info[i].inTried { RenumberedTried(s, i); } else { RenumberedNew(s, i); }
    if j in s.info {
      if s.info[j].inTried { RenumberedTried(s, j); } else { RenumberedNew(s, j); }
    }
  }

  lemma LoadedNewOk(s: State, t: State)
    requires Inv(s) && s.idCount >= 0 && Loaded(s, t, Entries(s), |s.newer|)
    ensures NewOk(t, {})
  {
    hide Picked, AddrOk, RandomOk, TriedOk, CountOk, Renumbered, Entry, AddressesLoaded, TriedLoaded, Position, RecordOf;
    NotAnEntry(s);
    forall q | 0 <= q < |t.newer| ensures NewSlotOk(t, {}, q) {
      var x := s.newer[q];
      assert NewSlotOk(s, {}, q);
      if x != EMPTY { EntryOf(s, t, x); SamePosition(s, t, q / BUCKET_SIZE, s.info[x], t.info[Renumbered(s, x)]); }
    }
    forall k | k in t.info ensures RefsOk(t, {}, k) {
      var id := IdOf(s, k);
      EntryOf(s, t, id);
      assert RefsOk(s, {}, id);
      SameReferences(s, t, id, |s.newer|);
      assert t.newer[..|s.newer|] == t.newer && s.newer[..|s.newer|] == s.newer;
    }
  }

  lemma SamePosition(s: State, t: State, bucket: nat, i: Info, j: Info)
    requires t.h == s.h && t.key == s.key && RecordOf(i) == RecordOf(j)
    ensures Position(s, true, bucket, i.addr) == Position(t, true, bucket, j.addr)
    ensures TriedSlot(s, i.addr) == TriedSlot(t, j.addr)
  {
  }

  lemma IdOf(s: State, k: nat) returns (id: int)
    requires Inv(s) && s.idCount >= 0 && k < Entries(s)
    ensures id in s.info && Renumbered(s, id) == k
  {
    var n := |NewList(s)|;
    RenumberedBack(s, if k < n then k else k - n);
    id := if k < n then NewList(s)[k] else TriedList(s)[k - n];
  }

  lemma LoadedTriedOk(s: State, t: State)
    requires Inv(s) && s.idCount >= 0 && Loaded(s, t, Entries(s), |s.newer|)
    ensures TriedOk(t)
  {
    hide Picked, AddrOk, RandomOk, NewOk, CountOk, Renumbered, Entry, AddressesLoaded, NewerLoaded, RecordOf, TriedSlot;
    NotAnEntry(s);
    SlotsOfLoad(s, t);
    forall q | 0 <= q < |t.tried| && t.tried[q] != EMPTY
      ensures t.tried[q] in t.info && t.info[t.tried[q]].inTried && TriedSlot(t, t.info[t.tried[q]].addr) == q {
      var x := s.tried[q];
      EntryOf(s, t, x);
      SamePosition(s, t, 0, s.info[x], t.info[Renumbered(s, x)]);
    }
    forall k | k in t.info && t.info[k].inTried ensures t.tried[TriedSlot(t, t.info[k].addr)] == k {
      var id := IdOf(s, k);
      EntryOf(s, t, id);
      SamePosition(s, t, 0, s.info[id], t.info[k]);
    }
  }

  lemma {:induction false} RangeSize(a: nat, b: nat, r: set<int>)
    requires a <= b && forall k :: k in r <==> a <= k < b
    ensures |r| == b - a
    decreases b
  {
    if a < b {
      RangeSize(a, b - 1, r - {b - 1});
    } else {
      forall k ensures k !in r {}
      assert r == {};
    }
  }

  lemma LoadedCountOk(s: State, t: State)
    requires Inv(s) && s.idCount >= 0 && Loaded(s, t, Entries(s), |s.newer|)
    ensures CountOk(t, 0)
  {
    hide Picked, Mid, RecordOf, InfoOf, AddressesLoaded, NewerLoaded, TriedLoaded;
    ListsFacts(s);
    var n := |NewList(s)|;
    forall k | k in t.info ensures t.info[k].inTried <==> k >= n { InTriedFrom(s, k); }
    RangeSize(0, n, NewIds(t.info));
    RangeSize(n, Entries(s), TriedIds(t.info));
  }

  lemma InTriedFrom(s: State, k: nat)
    requires s.idCount >= 0 && k < Entries(s)
    ensures Entry(s, k, |s.newer|).inTried <==> k >= |NewList(s)|
  {
    hide Picked;
  }

  /** All entries are stored under the key that looking them up uses. */
  ghost predicate PortsKept(s: State) { s.byPort || forall id :: id in s.info ==> s.info[id].addr.port == 0 }

  lemma SamePorts(s: State, t: State)
    requires Inv(s) && s.idCount >= 0 && Loaded(s, t, Entries(s), |s.newer|)
    ensures PortsKept(s) <==> PortsKept(t)
  {
    hide Mid, Picked, NewList, TriedList, Renumbered, Entry, EntriesLoaded, AddressesLoaded, NewerLoaded, TriedLoaded, RecordOf;
    if PortsKept(s) {
      forall k | k in t.info ensures t.byPort || t.info[k].addr.port == 0 {
        LoadedKey(s, t, k);
        var id := IdOf(s, k);
        SameAddress(s, t, id);
      }
    } else {
      var id :| id in s.info && s.info[id].addr.port != 0;
      SameAddress(s, t, id);
    }
  }

  lemma LoadedKey(s: State, t: State, k: int)
    requires Inv(s) && s.idCount >= 0 && Loaded(s, t, Entries(s), |s.newer|) && k in t.info
    ensures 0 <= k < Entries(s)
  {
  }

  lemma SameAddress(s: State, t: State, id: int)
    requires Inv(s) && s.idCount >= 0 && Loaded(s, t, Entries(s), |s.newer|) && id in s.info
    ensures Renumbered(s, id) in t.info && t.info[Renumbered(s, id)].addr == s.info[id].addr
    ensures s.info[id].addr in t.addr && t.addr[s.info[id].addr] == Renumbered(s, id)
  {
    hide Mid, Picked, NewList, TriedList, Renumbered, Entry, EntriesLoaded, AddressesLoaded, NewerLoaded, TriedLoaded;
    EntryOf(s, t, id);
  }

  /** Loading stores addresses under the full key. */
  lemma AddressesOk(t: State)
    requires AddressesLoaded(t)
    ensures AddrOk(t) <==> PortsKept(t)
  {
    if PortsKept(t) {
      forall k | k in t.info ensures Norm(t, t.info[k].addr) == t.info[k].addr {}
    }
    forall k | AddrOk(t) && !t.byPort && k in t.info ensures t.info[k].addr.port == 0 {
      assert t.addr[t.info[k].addr] == k;
    }
  }

  /** What was loaded is itself consistent exactly when no port is dropped from the keys. */
  lemma LoadedInv(s: State, t: State)
    requires Inv(s) && s.idCount >= 0 && Loaded(s, t, Entries(s), |s.newer|) && t.idCount == Entries(s)
    ensures Inv(t) <==> PortsKept(s)
  {
    hide Picked, NewOk, TriedOk, CountOk, NewerLoaded, TriedLoaded, PortsKept, AddrOk;
    LoadedNewOk(s, t);
    LoadedTriedOk(s, t);
    LoadedCountOk(s, t);
    SamePorts(s, t);
    AddressesOk(t);
    LoadedRandomOk(s, t);
  }

  lemma LoadedRandomOk(s: State, t: State)
    requires Inv(s) && s.idCount >= 0 && Loaded(s, t, Entries(s), |s.newer|)
    ensures RandomOk(t.info, t.random)
  {
    hide Picked, Mid, AddressesLoaded, NewerLoaded, TriedLoaded, RecordOf, InfoOf;
    forall k | k in t.info ensures t.info[k].randomPos == k { assert t.info[k] == Entry(s, k, |s.newer|); }
  }

  /** A loaded entry passes exactly when it had a time of success wherever it needs one: it is stored under its own
      port, and was never tried since. */
  lemma LoadedEntry(s: State, t: State, id: int)
    requires Inv(s) && s.idCount >= 0 && Loaded(s, t, Entries(s), |s.newer|) && id in s.info && RandomOk(t.info, t.random)
    requires NewOk(t, {})
    ensures Renumbered(s, id) in t.info
    ensures AddrManCheck.EntryPasses(t, Renumbered(s, id)) <==> SuccessOk(s.info[id])
  {
    hide Picked, Mid, AddressesLoaded, NewerLoaded, TriedLoaded, NewList, TriedList, Renumbered;
    EntryOf(s, t, id);
    var r := Renumbered(s, id);
    assert RefsOk(t, {}, r);
    NeverTried(s, r);
  }

  lemma NeverTried(s: State, k: nat)
    requires s.idCount >= 0 && k < Entries(s)
    ensures Entry(s, k, |s.newer|).lastTry == 0
  {
    hide Picked;
  }

  predicate SuccessOk(i: Info) { (i.inTried ==> i.lastSuccess != 0) && i.lastSuccess >= 0 }

  /** When the consistency check at the end of a load passes: ports play no part, since addresses are stored whole. */
  lemma LoadedCheck(s: State, t: State)
    requires Inv(s) && s.idCount >= 0 && Loaded(s, t, Entries(s), |s.newer|)
    ensures AddrManCheck.Check(t) <==> s.key != 0 && forall id :: id in s.info ==> SuccessOk(s.info[id])
  {
    hide Picked, Mid, NewOk, TriedOk, RandomOk, EntriesLoaded, AddressesLoaded, NewerLoaded, TriedLoaded, NewList, TriedList, Renumbered,
         SuccessOk, AddrManCheck.EntryPasses, AddrManCheck.TriedTablePasses, AddrManCheck.NewTablePasses;
    LoadedNewOk(s, t);
    LoadedTriedOk(s, t);
    LoadedCountOk(s, t);
    LoadedRandomOk(s, t);
    AddrManCheck.RandomSize(t);
    AddrManCheck.TablesPass(t);
    forall id | id in s.info ensures Renumbered(s, id) in t.info { LoadedEntry(s, t, id); }
    forall id | id in s.info ensures AddrManCheck.EntryPasses(t, Renumbered(s, id)) <==> SuccessOk(s.info[id]) { LoadedEntry(s, t, id); }
    forall k | k in t.info ensures exists id :: id in s.info && Renumbered(s, id) == k {
      LoadedKey(s, t, k);
      var id := IdOf(s, k);
    }
  }

  /** Which entries are still found after loading: those whose key carries no port that is dropped when looking up. */
  lemma FoundAfterLoading(s: State, t: State, id: int)
    requires Inv(s) && s.idCount >= 0 && Loaded(s, t, Entries(s), |s.newer|) && id in s.info
    ensures
      var a := s.info[id].addr;
      AddrManOps.Find(t, a) == if s.byPort || a.port == 0 then Some(Renumbered(s, id)) else None
  {
    hide Picked, NewOk, TriedOk, CountOk, RandomOk, NewerLoaded, TriedLoaded, Renumbered, Entry, NewList, TriedList;
    SameAddress(s, t, id);
    var key := Norm(t, s.info[id].addr);
    if key in t.addr && key != s.info[id].addr {
      var k := t.addr[key];
      LoadedKey(s, t, k);
      var other := IdOf(s, k);
      SameAddress(s, t, other);
      assert false;
    }
  }

  /** Saving and loading a consistent manager loses nothing and changes nothing but the numbers. The result is consistent
      exactly when ports are told apart or no entry has one; otherwise the entries with a port are no longer found,
      although the consistency check at the end passes all the same. */
  lemma SavedAndLoaded(s: State)
    requires Inv(s)
    ensures
      && |s.newer| == NEW_BUCKETS * BUCKET_SIZE && s.idCount >= 0
      && var loaded := Unserialize(s.h, s.byPort, Serialize(s));
      && loaded.Some? && SameUpToNumbers(s, loaded.value) && (Inv(loaded.value) <==> PortsKept(s))
      && (AddrManCheck.Check(loaded.value) <==> s.key != 0 && forall id :: id in s.info ==> SuccessOk(s.info[id]))
      && forall id :: id in s.info ==>
           AddrManOps.Find(loaded.value, s.info[id].addr)
           == if s.byPort || s.info[id].addr.port == 0 then Some(Renumbered(s, id)) else None
  {
    hide AddrOk, RandomOk, TriedOk, CountOk, Unserialize, Serialize, Loaded, SameUpToNumbers, NewList, TriedList, PortsKept, Renumbered, AddrManOps.Find,
         AddrManCheck.Check, SuccessOk;
    RoundTrip(s);
    var t := Unserialize(s.h, s.byPort, Serialize(s)).value;
    LoadedIsSame(s, t);
    LoadedInv(s, t);
    LoadedCheck(s, t);
    forall id | id in s.info
      ensures AddrManOps.Find(t, s.info[id].addr) == if s.byPort || s.info[id].addr.port == 0 then Some(Renumbered(s, id)) else None
    {
      FoundAfterLoading(s, t, id);
    }
  }

  /** One announced address with a port, where ports are not told apart, is not found any more once it was saved and
      loaded. */
  lemma PortLost(key: nat)
    ensures
      var a := Service(1, 8333);
      var s := AddrManOps.Run(AddrManOps.Spread(), key, false, [AddrManOps.Announcement(1, 8333)]);
      && |s.newer| == NEW_BUCKETS * BUCKET_SIZE && s.idCount >= 0 && AddrManOps.Find(s, a) == Some(0)
      && var loaded := Unserialize(s.h, s.byPort, Serialize(s));
      && loaded.Some? && SameUpToNumbers(s, loaded.value) && AddrManOps.Find(loaded.value, a).None? && !Inv(loaded.value)
      && (key != 0 ==> AddrManCheck.Check(loaded.value))
  {
    hide Mid, AddrManOps.Introduce, Unserialize, Serialize, SameUpToNumbers, Renumbered, AddrManCheck.Check;
    var ops := [AddrManOps.Announcement(1, 8333)];
    var s0 := AddrManOps.Run(AddrManOps.Spread(), key, false, []);
    var s := AddrManOps.Run(AddrManOps.Spread(), key, false, ops);
    assert ops[..0] == [];
    AddrManOps.IntroduceFree(s0, ops[0].a, 0, 0, 0);
    assert s.info[0].addr == Service(1, 8333);
    SavedAndLoaded(s);
  }
}
