/**
 The address manager as a value: two id tables, two hash tables of slots, a random order and two counters
 that must all agree. There is one function per operation of the source; bucket hashes are arbitrary
 functions and random numbers are arguments. The invariant `Inv` is kept by every operation.
 */
module AddrMan {

  datatype Service = Service(ip: nat, port: nat)

  /** What a peer announces; service flags are the set of bits that are on. */
  datatype Address = Address(service: Service, services: set<nat>, time: int)

  datatype Info = Info(addr: Service, services: set<nat>, time: int, source: nat, lastTry: int, lastCount: int,
                       lastSuccess: int, attempts: int, refCount: int, inTried: bool, randomPos: int)

  const TRIED_BUCKETS := 256
  const NEW_BUCKETS := 1024
  const BUCKET_SIZE := 64
  const MAX_REFS := 8
  const DAY := 24 * 60 * 60
  const EMPTY := -1

  /** The keyed hashes behind bucket and position selection. */
  datatype Hashers = Hashers(tried: (nat, Service) -> nat, newer: (nat, Service, nat) -> nat, place: (nat, bool, nat, Service) -> nat)

  type InfoMap = map<int, Info>

  /** Both tables are stored row by row: slot `64 * bucket + position`. */
  datatype State = State(h: Hashers, key: nat, byPort: bool, idCount: int, info: InfoMap, addr: map<Service, int>,
                         random: seq<int>, nTried: int, nNew: int, tried: seq<int>, newer: seq<int>, lastGood: int)

  // ---------------------------------------------------------------- slots

  function TriedBucket(s: State, a: Service): nat { s.h.tried(s.key, a) % TRIED_BUCKETS }

  function NewBucket(s: State, a: Service, source: nat): nat { s.h.newer(s.key, a, source) % NEW_BUCKETS }

  function Position(s: State, isNew: bool, bucket: nat, a: Service): nat { s.h.place(s.key, isNew, bucket, a) % BUCKET_SIZE }

  function TriedSlot(s: State, a: Service): (k: nat)
    ensures k < TRIED_BUCKETS * BUCKET_SIZE
  {
    var b := TriedBucket(s, a);
    b * BUCKET_SIZE + Position(s, false, b, a)
  }

  function NewSlot(s: State, a: Service, bucket: nat): (k: nat)
    requires bucket < NEW_BUCKETS
    ensures k < NEW_BUCKETS * BUCKET_SIZE
    ensures k / BUCKET_SIZE == bucket && k % BUCKET_SIZE == Position(s, true, bucket, a)
  {
    bucket * BUCKET_SIZE + Position(s, true, bucket, a)
  }

  /** The key under which an address is looked up. */
  function Norm(s: State, a: Service): Service { if s.byPort then a else a.(port := 0) }

  // ---------------------------------------------------------------- the invariant

  /** Addresses and ids are in bijection. */
  ghost predicate AddrOk(s: State) {
    && (forall id :: id in s.info ==> Norm(s, s.info[id].addr) in s.addr && s.addr[Norm(s, s.info[id].addr)] == id)
    && (forall a :: a in s.addr ==> s.addr[a] in s.info && Norm(s, s.info[s.addr[a]].addr) == a)
  }

  /** The random order lists every id once, and every entry knows where it stands. */
  ghost predicate RandomOk(info: InfoMap, random: seq<int>) {
    && (forall id :: id in info ==> 0 <= info[id].randomPos < |random| && random[info[id].randomPos] == id)
    && (forall k :: 0 <= k < |random| ==> random[k] in info && info[random[k]].randomPos == k)
  }

  /** What may stand in a slot of the new table. */
  predicate NewSlotOk(s: State, limbo: set<int>, k: nat)
    requires k < |s.newer|
  {
    var x := s.newer[k];
    x == EMPTY || (x in s.info && !s.info[x].inTried && x !in limbo && Position(s, true, k / BUCKET_SIZE, s.info[x].addr) == k % BUCKET_SIZE)
  }

  /** An entry's reference count is the number of new slots that hold it: none for tried entries and for
      those in `limbo` (on their way between tables), one to eight for the others. */
  predicate RefsOk(s: State, limbo: set<int>, id: int)
    requires id in s.info
  {
    && s.info[id].refCount == multiset(s.newer)[id]
    && (if s.info[id].inTried || id in limbo then s.info[id].refCount == 0 else 1 <= s.info[id].refCount <= MAX_REFS)
  }

  ghost predicate NewOk(s: State, limbo: set<int>) {
    && |s.newer| == NEW_BUCKETS * BUCKET_SIZE && EMPTY !in s.info
    && (forall k :: 0 <= k < |s.newer| ==> NewSlotOk(s, limbo, k))
    && (forall id :: id in s.info ==> RefsOk(s, limbo, id))
  }

  /** Tried entries sit in exactly the slot their address hashes to. */
  ghost predicate TriedOk(s: State) {
    && |s.tried| == TRIED_BUCKETS * BUCKET_SIZE
    && (forall k :: 0 <= k < |s.tried| && s.tried[k] != EMPTY ==>
          s.tried[k] in s.info && s.info[s.tried[k]].inTried && TriedSlot(s, s.info[s.tried[k]].addr) == k)
    && (forall id :: id in s.info && s.info[id].inTried ==> s.tried[TriedSlot(s, s.info[id].addr)] == id)
  }

  function NewIds(info: InfoMap): set<int> { set id | id in info && !info[id].inTried }
  function TriedIds(info: InfoMap): set<int> { set id | id in info && info[id].inTried }

  /** The counters are exact, except that `off` entries outside the tried table are not counted yet. */
  ghost predicate CountOk(s: State, off: int) {
    s.nNew + off == |NewIds(s.info)| && s.nTried == |TriedIds(s.info)|
  }

  ghost predicate IdsOk(s: State, limbo: set<int>) {
    && 0 <= s.idCount && (forall id :: id in s.info ==> 0 <= id < s.idCount)
    && (forall id :: id in limbo ==> id in s.info && !s.info[id].inTried)
  }

  ghost predicate Mid(s: State, limbo: set<int>, off: int) {
    AddrOk(s) && RandomOk(s.info, s.random) && NewOk(s, limbo) && TriedOk(s) && CountOk(s, off) && IdsOk(s, limbo)
  }

  lemma MidFacts(s: State, limbo: set<int>, off: int)
    requires Mid(s, limbo, off)
    ensures |s.newer| == NEW_BUCKETS * BUCKET_SIZE && |s.tried| == TRIED_BUCKETS * BUCKET_SIZE
    ensures limbo <= s.info.Keys && EMPTY !in s.info
    ensures forall id :: id in limbo ==> !s.info[id].inTried && s.info[id].refCount == 0
    ensures forall k :: 0 <= k < |s.newer| ==> s.newer[k] == EMPTY || (s.newer[k] in s.info && s.newer[k] !in limbo)
  {
    forall id | id in limbo ensures id in s.info && s.info[id].refCount == 0 { assert RefsOk(s, limbo, id); }
    forall k | 0 <= k < |s.newer| ensures s.newer[k] == EMPTY || (s.newer[k] in s.info && s.newer[k] !in limbo) { assert NewSlotOk(s, limbo, k); }
  }

  /** The consistency that holds between operations. */
  ghost predicate Inv(s: State) { Mid(s, {}, 0) }

  // ---------------------------------------------------------------- small steps

  function SwapRandom(s: State, i: nat, j: nat): State
    requires i < |s.random| && j < |s.random| && s.random[i] in s.info && s.random[j] in s.info
  {
    if i == j then s
    else
      var a, b := s.random[i], s.random[j];
      var info1 := s.info[a := s.info[a].(randomPos := j)];
      s.(info := info1[b := info1[b].(randomPos := i)], random := s.random[i := b][j := a])
  }

  function Create(s: State, a: Address, source: nat): State {
    s.(idCount := s.idCount + 1,
       info := s.info[s.idCount := Info(a.service, a.services, a.time, source, 0, 0, 0, 0, 0, false, |s.random|)],
       addr := s.addr[Norm(s, a.service) := s.idCount],
       random := s.random + [s.idCount])
  }

  predicate Deletable(s: State, id: int) {
    && id in s.info && |s.random| > 0 && 0 <= s.info[id].randomPos < |s.random|
    && s.random[s.info[id].randomPos] in s.info && s.random[|s.random| - 1] in s.info
  }

  function Delete(s: State, id: int): State
    requires Deletable(s, id)
  {
    var swapped := SwapRandom(s, s.info[id].randomPos, |s.random| - 1);
    swapped.(random := swapped.random[..|s.random| - 1], addr := s.addr - {Norm(s, s.info[id].addr)},
             info := swapped.info - {id}, nNew := s.nNew - 1)
  }

  /** Drops one reference: the slot is emptied and the entry's count lowered. */
  function Unref(s: State, k: nat): State
    requires k < |s.newer| && s.newer[k] in s.info
  {
    var x := s.newer[k];
    s.(info := s.info[x := s.info[x].(refCount := s.info[x].refCount - 1)], newer := s.newer[k := EMPTY])
  }

  function ClearNew(s: State, k: nat): State
    requires k < |s.newer|
    requires s.newer[k] != EMPTY ==> s.newer[k] in s.info
    requires s.newer[k] != EMPTY && s.info[s.newer[k]].refCount == 1 ==> Deletable(Unref(s, k), s.newer[k])
  {
    if s.newer[k] == EMPTY then s
    else
      var x := s.newer[k];
      var s1 := Unref(s, k);
      if s1.info[x].refCount == 0 then Delete(s1, x) else s1
  }

  /** Takes the empty slot `k` for `id`. */
  function Place(s: State, id: int, k: nat): State
    requires id in s.info && k < |s.newer|
  {
    s.(info := s.info[id := s.info[id].(refCount := s.info[id].refCount + 1)], newer := s.newer[k := id])
  }

  // ---------------------------------------------------------------- small steps keep the structures in step

  /** Same entries, same addresses, same sides of the new/tried divide. */
  ghost predicate Kin(i: InfoMap, j: InfoMap) {
    i.Keys == j.Keys && forall id :: id in i ==> i[id].addr == j[id].addr && i[id].inTried == j[id].inTried
  }

  lemma KinIds(i: InfoMap, j: InfoMap)
    requires Kin(i, j)
    ensures NewIds(i) == NewIds(j) && TriedIds(i) == TriedIds(j)
  {
    forall id ensures id in NewIds(i) <==> id in NewIds(j) {}
    forall id ensures id in TriedIds(i) <==> id in TriedIds(j) {}
  }

  /** The structures that only depend on addresses and sides. */
  ghost predicate Frame(s: State, limbo: set<int>, off: int) {
    AddrOk(s) && TriedOk(s) && CountOk(s, off) && IdsOk(s, limbo)
  }

  lemma KinFrame(s: State, s': State, limbo: set<int>, off: int)
    requires Frame(s, limbo, off) && Kin(s.info, s'.info)
    requires s' == s.(info := s'.info, random := s'.random, newer := s'.newer, lastGood := s'.lastGood)
    ensures Frame(s', limbo, off)
  {
    KinIds(s.info, s'.info);
  }

  /** What swapping does, entry by entry and place by place. */
  lemma SwapEffect(s: State, i: nat, j: nat)
    requires i < |s.random| && j < |s.random| && s.random[i] in s.info && s.random[j] in s.info && (i != j ==> s.random[i] != s.random[j])
    ensures
      var s', a, b := SwapRandom(s, i, j), s.random[i], s.random[j];
      && s' == s.(info := s'.info, random := s'.random) && s'.info.Keys == s.info.Keys && |s'.random| == |s.random|
      && (forall id :: id in s.info ==> s'.info[id] == s.info[id].(randomPos := s'.info[id].randomPos))
      && (i != j ==> forall id :: id in s.info ==> s'.info[id].randomPos == if id == a then j else if id == b then i else s.info[id].randomPos)
      && (forall k :: 0 <= k < |s.random| ==> s'.random[k] == if k == i then b else if k == j then a else s.random[k])
  {
  }

  lemma SwapRandomOk(s: State, i: nat, j: nat)
    requires RandomOk(s.info, s.random) && i < |s.random| && j < |s.random|
    ensures RandomOk(SwapRandom(s, i, j).info, SwapRandom(s, i, j).random)
    ensures SwapRandom(s, i, j).info.Keys == s.info.Keys
    ensures forall id :: id in s.info ==> SwapRandom(s, i, j).info[id] == s.info[id].(randomPos := SwapRandom(s, i, j).info[id].randomPos)
    ensures SwapRandom(s, i, j) == s.(info := SwapRandom(s, i, j).info, random := SwapRandom(s, i, j).random)
    ensures |SwapRandom(s, i, j).random| == |s.random|
    ensures SwapRandom(s, i, j).info[s.random[i]].randomPos == j
  {
    hide SwapRandom;
    assert i != j ==> s.random[i] != s.random[j] by { assert s.info[s.random[i]].randomPos == i; }
    SwapEffect(s, i, j);
    if i == j { SwapSame(s, i); }
  }

  lemma SwapSame(s: State, i: nat)
    requires i < |s.random| && s.random[i] in s.info
    ensures SwapRandom(s, i, i) == s
  {
  }

  ghost predicate SameRefs(i: InfoMap, j: InfoMap) {
    i.Keys == j.Keys && forall id :: id in i ==> i[id].refCount == j[id].refCount
  }

  lemma SameRefsNew(s: State, s': State, limbo: set<int>)
    requires NewOk(s, limbo) && Kin(s.info, s'.info) && SameRefs(s.info, s'.info)
    requires s'.newer == s.newer && s'.h == s.h && s'.key == s.key
    ensures NewOk(s', limbo)
  {
    forall k | 0 <= k < |s'.newer| ensures NewSlotOk(s', limbo, k) { assert NewSlotOk(s, limbo, k); }
    forall id | id in s'.info ensures RefsOk(s', limbo, id) { assert RefsOk(s, limbo, id); }
  }

  /** Changing entries without changing address, side and count disturbs nothing but the random order. */
  lemma AlikeKeeps(s: State, s': State, limbo: set<int>, off: int)
    requires Mid(s, limbo, off) && Kin(s.info, s'.info) && SameRefs(s.info, s'.info)
    requires s' == s.(info := s'.info, random := s'.random, lastGood := s'.lastGood)
    requires RandomOk(s'.info, s'.random)
    ensures Mid(s', limbo, off)
  {
    hide Kin, SameRefs, AddrOk, TriedOk, CountOk, IdsOk, NewOk, RandomOk;
    KinFrame(s, s', limbo, off);
    SameRefsNew(s, s', limbo);
  }

  /** The last id of the random order, already out of every table, disappears. */
  function Dropped(s: State, id: int): State
    requires id in s.info && |s.random| > 0
  {
    s.(random := s.random[..|s.random| - 1], addr := s.addr - {Norm(s, s.info[id].addr)}, info := s.info - {id}, nNew := s.nNew - 1)
  }

  lemma DropFrame(s: State, id: int, limbo: set<int>, off: int)
    requires Frame(s, limbo, off) && id in limbo && |s.random| > 0
    ensures Frame(Dropped(s, id), limbo - {id}, off)
  {
    var s' := Dropped(s, id);
    assert NewIds(s'.info) == NewIds(s.info) - {id};
    assert TriedIds(s'.info) == TriedIds(s.info);
  }

  lemma DropNew(s: State, id: int, limbo: set<int>)
    requires NewOk(s, limbo) && id in limbo && id in s.info && |s.random| > 0
    ensures NewOk(Dropped(s, id), limbo - {id})
  {
    var s' := Dropped(s, id);
    forall k | 0 <= k < |s'.newer| ensures NewSlotOk(s', limbo - {id}, k) { assert NewSlotOk(s, limbo, k); }
    forall i | i in s'.info ensures RefsOk(s', limbo - {id}, i) { assert RefsOk(s, limbo, i); }
  }

  lemma DropRandom(s: State, id: int)
    requires RandomOk(s.info, s.random) && id in s.info && s.info[id].randomPos == |s.random| - 1
    ensures RandomOk(Dropped(s, id).info, Dropped(s, id).random)
  {
  }

  lemma DeleteKeeps(s: State, id: int, limbo: set<int>, off: int)
    requires Mid(s, limbo, off) && id in limbo
    ensures Deletable(s, id)
    ensures Mid(Delete(s, id), limbo - {id}, off)
    ensures Delete(s, id).info.Keys == s.info.Keys - {id}
    ensures forall i :: i in Delete(s, id).info ==> Delete(s, id).info[i] == s.info[i].(randomPos := Delete(s, id).info[i].randomPos)
  {
    hide AddrOk, TriedOk, CountOk, NewOk, RandomOk, SwapRandom;
    MoveToEnd(s, id);
    var swapped := SwapRandom(s, s.info[id].randomPos, |s.random| - 1);
    AlikeKeeps(s, swapped, limbo, off);
    DropFrame(swapped, id, limbo, off);
    DropNew(swapped, id, limbo);
    DropRandom(swapped, id);
    assert Delete(s, id) == Dropped(swapped, id);
  }

  lemma MoveToEnd(s: State, id: int)
    requires RandomOk(s.info, s.random) && id in s.info
    ensures Deletable(s, id)
    ensures
      var swapped := SwapRandom(s, s.info[id].randomPos, |s.random| - 1);
      && RandomOk(swapped.info, swapped.random) && Kin(s.info, swapped.info) && SameRefs(s.info, swapped.info)
      && swapped.info[id].randomPos == |s.random| - 1
      && swapped == s.(info := swapped.info, random := swapped.random) && |swapped.random| == |s.random|
      && (forall i :: i in s.info ==> swapped.info[i] == s.info[i].(randomPos := swapped.info[i].randomPos))
  {
    hide SwapRandom;
    assert s.random[s.info[id].randomPos] == id;
    SwapRandomOk(s, s.info[id].randomPos, |s.random| - 1);
  }

  lemma CountUpdate(q: seq<int>, k: nat, x: int, i: int)
    requires k < |q|
    ensures multiset(q[k := x])[i] == multiset(q)[i] - (if q[k] == i then 1 else 0) + (if x == i then 1 else 0)
  {
    assert q == q[..k] + [q[k]] + q[k + 1..];
    assert q[k := x] == q[..k] + [x] + q[k + 1..];
  }

  lemma Occurs(q: seq<int>, k: nat)
    requires k < |q|
    ensures multiset(q)[q[k]] >= 1
  {
    assert q[k] in multiset(q);
  }

  /** A change of reference counts and slots only. */
  lemma RefChange(s: State, s': State, limbo: set<int>, limbo': set<int>, off: int)
    requires Mid(s, limbo, off) && NewOk(s', limbo') && IdsOk(s, limbo')
    requires Kin(s.info, s'.info) && (forall id :: id in s.info ==> s'.info[id].randomPos == s.info[id].randomPos)
    requires s' == s.(info := s'.info, newer := s'.newer)
    ensures Mid(s', limbo', off)
  {
    hide AddrOk, TriedOk, CountOk, NewOk;
    KinFrame(s, s', limbo', off);
    SamePosRandom(s.info, s'.info, s.random);
  }

  lemma SamePosRandom(i: InfoMap, j: InfoMap, random: seq<int>)
    requires RandomOk(i, random) && i.Keys == j.Keys && (forall id :: id in i ==> j[id].randomPos == i[id].randomPos)
    ensures RandomOk(j, random)
  {
    forall id | id in j ensures 0 <= j[id].randomPos < |random| && random[j[id].randomPos] == id { assert id in i; }
  }

  ghost function LimboAfter(s: State, k: nat, limbo: set<int>): set<int>
    requires k < |s.newer| && s.newer[k] in s.info
  {
    if s.info[s.newer[k]].refCount == 1 then limbo + {s.newer[k]} else limbo
  }

  /** An entry whose last reference went is in no slot any more. */
  lemma UnrefNew(s: State, k: nat, limbo: set<int>)
    requires NewOk(s, limbo) && k < |s.newer| && s.newer[k] != EMPTY
    ensures s.newer[k] in s.info && s.newer[k] !in limbo && !s.info[s.newer[k]].inTried && s.info[s.newer[k]].refCount >= 1
    ensures NewOk(Unref(s, k), LimboAfter(s, k, limbo))
  {
    assert NewSlotOk(s, limbo, k);
    var x := s.newer[k];
    var s', limbo' := Unref(s, k), LimboAfter(s, k, limbo);
    assert RefsOk(s, limbo, x);
    Occurs(s.newer, k);
    forall j | 0 <= j < |s'.newer| ensures NewSlotOk(s', limbo', j) {
      assert NewSlotOk(s, limbo, j);
      Occurs(s'.newer, j);
    }
    forall i | i in s'.info ensures RefsOk(s', limbo', i) {
      assert RefsOk(s, limbo, i);
      CountUpdate(s.newer, k, EMPTY, i);
    }
  }

  lemma UnrefKeeps(s: State, k: nat, limbo: set<int>, off: int)
    requires Mid(s, limbo, off) && k < |s.newer| && s.newer[k] != EMPTY
    ensures s.newer[k] in s.info && s.newer[k] !in limbo && s.info[s.newer[k]].refCount >= 1
    ensures Mid(Unref(s, k), LimboAfter(s, k, limbo), off)
  {
    hide AddrOk, TriedOk, CountOk, NewOk, RandomOk;
    UnrefNew(s, k, limbo);
    RefChange(s, Unref(s, k), limbo, LimboAfter(s, k, limbo), off);
  }

  /** ClearNew empties one slot; at most the entry that stood there is affected, and only its last
      reference removes it. */
  lemma ClearNewKeeps(s: State, k: nat, limbo: set<int>, off: int)
    requires Mid(s, limbo, off) && k < |s.newer|
    ensures s.newer[k] != EMPTY ==> s.newer[k] in s.info && s.newer[k] !in limbo
    ensures s.newer[k] != EMPTY && s.info[s.newer[k]].refCount == 1 ==> Deletable(Unref(s, k), s.newer[k])
    ensures Mid(ClearNew(s, k), limbo, off)
    ensures ClearNew(s, k).newer == s.newer[k := EMPTY]
    ensures ClearNew(s, k).info.Keys == s.info.Keys - (if s.newer[k] != EMPTY && s.info[s.newer[k]].refCount == 1 then {s.newer[k]} else {})
    ensures forall i :: i in ClearNew(s, k).info && i != s.newer[k] ==>
              ClearNew(s, k).info[i] == s.info[i].(randomPos := ClearNew(s, k).info[i].randomPos)
  {
    hide AddrOk, TriedOk, CountOk, NewOk, RandomOk, Deletable, Delete;
    if s.newer[k] != EMPTY {
      var x := s.newer[k];
      UnrefKeeps(s, k, limbo, off);
      if s.info[x].refCount == 1 {
        DeleteKeeps(Unref(s, k), x, limbo + {x}, off);
        assert limbo + {x} - {x} == limbo;
        DeleteNewer(Unref(s, k), x);
      }
    } else {
      assert s.newer[k := EMPTY] == s.newer;
    }
  }

  lemma DeleteNewer(s: State, id: int)
    requires Deletable(s, id)
    ensures Delete(s, id).newer == s.newer
  {
  }

  lemma PlaceNew(s: State, id: int, bucket: nat, limbo: set<int>)
    requires NewOk(s, limbo) && id in s.info && !s.info[id].inTried && s.info[id].refCount < MAX_REFS
    requires bucket < NEW_BUCKETS && s.newer[NewSlot(s, s.info[id].addr, bucket)] == EMPTY && id != EMPTY
    ensures NewOk(Place(s, id, NewSlot(s, s.info[id].addr, bucket)), limbo - {id})
  {
    var k := NewSlot(s, s.info[id].addr, bucket);
    var s' := Place(s, id, k);
    forall j | 0 <= j < |s'.newer| ensures NewSlotOk(s', limbo - {id}, j) { assert NewSlotOk(s, limbo, j); }
    forall i | i in s'.info ensures RefsOk(s', limbo - {id}, i) {
      assert RefsOk(s, limbo, i);
      CountUpdate(s.newer, k, id, i);
    }
  }

  lemma PlaceKeeps(s: State, id: int, bucket: nat, limbo: set<int>, off: int)
    requires Mid(s, limbo, off) && id in s.info && !s.info[id].inTried && s.info[id].refCount < MAX_REFS
    requires bucket < NEW_BUCKETS && s.newer[NewSlot(s, s.info[id].addr, bucket)] == EMPTY
    ensures Mid(Place(s, id, NewSlot(s, s.info[id].addr, bucket)), limbo - {id}, off)
  {
    hide AddrOk, TriedOk, CountOk, RandomOk;
    PlaceNew(s, id, bucket, limbo);
    RefChange(s, Place(s, id, NewSlot(s, s.info[id].addr, bucket)), limbo, limbo - {id}, off);
  }
}
