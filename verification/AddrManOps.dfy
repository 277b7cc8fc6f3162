/**
 The operations of the address manager, built from the small steps of module AddrMan: moving an entry to the
 tried table, adding, and the rest. Each keeps the invariant, and its effect on the known addresses is stated.
 */
module AddrManOps {
  import Bits
  import opened Collections
  import opened AddrMan

  // ---------------------------------------------------------------- leaving the new table

  function Without(q: seq<int>, id: int): (r: seq<int>) {
    seq(|q|, k requires 0 <= k < |q| => if q[k] == id then EMPTY else q[k])
  }

  lemma {:induction false} WithoutCount(q: seq<int>, id: int, i: int)
    requires i != EMPTY
    ensures multiset(Without(q, id))[i] == if i == id then 0 else multiset(q)[i]
  {
    if q != [] {
      var n := |q| - 1;
      WithoutCount(q[..n], id, i);
      assert q == q[..n] + [q[n]];
      assert Without(q, id) == Without(q[..n], id) + [if q[n] == id then EMPTY else q[n]];
    }
  }

  /** All references of an entry are dropped, and it is no longer counted as new. */
  function LeaveNew(s: State, id: int): State
    requires id in s.info
  {
    s.(info := s.info[id := s.info[id].(refCount := s.info[id].refCount - multiset(s.newer)[id])],
       newer := Without(s.newer, id), nNew := s.nNew - 1)
  }

  lemma LeaveNewSlots(s: State, id: int)
    requires NewOk(s, {}) && id in s.info && !s.info[id].inTried
    ensures NewOk(LeaveNew(s, id), {id}) && LeaveNew(s, id).info[id].refCount == 0
  {
    var s' := LeaveNew(s, id);
    assert RefsOk(s, {}, id);
    forall k | 0 <= k < |s'.newer| ensures NewSlotOk(s', {id}, k) { assert NewSlotOk(s, {}, k); }
    forall i | i in s'.info ensures RefsOk(s', {id}, i) {
      assert RefsOk(s, {}, i);
      WithoutCount(s.newer, id, i);
    }
  }

  lemma LeaveNewKeeps(s: State, id: int)
    requires Inv(s) && id in s.info && !s.info[id].inTried
    ensures Mid(LeaveNew(s, id), {id}, 1) && LeaveNew(s, id).info[id].refCount == 0
  {
    hide AddrOk, TriedOk, NewOk, RandomOk;
    LeaveNewSlots(s, id);
    var s' := LeaveNew(s, id);
    KinFrame(s, s'.(nNew := s.nNew), {id}, 0);
    SamePosRandom(s.info, s'.info, s.random);
    AddrDepends(s'.(nNew := s.nNew), s');
  }

  /** The bijection and the tried table do not look at the counters. */
  lemma AddrDepends(s: State, s': State)
    requires s' == s.(nNew := s'.nNew)
    ensures AddrOk(s) ==> AddrOk(s')
    ensures TriedOk(s) ==> TriedOk(s')
  {
  }

  // ---------------------------------------------------------------- in and out of the tried table

  function Evict(s: State, k: nat): State
    requires k < |s.tried| && s.tried[k] in s.info
  {
    var e := s.tried[k];
    s.(info := s.info[e := s.info[e].(inTried := false)], tried := s.tried[k := EMPTY], nTried := s.nTried - 1)
  }

  lemma EvictIds(i: InfoMap, e: int)
    requires e in i && i[e].inTried
    ensures NewIds(i[e := i[e].(inTried := false)]) == NewIds(i) + {e}
    ensures TriedIds(i[e := i[e].(inTried := false)]) == TriedIds(i) - {e}
  {
  }

  lemma EvictCounts(s: State, k: nat, limbo: set<int>, off: int)
    requires CountOk(s, off) && IdsOk(s, limbo) && k < |s.tried| && s.tried[k] in s.info && s.info[s.tried[k]].inTried
    ensures CountOk(Evict(s, k), off + 1) && IdsOk(Evict(s, k), limbo + {s.tried[k]})
  {
    EvictIds(s.info, s.tried[k]);
  }

  lemma EvictKeeps(s: State, k: nat, limbo: set<int>, off: int)
    requires Mid(s, limbo, off) && k < |s.tried| && s.tried[k] != EMPTY
    ensures s.tried[k] in s.info && s.info[s.tried[k]].inTried && s.info[s.tried[k]].refCount == 0 && s.tried[k] !in limbo
    ensures Mid(Evict(s, k), limbo + {s.tried[k]}, off + 1)
  {
    hide AddrOk, NewOk, TriedOk, RandomOk, CountOk, IdsOk;
    EvictTables(s, k, limbo);
    EvictCounts(s, k, limbo, off);
    var s' := Evict(s, k);
    SameAddrs(s, s');
    SamePosRandom(s.info, s'.info, s.random);
  }

  lemma SameAddrs(s: State, s': State)
    requires AddrOk(s) && s'.addr == s.addr && s'.byPort == s.byPort && s'.info.Keys == s.info.Keys
    requires forall id :: id in s.info ==> s'.info[id].addr == s.info[id].addr
    ensures AddrOk(s')
  {
  }

  lemma EvictTables(s: State, k: nat, limbo: set<int>)
    requires TriedOk(s) && NewOk(s, limbo) && IdsOk(s, limbo) && k < |s.tried| && s.tried[k] != EMPTY
    ensures s.tried[k] in s.info && s.info[s.tried[k]].inTried && s.info[s.tried[k]].refCount == 0 && s.tried[k] !in limbo
    ensures TriedOk(Evict(s, k)) && NewOk(Evict(s, k), limbo + {s.tried[k]})
  {
    var e, s', limbo' := s.tried[k], Evict(s, k), limbo + {s.tried[k]};
    assert RefsOk(s, limbo, e);
    forall j | 0 <= j < |s'.newer| ensures NewSlotOk(s', limbo', j) { assert NewSlotOk(s, limbo, j); }
    forall i | i in s'.info ensures RefsOk(s', limbo', i) { assert RefsOk(s, limbo, i); }
  }

  function EnterTried(s: State, id: int): State
    requires id in s.info && TriedSlot(s, s.info[id].addr) < |s.tried|
  {
    s.(info := s.info[id := s.info[id].(inTried := true)], tried := s.tried[TriedSlot(s, s.info[id].addr) := id], nTried := s.nTried + 1)
  }

  lemma EnterIds(i: InfoMap, e: int)
    requires e in i && !i[e].inTried
    ensures NewIds(i[e := i[e].(inTried := true)]) == NewIds(i) - {e}
    ensures TriedIds(i[e := i[e].(inTried := true)]) == TriedIds(i) + {e}
  {
  }

  lemma EnterTables(s: State, id: int, limbo: set<int>)
    requires TriedOk(s) && NewOk(s, limbo) && id in limbo && id in s.info && !s.info[id].inTried
    requires s.tried[TriedSlot(s, s.info[id].addr)] == EMPTY
    ensures TriedOk(EnterTried(s, id)) && NewOk(EnterTried(s, id), limbo - {id})
  {
    var s', limbo' := EnterTried(s, id), limbo - {id};
    forall j | 0 <= j < |s'.newer| ensures NewSlotOk(s', limbo', j) { assert NewSlotOk(s, limbo, j); }
    forall i | i in s'.info ensures RefsOk(s', limbo', i) { assert RefsOk(s, limbo, i); }
  }

  lemma EnterCounts(s: State, id: int, limbo: set<int>, off: int)
    requires CountOk(s, off) && IdsOk(s, limbo) && id in s.info && !s.info[id].inTried && TriedSlot(s, s.info[id].addr) < |s.tried|
    ensures CountOk(EnterTried(s, id), off - 1) && IdsOk(EnterTried(s, id), limbo - {id})
  {
    EnterIds(s.info, id);
  }

  lemma EnterKeeps(s: State, id: int, limbo: set<int>, off: int)
    requires Mid(s, limbo, off) && id in limbo && |s.tried| == TRIED_BUCKETS * BUCKET_SIZE
    requires s.tried[TriedSlot(s, s.info[id].addr)] == EMPTY
    ensures Mid(EnterTried(s, id), limbo - {id}, off - 1)
  {
    hide AddrOk, NewOk, TriedOk, RandomOk, CountOk;
    EnterTables(s, id, limbo);
    EnterCounts(s, id, limbo, off);
    var s' := EnterTried(s, id);
    SameAddrs(s, s');
    SamePosRandom(s.info, s'.info, s.random);
  }

  /** The slot an evicted entry goes back to: the one of its own source. */
  function HomeSlot(s: State, i: Info): nat { NewSlot(s, i.addr, NewBucket(s, i.addr, i.source)) }

  /** Makes room in a tried slot: the entry there returns to the new table, deleting whatever is in its way. */
  ghost function MakeRoom(s: State, k: nat, limbo: set<int>, off: int): State
    requires Mid(s, limbo, off) && k < |s.tried|
  {
    if s.tried[k] == EMPTY then s
    else
      EvictKeeps(s, k, limbo, off);
      var e := s.tried[k];
      var s1 := Evict(s, k);
      var home := HomeSlot(s1, s1.info[e]);
      ClearNewKeeps(s1, home, limbo + {e}, off + 1);
      var s2 := ClearNew(s1, home);
      Place(s2, e, home).(nNew := s2.nNew + 1)
  }

  lemma ClearNewSame(s: State, k: nat)
    requires k < |s.newer| && (s.newer[k] != EMPTY ==> s.newer[k] in s.info)
    requires s.newer[k] != EMPTY && s.info[s.newer[k]].refCount == 1 ==> Deletable(Unref(s, k), s.newer[k])
    ensures
      var s' := ClearNew(s, k);
      s'.h == s.h && s'.key == s.key && s'.byPort == s.byPort && s'.tried == s.tried && s'.nTried == s.nTried && s'.idCount == s.idCount
  {
  }

  /** The entries that are lost when the slot `k` of the new table is cleared. */
  ghost function Lost(s: State, k: nat): set<int>
    requires k < |s.newer|
  {
    if s.newer[k] in s.info && s.info[s.newer[k]].refCount == 1 then {s.newer[k]} else {}
  }

  lemma MakeRoomKeeps(s: State, k: nat, limbo: set<int>, off: int)
    requires Mid(s, limbo, off) && k < |s.tried|
    ensures Mid(MakeRoom(s, k, limbo, off), limbo, off)
    ensures
      var s' := MakeRoom(s, k, limbo, off);
      && s'.tried == s.tried[k := EMPTY] && s'.h == s.h && s'.key == s.key && s'.byPort == s.byPort
      && (s.tried[k] == EMPTY ==> s' == s)
      && (s.tried[k] != EMPTY ==>
            && s.tried[k] in s.info && s.tried[k] !in limbo
            && HomeSlot(s, s.info[s.tried[k]]) < |s.newer|
            && s.tried[k] in s'.info && !s'.info[s.tried[k]].inTried && s'.info[s.tried[k]].refCount == 1
            && s'.newer[HomeSlot(s, s.info[s.tried[k]])] == s.tried[k]
            && s'.info.Keys == s.info.Keys - Lost(s, HomeSlot(s, s.info[s.tried[k]])))
      && limbo <= s'.info.Keys
      && (forall id :: id in limbo ==> s'.info[id].addr == s.info[id].addr)
  {
    hide Mid, ClearNew;
    MidFacts(s, limbo, off);
    if s.tried[k] == EMPTY {
      assert s.tried[k := EMPTY] == s.tried;
    } else {
      EvictKeeps(s, k, limbo, off);
      var e := s.tried[k];
      var s1 := Evict(s, k);
      var home := HomeSlot(s1, s1.info[e]);
      ClearNewKeeps(s1, home, limbo + {e}, off + 1);
      ClearNewSame(s1, home);
      var s2 := ClearNew(s1, home);
      MidFacts(s2, limbo + {e}, off + 1);
      PlaceKeeps(s2, e, NewBucket(s1, s1.info[e].addr, s1.info[e].source), limbo + {e}, off + 1);
      assert limbo + {e} - {e} == limbo;
      MoreCounted(Place(s2, e, home), limbo, off + 1);
      assert Lost(s1, home) == Lost(s, home);
    }
  }

  /** Counting one more entry as new. */
  lemma MoreCounted(s: State, limbo: set<int>, off: int)
    requires Mid(s, limbo, off)
    ensures Mid(s.(nNew := s.nNew + 1), limbo, off - 1)
  {
    hide RandomOk;
    AddrDepends(s, s.(nNew := s.nNew + 1));
    NewDepends(s, s.(nNew := s.nNew + 1), limbo);
  }

  lemma NewDepends(s: State, s': State, limbo: set<int>)
    requires NewOk(s, limbo) && s'.info == s.info && s'.newer == s.newer && s'.h == s.h && s'.key == s.key
    ensures NewOk(s', limbo)
  {
    forall k | 0 <= k < |s'.newer| ensures NewSlotOk(s', limbo, k) { assert NewSlotOk(s, limbo, k); }
    forall i | i in s'.info ensures RefsOk(s', limbo, i) { assert RefsOk(s, limbo, i); }
  }

  ghost function MakeTried(s: State, id: int): State
    requires Inv(s) && id in s.info && !s.info[id].inTried
  {
    LeaveNewKeeps(s, id);
    var s1 := LeaveNew(s, id);
    var k := TriedSlot(s1, s1.info[id].addr);
    MakeRoomKeeps(s1, k, {id}, 1);
    EnterTried(MakeRoom(s1, k, {id}, 1), id)
  }

  /** The entry becomes a tried one; whoever had its slot is back in the new table with one reference; at
      most one further entry, in that one's way, is lost. */
  lemma MakeTriedMeaning(s: State, id: int)
    requires Inv(s) && id in s.info && !s.info[id].inTried
    ensures Inv(MakeTried(s, id))
    ensures
      var s' := MakeTried(s, id);
      var evicted := s.tried[TriedSlot(s, s.info[id].addr)];
      && id in s'.info && s'.info[id].inTried && s'.tried == s.tried[TriedSlot(s, s.info[id].addr) := id]
      && (evicted == EMPTY ==> s'.info.Keys == s.info.Keys)
      && (evicted != EMPTY ==> evicted in s'.info && !s'.info[evicted].inTried && s'.info[evicted].refCount == 1)
      && s'.info.Keys <= s.info.Keys && |s.info.Keys - s'.info.Keys| <= 1
  {
    hide Mid, LeaveNew, MakeRoom, Lost, EnterTried, TriedSlot;
    LeaveNewKeeps(s, id);
    LeaveNewSame(s, id);
    MidFacts(s, {}, 0);
    var s1 := LeaveNew(s, id);
    var k := TriedSlot(s1, s1.info[id].addr);
    MakeRoomKeeps(s1, k, {id}, 1);
    var s2 := MakeRoom(s1, k, {id}, 1);
    MidFacts(s2, {id}, 1);
    SameSlot(s, s2, s.info[id].addr);
    SameSlot(s, s1, s.info[id].addr);
    EnterKeeps(s2, id, {id}, 1);
    EnterShape(s2, id);
    assert {id} - {id} == {};
    var e := s.tried[k];
    if e == EMPTY {
      assert s.info.Keys - s2.info.Keys == {};
    } else {
      LostOne(s1, HomeSlot(s1, s1.info[e]), s.info.Keys);
    }
  }

  lemma EnterShape(s: State, id: int)
    requires id in s.info && TriedSlot(s, s.info[id].addr) < |s.tried|
    ensures
      var s' := EnterTried(s, id);
      && s'.info == s.info[id := s.info[id].(inTried := true)] && s'.tried == s.tried[TriedSlot(s, s.info[id].addr) := id]
  {
  }

  lemma LeaveNewSame(s: State, id: int)
    requires id in s.info
    ensures
      var s' := LeaveNew(s, id);
      && s'.info.Keys == s.info.Keys && s'.tried == s.tried && s'.h == s.h && s'.key == s.key && s'.byPort == s.byPort
      && Kin(s.info, s'.info)
  {
  }

  lemma LostOne(s: State, k: nat, keys: set<int>)
    requires k < |s.newer|
    ensures |keys - (keys - Lost(s, k))| <= 1
  {
    var gone := keys - (keys - Lost(s, k));
    if gone != {} { assert gone == {s.newer[k]}; }
  }

  // ---------------------------------------------------------------- looking up and updating

  /** Find: the id of a known address. */
  function Find(s: State, a: Service): Option<int> {
    var key := Norm(s, a);
    if key in s.addr && s.addr[key] in s.info then Some(s.addr[key]) else None
  }

  /** The entry for exactly this address and port, if known. */
  function FindExact(s: State, a: Service): Option<int> {
    match Find(s, a)
    case None => None
    case Some(id) => if s.info[id].addr == a then Some(id) else None
  }

  lemma FindMeaning(s: State, a: Service)
    requires AddrOk(s)
    ensures Find(s, a).Some? ==> Norm(s, s.info[Find(s, a).value].addr) == Norm(s, a)
    ensures Find(s, a).None? ==> forall id :: id in s.info ==> Norm(s, s.info[id].addr) != Norm(s, a)
  {
  }

  /** Updating statistics of an entry. */
  function Touch(s: State, id: int, i: Info): State { s.(info := s.info[id := i]) }

  lemma TouchKeeps(s: State, id: int, i: Info, limbo: set<int>, off: int)
    requires Mid(s, limbo, off) && id in s.info
    requires i.addr == s.info[id].addr && i.inTried == s.info[id].inTried && i.refCount == s.info[id].refCount && i.randomPos == s.info[id].randomPos
    ensures Mid(Touch(s, id, i), limbo, off)
  {
    hide AddrOk, TriedOk, NewOk, CountOk, RandomOk;
    SamePosRandom(s.info, Touch(s, id, i).info, s.random);
    AlikeKeeps(s, Touch(s, id, i), limbo, off);
  }

  lemma LastGoodKeeps(s: State, time: int)
    requires Inv(s)
    ensures Inv(s.(lastGood := time))
  {
    hide RandomOk;
    AlikeKeeps(s, s.(lastGood := time), {}, 0);
  }

  // ---------------------------------------------------------------- Good_

  /** The entry with the statistics of a successful connection. */
  function Succeeded(i: Info, time: int): Info { i.(lastSuccess := time, lastTry := time, attempts := 0) }

  ghost function Good(s: State, a: Service, time: int): State
    requires Inv(s)
  {
    var s0 := s.(lastGood := time);
    LastGoodKeeps(s, time);
    match FindExact(s, a)
    case None => s0
    case Some(id) =>
      TouchKeeps(s0, id, Succeeded(s.info[id], time), {}, 0);
      var s1 := Touch(s0, id, Succeeded(s.info[id], time));
      if s.info[id].inTried then s1 else MakeTried(s1, id)
  }

  /** A known address becomes a tried one whatever table it was in. */
  lemma GoodMeaning(s: State, a: Service, time: int)
    requires Inv(s)
    ensures Inv(Good(s, a, time))
    ensures
      var s' := Good(s, a, time);
      && (FindExact(s, a).None? ==> s' == s.(lastGood := time))
      && (FindExact(s, a).Some? ==>
            var id := FindExact(s, a).value;
            && id in s'.info && s'.info[id].inTried
            && s'.tried == s.tried[TriedSlot(s, a) := id]
            && s'.info.Keys <= s.info.Keys && |s.info.Keys - s'.info.Keys| <= 1)
  {
    hide Mid, MakeTried, TriedSlot;
    LastGoodKeeps(s, time);
    if FindExact(s, a).Some? {
      var id := FindExact(s, a).value;
      var s0, i := s.(lastGood := time), Succeeded(s.info[id], time);
      TouchKeeps(s0, id, i, {}, 0);
      var s1 := Touch(s0, id, i);
      SameSlot(s, s1, a);
      if s.info[id].inTried {
        TriedHome(s, id);
        assert s.info.Keys - s1.info.Keys == {};
      } else {
        MakeTriedMeaning(s1, id);
        assert s1.info.Keys == s.info.Keys;
      }
    }
  }

  lemma SameSlot(s: State, s': State, a: Service)
    requires s'.h == s.h && s'.key == s.key
    ensures TriedSlot(s', a) == TriedSlot(s, a)
  {
  }

  lemma TriedHome(s: State, id: int)
    requires Inv(s) && id in s.info && s.info[id].inTried
    ensures s.tried[TriedSlot(s, s.info[id].addr) := id] == s.tried
  {
    hide AddrOk, NewOk, CountOk, RandomOk;
    assert s.tried[TriedSlot(s, s.info[id].addr)] == id;
  }

  /** A new entry is found by the search over the new buckets, from whichever bucket it starts. */
  lemma InSomeBucket(s: State, id: int) returns (bucket: nat)
    requires Inv(s) && id in s.info && !s.info[id].inTried
    ensures bucket < NEW_BUCKETS && s.newer[NewSlot(s, s.info[id].addr, bucket)] == id
  {
    assert RefsOk(s, {}, id);
    assert id in multiset(s.newer);
    var k :| 0 <= k < |s.newer| && s.newer[k] == id;
    assert NewSlotOk(s, {}, k);
    bucket := k / BUCKET_SIZE;
  }

  // ---------------------------------------------------------------- Add_

  predicate IsTerrible(i: Info, now: int) {
    if i.lastTry != 0 && i.lastTry >= now - 60 then false
    else
      || i.time > now + 10 * 60
      || i.time == 0 || now - i.time > 30 * DAY
      || (i.lastSuccess == 0 && i.attempts >= 3)
      || (now - i.lastSuccess > 7 * DAY && i.attempts >= 10)
  }

  /** What an announcement changes in a known entry. */
  function Refresh(i: Info, a: Address, penalty: int, now: int): Info {
    var interval := if now - a.time < DAY then 60 * 60 else DAY;
    var time := if a.time != 0 && (i.time == 0 || i.time < a.time - interval - penalty) then Bits.Max(0, a.time - penalty) else i.time;
    i.(time := time, services := i.services + a.services)
  }

  /** A known entry gets no further reference: nothing new, already tried, saturated, or bad luck. */
  predicate NoMore(i: Info, a: Address, roll: nat) {
    || a.time == 0 || (i.time != 0 && a.time <= i.time)
    || i.inTried || i.refCount == MAX_REFS
    || (i.refCount > 0 && Bits.Pow2(i.refCount) > 1 && roll % Bits.Pow2(i.refCount) != 0)
  }

  predicate Overwrites(s: State, id: int, k: nat, now: int)
    requires id in s.info && k < |s.newer| && (s.newer[k] == EMPTY || s.newer[k] in s.info)
  {
    || s.newer[k] == EMPTY
    || IsTerrible(s.info[s.newer[k]], now)
    || (s.info[s.newer[k]].refCount > 1 && s.info[id].refCount == 0)
  }

  /** The second half of Add_: give the entry a slot in the bucket chosen by the announcing source. */
  ghost function Reference(s: State, id: int, source: nat, now: int, limbo: set<int>): State
    requires Mid(s, limbo, 0) && id in s.info && limbo <= {id} && !s.info[id].inTried
  {
    var k := NewSlot(s, s.info[id].addr, NewBucket(s, s.info[id].addr, source));
    assert NewSlotOk(s, limbo, k);
    if s.newer[k] == id then s
    else if Overwrites(s, id, k, now) then
      ClearNewKeeps(s, k, limbo, 0);
      Place(ClearNew(s, k), id, k)
    else if s.info[id].refCount == 0 then
      assert RefsOk(s, limbo, id);
      DeleteKeeps(s, id, limbo, 0);
      Delete(s, id)
    else s
  }

  lemma ReferenceKeeps(s: State, id: int, source: nat, now: int, limbo: set<int>)
    requires Mid(s, limbo, 0) && id in s.info && limbo <= {id} && !s.info[id].inTried && s.info[id].refCount < MAX_REFS
    ensures Inv(Reference(s, id, source, now, limbo))
    ensures
      var s' := Reference(s, id, source, now, limbo);
      && s'.tried == s.tried && s'.nTried == s.nTried
      && s'.info.Keys <= s.info.Keys && |s.info.Keys - s'.info.Keys| <= 1
      && (id !in limbo ==> id in s'.info)
  {
    hide Mid, NewSlot, NewBucket, ClearNew, Delete, Place, IsTerrible;
    MidFacts(s, limbo, 0);
    var bucket := NewBucket(s, s.info[id].addr, source);
    BucketRange(s, s.info[id].addr, source);
    var k := NewSlot(s, s.info[id].addr, bucket);
    Unreferenced(s, id, limbo);
    if s.newer[k] != id && Overwrites(s, id, k, now) {
      InsertKeeps(s, id, bucket, limbo);
    } else if s.newer[k] != id && s.info[id].refCount == 0 {
      RemoveKeeps(s, id, limbo);
    } else {
      assert limbo == {};
      assert s.info.Keys - s.info.Keys == {};
    }
  }

  lemma BucketRange(s: State, a: Service, source: nat)
    ensures NewBucket(s, a, source) < NEW_BUCKETS
  {
  }

  lemma InsertKeeps(s: State, id: int, bucket: nat, limbo: set<int>)
    requires Mid(s, limbo, 0) && id in s.info && limbo <= {id} && !s.info[id].inTried && s.info[id].refCount < MAX_REFS
    requires bucket < NEW_BUCKETS && |s.newer| == NEW_BUCKETS * BUCKET_SIZE && s.newer[NewSlot(s, s.info[id].addr, bucket)] != id
    ensures
      var k := NewSlot(s, s.info[id].addr, bucket);
      && (s.newer[k] != EMPTY ==> s.newer[k] in s.info)
      && (s.newer[k] != EMPTY && s.info[s.newer[k]].refCount == 1 ==> Deletable(Unref(s, k), s.newer[k]))
      && id in ClearNew(s, k).info && k < |ClearNew(s, k).newer|
      && var s' := Place(ClearNew(s, k), id, k);
      && Inv(s') && s'.tried == s.tried && s'.nTried == s.nTried && id in s'.info
      && s'.info.Keys <= s.info.Keys && |s.info.Keys - s'.info.Keys| <= 1
  {
    hide Mid, ClearNew, Deletable, Unref;
    var k := NewSlot(s, s.info[id].addr, bucket);
    ClearNewKeeps(s, k, limbo, 0);
    ClearNewSame(s, k);
    PlaceKeeps(ClearNew(s, k), id, bucket, limbo, 0);
    assert limbo - {id} == {};
    ClearedOne(s, k);
  }

  lemma RemoveKeeps(s: State, id: int, limbo: set<int>)
    requires Mid(s, limbo, 0) && id in limbo && limbo <= {id}
    ensures Deletable(s, id)
    ensures
      var s' := Delete(s, id);
      && Inv(s') && s'.tried == s.tried && s'.nTried == s.nTried
      && s'.info.Keys <= s.info.Keys && |s.info.Keys - s'.info.Keys| <= 1
  {
    hide Mid, Delete, Deletable;
    DeleteKeeps(s, id, limbo, 0);
    assert limbo - {id} == {};
    DeleteSame(s, id);
    assert s.info.Keys - (s.info.Keys - {id}) <= {id};
    SubsetSize(s.info.Keys - (s.info.Keys - {id}), {id});
  }

  lemma Unreferenced(s: State, id: int, limbo: set<int>)
    requires Mid(s, limbo, 0) && id in s.info && !s.info[id].inTried
    ensures s.info[id].refCount == 0 <==> id in limbo
  {
    assert RefsOk(s, limbo, id);
  }

  lemma ClearedOne(s: State, k: nat)
    requires k < |s.newer| && (s.newer[k] == EMPTY || s.newer[k] in s.info)
    ensures
      var gone := if s.newer[k] != EMPTY && s.info[s.newer[k]].refCount == 1 then {s.newer[k]} else {};
      |s.info.Keys - (s.info.Keys - gone)| <= 1
  {
    var gone := if s.newer[k] != EMPTY && s.info[s.newer[k]].refCount == 1 then {s.newer[k]} else {};
    assert s.info.Keys - (s.info.Keys - gone) == gone;
  }

  lemma DeleteSame(s: State, id: int)
    requires Deletable(s, id)
    ensures Delete(s, id).tried == s.tried && Delete(s, id).nTried == s.nTried
  {
  }

  lemma CreateKeeps(s: State, a: Address, source: nat)
    requires Inv(s) && Find(s, a.service).None?
    ensures
      var s' := Create(s, a, source);
      Mid(s'.(nNew := s.nNew + 1), {s.idCount}, 0) && s.idCount in s'.info && s.idCount !in s.info
  {
    hide NewOk, TriedOk, RandomOk, AddrOk, Create;
    CreateTables(s, a, source);
    CreateAddr(s, a, source);
    CreateRandom(s, a, source);
    CreateIds(s, a, source);
  }

  lemma CreateIds(s: State, a: Address, source: nat)
    requires IdsOk(s, {})
    ensures
      var s' := Create(s, a, source);
      && s.idCount !in s.info && NewIds(s'.info) == NewIds(s.info) + {s.idCount} && TriedIds(s'.info) == TriedIds(s.info)
      && IdsOk(s', {s.idCount}) && s'.nNew == s.nNew && s'.nTried == s.nTried
  {
  }

  lemma CreateAddr(s: State, a: Address, source: nat)
    requires AddrOk(s) && Find(s, a.service).None? && IdsOk(s, {})
    ensures AddrOk(Create(s, a, source).(nNew := s.nNew + 1))
  {
    FindMeaning(s, a.service);
  }

  lemma CreateRandom(s: State, a: Address, source: nat)
    requires RandomOk(s.info, s.random) && IdsOk(s, {})
    ensures RandomOk(Create(s, a, source).info, Create(s, a, source).random)
  {
  }

  lemma CreateTables(s: State, a: Address, source: nat)
    requires NewOk(s, {}) && TriedOk(s) && IdsOk(s, {})
    ensures
      var s' := Create(s, a, source).(nNew := s.nNew + 1);
      NewOk(s', {s.idCount}) && TriedOk(s')
  {
    var s', id := Create(s, a, source).(nNew := s.nNew + 1), s.idCount;
    forall k | 0 <= k < |s'.newer| ensures NewSlotOk(s', {id}, k) && s'.newer[k] != id { assert NewSlotOk(s, {}, k); }
    assert id !in multiset(s'.newer);
    forall i | i in s'.info ensures RefsOk(s', {id}, i) { if i != id { assert RefsOk(s, {}, i); } }
  }

  /** An announcement of a known address. */
  ghost function Renew(s: State, id: int, a: Address, source: nat, penalty: int, now: int, roll: nat): State
    requires Inv(s) && id in s.info
  {
    var i := Refresh(s.info[id], a, penalty, now);
    TouchKeeps(s, id, i, {}, 0);
    var s1 := Touch(s, id, i);
    if NoMore(i, a, roll) then s1 else Reference(s1, id, source, now, {})
  }

  /** An announcement of an unknown address. */
  ghost function Introduce(s: State, a: Address, source: nat, penalty: int, now: int): State
    requires Inv(s) && Find(s, a.service).None?
  {
    AnnounceKeeps(s, a, source, penalty);
    Reference(Announce(s, a, source, penalty), s.idCount, source, now, {s.idCount})
  }

  /** Add_: the new state, and whether the address is reported as new. */
  ghost function Add(s: State, a: Address, routable: bool, source: nat, timePenalty: int, now: int, roll: nat): (State, bool)
    requires Inv(s)
  {
    if !routable then (s, false)
    else
      var penalty := if a.service.ip == source then 0 else timePenalty;
      match Find(s, a.service)
      case Some(id) => (Renew(s, id, a, source, penalty, now, roll), false)
      case None => (Introduce(s, a, source, penalty, now), true)
  }

  /** A new entry, its time lowered by the penalty, not yet in any slot. */
  function Announce(s: State, a: Address, source: nat, penalty: int): State {
    var s1 := Create(s, a, source).(nNew := s.nNew + 1);
    Touch(s1, s.idCount, s1.info[s.idCount].(time := Bits.Max(0, a.time - penalty)))
  }

  lemma AnnounceKeeps(s: State, a: Address, source: nat, penalty: int)
    requires Inv(s) && Find(s, a.service).None?
    ensures Mid(Announce(s, a, source, penalty), {s.idCount}, 0)
    ensures
      var s' := Announce(s, a, source, penalty);
      && s.idCount !in s.info && s'.info.Keys == s.info.Keys + {s.idCount} && s'.tried == s.tried && s'.nTried == s.nTried
      && s'.info[s.idCount].refCount == 0 && !s'.info[s.idCount].inTried
  {
    hide Mid, Create;
    CreateKeeps(s, a, source);
    CreateShape(s, a, source);
    var s1 := Create(s, a, source).(nNew := s.nNew + 1);
    TouchKeeps(s1, s.idCount, s1.info[s.idCount].(time := Bits.Max(0, a.time - penalty)), {s.idCount}, 0);
  }

  lemma CreateShape(s: State, a: Address, source: nat)
    ensures
      var s' := Create(s, a, source);
      && s'.info.Keys == s.info.Keys + {s.idCount} && s'.tried == s.tried && s'.nTried == s.nTried
      && s'.info[s.idCount].refCount == 0 && !s'.info[s.idCount].inTried
  {
  }

  /** Adding keeps the invariant and the whole tried table, never forgets the address if it was known,
      loses at most one other entry, and reports "new" exactly for unknown routable addresses. */
  lemma AddMeaning(s: State, a: Address, routable: bool, source: nat, timePenalty: int, now: int, roll: nat)
    requires Inv(s)
    ensures Inv(Add(s, a, routable, source, timePenalty, now, roll).0)
    ensures
      var (s', isNew) := Add(s, a, routable, source, timePenalty, now, roll);
      && s'.tried == s.tried && s'.nTried == s.nTried
      && (isNew <==> routable && Find(s, a.service).None?)
      && (Find(s, a.service).Some? ==> Find(s, a.service).value in s'.info)
      && s'.info.Keys <= s.info.Keys + {s.idCount} && |s.info.Keys - s'.info.Keys| <= 1
  {
    hide Mid, Renew, Introduce;
    if routable {
      var penalty := if a.service.ip == source then 0 else timePenalty;
      if Find(s, a.service).Some? {
        RenewMeaning(s, Find(s, a.service).value, a, source, penalty, now, roll);
      } else {
        IntroduceMeaning(s, a, source, penalty, now);
      }
    } else {
      assert s.info.Keys - s.info.Keys == {};
    }
  }

  lemma SmallerLoss(a: set<int>, b: set<int>, c: set<int>)
    requires a <= b
    ensures |a - c| <= |b - c|
  {
    assert b - c == (a - c) + ((b - c) - (a - c));
  }

  lemma IntroduceMeaning(s: State, a: Address, source: nat, penalty: int, now: int)
    requires Inv(s) && Find(s, a.service).None?
    ensures
      var s' := Introduce(s, a, source, penalty, now);
      && Inv(s') && s'.tried == s.tried && s'.nTried == s.nTried
      && s'.info.Keys <= s.info.Keys + {s.idCount} && |s.info.Keys - s'.info.Keys| <= 1
  {
    hide Mid, Reference, Announce;
    AnnounceKeeps(s, a, source, penalty);
    var s1 := Announce(s, a, source, penalty);
    ReferenceKeeps(s1, s.idCount, source, now, {s.idCount});
    SmallerLoss(s.info.Keys, s1.info.Keys, Reference(s1, s.idCount, source, now, {s.idCount}).info.Keys);
  }

  lemma RenewMeaning(s: State, id: int, a: Address, source: nat, penalty: int, now: int, roll: nat)
    requires Inv(s) && id in s.info
    ensures
      var s' := Renew(s, id, a, source, penalty, now, roll);
      && Inv(s') && s'.tried == s.tried && s'.nTried == s.nTried
      && s'.info.Keys <= s.info.Keys && |s.info.Keys - s'.info.Keys| <= 1 && id in s'.info
  {
    hide Mid, Reference, Refresh;
    var i := Refresh(s.info[id], a, penalty, now);
    RefreshKeepsPlace(s.info[id], a, penalty, now);
    TouchKeeps(s, id, i, {}, 0);
    var s1 := Touch(s, id, i);
    assert s.info.Keys - s1.info.Keys == {};
    if !NoMore(i, a, roll) {
      RefsBelow(s, id);
      ReferenceKeeps(s1, id, source, now, {});
    }
  }

  lemma RefreshKeepsPlace(i: Info, a: Address, penalty: int, now: int)
    ensures Refresh(i, a, penalty, now) == i.(time := Refresh(i, a, penalty, now).time, services := i.services + a.services)
  {
  }

  lemma RefsBelow(s: State, id: int)
    requires Inv(s) && id in s.info
    ensures s.info[id].refCount <= MAX_REFS
  {
    assert RefsOk(s, {}, id);
  }

  // ---------------------------------------------------------------- the remaining operations

  function Attempted(i: Info, countFailure: bool, time: int, lastGood: int): Info {
    if countFailure && i.lastCount < lastGood then i.(lastTry := time, lastCount := time, attempts := i.attempts + 1)
    else i.(lastTry := time)
  }

  function Attempt(s: State, a: Service, countFailure: bool, time: int): State {
    match FindExact(s, a)
    case None => s
    case Some(id) => Touch(s, id, Attempted(s.info[id], countFailure, time, s.lastGood))
  }

  function Connected(s: State, a: Service, time: int): State {
    match FindExact(s, a)
    case None => s
    case Some(id) => if time - s.info[id].time > 20 * 60 then Touch(s, id, s.info[id].(time := time)) else s
  }

  function SetServices(s: State, a: Service, services: set<nat>): State {
    match FindExact(s, a)
    case None => s
    case Some(id) => Touch(s, id, s.info[id].(services := services))
  }

  /** GetAddr_ shuffles the front of the random order; `picks` are its random choices. */
  function Shuffle(s: State, n: nat, picks: seq<nat>): State
    decreases |picks|
  {
    if picks == [] || n >= |s.random| then s
    else
      var j := n + picks[0] % (|s.random| - n);
      if s.random[n] in s.info && s.random[j] in s.info then Shuffle(SwapRandom(s, n, j), n + 1, picks[1..]) else s
  }

  lemma SwapKeeps(s: State, i: nat, j: nat)
    requires Inv(s) && i < |s.random| && j < |s.random|
    ensures s.random[i] in s.info && s.random[j] in s.info && Inv(SwapRandom(s, i, j))
  {
    hide AddrOk, TriedOk, NewOk, CountOk, SwapRandom;
    SwapRandomOk(s, i, j);
    AlikeKeeps(s, SwapRandom(s, i, j), {}, 0);
  }

  lemma {:induction false} ShuffleKeeps(s: State, n: nat, picks: seq<nat>)
    requires Inv(s)
    ensures Inv(Shuffle(s, n, picks))
    decreases |picks|
  {
    hide Mid;
    if picks != [] && n < |s.random| {
      var j := n + picks[0] % (|s.random| - n);
      SwapKeeps(s, n, j);
      ShuffleKeeps(SwapRandom(s, n, j), n + 1, picks[1..]);
    }
  }

  /** The addresses of these entries that are worth passing on, in order. */
  function Listed(info: InfoMap, ids: seq<int>, now: int): seq<Service>
    requires forall i :: 0 <= i < |ids| ==> ids[i] in info
  {
    if ids == [] then []
    else
      var n := |ids| - 1;
      Listed(info, ids[..n], now) + if IsTerrible(info[ids[n]], now) then [] else [info[ids[n]].addr]
  }

  lemma {:induction false} ListedSame(i: InfoMap, j: InfoMap, ids: seq<int>, now: int)
    requires forall k :: 0 <= k < |ids| ==> ids[k] in i && ids[k] in j && j[ids[k]] == i[ids[k]].(randomPos := j[ids[k]].randomPos)
    ensures Listed(i, ids, now) == Listed(j, ids, now)
  {
    if ids != [] { ListedSame(i, j, ids[..|ids| - 1], now); }
  }

  // ---------------------------------------------------------------- reachable states

  function Fresh(h: Hashers, key: nat, byPort: bool): State {
    State(h, key, byPort, 0, map[], map[], [], 0, 0,
          seq(TRIED_BUCKETS * BUCKET_SIZE, _ => EMPTY), seq(NEW_BUCKETS * BUCKET_SIZE, _ => EMPTY), 1)
  }

  lemma FreshInv(h: Hashers, key: nat, byPort: bool)
    ensures Inv(Fresh(h, key, byPort))
  {
    var s := Fresh(h, key, byPort);
    forall k | 0 <= k < |s.newer| ensures NewSlotOk(s, {}, k) {}
  }

  datatype Op =
    | OpClear(key: nat)
    | OpAdd(a: Address, routable: bool, source: nat, penalty: int, now: int, roll: nat)
    | OpGood(service: Service, time: int)
    | OpAttempt(service: Service, countFailure: bool, time: int)
    | OpConnected(service: Service, time: int)
    | OpSetServices(service: Service, services: set<nat>)
    | OpGetAddr(picks: seq<nat>)

  ghost function Apply(s: State, op: Op): State
    requires Inv(s)
  {
    match op
    case OpClear(key) => Fresh(s.h, key, s.byPort)
    case OpAdd(a, routable, source, penalty, now, roll) => Add(s, a, routable, source, penalty, now, roll).0
    case OpGood(a, time) => Good(s, a, time)
    case OpAttempt(a, countFailure, time) => Attempt(s, a, countFailure, time)
    case OpConnected(a, time) => Connected(s, a, time)
    case OpSetServices(a, services) => SetServices(s, a, services)
    case OpGetAddr(picks) => Shuffle(s, 0, picks)
  }

  lemma ApplyKeeps(s: State, op: Op)
    requires Inv(s)
    ensures Inv(Apply(s, op))
  {
    hide Mid, Add, Good, Fresh, Shuffle, Attempt, Connected, SetServices;
    match op
    case OpClear(key) => FreshInv(s.h, key, s.byPort);
    case OpAdd(a, routable, source, penalty, now, roll) => AddMeaning(s, a, routable, source, penalty, now, roll);
    case OpGood(a, time) => GoodMeaning(s, a, time);
    case OpGetAddr(picks) => ShuffleKeeps(s, 0, picks);
    case OpAttempt(a, countFailure, time) => QuietKeeps(s, a, countFailure, time, {});
    case OpConnected(a, time) => QuietKeeps(s, a, false, time, {});
    case OpSetServices(a, services) => QuietKeeps(s, a, false, 0, services);
  }

  /** Operations that only touch statistics. */
  lemma QuietKeeps(s: State, a: Service, countFailure: bool, time: int, services: set<nat>)
    requires Inv(s)
    ensures Inv(Attempt(s, a, countFailure, time)) && Inv(Connected(s, a, time)) && Inv(SetServices(s, a, services))
  {
    hide Mid;
    if FindExact(s, a).Some? {
      var id := FindExact(s, a).value;
      TouchKeeps(s, id, Attempted(s.info[id], countFailure, time, s.lastGood), {}, 0);
      TouchKeeps(s, id, s.info[id].(time := time), {}, 0);
      TouchKeeps(s, id, s.info[id].(services := services), {}, 0);
    }
  }

  /** Any run of operations from an empty manager. */
  ghost function Run(h: Hashers, key: nat, byPort: bool, ops: seq<Op>): (s: State)
    ensures Inv(s)
  {
    if ops == [] then FreshInv(h, key, byPort); Fresh(h, key, byPort)
    else
      var before := Run(h, key, byPort, ops[..|ops| - 1]);
      ApplyKeeps(before, ops[|ops| - 1]);
      Apply(before, ops[|ops| - 1])
  }

  // ---------------------------------------------------------------- announcing into free slots

  /** A new address whose slot is free is taken in and found again. */
  lemma IntroduceFree(s: State, a: Address, source: nat, penalty: int, now: int)
    requires Inv(s) && Find(s, a.service).None?
    requires |s.newer| == NEW_BUCKETS * BUCKET_SIZE && s.newer[NewSlot(s, a.service, NewBucket(s, a.service, source))] == EMPTY
    ensures
      var s', k := Introduce(s, a, source, penalty, now), NewSlot(s, a.service, NewBucket(s, a.service, source));
      && s'.info.Keys == s.info.Keys + {s.idCount} && s'.info[s.idCount].addr == a.service && s.idCount !in s.info
      && s'.newer == s.newer[k := s.idCount] && s'.idCount == s.idCount + 1 && s'.h == s.h && s'.key == s.key && s'.byPort == s.byPort
      && s'.addr == s.addr[Norm(s, a.service) := s.idCount] && !s'.info[s.idCount].inTried && s'.info[s.idCount].lastSuccess == 0
      && (forall id :: id in s.info ==> s'.info[id] == s.info[id])
  {
    hide Mid, NewSlot, NewBucket, IsTerrible;
    AnnounceKeeps(s, a, source, penalty);
    var t := Announce(s, a, source, penalty);
    assert NewBucket(t, a.service, source) == NewBucket(s, a.service, source) by { SameBuckets(s, t, a.service, source); }
    SameBuckets(s, t, a.service, source);
  }

  lemma SameBuckets(s: State, t: State, a: Service, source: nat)
    requires t.h == s.h && t.key == s.key
    ensures NewBucket(t, a, source) == NewBucket(s, a, source) < NEW_BUCKETS
    ensures NewSlot(t, a, NewBucket(s, a, source)) == NewSlot(s, a, NewBucket(s, a, source))
  {
  }

  /** Spreads addresses over buckets by their first number. */
  function Spread(): Hashers { Hashers((_, _) => 0, (_, a: Service, _) => a.ip, (_, _, _, _) => 0) }

  function Announcement(ip: nat, port: nat): Op { OpAdd(Address(Service(ip, port), {}, 0), true, 0, 0, 0, 0) }
}
