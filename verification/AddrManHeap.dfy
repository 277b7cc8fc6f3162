/**
 The address manager as an object with its maps, vectors and slot arrays. Each method performs the function
 of the same name; the assertions of the source hold and its "something bad happened" exit is dead.
 */
module AddrManHeap {
  import Bits
  import opened Collections
  import opened AddrMan
  import Ops = AddrManOps

  class Manager {
    const h: Hashers
    const discriminatePorts: bool
    const vvTried: array<int>
    const vvNew: array<int>
    var nKey: nat
    var nIdCount: int
    var mapInfo: map<int, Info>
    var mapAddr: map<Service, int>
    var vRandom: seq<int>
    var nTried: int
    var nNew: int
    var nLastGood: int

    ghost predicate Apart() {
      vvTried != vvNew && vvTried.Length == TRIED_BUCKETS * BUCKET_SIZE && vvNew.Length == NEW_BUCKETS * BUCKET_SIZE
    }

    ghost function Abs(): State
      reads this, vvTried, vvNew
    {
      State(h, nKey, discriminatePorts, nIdCount, mapInfo, mapAddr, vRandom, nTried, nNew, vvTried[..], vvNew[..], nLastGood)
    }

    ghost predicate Valid()
      reads this, vvTried, vvNew
    {
      Apart() && Inv(Abs())
    }

    constructor (h: Hashers, discriminatePorts: bool, key: nat)
      ensures Valid() && fresh(vvTried) && fresh(vvNew) && Abs() == Ops.Fresh(h, key, discriminatePorts)
    {
      this.h, this.discriminatePorts := h, discriminatePorts;
      vvTried := new int[TRIED_BUCKETS * BUCKET_SIZE];
      vvNew := new int[NEW_BUCKETS * BUCKET_SIZE];
      new;
      Clear(key);
    }

    /** `key` is the fresh random key. */
    method Clear(key: nat)
      requires Apart()
      modifies this, vvTried, vvNew
      ensures Valid() && Abs() == Ops.Fresh(h, key, discriminatePorts)
    {
      vRandom, nKey := [], key;
      for k := 0 to vvNew.Length
        modifies vvNew
        invariant forall j :: 0 <= j < k ==> vvNew[j] == EMPTY
      {
        vvNew[k] := EMPTY;
      }
      for k := 0 to vvTried.Length
        modifies vvTried
        invariant forall j :: 0 <= j < k ==> vvTried[j] == EMPTY
      {
        vvTried[k] := EMPTY;
      }
      nIdCount, nTried, nNew, nLastGood := 0, 0, 0, 1;
      mapInfo, mapAddr := map[], map[];
      Ops.FreshInv(h, key, discriminatePorts);
      assert Abs() == Ops.Fresh(h, key, discriminatePorts);
    }

    function NewSlotOf(a: Service, bucket: nat): (k: nat)
      requires bucket < NEW_BUCKETS
      reads this, vvTried, vvNew
      ensures k == NewSlot(Abs(), a, bucket)
    {
      bucket * BUCKET_SIZE + h.place(nKey, true, bucket, a) % BUCKET_SIZE
    }

    function NewBucketOf(a: Service, source: nat): (b: nat)
      reads this, vvTried, vvNew
      ensures b == NewBucket(Abs(), a, source) < NEW_BUCKETS
    {
      h.newer(nKey, a, source) % NEW_BUCKETS
    }

    function TriedSlotOf(a: Service): (k: nat)
      reads this, vvTried, vvNew
      ensures k == TriedSlot(Abs(), a)
    {
      var b := h.tried(nKey, a) % TRIED_BUCKETS;
      b * BUCKET_SIZE + h.place(nKey, false, b, a) % BUCKET_SIZE
    }

    function Normalised(a: Service): Service { if discriminatePorts then a else a.(port := 0) }

    method Find(a: Service) returns (r: Option<int>)
      ensures r == Ops.Find(Abs(), a)
    {
      var key := Normalised(a);
      if key !in mapAddr || mapAddr[key] !in mapInfo {
        return None;
      }
      return Some(mapAddr[key]);
    }

    method Create(a: Address, source: nat) returns (id: int)
      modifies this
      ensures Abs() == AddrMan.Create(old(Abs()), a, source) && id == old(nIdCount)
    {
      id := nIdCount;
      nIdCount := nIdCount + 1;
      mapInfo := mapInfo[id := Info(a.service, a.services, a.time, source, 0, 0, 0, 0, 0, false, -1)];
      mapAddr := mapAddr[Normalised(a.service) := id];
      mapInfo := mapInfo[id := mapInfo[id].(randomPos := |vRandom|)];
      vRandom := vRandom + [id];
    }

    method SwapRandom(nRndPos1: nat, nRndPos2: nat)
      requires nRndPos1 < |vRandom| && nRndPos2 < |vRandom| && vRandom[nRndPos1] in mapInfo && vRandom[nRndPos2] in mapInfo
      modifies this`mapInfo, this`vRandom
      ensures Abs() == AddrMan.SwapRandom(old(Abs()), nRndPos1, nRndPos2)
    {
      if nRndPos1 == nRndPos2 {
        return;
      }
      var nId1, nId2 := vRandom[nRndPos1], vRandom[nRndPos2];
      mapInfo := mapInfo[nId1 := mapInfo[nId1].(randomPos := nRndPos2)];
      mapInfo := mapInfo[nId2 := mapInfo[nId2].(randomPos := nRndPos1)];
      vRandom := vRandom[nRndPos1 := nId2];
      vRandom := vRandom[nRndPos2 := nId1];
    }

    method Delete(nId: int)
      requires Deletable(Abs(), nId) && !mapInfo[nId].inTried && mapInfo[nId].refCount == 0
      modifies this
      ensures Abs() == AddrMan.Delete(old(Abs()), nId)
    {
      var key := Normalised(mapInfo[nId].addr);
      SwapRandom(mapInfo[nId].randomPos, |vRandom| - 1);
      vRandom := vRandom[..|vRandom| - 1];
      mapAddr := mapAddr - {key};
      mapInfo := mapInfo - {nId};
      nNew := nNew - 1;
    }

    /** Precondition and result as for the function; `limbo` holds entries on their way between tables. */
    method ClearNew(k: nat, ghost limbo: set<int>, ghost off: int)
      requires Apart() && k < vvNew.Length && Mid(Abs(), limbo, off)
      modifies this, vvNew
      ensures
        ClearNewCallable(old(Abs()), k) && Abs() == AddrMan.ClearNew(old(Abs()), k)
    {
      hide Mid;
      ClearNewKeeps(Abs(), k, limbo, off);
      if vvNew[k] != EMPTY {
        var nIdDelete := vvNew[k];
        UnrefKeeps(Abs(), k, limbo, off);
        ghost var before := Abs();
        mapInfo := mapInfo[nIdDelete := mapInfo[nIdDelete].(refCount := mapInfo[nIdDelete].refCount - 1)];
        vvNew[k] := EMPTY;
        assert Abs() == Unref(before, k);
        if mapInfo[nIdDelete].refCount == 0 {
          MidFacts(Abs(), limbo + {nIdDelete}, off);
          Delete(nIdDelete);
        }
      }
    }

    static ghost predicate ClearNewCallable(s: State, k: nat) {
      && k < |s.newer|
      && (s.newer[k] != EMPTY ==> s.newer[k] in s.info)
      && (s.newer[k] != EMPTY && s.info[s.newer[k]].refCount == 1 ==> Deletable(Unref(s, k), s.newer[k]))
    }

    /** The new table once the buckets below `n` have been swept of an entry. */
    static function Swept(q: seq<int>, id: int, n: nat): (r: seq<int>) {
      seq(|q|, k requires 0 <= k < |q| => if q[k] == id && k / BUCKET_SIZE < n then EMPTY else q[k])
    }

    /** In each bucket an entry can only stand at its own position, so sweeping a bucket is one test. */
    static lemma SweptStep(s: State, id: int, bucket: nat)
      requires Inv(s) && id in s.info && bucket < NEW_BUCKETS
      ensures
        var k, q := NewSlot(s, s.info[id].addr, bucket), Swept(s.newer, id, bucket);
        k < |q| && Swept(s.newer, id, bucket + 1) == if q[k] == id then q[k := EMPTY] else q
    {
      MidFacts(s, {}, 0);
      var k0, q := NewSlot(s, s.info[id].addr, bucket), Swept(s.newer, id, bucket);
      forall k | 0 <= k < |s.newer| && s.newer[k] == id && k / BUCKET_SIZE == bucket ensures k == k0 {
        assert NewSlotOk(s, {}, k);
      }
      assert Swept(s.newer, id, bucket + 1) == if q[k0] == id then q[k0 := EMPTY] else q;
    }

    /** The first loop of MakeTried. */
    method LeaveNew(nId: int)
      requires Valid() && nId in mapInfo && !mapInfo[nId].inTried
      modifies this, vvNew
      ensures Abs() == Ops.LeaveNew(old(Abs()), nId)
    {
      hide Mid, Swept, NewSlot, Ops.Without;
      ghost var was := Abs();
      var addr := mapInfo[nId].addr;
      MidFacts(was, {}, 0);
      SweptEnds(was.newer, nId);
      for bucket := 0 to NEW_BUCKETS
        modifies this`mapInfo, vvNew
        invariant vvNew[..] == Swept(was.newer, nId, bucket)
        invariant nId in mapInfo && mapInfo == was.info[nId := was.info[nId].(refCount := mapInfo[nId].refCount)]
        invariant mapInfo[nId].refCount - multiset(vvNew[..])[nId] == was.info[nId].refCount - multiset(was.newer)[nId]
      {
        ghost var q := vvNew[..];
        SweptStep(was, nId, bucket);
        var k := NewSlotOf(addr, bucket);
        assert k == NewSlot(was, was.info[nId].addr, bucket);
        if vvNew[k] == nId {
          CountUpdate(q, k, EMPTY, nId);
          vvNew[k] := EMPTY;
          assert vvNew[..] == q[k := EMPTY];
          mapInfo := mapInfo[nId := mapInfo[nId].(refCount := mapInfo[nId].refCount - 1)];
        }
      }
      nNew := nNew - 1;
      Ops.WithoutCount(was.newer, nId, nId);
    }

    static lemma SweptEnds(q: seq<int>, id: int)
      requires |q| == NEW_BUCKETS * BUCKET_SIZE
      ensures Swept(q, id, 0) == q && Swept(q, id, NEW_BUCKETS) == Ops.Without(q, id)
    {
    }

    method MakeTried(nId: int)
      requires Valid() && nId in mapInfo && !mapInfo[nId].inTried
      modifies this, vvTried, vvNew
      ensures Valid() && Abs() == Ops.MakeTried(old(Abs()), nId)
    {
      hide Mid, Ops.MakeRoom, Ops.LeaveNew;
      ghost var was := Abs();
      Ops.MakeTriedMeaning(was, nId);
      Ops.LeaveNewKeeps(was, nId);
      Ops.LeaveNewSame(was, nId);
      LeaveNew(nId);
      assert mapInfo[nId].refCount == 0;
      ghost var s1 := Abs();
      var k := TriedSlotOf(mapInfo[nId].addr);
      Ops.MakeRoomKeeps(s1, k, {nId}, 1);
      if vvTried[k] != EMPTY {
        MakeRoom(k, {nId}, 1);
      }
      EnterTried(nId, k);
    }

    /** The last lines of MakeTried. */
    method EnterTried(nId: int, k: nat)
      requires Apart() && nId in mapInfo && k == TriedSlotOf(mapInfo[nId].addr) && vvTried[k] == EMPTY
      modifies this, vvTried
      ensures Abs() == Ops.EnterTried(old(Abs()), nId)
    {
      ghost var was := Abs();
      vvTried[k] := nId;
      nTried := nTried + 1;
      mapInfo := mapInfo[nId := mapInfo[nId].(inTried := true)];
      assert vvTried[..] == was.tried[k := nId];
    }

    /** The eviction inside MakeTried. */
    method MakeRoom(k: nat, ghost limbo: set<int>, ghost off: int)
      requires Apart() && Mid(Abs(), limbo, off) && k < vvTried.Length && vvTried[k] != EMPTY
      modifies this, vvTried, vvNew
      ensures Abs() == Ops.MakeRoom(old(Abs()), k, limbo, off)
    {
      hide Mid, AddrMan.ClearNew, Place;
      ghost var was := Abs();
      Ops.EvictKeeps(was, k, limbo, off);
      var nIdEvict := vvTried[k];
      mapInfo := mapInfo[nIdEvict := mapInfo[nIdEvict].(inTried := false)];
      vvTried[k] := EMPTY;
      nTried := nTried - 1;
      assert vvTried[..] == was.tried[k := EMPTY];
      assert Abs() == Ops.Evict(was, k);
      ghost var s1 := Abs();
      var bucket := NewBucketOf(mapInfo[nIdEvict].addr, mapInfo[nIdEvict].source);
      var home := NewSlotOf(mapInfo[nIdEvict].addr, bucket);
      ClearNewKeeps(s1, home, limbo + {nIdEvict}, off + 1);
      ClearNew(home, limbo + {nIdEvict}, off + 1);
      assert vvNew[home] == EMPTY;
      MidFacts(Abs(), limbo + {nIdEvict}, off + 1);
      PutBack(nIdEvict, home);
    }

    /** Entering an evicted entry into the new table again. */
    method PutBack(nIdEvict: int, k: nat)
      requires nIdEvict in mapInfo && mapInfo[nIdEvict].refCount == 0 && k < vvNew.Length && Apart()
      modifies this, vvNew
      ensures Abs() == Place(old(Abs()), nIdEvict, k).(nNew := old(nNew) + 1)
    {
      ghost var was := Abs();
      mapInfo := mapInfo[nIdEvict := mapInfo[nIdEvict].(refCount := 1)];
      vvNew[k] := nIdEvict;
      nNew := nNew + 1;
      assert vvNew[..] == was.newer[k := nIdEvict];
    }

    /** `nRnd` is the random bucket at which the search starts. */
    method Good_(a: Service, nTime: int, nRnd: nat)
      requires Valid() && nRnd < NEW_BUCKETS
      modifies this, vvTried, vvNew
      ensures Valid() && Abs() == Ops.Good(old(Abs()), a, nTime)
    {
      hide Mid, Ops.MakeTried;
      ghost var was := Abs();
      Ops.GoodMeaning(was, a, nTime);
      Ops.LastGoodKeeps(was, nTime);
      nLastGood := nTime;
      var found := Find(a);
      if found.None? || mapInfo[found.value].addr != a {
        return;
      }
      var nId := found.value;
      Ops.TouchKeeps(Abs(), nId, Ops.Succeeded(mapInfo[nId], nTime), {}, 0);
      mapInfo := mapInfo[nId := mapInfo[nId].(lastSuccess := nTime, lastTry := nTime, attempts := 0)];
      if mapInfo[nId].inTried {
        return;
      }
      var nUBucket := SearchNew(nId, nRnd);
      MakeTried(nId);
    }

    /** Finding a bucket that holds a new entry; the search cannot fail. */
    method SearchNew(nId: int, nRnd: nat) returns (nUBucket: int)
      requires Valid() && nRnd < NEW_BUCKETS && nId in mapInfo && !mapInfo[nId].inTried
      ensures 0 <= nUBucket < NEW_BUCKETS && vvNew[NewSlotOf(mapInfo[nId].addr, nUBucket)] == nId
    {
      ghost var home := Ops.InSomeBucket(Abs(), nId);
      hide Mid;
      ghost var hit := if home >= nRnd then home - nRnd else home - nRnd + NEW_BUCKETS;
      for n := 0 to NEW_BUCKETS
        invariant n <= hit
      {
        var nB := (n + nRnd) % NEW_BUCKETS;
        assert n == hit ==> nB == home;
        if vvNew[NewSlotOf(mapInfo[nId].addr, nB)] == nId {
          return nB;
        }
      }
      assert false;
      return -1;
    }

    /** `now` is the adjusted time and `roll` the random draw; returns whether the address is new. */
    method Add_(a: Address, routable: bool, source: nat, nTimePenalty: int, now: int, roll: nat) returns (fNew: bool)
      requires Valid()
      modifies this, vvNew
      ensures Valid() && (Abs(), fNew) == Ops.Add(old(Abs()), a, routable, source, nTimePenalty, now, roll)
    {
      hide Mid, Ops.Renew, Ops.Introduce;
      Ops.AddMeaning(Abs(), a, routable, source, nTimePenalty, now, roll);
      if !routable {
        return false;
      }
      var penalty := if a.service.ip == source then 0 else nTimePenalty;
      var found := Find(a.service);
      if found.Some? {
        Renew(found.value, a, source, penalty, now, roll);
        fNew := false;
      } else {
        Introduce(a, source, penalty, now);
        fNew := true;
      }
    }

    /** Add_ for a known address. */
    method Renew(nId: int, a: Address, source: nat, penalty: int, now: int, roll: nat)
      requires Valid() && nId in mapInfo
      modifies this, vvNew
      ensures Abs() == Ops.Renew(old(Abs()), nId, a, source, penalty, now, roll)
    {
      hide Mid, Ops.Reference, Ops.Refresh, Ops.NoMore;
      ghost var was := Abs();
      Ops.RefreshKeepsPlace(mapInfo[nId], a, penalty, now);
      Ops.TouchKeeps(was, nId, Ops.Refresh(mapInfo[nId], a, penalty, now), {}, 0);
      Ops.RefsBelow(was, nId);
      UpdateTimes(nId, a, penalty, now);
      var fStop := NoMore(mapInfo[nId], a, roll);
      if !fStop {
        assert !mapInfo[nId].inTried && mapInfo[nId].refCount != MAX_REFS by { MoreMeaning(mapInfo[nId], a, roll); }
        Reference(nId, source, now, {});
      }
    }

    static lemma MoreMeaning(info: Info, a: Address, roll: nat)
      requires !Ops.NoMore(info, a, roll)
      ensures !info.inTried && info.refCount != MAX_REFS
    {
    }

    /** Add_ for an unknown address. */
    method Introduce(a: Address, source: nat, penalty: int, now: int)
      requires Valid() && Ops.Find(Abs(), a.service).None?
      modifies this, vvNew
      ensures Abs() == Ops.Introduce(old(Abs()), a, source, penalty, now)
    {
      hide Mid, Ops.Reference;
      ghost var was := Abs();
      Ops.AnnounceKeeps(was, a, source, penalty);
      var nId := Create(a, source);
      mapInfo := mapInfo[nId := mapInfo[nId].(time := Bits.Max(0, mapInfo[nId].time - penalty))];
      nNew := nNew + 1;
      assert Abs() == Ops.Announce(was, a, source, penalty);
      Reference(nId, source, now, {nId});
    }

    method UpdateTimes(nId: int, a: Address, penalty: int, now: int)
      requires nId in mapInfo
      modifies this`mapInfo
      ensures mapInfo == old(mapInfo)[nId := Ops.Refresh(old(mapInfo)[nId], a, penalty, now)]
    {
      var fCurrentlyOnline := now - a.time < DAY;
      var nUpdateInterval := if fCurrentlyOnline then 60 * 60 else DAY;
      var info := mapInfo[nId];
      if a.time != 0 && (info.time == 0 || info.time < a.time - nUpdateInterval - penalty) {
        info := info.(time := Bits.Max(0, a.time - penalty));
      }
      info := info.(services := info.services + a.services);
      mapInfo := mapInfo[nId := info];
    }

    static method NoMore(info: Info, a: Address, roll: nat) returns (fStop: bool)
      ensures fStop == Ops.NoMore(info, a, roll)
    {
      if a.time == 0 || (info.time != 0 && a.time <= info.time) || info.inTried || info.refCount == MAX_REFS {
        return true;
      }
      if info.refCount > 0 {
        var nFactor := Power(info.refCount);
        return nFactor > 1 && roll % nFactor != 0;
      }
      return false;
    }

    /** Doubling once per existing reference. */
    static method Power(n: nat) returns (nFactor: nat)
      ensures nFactor == Bits.Pow2(n)
    {
      nFactor := 1;
      for i := 0 to n
        invariant nFactor == Bits.Pow2(i)
      {
        nFactor := nFactor * 2;
      }
    }

    /** The second half of Add_. */
    method Reference(nId: int, source: nat, now: int, ghost limbo: set<int>)
      requires Apart() && Mid(Abs(), limbo, 0) && nId in mapInfo && limbo <= {nId}
      requires !mapInfo[nId].inTried && mapInfo[nId].refCount < MAX_REFS
      modifies this, vvNew
      ensures Abs() == Ops.Reference(old(Abs()), nId, source, now, limbo)
    {
      hide Mid;
      ghost var was := Abs();
      MidFacts(was, limbo, 0);
      Ops.Unreferenced(was, nId, limbo);
      var bucket := NewBucketOf(mapInfo[nId].addr, source);
      var k := NewSlotOf(mapInfo[nId].addr, bucket);
      if vvNew[k] != nId {
        var fInsert := vvNew[k] == EMPTY;
        if !fInsert {
          var existing := mapInfo[vvNew[k]];
          fInsert := Ops.IsTerrible(existing, now) || (existing.refCount > 1 && mapInfo[nId].refCount == 0);
        }
        if fInsert {
          ClearNewKeeps(was, k, limbo, 0);
          ClearNew(k, limbo, 0);
          ghost var s1 := Abs();
          mapInfo := mapInfo[nId := mapInfo[nId].(refCount := mapInfo[nId].refCount + 1)];
          vvNew[k] := nId;
          assert vvNew[..] == s1.newer[k := nId];
        } else if mapInfo[nId].refCount == 0 {
          DeleteKeeps(was, nId, limbo, 0);
          Delete(nId);
        }
      }
    }

    method Attempt_(a: Service, fCountFailure: bool, nTime: int)
      requires Valid()
      modifies this
      ensures Valid() && Abs() == Ops.Attempt(old(Abs()), a, fCountFailure, nTime)
    {
      hide Mid;
      var found := Find(a);
      if found.None? || mapInfo[found.value].addr != a {
        return;
      }
      var info := mapInfo[found.value].(lastTry := nTime);
      if fCountFailure && info.lastCount < nLastGood {
        info := info.(lastCount := nTime, attempts := info.attempts + 1);
      }
      Ops.TouchKeeps(Abs(), found.value, info, {}, 0);
      mapInfo := mapInfo[found.value := info];
    }

    method Connected_(a: Service, nTime: int)
      requires Valid()
      modifies this
      ensures Valid() && Abs() == Ops.Connected(old(Abs()), a, nTime)
    {
      hide Mid;
      var found := Find(a);
      if found.None? || mapInfo[found.value].addr != a {
        return;
      }
      var info := mapInfo[found.value];
      if nTime - info.time > 20 * 60 {
        Ops.TouchKeeps(Abs(), found.value, info.(time := nTime), {}, 0);
        mapInfo := mapInfo[found.value := info.(time := nTime)];
      }
    }

    method SetServices_(a: Service, nServices: set<nat>)
      requires Valid()
      modifies this
      ensures Valid() && Abs() == Ops.SetServices(old(Abs()), a, nServices)
    {
      hide Mid;
      var found := Find(a);
      if found.None? || mapInfo[found.value].addr != a {
        return;
      }
      var info := mapInfo[found.value].(services := nServices);
      Ops.TouchKeeps(Abs(), found.value, info, {}, 0);
      mapInfo := mapInfo[found.value := info];
    }

    /** The same entries up to their places in the random order. */
    static ghost predicate SameButPlace(i: InfoMap, j: InfoMap) {
      i.Keys == j.Keys && forall id :: id in i ==> j[id] == i[id].(randomPos := j[id].randomPos)
    }

    /** Shuffles the random order from the front and lists entries worth passing on until there are enough:
        at most 23 percent of all, at most 2500, and all there are if fewer come back. */
    method GetAddr_(now: int) returns (vAddr: seq<Service>)
      requires Valid()
      modifies this`mapInfo, this`vRandom
      ensures Valid() && |vRandom| == old(|vRandom|) && SameButPlace(old(mapInfo), mapInfo)
      ensures |vAddr| <= 23 * |vRandom| / 100 && |vAddr| <= 2500
      ensures exists n :: 0 <= n <= |vRandom| && (forall k :: 0 <= k < n ==> vRandom[k] in mapInfo)
                && vAddr == Ops.Listed(mapInfo, vRandom[..n], now)
                && (n == |vRandom| || |vAddr| == 23 * |vRandom| / 100 || |vAddr| == 2500)
    {
      hide Mid, SameButPlace, Ops.IsTerrible;
      var nNodes := 23 * |vRandom| / 100;
      if nNodes > 2500 {
        nNodes := 2500;
      }
      vAddr := [];
      var n := 0;
      RandomKnown();
      SamePlace(mapInfo, mapInfo, mapInfo);
      while n < |vRandom|
        invariant 0 <= n <= |vRandom| == old(|vRandom|) && Valid() && |vAddr| <= nNodes
        invariant (forall k :: 0 <= k < |vRandom| ==> vRandom[k] in mapInfo) && SameButPlace(old(mapInfo), mapInfo)
        invariant vAddr == Ops.Listed(mapInfo, vRandom[..n], now)
      {
        if |vAddr| >= nNodes {
          break;
        }
        ghost var infoBefore, front := mapInfo, vRandom[..n];
        ShuffleAt(n);
        SamePlace(old(mapInfo), infoBefore, mapInfo);
        SameListed(infoBefore, mapInfo, front, now);
        assert vRandom[..n + 1][..n] == front;
        var ai := mapInfo[vRandom[n]];
        if !Ops.IsTerrible(ai, now) {
          vAddr := vAddr + [ai.addr];
        }
        n := n + 1;
      }
    }

    static lemma SamePlace(i: InfoMap, j: InfoMap, k: InfoMap)
      ensures SameButPlace(i, i)
      ensures SameButPlace(i, j) && SameButPlace(j, k) ==> SameButPlace(i, k)
    {
    }

    static lemma SameListed(i: InfoMap, j: InfoMap, ids: seq<int>, now: int)
      requires SameButPlace(i, j) && forall k :: 0 <= k < |ids| ==> ids[k] in i
      ensures forall k :: 0 <= k < |ids| ==> ids[k] in j
      ensures Ops.Listed(i, ids, now) == Ops.Listed(j, ids, now)
    {
      forall k | 0 <= k < |ids| ensures ids[k] in j && j[ids[k]] == i[ids[k]].(randomPos := j[ids[k]].randomPos) {
        var id := ids[k];
        assert id in i.Keys && id in j.Keys;
        assert j[id] == i[id].(randomPos := j[id].randomPos);
      }
      Ops.ListedSame(i, j, ids, now);
    }

    /** One random swap of GetAddr_. */
    method ShuffleAt(n: nat)
      requires Valid() && n < |vRandom|
      modifies this`mapInfo, this`vRandom
      ensures Valid() && |vRandom| == old(|vRandom|) && vRandom[..n] == old(vRandom[..n])
      ensures SameButPlace(old(mapInfo), mapInfo) && forall k :: 0 <= k < |vRandom| ==> vRandom[k] in mapInfo
    {
      hide Mid, AddrMan.SwapRandom;
      var nRndPos: nat :| n <= nRndPos < |vRandom|;
      Ops.SwapKeeps(Abs(), n, nRndPos);
      SwapFront(Abs(), n, nRndPos);
      SwapRandom(n, nRndPos);
      RandomKnown();
    }

    lemma RandomKnown()
      requires Valid()
      ensures forall k :: 0 <= k < |vRandom| ==> vRandom[k] in mapInfo
    {
    }

    static lemma SwapFront(s: State, i: nat, j: nat)
      requires Inv(s) && i <= j < |s.random| && s.random[i] in s.info && s.random[j] in s.info
      ensures
        var s' := AddrMan.SwapRandom(s, i, j);
        |s'.random| == |s.random| && s'.random[..i] == s.random[..i] && SameButPlace(s.info, s'.info)
    {
      hide NewOk, TriedOk, AddrOk, CountOk, AddrMan.SwapRandom;
      assert i != j ==> s.random[i] != s.random[j] by { assert s.info[s.random[i]].randomPos == i; }
      SwapEffect(s, i, j);
    }
  }
}
