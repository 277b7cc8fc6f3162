/** Saving and loading on the address manager object itself: the loops perform the functions on its state. */
module AddrManDisk {
  import opened Collections
  import opened AddrMan
  import opened AddrManStore
  import Ops = AddrManOps
  import opened AddrManHeap

  lemma PickedStep(info: InfoMap, id: nat, tried: bool)
    ensures Picked(info, id + 1, tried) == Picked(info, id, tried) + if id in info && Chosen(info[id], tried) then [id] else []
    ensures id in info && Chosen(info[id], tried) ==>
      Records(info, Picked(info, id + 1, tried)) == Records(info, Picked(info, id, tried)) + [RecordOf(info[id])]
    ensures !(id in info && Chosen(info[id], tried)) ==> Picked(info, id + 1, tried) == Picked(info, id, tried)
  {
    hide RecordOf;
  }

  lemma PickedNone(info: InfoMap, tried: bool)
    ensures Picked(info, 0, tried) == [] && Records(info, Picked(info, 0, tried)) == []
  {
  }

  lemma RankIs(info: InfoMap, id: nat)
    ensures Rank(info, id) == |Picked(info, id, false)|
  {
  }

  /** Writes one kind of entries, in id order; the counter of that kind is never passed. */
  method WriteEntries(info: InfoMap, nIdCount: int, tried: bool, limit: int) returns (records: seq<Record>, numbers: map<int, int>)
    requires nIdCount >= 0 && (forall id :: id in info ==> 0 <= id < nIdCount) && limit == |Picked(info, nIdCount, tried)|
    ensures records == Records(info, Picked(info, nIdCount, tried))
    ensures !tried ==> forall id :: id in info ==> id in numbers && numbers[id] == Rank(info, id)
  {
    hide Picked, Rank, Records, Chosen;
    records, numbers := [], map[];
    var nIds := 0;
    var id := 0;
    PickedNone(info, tried);
    while id < nIdCount
      invariant 0 <= id <= nIdCount && nIds == |Picked(info, id, tried)|
      invariant records == Records(info, Picked(info, id, tried))
      invariant !tried ==> forall k :: k in info && k < id ==> k in numbers && numbers[k] == Rank(info, k)
    {
      PickedStep(info, id, tried);
      PickedGrows(info, id, nIdCount, tried);
      RankIs(info, id);
      if id in info {
        numbers := numbers[id := nIds];
        if Chosen(info[id], tried) {
          assert nIds != limit;
          records := records + [RecordOf(info[id])];
          nIds := nIds + 1;
        }
      }
      id := id + 1;
    }
  }

  /** The list only grows, and strictly where an id is chosen. */
  lemma {:induction false} PickedGrows(info: InfoMap, id: nat, n: nat, tried: bool)
    requires id < n
    ensures |Picked(info, id, tried)| <= |Picked(info, n, tried)|
    ensures id in info && Chosen(info[id], tried) ==> |Picked(info, id, tried)| < |Picked(info, n, tried)|
  {
    if id < n - 1 { PickedGrows(info, id, n - 1, tried); }
  }

  /** Writes the numbers of the entries in a bucket of the new table. */
  method WriteBucket(m: Manager, bucket: nat, numbers: map<int, int>) returns (list: seq<int>)
    requires m.Valid() && bucket < NEW_BUCKETS
    requires forall id :: id in m.mapInfo ==> id in numbers && numbers[id] == Rank(m.mapInfo, id)
    ensures list == Ranks(m.Abs(), bucket, BUCKET_SIZE)
  {
    hide Rank, RandomOk, AddrOk, TriedOk, CountOk;
    list := [];
    var i := 0;
    while i < BUCKET_SIZE
      invariant 0 <= i <= BUCKET_SIZE && list == Ranks(m.Abs(), bucket, i)
    {
      var x := m.vvNew[bucket * BUCKET_SIZE + i];
      assert NewSlotOk(m.Abs(), {}, bucket * BUCKET_SIZE + i);
      if x != EMPTY {
        list := list + [numbers[x]];
      }
      i := i + 1;
    }
  }

  method Save(m: Manager) returns (st: Stored)
    requires m.Valid()
    ensures m.Apart() && m.nIdCount >= 0 && st == Serialize(m.Abs())
  {
    hide RandomOk, AddrOk, NewOk, TriedOk, CountOk, Picked, Ranks, Rank;
    ListsFacts(m.Abs());
    var newer, numbers := WriteEntries(m.mapInfo, m.nIdCount, false, m.nNew);
    var tried, _ := WriteEntries(m.mapInfo, m.nIdCount, true, m.nTried);
    var buckets: seq<seq<int>> := [];
    var b := 0;
    while b < NEW_BUCKETS
      invariant 0 <= b <= NEW_BUCKETS && |buckets| == b
      invariant forall k :: 0 <= k < b ==> buckets[k] == Ranks(m.Abs(), k, BUCKET_SIZE)
    {
      var list := WriteBucket(m, b, numbers);
      buckets := buckets + [list];
      b := b + 1;
    }
    st := Stored(1, 32, m.nKey, m.nNew, m.nTried, FlipBit30(NEW_BUCKETS), newer, tried, buckets);
    assert buckets == Serialize(m.Abs()).buckets;
  }

  method ReadNewOne(m: Manager, st: Stored, n: nat)
    requires m.Apart() && n < |st.newer|
    modifies m, m.vvNew
    ensures Sized(old(m.Abs())) && m.Abs() == LoadNewOne(old(m.Abs()), st, n)
  {
    hide Usable, Place;
    ghost var s0 := m.Abs();
    var i := InfoOf(st.newer[n]).(randomPos := |m.vRandom|);
    m.mapInfo := m.mapInfo[n := i];
    m.mapAddr := m.mapAddr[i.addr := n];
    m.vRandom := m.vRandom + [n];
    if !Usable(st) {
      var slot := m.NewSlotOf(i.addr, m.NewBucketOf(i.addr, i.source));
      if m.vvNew[slot] == EMPTY {
        PlaceHere(m, n, slot);
      }
    }
  }

  /** Takes an empty slot of the new table. */
  method PlaceHere(m: Manager, id: int, slot: nat)
    requires m.Apart() && slot < m.vvNew.Length && id in m.mapInfo
    modifies m`mapInfo, m.vvNew
    ensures m.Abs() == Place(old(m.Abs()), id, slot)
  {
    ghost var was := m.vvNew[..];
    m.mapInfo := m.mapInfo[id := m.mapInfo[id].(refCount := m.mapInfo[id].refCount + 1)];
    m.vvNew[slot] := id;
    assert m.vvNew[..] == was[slot := id];
  }

  method ReadNew(m: Manager, st: Stored)
    requires m.Apart() && Complete(st)
    modifies m, m.vvNew
    ensures Sized(old(m.Abs())) && m.Abs() == LoadNew(old(m.Abs()), st, Times(st.nNew)).(idCount := st.nNew)
  {
    hide Usable, LoadNewOne;
    ghost var s0 := m.Abs();
    var n := 0;
    while n < st.nNew
      invariant 0 <= n <= Times(st.nNew) && m.Abs() == LoadNew(s0, st, n)
    {
      ReadNewOne(m, st, n);
      n := n + 1;
    }
    m.nIdCount := st.nNew;
  }

  /** Reads one tried entry; one whose slot is taken is lost. */
  method ReadTriedOne(m: Manager, r: Record) returns (nLost: nat)
    requires m.Apart()
    modifies m, m.vvTried
    ensures Sized(old(m.Abs())) && m.Abs().(nTried := m.nTried - nLost) == LoadTriedOne(old(m.Abs()), r) && m.nTried == old(m.nTried)
  {
    ghost var was := m.vvTried[..];
    var slot := m.TriedSlotOf(r.addr);
    if m.vvTried[slot] == EMPTY {
      m.mapInfo := m.mapInfo[m.nIdCount := InfoOf(r).(randomPos := |m.vRandom|, inTried := true)];
      m.vRandom := m.vRandom + [m.nIdCount];
      m.mapAddr := m.mapAddr[r.addr := m.nIdCount];
      m.vvTried[slot] := m.nIdCount;
      assert m.vvTried[..] == was[slot := m.nIdCount];
      m.nIdCount := m.nIdCount + 1;
      nLost := 0;
    } else {
      nLost := 1;
    }
  }

  lemma LostLater(s: State, r: Record, lost: int)
    requires Sized(s)
    ensures LoadTriedOne(s.(nTried := s.nTried - lost), r) == LoadTriedOne(s, r).(nTried := LoadTriedOne(s, r).nTried - lost)
  {
  }

  method ReadTried(m: Manager, st: Stored)
    requires m.Apart() && Complete(st)
    modifies m, m.vvTried
    ensures Sized(old(m.Abs())) && m.Abs() == LoadTried(old(m.Abs()), st, Times(st.nTried))
  {
    hide LoadTriedOne;
    ghost var s0 := m.Abs();
    var nLost := 0;
    var n := 0;
    while n < st.nTried
      invariant 0 <= n <= Times(st.nTried) && m.nTried == s0.nTried && m.Abs().(nTried := s0.nTried - nLost) == LoadTried(s0, st, n)
    {
      LostLater(m.Abs(), st.tried[n], nLost);
      var lost := ReadTriedOne(m, st.tried[n]);
      nLost := nLost + lost;
      n := n + 1;
    }
    m.nTried := m.nTried - nLost;
  }

  method ReadBucket(m: Manager, st: Stored, bucket: nat, list: seq<int>)
    requires m.Apart()
    modifies m`mapInfo, m.vvNew
    ensures Sized(old(m.Abs())) && m.Abs() == LoadBucket(old(m.Abs()), st, bucket, list)
  {
    hide Usable, Place;
    ghost var s0 := m.Abs();
    var n := 0;
    assert list[..0] == [];
    while n < |list|
      invariant 0 <= n <= |list| && m.Abs() == LoadBucket(s0, st, bucket, list[..n])
    {
      var index := list[n];
      assert list[..n + 1][..n] == list[..n];
      if 0 <= index < m.nNew && index in m.mapInfo && Usable(st) && bucket < NEW_BUCKETS {
        var i := m.mapInfo[index];
        var slot := m.NewSlotOf(i.addr, bucket);
        if m.vvNew[slot] == EMPTY && i.refCount < MAX_REFS {
          PlaceHere(m, index, slot);
        }
      }
      n := n + 1;
    }
    assert list[..n] == list;
  }

  method ReadBuckets(m: Manager, st: Stored)
    requires m.Apart() && Buckets(st) <= |st.buckets|
    modifies m`mapInfo, m.vvNew
    ensures Sized(old(m.Abs())) && m.Abs() == LoadBuckets(old(m.Abs()), st, Times(Buckets(st)))
  {
    hide LoadBucket, Buckets;
    ghost var s2 := m.Abs();
    var b := 0;
    while b < Buckets(st)
      invariant 0 <= b <= Times(Buckets(st)) && m.Abs() == LoadBuckets(s2, st, b)
    {
      ReadBucket(m, st, b, st.buckets[b]);
      b := b + 1;
    }
  }

  /** Drops the entries that found no place. */
  method PruneAll(m: Manager, first: int)
    requires m.Apart() && RandomOk(m.mapInfo, m.vRandom) && m.nIdCount >= first
    modifies m
    ensures m.Abs() == Prune(old(m.Abs()), first, old(m.nIdCount) - first)
  {
    hide RandomOk, Delete;
    ghost var s3 := m.Abs();
    var n := m.nIdCount;
    var id := first;
    while id < n
      invariant first <= id <= n && m.Abs() == Prune(s3, first, id - first)
    {
      if id in m.mapInfo && Homeless(m.mapInfo[id]) {
        DeleteListed(m.Abs(), id);
        m.Delete(id);
      }
      id := id + 1;
    }
  }

  /** Loads saved data into a manager; an error leaves it cleared or partly read. */
  method Load(m: Manager, st: Stored, key: nat) returns (ok: bool)
    requires m.Apart()
    modifies m, m.vvTried, m.vvNew
    ensures ok <==> Unserialize(m.h, m.discriminatePorts, st).Some?
    ensures ok ==> Unserialize(m.h, m.discriminatePorts, st) == Some(m.Abs())
  {
    hide LoadNew, LoadTried, LoadBuckets, Buckets, RandomOk, Complete, Mid, Prune, Start;
    m.Clear(key);
    if st.keySize != 32 {
      return false;
    }
    m.nKey, m.nNew, m.nTried := st.key, st.nNew, st.nTried;
    if m.nNew > NEW_BUCKETS * BUCKET_SIZE || m.nTried > TRIED_BUCKETS * BUCKET_SIZE || !Complete(st) {
      return false;
    }
    StillFresh(m.h, m.discriminatePorts, key, st);
    ReadNew(m, st);
    ReadTried(m, st);
    CompleteBuckets(st);
    ReadBuckets(m, st);
    assert m.Abs() == Filled(m.h, m.discriminatePorts, st);
    PruneAll(m, FirstId(st));
    ok := true;
  }

  lemma StillFresh(h: Hashers, byPort: bool, key: nat, st: Stored)
    ensures Ops.Fresh(h, key, byPort).(key := st.key, nNew := st.nNew, nTried := st.nTried) == Start(h, byPort, st)
  {
  }

  lemma CompleteBuckets(st: Stored)
    requires Complete(st)
    ensures Buckets(st) <= |st.buckets|
  {
  }
}
