/**
 The address manager's own consistency check, test by test as it is written. It passes in a consistent state exactly
 when the recorded times are in order, the key is not null and every address is stored under its own port; the first
 two hold throughout every run with positive times, the last one fails where ports are not told apart.
 */
module AddrManCheck {
  import opened AddrMan
  import Ops = AddrManOps
  import opened AddrManHeap

  // ---------------------------------------------------------------- the tests

  /** Reading a map by index: a missing key reads as zero. */
  function Lookup(addr: map<Service, int>, a: Service): int { if a in addr then addr[a] else 0 }

  /** What a code says about an entry. */
  predicate EntryFault(s: State, id: int, err: int)
    requires id in s.info
  {
    var i := s.info[id];
    || (err == -1 && i.inTried && i.lastSuccess == 0)
    || (err == -2 && i.inTried && i.refCount != 0)
    || (err == -3 && !i.inTried && !(0 <= i.refCount <= MAX_REFS))
    || (err == -4 && !i.inTried && i.refCount == 0)
    || (err == -5 && Lookup(s.addr, i.addr) != id)
    || (err == -14 && !(0 <= i.randomPos < |s.random| && s.random[i.randomPos] == id))
    || (err == -6 && i.lastTry < 0)
    || (err == -8 && i.lastSuccess < 0)
  }

  predicate EntryPasses(s: State, id: int)
    requires id in s.info
  {
    var i := s.info[id];
    && (if i.inTried then i.lastSuccess != 0 && i.refCount == 0 else 1 <= i.refCount <= MAX_REFS)
    && Lookup(s.addr, i.addr) == id
    && 0 <= i.randomPos < |s.random| && s.random[i.randomPos] == id
    && i.lastTry >= 0 && i.lastSuccess >= 0
  }

  /** What a code says about a slot of the tried table: a second occurrence counts as unknown. */
  predicate TriedFault(s: State, k: nat, err: int)
    requires k < |s.tried|
  {
    var x := s.tried[k];
    && x != EMPTY
    && (|| (err == -11 && (x !in TriedIds(s.info) || x in s.tried[..k]))
        || (err == -17 && x in s.info && TriedBucket(s, s.info[x].addr) != k / BUCKET_SIZE)
        || (err == -18 && x in s.info && Position(s, false, k / BUCKET_SIZE, s.info[x].addr) != k % BUCKET_SIZE))
  }

  predicate TriedPasses(s: State, k: nat)
    requires k < |s.tried|
  {
    var x := s.tried[k];
    x == EMPTY || (x in TriedIds(s.info) && TriedBucket(s, s.info[x].addr) == k / BUCKET_SIZE
                   && Position(s, false, k / BUCKET_SIZE, s.info[x].addr) == k % BUCKET_SIZE)
  }

  /** What a code says about a slot of the new table: occurrences beyond the reference count are unknown. */
  predicate NewFault(s: State, k: nat, err: int)
    requires k < |s.newer|
  {
    var x := s.newer[k];
    && x != EMPTY
    && (|| (err == -12 && (x !in NewIds(s.info) || Taken(s.newer[..k], x) >= s.info[x].refCount))
        || (err == -19 && x in s.info && Position(s, true, k / BUCKET_SIZE, s.info[x].addr) != k % BUCKET_SIZE))
  }

  predicate NewPasses(s: State, k: nat)
    requires k < |s.newer|
  {
    var x := s.newer[k];
    x == EMPTY || (x in NewIds(s.info) && Position(s, true, k / BUCKET_SIZE, s.info[x].addr) == k % BUCKET_SIZE)
  }

  /** The number of slots an id takes; the mark of an empty slot takes none. */
  function Taken(q: seq<int>, id: int): nat { if id == EMPTY then 0 else multiset(q)[id] }

  ghost predicate EntriesPass(s: State) { forall id :: id in s.info ==> EntryPasses(s, id) }

  ghost predicate TriedTablePasses(s: State) {
    && (forall k :: 0 <= k < |s.tried| ==> TriedPasses(s, k))
    && (forall id :: id in TriedIds(s.info) ==> Taken(s.tried, id) == 1)
  }

  ghost predicate NewTablePasses(s: State) {
    && (forall k :: 0 <= k < |s.newer| ==> NewPasses(s, k))
    && (forall id :: id in NewIds(s.info) ==> Taken(s.newer, id) == s.info[id].refCount)
  }

  /** All tests of the check. */
  ghost predicate Check(s: State) {
    && |s.random| == s.nTried + s.nNew && EntriesPass(s)
    && |TriedIds(s.info)| == s.nTried && |NewIds(s.info)| == s.nNew
    && TriedTablePasses(s) && NewTablePasses(s) && s.key != 0
  }

  /** The failure that a code stands for. */
  ghost predicate Reports(s: State, err: int) {
    || (err == -7 && |s.random| != s.nTried + s.nNew)
    || (exists id :: id in s.info && EntryFault(s, id, err))
    || (err == -9 && |TriedIds(s.info)| != s.nTried) || (err == -10 && |NewIds(s.info)| != s.nNew)
    || (exists k :: 0 <= k < |s.tried| && TriedFault(s, k, err))
    || (exists k :: 0 <= k < |s.newer| && NewFault(s, k, err))
    || (err == -13 && exists id :: id in TriedIds(s.info) && Taken(s.tried, id) == 0)
    || (err == -15 && exists id :: id in NewIds(s.info) && Taken(s.newer, id) < s.info[id].refCount)
    || (err == -16 && s.key == 0)
  }

  // ---------------------------------------------------------------- the check on the object

  /** Looking addresses up may leave entries' own addresses behind as keys that read as zero. */
  ghost predicate OnlyStray(s: State, addr: map<Service, int>) {
    && (forall a :: a in s.addr ==> a in addr)
    && (forall a :: a in addr ==> addr[a] == Lookup(s.addr, a))
    && (forall a :: a in addr && a !in s.addr ==> exists id :: id in s.info && s.info[id].addr == a)
  }

  /** The tests of one entry. */
  method CheckEntry(m: Manager, n: int) returns (err: int)
    requires n in m.mapInfo
    modifies m`mapAddr
    ensures err == 0 <==> EntryPasses(old(m.Abs()), n)
    ensures err != 0 ==> EntryFault(old(m.Abs()), n, err)
    ensures m.mapAddr == old(m.mapAddr) || m.mapAddr == old(m.mapAddr)[m.mapInfo[n].addr := Lookup(old(m.mapAddr), m.mapInfo[n].addr)]
  {
    var info := m.mapInfo[n];
    if info.inTried {
      if info.lastSuccess == 0 { return -1; }
      if info.refCount != 0 { return -2; }
    } else {
      if info.refCount < 0 || info.refCount > MAX_REFS { return -3; }
      if info.refCount == 0 { return -4; }
    }
    if info.addr !in m.mapAddr {
      m.mapAddr := m.mapAddr[info.addr := 0];
    }
    if m.mapAddr[info.addr] != n { return -5; }
    if info.randomPos < 0 || info.randomPos >= |m.vRandom| || m.vRandom[info.randomPos] != n { return -14; }
    if info.lastTry < 0 { return -6; }
    if info.lastSuccess < 0 { return -8; }
    return 0;
  }

  method AnyOf(ids: set<int>) returns (id: int)
    requires ids != {}
    ensures id in ids
  {
    Inhabited(ids);
    id :| id in ids;
  }

  lemma Inhabited(ids: set<int>)
    requires ids != {}
    ensures exists id :: id in ids
  {
    assert (forall x :: x !in ids) ==> ids == {};
  }

  /** The ids that are left of a part of the entries. */
  ghost function TriedAmong(info: InfoMap, ids: set<int>): set<int> { set id | id in ids && id in info && info[id].inTried }

  ghost function NewAmong(info: InfoMap, ids: set<int>): map<int, int> { map id | id in ids && id in info && !info[id].inTried :: info[id].refCount }

  /** The loop over all entries, in any order. */
  method CheckEntries(m: Manager) returns (err: int, setTried: set<int>, mapNew: map<int, int>)
    modifies m`mapAddr
    ensures err == 0 <==> EntriesPass(old(m.Abs()))
    ensures err != 0 ==> exists id :: id in m.mapInfo && EntryFault(old(m.Abs()), id, err)
    ensures err == 0 ==> setTried == TriedAmong(m.mapInfo, m.mapInfo.Keys) && mapNew == NewAmong(m.mapInfo, m.mapInfo.Keys)
    ensures OnlyStray(old(m.Abs()), m.mapAddr)
  {
    hide EntryPasses, EntryFault;
    setTried, mapNew := {}, map[];
    var rest := m.mapInfo.Keys;
    ghost var s := m.Abs();
    while rest != {}
      invariant rest <= m.mapInfo.Keys && m.Abs() == s.(addr := m.mapAddr) && OnlyStray(s, m.mapAddr)
      invariant forall id :: id in m.mapInfo && id !in rest ==> EntryPasses(s, id)
      invariant setTried == TriedAmong(m.mapInfo, m.mapInfo.Keys - rest) && mapNew == NewAmong(m.mapInfo, m.mapInfo.Keys - rest)
      decreases rest
    {
      var n := AnyOf(rest);
      ghost var before := m.mapAddr;
      err := CheckEntry(m, n);
      StrayEntry(s, before, n);
      StrayGrows(s, before, m.mapAddr, n);
      if err != 0 {
        return;
      }
      if m.mapInfo[n].inTried {
        setTried := setTried + {n};
      } else {
        mapNew := mapNew[n := m.mapInfo[n].refCount];
      }
      rest := rest - {n};
    }
    err := 0;
  }

  /** Stray keys do not change what the tests see. */
  lemma StrayEntry(s: State, addr: map<Service, int>, n: int)
    requires OnlyStray(s, addr) && n in s.info
    ensures EntryPasses(s.(addr := addr), n) == EntryPasses(s, n)
    ensures forall err :: EntryFault(s.(addr := addr), n, err) == EntryFault(s, n, err)
  {
    assert Lookup(addr, s.info[n].addr) == Lookup(s.addr, s.info[n].addr);
  }

  lemma StrayGrows(s: State, before: map<Service, int>, after: map<Service, int>, n: int)
    requires OnlyStray(s, before) && n in s.info
    requires after == before || after == before[s.info[n].addr := Lookup(before, s.info[n].addr)]
    ensures OnlyStray(s, after)
  {
    assert Lookup(before, s.info[n].addr) == Lookup(s.addr, s.info[n].addr);
  }

  /** Occurrences in one more slot. */
  lemma OneMore(q: seq<int>, k: nat, x: int)
    requires k < |q|
    ensures Taken(q[..k + 1], x) == Taken(q[..k], x) + if q[k] == x && x != EMPTY then 1 else 0
    ensures Taken(q[..k + 1], x) <= Taken(q, x)
  {
    assert q[..k + 1] == q[..k] + [q[k]];
    assert q == q[..k + 1] + q[k + 1..];
  }

  /** The first `k` slots of the tried table pass; `left` are the tried entries that did not come up in them. */
  ghost predicate TriedSeen(s: State, k: nat, left: set<int>) {
    && k <= |s.tried| && left <= TriedIds(s.info)
    && (forall j :: 0 <= j < k ==> TriedPasses(s, j))
    && (forall id :: id in TriedIds(s.info) ==> Taken(s.tried[..k], id) == if id in left then 0 else 1)
  }

  lemma TriedNext(s: State, k: nat, left: set<int>)
    requires TriedSeen(s, k, left) && k < |s.tried|
    ensures s.tried[k] == EMPTY ==> TriedSeen(s, k + 1, left)
    ensures s.tried[k] != EMPTY && s.tried[k] !in left ==> TriedFault(s, k, -11)
    ensures s.tried[k] != EMPTY && s.tried[k] in left && TriedPasses(s, k) ==> TriedSeen(s, k + 1, left - {s.tried[k]})
  {
    var x := s.tried[k];
    forall id ensures Taken(s.tried[..k + 1], id) == Taken(s.tried[..k], id) + if x == id && id != EMPTY then 1 else 0 {
      OneMore(s.tried, k, id);
    }
    assert x in multiset(s.tried[..k]) <==> x in s.tried[..k];
  }

  /** The loops over the tried table; what is left are the tried entries without a slot. */
  method CheckTried(m: Manager, setTried: set<int>) returns (err: int, left: set<int>)
    requires m.Apart() && setTried == TriedIds(m.mapInfo)
    ensures err != 0 ==> exists k :: 0 <= k < m.vvTried.Length && TriedFault(m.Abs(), k, err)
    ensures err == 0 ==> TriedSeen(m.Abs(), m.vvTried.Length, left)
  {
    hide TriedSeen;
    left := setTried;
    ghost var s := m.Abs();
    var k := 0;
    assert TriedSeen(s, 0, left) by { NothingTried(s); }
    while k < m.vvTried.Length
      invariant 0 <= k <= m.vvTried.Length && TriedSeen(s, k, left) && left <= setTried
    {
      var x := m.vvTried[k];
      assert x == s.tried[k];
      TriedNext(s, k, left);
      if x != EMPTY {
        if x !in left {
          assert s == m.Abs() && TriedFault(s, k, -11);
          return -11, left;
        }
        if m.h.tried(m.nKey, m.mapInfo[x].addr) % TRIED_BUCKETS != k / BUCKET_SIZE {
          assert s == m.Abs() && TriedFault(s, k, -17);
          return -17, left;
        }
        if m.h.place(m.nKey, false, k / BUCKET_SIZE, m.mapInfo[x].addr) % BUCKET_SIZE != k % BUCKET_SIZE {
          assert s == m.Abs() && TriedFault(s, k, -18);
          return -18, left;
        }
        left := left - {x};
      }
      k := k + 1;
    }
    err := 0;
  }

  lemma NothingTried(s: State)
    ensures TriedSeen(s, 0, TriedIds(s.info))
  {
    assert s.tried[..0] == [];
  }

  /** An entry still counted lacks as many slots as its count says; one no longer counted has all of them. */
  ghost predicate Lacking(s: State, left: map<int, int>, id: int, k: nat)
    requires k <= |s.newer| && id in s.info
  {
    var seen := Taken(s.newer[..k], id);
    if id in left then left[id] == s.info[id].refCount - seen > 0 else seen == s.info[id].refCount
  }

  /** The first `k` slots of the new table pass; `left` are the references that did not come up in them. */
  ghost predicate NewSeen(s: State, k: nat, left: map<int, int>) {
    && k <= |s.newer| && left.Keys <= NewIds(s.info)
    && (forall j :: 0 <= j < k ==> NewPasses(s, j))
    && (forall id :: id in NewIds(s.info) ==> Lacking(s, left, id, k))
  }

  function OneLess(left: map<int, int>, x: int): map<int, int>
    requires x in left
  {
    if left[x] - 1 == 0 then left - {x} else left[x := left[x] - 1]
  }

  lemma NewNext(s: State, k: nat, left: map<int, int>)
    requires NewSeen(s, k, left) && k < |s.newer|
    ensures s.newer[k] == EMPTY ==> NewSeen(s, k + 1, left)
    ensures s.newer[k] != EMPTY && s.newer[k] !in left ==> NewFault(s, k, -12)
    ensures s.newer[k] != EMPTY && s.newer[k] in left && NewPasses(s, k) ==> NewSeen(s, k + 1, OneLess(left, s.newer[k]))
  {
    hide Taken;
    var x := s.newer[k];
    assert x in NewIds(s.info) ==> Lacking(s, left, x, k);
    forall id | id in NewIds(s.info)
      ensures x == EMPTY ==> Lacking(s, left, id, k + 1)
      ensures x != EMPTY && x in left ==> Lacking(s, OneLess(left, x), id, k + 1)
    {
      assert Lacking(s, left, id, k);
      OneMore(s.newer, k, id);
    }
  }

  /** The loops over the new table; what is left are the references without a slot. */
  method CheckNew(m: Manager, mapNew: map<int, int>) returns (err: int, left: map<int, int>)
    requires m.Apart() && mapNew == NewAmong(m.mapInfo, m.mapInfo.Keys) && forall id :: id in mapNew ==> mapNew[id] > 0
    ensures err != 0 ==> exists k :: 0 <= k < m.vvNew.Length && NewFault(m.Abs(), k, err)
    ensures err == 0 ==> NewSeen(m.Abs(), m.vvNew.Length, left)
  {
    hide NewSeen;
    left := mapNew;
    ghost var s := m.Abs();
    var k := 0;
    assert NewSeen(s, 0, left) by { NothingNew(s, left); }
    while k < m.vvNew.Length
      invariant 0 <= k <= m.vvNew.Length && NewSeen(s, k, left) && left.Keys <= mapNew.Keys
    {
      var x := m.vvNew[k];
      assert x == s.newer[k];
      NewNext(s, k, left);
      if x != EMPTY {
        if x !in left {
          assert s == m.Abs() && NewFault(s, k, -12);
          return -12, left;
        }
        if m.h.place(m.nKey, true, k / BUCKET_SIZE, m.mapInfo[x].addr) % BUCKET_SIZE != k % BUCKET_SIZE {
          assert s == m.Abs() && NewFault(s, k, -19);
          return -19, left;
        }
        left := OneLess(left, x);
      }
      k := k + 1;
    }
    err := 0;
  }

  lemma NothingNew(s: State, left: map<int, int>)
    requires left == NewAmong(s.info, s.info.Keys) && forall id :: id in left ==> left[id] > 0
    ensures NewSeen(s, 0, left)
  {
    assert s.newer[..0] == [];
    forall id | id in NewIds(s.info) ensures Lacking(s, left, id, 0) { assert id in left; }
  }

  /** The consistency check: zero exactly when every test passes, otherwise the code of a test that failed. It
      changes nothing but stray keys. */
  method Check_(m: Manager) returns (err: int)
    requires m.Apart()
    modifies m`mapAddr
    ensures err == 0 <==> Check(old(m.Abs()))
    ensures err != 0 ==> Reports(old(m.Abs()), err)
    ensures m.Abs() == old(m.Abs()).(addr := m.mapAddr) && OnlyStray(old(m.Abs()), m.mapAddr)
  {
    hide EntryPasses, EntryFault, TriedPasses, TriedFault, NewPasses, NewFault;
    ghost var s := m.Abs();
    if |m.vRandom| != m.nTried + m.nNew {
      return -7;
    }
    var setTried, mapNew;
    err, setTried, mapNew := CheckEntries(m);
    if err != 0 {
      return;
    }
    assert setTried == TriedIds(s.info);
    assert mapNew.Keys == NewIds(s.info);
    if |setTried| != m.nTried {
      return -9;
    }
    if |mapNew| != m.nNew {
      NewCounts(s, mapNew);
      return -10;
    }
    NewCounts(s, mapNew);
    RefsPositive(s, mapNew);
    var restTried, restNew;
    err, restTried := CheckTried(m, setTried);
    if err != 0 {
      TriedFails(s, m.Abs(), err);
      return;
    }
    err, restNew := CheckNew(m, mapNew);
    if err != 0 {
      NewFails(s, m.Abs(), err);
      return;
    }
    SamePasses(s, m.Abs());
    assert m.vvTried[..m.vvTried.Length] == s.tried && m.vvNew[..m.vvNew.Length] == s.newer;
    TablesSeen(s, m.Abs(), restTried, restNew);
    if restTried != {} {
      var id := AnyOf(restTried);
      assert id in TriedIds(s.info) && Taken(s.tried, id) == 0;
      return -13;
    }
    if restNew != map[] {
      var id := AnyOf(restNew.Keys);
      assert id in NewIds(s.info) && Taken(s.newer, id) < s.info[id].refCount;
      return -15;
    }
    if m.nKey == 0 {
      return -16;
    }
    return 0;
  }

  /** What the two loops leave decides whether the tables pass. */
  lemma TablesSeen(s: State, s': State, left: set<int>, lacking: map<int, int>)
    requires s' == s.(addr := s'.addr) && TriedSeen(s', |s'.tried|, left) && NewSeen(s', |s'.newer|, lacking)
    ensures TriedTablePasses(s) <==> left == {}
    ensures NewTablePasses(s) <==> lacking == map[]
    ensures forall id :: id in left ==> id in TriedIds(s.info) && Taken(s.tried, id) == 0
    ensures forall id :: id in lacking ==> id in NewIds(s.info) && Taken(s.newer, id) < s.info[id].refCount
  {
    hide TriedPasses, NewPasses, Taken;
    SamePasses(s, s');
    assert s.tried[..|s.tried|] == s.tried && s.newer[..|s.newer|] == s.newer;
    forall id | id in NewIds(s.info) ensures Lacking(s', lacking, id, |s.newer|) {}
    if left != {} { Inhabited(left); var id :| id in left; assert Taken(s.tried, id) == 0; }
    if lacking != map[] { Inhabited(lacking.Keys); var id :| id in lacking.Keys; assert Lacking(s', lacking, id, |s.newer|); }
  }

  lemma NewCounts(s: State, mapNew: map<int, int>)
    requires mapNew.Keys == NewIds(s.info)
    ensures |mapNew| == |NewIds(s.info)|
  {
    assert |mapNew| == |mapNew.Keys|;
  }

  lemma RefsPositive(s: State, mapNew: map<int, int>)
    requires EntriesPass(s) && mapNew == NewAmong(s.info, s.info.Keys)
    ensures forall id :: id in mapNew ==> mapNew[id] > 0
  {
    forall id | id in mapNew ensures mapNew[id] > 0 { assert EntryPasses(s, id); }
  }

  lemma TriedFails(s: State, s': State, err: int)
    requires s' == s.(addr := s'.addr) && exists k :: 0 <= k < |s'.tried| && TriedFault(s', k, err)
    ensures Reports(s, err) && !TriedTablePasses(s)
  {
    hide EntryFault, NewFault;
    var k :| 0 <= k < |s'.tried| && TriedFault(s', k, err);
    assert TriedFault(s, k, err);
    if s.tried[k] in s.tried[..k] { Twice(s.tried, k); }
    assert !TriedPasses(s, k) || s.tried[k] in s.tried[..k];
  }

  lemma Twice(q: seq<int>, k: nat)
    requires k < |q| && q[k] in q[..k] && q[k] != EMPTY
    ensures Taken(q, q[k]) >= 2
  {
    assert q[k] in multiset(q[..k]);
    OneMore(q, k, q[k]);
  }

  lemma NewFails(s: State, s': State, err: int)
    requires s' == s.(addr := s'.addr) && exists k :: 0 <= k < |s'.newer| && NewFault(s', k, err)
    ensures Reports(s, err) && !NewTablePasses(s)
  {
    hide EntryFault, TriedFault;
    var k :| 0 <= k < |s'.newer| && NewFault(s', k, err);
    assert NewFault(s, k, err);
    OneMore(s.newer, k, s.newer[k]);
    assert !NewPasses(s, k) || Taken(s.newer[..k], s.newer[k]) >= s.info[s.newer[k]].refCount;
  }

  lemma SamePasses(s: State, s': State)
    requires s' == s.(addr := s'.addr)
    ensures forall k :: 0 <= k < |s.tried| ==> TriedPasses(s', k) == TriedPasses(s, k)
    ensures forall k :: 0 <= k < |s.newer| ==> NewPasses(s', k) == NewPasses(s, k)
  {
  }

  // ---------------------------------------------------------------- when a consistent state passes

  /** Recorded times in order: no negative ones, and a tried entry has succeeded once. */
  predicate StatsOk(i: Info) { (i.inTried ==> i.lastSuccess != 0) && i.lastTry >= 0 && i.lastSuccess >= 0 }

  /** The address is found under its own port. Where ports are not told apart, a port is not part of the stored key,
      and only the entry with number zero agrees with what a missing key reads as. */
  predicate Shown(s: State, id: int)
    requires id in s.info
  {
    s.byPort || id == 0 || s.info[id].addr.port == 0
  }

  lemma OnlyOnce(q: seq<int>, k: nat)
    requires k < |q| && forall j :: 0 <= j < |q| && j != k ==> q[j] != q[k]
    ensures multiset(q)[q[k]] == 1
  {
    assert q == q[..k] + [q[k]] + q[k + 1..];
    assert q[k] !in q[..k] && q[k] !in q[k + 1..];
  }

  lemma {:induction false} DistinctSize(q: seq<int>, keys: set<int>)
    requires (forall i, j :: 0 <= i < j < |q| ==> q[i] != q[j]) && (forall x :: x in keys <==> x in q)
    ensures |keys| == |q|
  {
    if q == [] {
      forall x ensures x !in keys { assert x !in q; }
      assert keys == {};
    } else {
      var n := |q| - 1;
      assert q == q[..n] + [q[n]];
      assert q[n] !in q[..n];
      DistinctSize(q[..n], keys - {q[n]});
    }
  }

  lemma RandomSize(s: State)
    requires RandomOk(s.info, s.random) && CountOk(s, 0)
    ensures |s.random| == s.nTried + s.nNew
  {
    forall i, j | 0 <= i < j < |s.random| ensures s.random[i] != s.random[j] { assert s.info[s.random[i]].randomPos == i; }
    forall x ensures x in s.info.Keys <==> x in s.random {}
    DistinctSize(s.random, s.info.Keys);
    assert s.info.Keys == NewIds(s.info) + TriedIds(s.info);
  }

  lemma EntryExactly(s: State, id: int)
    requires Inv(s) && id in s.info
    ensures EntryPasses(s, id) <==> StatsOk(s.info[id]) && Shown(s, id)
  {
    hide TriedOk, CountOk;
    assert RefsOk(s, {}, id);
    var a := s.info[id].addr;
    assert a in s.addr ==> Norm(s, s.info[s.addr[a]].addr) == a;
  }

  lemma TablesPass(s: State)
    requires NewOk(s, {}) && TriedOk(s)
    ensures TriedTablePasses(s) && NewTablePasses(s)
  {
    forall k | 0 <= k < |s.tried| ensures TriedPasses(s, k) {}
    forall id | id in TriedIds(s.info) ensures Taken(s.tried, id) == 1 {
      OnlyOnce(s.tried, TriedSlot(s, s.info[id].addr));
    }
    forall k | 0 <= k < |s.newer| ensures NewPasses(s, k) { assert NewSlotOk(s, {}, k); }
    forall id | id in NewIds(s.info) ensures Taken(s.newer, id) == s.info[id].refCount { assert RefsOk(s, {}, id); }
  }

  /** The exact condition under which a consistent state passes. */
  lemma InvCheck(s: State)
    requires Inv(s)
    ensures Check(s) <==> s.key != 0 && forall id :: id in s.info ==> StatsOk(s.info[id]) && Shown(s, id)
  {
    hide AddrOk, RandomOk, TriedOk, NewOk, EntryPasses, StatsOk, Shown, TriedTablePasses, NewTablePasses;
    RandomSize(s);
    TablesPass(s);
    forall id | id in s.info ensures EntryPasses(s, id) <==> StatsOk(s.info[id]) && Shown(s, id) { EntryExactly(s, id); }
  }

  /** Stray keys left by the check are never looked up again. */
  lemma StrayUnseen(s: State, addr: map<Service, int>, a: Service)
    requires Inv(s) && OnlyStray(s, addr)
    ensures Ops.Find(s.(addr := addr), a) == Ops.Find(s, a)
  {
    hide TriedOk, NewOk, RandomOk, CountOk;
    var key := Norm(s, a);
    assert Norm(s.(addr := addr), a) == key;
    assert Norm(s, key) == key;
    assert forall id :: id in s.info && s.info[id].addr == key ==> key in s.addr;
  }

  // ---------------------------------------------------------------- what operations do to the statistics

  /** Entries may go, change places and leave the tried table; only those in `up` may enter it. */
  ghost predicate Calm(s: State, s': State, up: set<int>) {
    && s'.key == s.key && s'.byPort == s.byPort && s'.info.Keys <= s.info.Keys
    && forall id :: id in s'.info ==>
         && s'.info[id].addr == s.info[id].addr && s'.info[id].lastTry == s.info[id].lastTry
         && s'.info[id].lastSuccess == s.info[id].lastSuccess
         && (s'.info[id].inTried ==> s.info[id].inTried || id in up)
  }

  lemma CalmThen(s: State, t: State, u: State, up: set<int>)
    requires Calm(s, t, {}) && Calm(t, u, up)
    ensures Calm(s, u, up)
  {
  }

  lemma DeleteCalm(s: State, id: int)
    requires RandomOk(s.info, s.random) && id in s.info
    ensures Deletable(s, id) && Calm(s, Delete(s, id), {})
  {
    hide RandomOk, SwapRandom;
    MoveToEnd(s, id);
  }

  lemma ClearNewCalm(s: State, k: nat, limbo: set<int>, off: int)
    requires Mid(s, limbo, off) && k < |s.newer|
    ensures Manager.ClearNewCallable(s, k) && Calm(s, ClearNew(s, k), {})
  {
    hide AddrOk, TriedOk, CountOk, NewOk, RandomOk, Deletable, Delete;
    ClearNewKeeps(s, k, limbo, off);
    if s.newer[k] != EMPTY {
      var t := Unref(s, k);
      SamePosRandom(s.info, t.info, s.random);
      assert Calm(s, t, {});
      DeleteCalm(t, s.newer[k]);
      CalmThen(s, t, Delete(t, s.newer[k]), {});
    }
  }

  lemma MakeRoomCalm(s: State, k: nat, limbo: set<int>, off: int)
    requires Mid(s, limbo, off) && k < |s.tried|
    ensures Calm(s, Ops.MakeRoom(s, k, limbo, off), {})
  {
    hide Mid, ClearNew, Calm, Place;
    if s.tried[k] == EMPTY {
      CalmSame(s);
    } else {
      Ops.EvictKeeps(s, k, limbo, off);
      var e, t := s.tried[k], Ops.Evict(s, k);
      MidFacts(t, limbo + {e}, off + 1);
      var home := Ops.HomeSlot(t, t.info[e]);
      EvictCalm(s, k);
      ClearNewCalm(t, home, limbo + {e}, off + 1);
      ClearNewKeeps(t, home, limbo + {e}, off + 1);
      PlaceCalm(ClearNew(t, home), e, home);
      CalmThen(s, t, ClearNew(t, home), {});
      CalmThen(s, ClearNew(t, home), Place(ClearNew(t, home), e, home).(nNew := ClearNew(t, home).nNew + 1), {});
    }
  }

  lemma CalmSame(s: State)
    ensures Calm(s, s, {})
  {
  }

  lemma EvictCalm(s: State, k: nat)
    requires k < |s.tried| && s.tried[k] in s.info
    ensures Calm(s, Ops.Evict(s, k), {})
  {
  }

  lemma PlaceCalm(s: State, id: int, k: nat)
    requires id in s.info && k < |s.newer|
    ensures Calm(s, Place(s, id, k), {}) && Calm(s, Place(s, id, k).(nNew := s.nNew + 1), {})
  {
  }

  lemma MakeTriedCalm(s: State, id: int)
    requires Inv(s) && id in s.info && !s.info[id].inTried
    ensures Calm(s, Ops.MakeTried(s, id), {id})
  {
    hide Mid, Ops.MakeRoom, TriedSlot, Calm, Ops.LeaveNew, Ops.EnterTried;
    Ops.LeaveNewKeeps(s, id);
    var t := Ops.LeaveNew(s, id);
    MidFacts(t, {id}, 1);
    var k := TriedSlot(t, t.info[id].addr);
    Ops.MakeRoomKeeps(t, k, {id}, 1);
    var u := Ops.MakeRoom(t, k, {id}, 1);
    MidFacts(u, {id}, 1);
    LeaveCalm(s, id);
    MakeRoomCalm(t, k, {id}, 1);
    CalmThen(s, t, u, {});
    EnterCalm(u, id);
    CalmThen(s, u, Ops.EnterTried(u, id), {id});
  }

  lemma LeaveCalm(s: State, id: int)
    requires id in s.info
    ensures Calm(s, Ops.LeaveNew(s, id), {})
  {
  }

  lemma EnterCalm(s: State, id: int)
    requires id in s.info && TriedSlot(s, s.info[id].addr) < |s.tried|
    ensures Calm(s, Ops.EnterTried(s, id), {id})
  {
  }

  lemma ReferenceCalm(s: State, id: int, source: nat, now: int, limbo: set<int>)
    requires Mid(s, limbo, 0) && id in s.info && limbo <= {id} && !s.info[id].inTried
    ensures Calm(s, Ops.Reference(s, id, source, now, limbo), {})
  {
    hide AddrOk, TriedOk, CountOk, NewOk, RandomOk, ClearNew, Delete, Ops.IsTerrible, NewSlot, NewBucket;
    MidFacts(s, limbo, 0);
    Ops.BucketRange(s, s.info[id].addr, source);
    var k := NewSlot(s, s.info[id].addr, NewBucket(s, s.info[id].addr, source));
    ClearNewCalm(s, k, limbo, 0);
    ClearNewKeeps(s, k, limbo, 0);
    DeleteCalm(s, id);
  }

  lemma {:induction false} ShuffleCalm(s: State, n: nat, picks: seq<nat>)
    requires Inv(s)
    ensures Calm(s, Ops.Shuffle(s, n, picks), {})
    decreases |picks|
  {
    hide AddrOk, TriedOk, CountOk, NewOk, RandomOk, SwapRandom;
    if picks != [] && n < |s.random| {
      var j := n + picks[0] % (|s.random| - n);
      Ops.SwapKeeps(s, n, j);
      SwapRandomOk(s, n, j);
      ShuffleCalm(SwapRandom(s, n, j), n + 1, picks[1..]);
    }
  }

  // ---------------------------------------------------------------- every run

  /** All statistics are in order and, if asked for, no entry has a port. */
  ghost predicate Sane(s: State, byPort: bool, noPorts: bool) {
    s.key != 0 && s.byPort == byPort && forall id :: id in s.info ==> StatsOk(s.info[id]) && (noPorts ==> s.info[id].addr.port == 0)
  }

  /** What the caller must see to: positive times of success, no negative times of attempts, no null key. */
  predicate Proper(op: Ops.Op, noPorts: bool) {
    match op
    case OpClear(key) => key != 0
    case OpAdd(a, _, _, _, _, _) => noPorts ==> a.service.port == 0
    case OpGood(_, time) => time > 0
    case OpAttempt(_, _, time) => time >= 0
    case _ => true
  }

  lemma CalmSane(s: State, s': State, up: set<int>, noPorts: bool)
    requires Calm(s, s', up) && Sane(s, s.byPort, noPorts) && forall id :: id in up && id in s'.info ==> s'.info[id].lastSuccess > 0
    ensures Sane(s', s.byPort, noPorts)
  {
  }

  lemma GoodSane(s: State, a: Service, time: int, noPorts: bool)
    requires Inv(s) && Sane(s, s.byPort, noPorts) && time > 0
    ensures Sane(Ops.Good(s, a, time), s.byPort, noPorts)
  {
    hide Mid, Ops.MakeTried;
    Ops.LastGoodKeeps(s, time);
    if Ops.FindExact(s, a).Some? {
      var id := Ops.FindExact(s, a).value;
      var s0, i := s.(lastGood := time), Ops.Succeeded(s.info[id], time);
      Ops.TouchKeeps(s0, id, i, {}, 0);
      var s1 := Ops.Touch(s0, id, i);
      assert Sane(s1, s.byPort, noPorts);
      if !s.info[id].inTried {
        MakeTriedCalm(s1, id);
        CalmSane(s1, Ops.MakeTried(s1, id), {id}, noPorts);
      }
    }
  }

  lemma AddSane(s: State, a: Address, routable: bool, source: nat, timePenalty: int, now: int, roll: nat, noPorts: bool)
    requires Inv(s) && Sane(s, s.byPort, noPorts) && (noPorts ==> a.service.port == 0)
    ensures Sane(Ops.Add(s, a, routable, source, timePenalty, now, roll).0, s.byPort, noPorts)
  {
    hide Mid, Ops.Reference, Ops.Refresh, Ops.NoMore;
    var penalty := if a.service.ip == source then 0 else timePenalty;
    if Ops.Find(s, a.service).Some? {
      var id := Ops.Find(s, a.service).value;
      var i := Ops.Refresh(s.info[id], a, penalty, now);
      Ops.RefreshKeepsPlace(s.info[id], a, penalty, now);
      Ops.TouchKeeps(s, id, i, {}, 0);
      var s1 := Ops.Touch(s, id, i);
      assert Sane(s1, s.byPort, noPorts);
      if !Ops.NoMore(i, a, roll) {
        Manager.MoreMeaning(i, a, roll);
        ReferenceCalm(s1, id, source, now, {});
        CalmSane(s1, Ops.Reference(s1, id, source, now, {}), {}, noPorts);
      }
    } else {
      Ops.AnnounceKeeps(s, a, source, penalty);
      var s1 := Ops.Announce(s, a, source, penalty);
      assert Sane(s1, s.byPort, noPorts);
      ReferenceCalm(s1, s.idCount, source, now, {s.idCount});
      CalmSane(s1, Ops.Reference(s1, s.idCount, source, now, {s.idCount}), {}, noPorts);
    }
  }

  lemma ApplySane(s: State, op: Ops.Op, noPorts: bool)
    requires Inv(s) && Sane(s, s.byPort, noPorts) && Proper(op, noPorts)
    ensures Sane(Ops.Apply(s, op), s.byPort, noPorts)
  {
    hide Mid, Ops.Add, Ops.Good, Ops.Shuffle;
    match op
    case OpClear(_) =>
    case OpAdd(a, routable, source, penalty, now, roll) => AddSane(s, a, routable, source, penalty, now, roll, noPorts);
    case OpGood(a, time) => GoodSane(s, a, time, noPorts);
    case OpGetAddr(picks) =>
      ShuffleCalm(s, 0, picks);
      CalmSane(s, Ops.Shuffle(s, 0, picks), {}, noPorts);
    case OpAttempt(_, _, _) =>
    case OpConnected(_, _) =>
    case OpSetServices(_, _) =>
  }

  lemma {:induction false} RunSane(h: Hashers, key: nat, byPort: bool, ops: seq<Ops.Op>, noPorts: bool)
    requires key != 0 && forall i :: 0 <= i < |ops| ==> Proper(ops[i], noPorts)
    ensures Sane(Ops.Run(h, key, byPort, ops), byPort, noPorts)
  {
    hide Mid, Ops.Apply, Proper, Sane;
    if ops == [] {
      FreshSane(h, key, byPort, noPorts);
    } else {
      RunSane(h, key, byPort, ops[..|ops| - 1], noPorts);
      SaneByPort(Ops.Run(h, key, byPort, ops[..|ops| - 1]), byPort, noPorts);
      ApplySane(Ops.Run(h, key, byPort, ops[..|ops| - 1]), ops[|ops| - 1], noPorts);
    }
  }

  lemma SaneByPort(s: State, byPort: bool, noPorts: bool)
    requires Sane(s, byPort, noPorts)
    ensures s.byPort == byPort
  {
  }

  lemma FreshSane(h: Hashers, key: nat, byPort: bool, noPorts: bool)
    requires key != 0
    ensures Sane(Ops.Fresh(h, key, byPort), byPort, noPorts)
  {
  }

  /** In every run with a proper key and proper times the check passes exactly in the states whose entries are all found
      under their own port: always if ports are told apart, and if no port was ever announced. */
  lemma ReachableCheck(h: Hashers, key: nat, byPort: bool, ops: seq<Ops.Op>)
    requires key != 0 && forall i :: 0 <= i < |ops| ==> Proper(ops[i], false)
    ensures
      var s := Ops.Run(h, key, byPort, ops);
      && (Check(s) <==> forall id :: id in s.info ==> Shown(s, id))
      && (byPort || (forall i :: 0 <= i < |ops| ==> Proper(ops[i], true)) ==> Check(s))
  {
    hide Mid, Ops.Run, StatsOk, Proper, Check;
    var s := Ops.Run(h, key, byPort, ops);
    RunSane(h, key, byPort, ops, false);
    InvCheck(s);
    if !byPort && forall i :: 0 <= i < |ops| ==> Proper(ops[i], true) { RunSane(h, key, byPort, ops, true); }
  }

  // ---------------------------------------------------------------- states that do not pass

  /** A success reported for a known address keeps the check passing exactly when its time is positive: time zero looks
      as if there had been none. */
  lemma GoodCheck(s: State, a: Service, time: int)
    requires Inv(s) && Check(s) && Ops.FindExact(s, a).Some?
    ensures Check(Ops.Good(s, a, time)) <==> time > 0
  {
    hide Mid, Ops.MakeTried, Check;
    var id, s' := Ops.FindExact(s, a).value, Ops.Good(s, a, time);
    Ops.GoodMeaning(s, a, time);
    Ops.LastGoodKeeps(s, time);
    var s0, i := s.(lastGood := time), Ops.Succeeded(s.info[id], time);
    Ops.TouchKeeps(s0, id, i, {}, 0);
    if !s.info[id].inTried { MakeTriedCalm(Ops.Touch(s0, id, i), id); }
    InvCheck(s);
    InvCheck(s');
    assert s'.info[id].lastSuccess == time;
  }

  /** An attempt recorded for a known address keeps the check passing exactly when its time is not negative. */
  lemma AttemptCheck(s: State, a: Service, countFailure: bool, time: int)
    requires Inv(s) && Check(s) && Ops.FindExact(s, a).Some?
    ensures Check(Ops.Attempt(s, a, countFailure, time)) <==> time >= 0
  {
    hide Mid, Check;
    var id, s' := Ops.FindExact(s, a).value, Ops.Attempt(s, a, countFailure, time);
    Ops.QuietKeeps(s, a, countFailure, time, {});
    InvCheck(s);
    InvCheck(s');
    assert s'.info[id].lastTry == time;
  }

  /** Two addresses with ports, announced where ports are not told apart: a consistent state that fails the check. */
  lemma PortsFail(key: nat)
    requires key != 0
    ensures
      var s := Ops.Run(Ops.Spread(), key, false, [Ops.Announcement(1, 8333), Ops.Announcement(2, 8333)]);
      Inv(s) && !Check(s)
  {
    hide Mid, Ops.Introduce, Check, StatsOk, NewOk;
    var ops := [Ops.Announcement(1, 8333), Ops.Announcement(2, 8333)];
    var s0 := Ops.Run(Ops.Spread(), key, false, []);
    var s1 := Ops.Run(Ops.Spread(), key, false, ops[..1]);
    var s2 := Ops.Run(Ops.Spread(), key, false, ops);
    assert ops[..1][..0] == [];
    Ops.IntroduceFree(s0, ops[0].a, 0, 0, 0);
    Ops.IntroduceFree(s1, ops[1].a, 0, 0, 0);
    InvCheck(s2);
    assert !Shown(s2, 1);
  }
}
