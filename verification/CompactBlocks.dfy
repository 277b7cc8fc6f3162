/**
 Compact blocks (section "HeaderAndShortIDs" of BIP 152): a block is announced by short transaction ids, with a few
 transactions sent along; the receiver places what it already has and asks for the rest. Every short id gets the
 slot its transaction had, and filling in what is missing rebuilds the block.
 */
module CompactBlocks {
  import opened Collections
  import opened Consensus

  /** A transaction by its hash; `isNull` for one without inputs and outputs. */
  datatype Tx = Tx(hash: nat, isNull: bool)

  /** `index` counts the slots skipped since the prefilled transaction before. */
  datatype Prefilled = Prefilled(index: nat, tx: Tx)

  datatype Message = Message(headerIsNull: bool, shortIds: seq<nat>, prefilled: seq<Prefilled>)

  datatype ReadStatus = Ok | Invalid | Failed | CheckBlockFailed

  type Slots = seq<Option<Tx>>

  const MIN_TRANSACTION_SIZE: nat := 10
  const UINT16_MAX: nat := 65535

  /** Positions in a block are words of 16 bits. */
  const POSITIONS: nat := UINT16_MAX + 1

  // ---------------------------------------------------------------- slots

  /** The open slots, in order. */
  ghost function Open(s: Slots): (r: seq<nat>)
    ensures forall k :: 0 <= k < |r| ==> r[k] < |s| && s[r[k]] == None
  {
    if s == [] then []
    else if s[|s| - 1] == None then Open(s[..|s| - 1]) + [|s| - 1]
    else Open(s[..|s| - 1])
  }

  /** How many slots are taken. */
  ghost function Taken(s: Slots): nat {
    if s == [] then 0 else Taken(s[..|s| - 1]) + if s[|s| - 1] == None then 0 else 1
  }

  lemma {:induction false} OpenCount(s: Slots)
    ensures |Open(s)| + Taken(s) == |s|
  {
    if s != [] { OpenCount(s[..|s| - 1]); }
  }

  lemma {:induction false} OpenAscends(s: Slots, i: nat, j: nat)
    requires i < j < |Open(s)|
    ensures Open(s)[i] < Open(s)[j]
  {
    if j < |Open(s[..|s| - 1])| { OpenAscends(s[..|s| - 1], i, j); }
  }

  lemma {:induction false} OpenComplete(s: Slots, p: nat)
    requires p < |s| && s[p] == None
    ensures p in Open(s)
  {
    if p < |s| - 1 { OpenComplete(s[..|s| - 1], p); }
  }

  /** The open slots below a position come first. */
  lemma {:induction false} OpenPrefix(s: Slots, p: nat)
    requires p <= |s|
    ensures |Open(s[..p])| <= |Open(s)| && Open(s[..p]) == Open(s)[..|Open(s[..p])|]
    ensures p < |s| && s[p] == None ==> |Open(s[..p])| < |Open(s)| && Open(s)[|Open(s[..p])|] == p
    decreases |s|
  {
    if p < |s| {
      var t := s[..|s| - 1];
      assert t[..p] == s[..p];
      OpenPrefix(t, p);
    } else {
      assert s[..p] == s;
    }
  }

  lemma {:induction false} TakenUpdate(s: Slots, p: nat, x: Option<Tx>)
    requires p < |s|
    ensures Taken(s[p := x]) == Taken(s) - (if s[p] == None then 0 else 1) + if x == None then 0 else 1
  {
    var n := |s| - 1;
    if p < n {
      TakenUpdate(s[..n], p, x);
      assert s[p := x][..n] == s[..n][p := x];
    } else {
      assert s[p := x][..n] == s[..n];
    }
  }

  lemma {:induction false} TakenNone(s: Slots)
    requires forall i :: 0 <= i < |s| ==> s[i] == None
    ensures Taken(s) == 0
  {
    if s != [] { TakenNone(s[..|s| - 1]); }
  }

  // ---------------------------------------------------------------- the announcement

  /** The announcement of a block: its first transaction in full, the others by short id. */
  method MakeMessage(vtx: seq<Tx>, short: nat -> nat) returns (m: Message)
    requires vtx != []
    ensures m == Announced(vtx, short)
  {
    var ids: seq<nat> := [];
    for i := 1 to |vtx|
      invariant |ids| == i - 1 && forall k :: 0 <= k < i - 1 ==> ids[k] == short(vtx[k + 1].hash)
    {
      ids := ids + [short(vtx[i].hash)];
    }
    m := Message(false, ids, [Prefilled(0, vtx[0])]);
    assert m.shortIds == Announced(vtx, short).shortIds;
  }

  ghost function Announced(vtx: seq<Tx>, short: nat -> nat): Message
    requires vtx != []
  {
    Message(false, seq<nat>(|vtx| - 1, k requires 0 <= k < |vtx| - 1 => short(vtx[k + 1].hash)), [Prefilled(0, vtx[0])])
  }

  // ---------------------------------------------------------------- prefilled transactions

  /** The slot of a prefilled transaction. */
  ghost function Position(pre: seq<Prefilled>, i: nat): nat
    requires i < |pre|
  {
    if i == 0 then pre[0].index else Position(pre, i - 1) + pre[i].index + 1
  }

  ghost predicate PrefilledOk(m: Message, i: nat)
    requires i < |m.prefilled|
  {
    !m.prefilled[i].tx.isNull && Position(m.prefilled, i) <= UINT16_MAX && Position(m.prefilled, i) <= |m.shortIds| + i
  }

  lemma {:induction false} PositionsAscend(pre: seq<Prefilled>, i: nat, j: nat)
    requires i < j < |pre|
    ensures Position(pre, i) < Position(pre, j)
    decreases j
  {
    if i < j - 1 { PositionsAscend(pre, i, j - 1); }
  }

  /** The slots after the first `n` prefilled transactions have been placed. */
  ghost predicate Placed(m: Message, s: Slots, n: nat) {
    && n <= |m.prefilled| && |s| == |m.shortIds| + |m.prefilled| && Taken(s) == n
    && (forall i :: 0 <= i < n ==> PrefilledOk(m, i) && Position(m.prefilled, i) < |s|
                                   && s[Position(m.prefilled, i)] == Some(m.prefilled[i].tx))
    && (forall p :: 0 <= p < |s| && s[p] != None ==> exists i :: 0 <= i < n && p == Position(m.prefilled, i))
  }

  lemma PlaceNext(m: Message, s: Slots, n: nat)
    requires Placed(m, s, n) && n < |m.prefilled| && PrefilledOk(m, n)
    ensures Position(m.prefilled, n) < |s| && s[Position(m.prefilled, n)] == None
    ensures Placed(m, s[Position(m.prefilled, n) := Some(m.prefilled[n].tx)], n + 1)
  {
    hide Position;
    var p := Position(m.prefilled, n);
    forall i | 0 <= i < n ensures Position(m.prefilled, i) < p { PositionsAscend(m.prefilled, i, n); }
    TakenUpdate(s, p, Some(m.prefilled[n].tx));
  }

  /** Prefilled transactions stand at positions of 16 bits, all different. */
  lemma {:induction false} PositionsGrow(pre: seq<Prefilled>, i: nat)
    requires i < |pre|
    ensures i <= Position(pre, i)
  {
    if i > 0 { PositionsGrow(pre, i - 1); }
  }

  lemma PrefilledFew(m: Message, s: Slots)
    requires Placed(m, s, |m.prefilled|)
    ensures Taken(s) == |m.prefilled| <= POSITIONS
  {
    hide Position, Taken;
    if m.prefilled != [] {
      PositionsGrow(m.prefilled, |m.prefilled| - 1);
      assert PrefilledOk(m, |m.prefilled| - 1);
    }
  }

  /** A number kept as a 16-bit word. */
  function Word16(x: nat): (r: nat)
    ensures r <= x && (r == x <==> x < POSITIONS)
  {
    x % POSITIONS
  }

  /** What becomes of slots that are kept as 16-bit positions. */
  ghost function Cut(open: seq<nat>): (r: seq<nat>)
    ensures |r| == |open| && forall k :: 0 <= k < |open| ==> r[k] == Word16(open[k])
  {
    seq<nat>(|open|, k requires 0 <= k < |open| => Word16(open[k]))
  }

  /** Every short id keeps its own slot exactly when there are no more slots than positions. */
  lemma OwnSlotsExactly(m: Message, s: Slots)
    requires Placed(m, s, |m.prefilled|) && m.shortIds != []
    ensures Cut(Open(s)) == Open(s) <==> |s| <= POSITIONS
  {
    hide Position, Open, Taken, Word16, Cut;
    if |s| > POSITIONS {
      var p := |s| - 1;
      assert s[p] == None;
      OpenComplete(s, p);
      var k :| 0 <= k < |Open(s)| && Open(s)[k] == p;
      assert Cut(Open(s))[k] != p;
    }
  }

  /** After all are placed there is one open slot for each short id. */
  lemma OneSlotEach(m: Message, s: Slots)
    requires Placed(m, s, |m.prefilled|)
    ensures |Open(s)| == |m.shortIds|
  {
    OpenCount(s);
  }

  // ---------------------------------------------------------------- short ids

  ghost predicate Distinct(ids: seq<nat>) {
    forall i, j :: 0 <= i < j < |ids| ==> ids[i] != ids[j]
  }

  /** The map of the first `i` short ids: as many entries as ids exactly when no two ids are equal. */
  ghost predicate Mapped(ids: seq<nat>, open: seq<nat>, slotOf: map<nat, nat>, i: nat) {
    && i <= |ids| == |open| && |slotOf| <= i
    && slotOf.Keys == (set k | 0 <= k < i :: ids[k])
    && (|slotOf| == i <==> Distinct(ids[..i]))
    && (Distinct(ids[..i]) ==> forall k :: 0 <= k < i ==> slotOf[ids[k]] == open[k])
  }

  lemma DistinctNext(a: seq<nat>, x: nat)
    ensures Distinct(a + [x]) <==> Distinct(a) && x !in a
  {
    var b := a + [x];
    if Distinct(b) {
      forall i, j | 0 <= i < j < |a| ensures a[i] != a[j] { assert b[i] != b[j]; }
      forall i | 0 <= i < |a| ensures a[i] != x { assert b[i] != b[|a|]; }
    }
    if Distinct(a) && x !in a {
      forall i, j | 0 <= i < j < |b| ensures b[i] != b[j] { assert b[i] == a[i]; if j < |a| { assert a[i] != a[j]; } }
    }
  }

  lemma MapSize(m: map<nat, nat>, k: nat, v: nat)
    ensures |m[k := v]| == if k in m then |m| else |m| + 1
  {
    assert m[k := v].Keys == m.Keys + {k};
    if k in m { assert m[k := v].Keys == m.Keys; }
  }

  lemma MapNext(ids: seq<nat>, open: seq<nat>, slotOf: map<nat, nat>, i: nat)
    requires Mapped(ids, open, slotOf, i) && i < |ids|
    ensures Mapped(ids, open, slotOf[ids[i] := open[i]], i + 1)
  {
    hide Distinct;
    MapSize(slotOf, ids[i], open[i]);
    DistinctNext(ids[..i], ids[i]);
    assert ids[..i + 1] == ids[..i] + [ids[i]];
    assert ids[i] in slotOf <==> ids[i] in ids[..i] by {
      if ids[i] in ids[..i] { var k :| 0 <= k < i && ids[..i][k] == ids[i]; assert ids[k] in slotOf.Keys; }
    }
    forall k | 0 <= k < i ensures ids[k] in slotOf && ids[k] in ids[..i] { assert ids[..i][k] == ids[k]; }
  }

  lemma MapStart(ids: seq<nat>, open: seq<nat>)
    requires |ids| == |open|
    ensures Mapped(ids, open, map[], 0)
  {
  }

  // ---------------------------------------------------------------- candidates

  /** The candidates with a given short id, in order. */
  ghost function Matches(short: nat -> nat, id: nat, list: seq<Tx>): (r: seq<Tx>)
    ensures forall i :: 0 <= i < |r| ==> short(r[i].hash) == id && r[i] in list
  {
    if list == [] then []
    else
      var t := list[|list| - 1];
      Matches(short, id, list[..|list| - 1]) + if short(t.hash) == id then [t] else []
  }

  lemma MatchesNext(short: nat -> nat, id: nat, list: seq<Tx>, t: Tx)
    ensures short(t.hash) == id ==> Matches(short, id, list + [t]) == Matches(short, id, list) + [t]
    ensures short(t.hash) != id ==> Matches(short, id, list + [t]) == Matches(short, id, list)
  {
    assert (list + [t])[..|list|] == list;
  }

  /**
   What a slot holds given the candidates for it from the mempool and from the extra list: the first of them, unless
   the mempool had two or an extra one differs from the first.
   */
  ghost function Outcome(pool: seq<Tx>, extra: seq<Tx>): Option<Tx> {
    if |pool| >= 2 || pool + extra == [] then None
    else
      var t := (pool + extra)[0];
      if forall i :: 0 <= i < |extra| ==> extra[i].hash == t.hash then Some(t) else None
  }

  /** One more candidate for the same slot. */
  lemma OutcomeNext(pool: seq<Tx>, extra: seq<Tx>, t: Tx)
    ensures Outcome(pool + [t], []) == if pool == [] then Some(t) else None
    ensures
      var now := Outcome(pool, extra);
      Outcome(pool, extra + [t]) == if pool + extra == [] then Some(t)
                                    else if now != None && now.value.hash != t.hash then None
                                    else now
  {
    if pool + extra != [] {
      var first := (pool + extra)[0];
      assert (pool + (extra + [t]))[0] == first;
      var next := extra + [t];
      assert next[|extra|] == t && forall i :: 0 <= i < |extra| ==> next[i] == extra[i];
    }
  }

  /** The state of one slot: what it holds and whether any candidate came up for it. */
  ghost predicate Slot(short: nat -> nat, id: nat, holds: Option<Tx>, have: bool, pool: seq<Tx>, extra: seq<Tx>) {
    var p, e := Matches(short, id, pool), Matches(short, id, extra);
    holds == Outcome(p, e) && (have <==> p + e != [])
  }

  lemma SlotFromPool(short: nat -> nat, id: nat, holds: Option<Tx>, have: bool, pool: seq<Tx>, t: Tx)
    requires Slot(short, id, holds, have, pool, [])
    ensures if short(t.hash) == id then Slot(short, id, if have then None else Some(t), true, pool + [t], [])
            else Slot(short, id, holds, have, pool + [t], [])
  {
    hide Outcome, Matches;
    MatchesNext(short, id, pool, t);
    assert Matches(short, id, []) == [] by { NoMatches(short, id); }
    OutcomeNext(Matches(short, id, pool), [], t);
  }

  lemma NoMatches(short: nat -> nat, id: nat)
    ensures Matches(short, id, []) == [] && Outcome([], []) == None
  {
  }

  lemma SlotFromExtra(short: nat -> nat, id: nat, holds: Option<Tx>, have: bool, pool: seq<Tx>, extra: seq<Tx>, t: Tx)
    requires Slot(short, id, holds, have, pool, extra)
    ensures if short(t.hash) != id then Slot(short, id, holds, have, pool, extra + [t])
            else
              var now := if !have then Some(t) else if holds != None && holds.value.hash != t.hash then None else holds;
              Slot(short, id, now, true, pool, extra + [t])
  {
    hide Outcome, Matches;
    MatchesNext(short, id, extra, t);
    OutcomeNext(Matches(short, id, pool), Matches(short, id, extra), t);
  }

  /** All slots after the given candidates: prefilled ones untouched, `count` of the others taken. */
  ghost predicate Matched(short: nat -> nat, ids: seq<nat>, s0: Slots, avail: Slots, have: seq<bool>, count: int,
                          pool: seq<Tx>, extra: seq<Tx>) {
    && |avail| == |have| == |s0| && |Open(s0)| == |ids|
    && Taken(avail) == Taken(s0) + count
    && (forall p :: 0 <= p < |s0| && s0[p] != None ==> avail[p] == s0[p])
    && (forall k :: 0 <= k < |ids| ==> Slot(short, ids[k], avail[Open(s0)[k]], have[Open(s0)[k]], pool, extra))
  }

  lemma OpenInjective(s0: Slots, j: nat, k: nat)
    requires j < |Open(s0)| && k < |Open(s0)| && j != k
    ensures Open(s0)[j] != Open(s0)[k]
  {
    if j < k { OpenAscends(s0, j, k); } else { OpenAscends(s0, k, j); }
  }

  /** A new content for one slot, when every slot has taken the new candidates into account. */
  lemma MatchedUpdate(short: nat -> nat, ids: seq<nat>, s0: Slots, avail: Slots, have: seq<bool>, count: int,
                      pool: seq<Tx>, extra: seq<Tx>, k: nat, x: Option<Tx>, pool': seq<Tx>, extra': seq<Tx>)
    requires Matched(short, ids, s0, avail, have, count, pool, extra) && k < |ids|
    requires Slot(short, ids[k], x, true, pool', extra')
    requires forall j :: 0 <= j < |ids| && j != k ==> Slot(short, ids[j], avail[Open(s0)[j]], have[Open(s0)[j]], pool', extra')
    ensures
      var p := Open(s0)[k];
      var change := (if x == None then 0 else 1) - if avail[p] == None then 0 else 1;
      Matched(short, ids, s0, avail[p := x], have[p := true], count + change, pool', extra')
  {
    hide Open, Taken, Slot;
    var p := Open(s0)[k];
    TakenUpdate(avail, p, x);
    forall j | 0 <= j < |ids| && j != k ensures Open(s0)[j] != p { OpenInjective(s0, j, k); }
  }

  lemma MatchedStart(short: nat -> nat, ids: seq<nat>, s0: Slots, have: seq<bool>)
    requires |have| == |s0| && |Open(s0)| == |ids| && forall p :: 0 <= p < |have| ==> !have[p]
    ensures Matched(short, ids, s0, s0, have, 0, [], [])
  {
    hide Taken;
  }

  /** One step with a mempool candidate: whose slot it is, and what becomes of the slots. */
  lemma PoolStep(short: nat -> nat, ids: seq<nat>, s0: Slots, avail: Slots, have: seq<bool>, count: int, pool: seq<Tx>, t: Tx)
    requires Matched(short, ids, s0, avail, have, count, pool, [])
    ensures short(t.hash) !in ids ==> Matched(short, ids, s0, avail, have, count, pool + [t], [])
    ensures forall k :: 0 <= k < |ids| && ids[k] == short(t.hash) && Distinct(ids) ==>
      var p := Open(s0)[k];
      if !have[p] then avail[p] == None && Matched(short, ids, s0, avail[p := Some(t)], have[p := true], count + 1, pool + [t], [])
      else if avail[p] != None then Matched(short, ids, s0, avail[p := None], have, count - 1, pool + [t], [])
      else Matched(short, ids, s0, avail, have, count, pool + [t], [])
  {
    hide Open, Taken, Slot, Matched;
    SlotsOf(short, ids, s0, avail, have, count, pool, []);
    var pool' := pool + [t];
    forall j | 0 <= j < |ids| && ids[j] != short(t.hash)
      ensures Slot(short, ids[j], avail[Open(s0)[j]], have[Open(s0)[j]], pool', []) {
      SlotFromPool(short, ids[j], avail[Open(s0)[j]], have[Open(s0)[j]], pool, t);
    }
    if short(t.hash) !in ids { MatchedSame(short, ids, s0, avail, have, count, pool, [], pool', []); }
    forall k | 0 <= k < |ids| && ids[k] == short(t.hash) && Distinct(ids)
      ensures
        var p := Open(s0)[k];
        if !have[p] then avail[p] == None && Matched(short, ids, s0, avail[p := Some(t)], have[p := true], count + 1, pool', [])
        else if avail[p] != None then Matched(short, ids, s0, avail[p := None], have, count - 1, pool', [])
        else Matched(short, ids, s0, avail, have, count, pool', [])
    {
      var p := Open(s0)[k];
      SlotFromPool(short, ids[k], avail[p], have[p], pool, t);
      NotHad(short, ids[k], avail[p], have[p], pool, []);
      MatchedUpdate(short, ids, s0, avail, have, count, pool, [], k, if have[p] then None else Some(t), pool', []);
      if have[p] { assert have[p := true] == have; }
      if avail[p] == None { assert avail[p := None] == avail; }
    }
  }

  /** One step with an extra candidate, which may repeat the one already there. */
  lemma ExtraStep(short: nat -> nat, ids: seq<nat>, s0: Slots, avail: Slots, have: seq<bool>, count: int,
                  pool: seq<Tx>, extra: seq<Tx>, t: Tx)
    requires Matched(short, ids, s0, avail, have, count, pool, extra)
    ensures short(t.hash) !in ids ==> Matched(short, ids, s0, avail, have, count, pool, extra + [t])
    ensures forall k :: 0 <= k < |ids| && ids[k] == short(t.hash) && Distinct(ids) ==>
      var p := Open(s0)[k];
      if !have[p] then avail[p] == None && Matched(short, ids, s0, avail[p := Some(t)], have[p := true], count + 1, pool, extra + [t])
      else if avail[p] != None && avail[p].value.hash != t.hash then
        Matched(short, ids, s0, avail[p := None], have, count - 1, pool, extra + [t])
      else Matched(short, ids, s0, avail, have, count, pool, extra + [t])
  {
    hide Open, Taken, Slot, Matched;
    SlotsOf(short, ids, s0, avail, have, count, pool, extra);
    var extra' := extra + [t];
    forall j | 0 <= j < |ids| && ids[j] != short(t.hash)
      ensures Slot(short, ids[j], avail[Open(s0)[j]], have[Open(s0)[j]], pool, extra') {
      SlotFromExtra(short, ids[j], avail[Open(s0)[j]], have[Open(s0)[j]], pool, extra, t);
    }
    if short(t.hash) !in ids { MatchedSame(short, ids, s0, avail, have, count, pool, extra, pool, extra'); }
    forall k | 0 <= k < |ids| && ids[k] == short(t.hash) && Distinct(ids)
      ensures
        var p := Open(s0)[k];
        if !have[p] then avail[p] == None && Matched(short, ids, s0, avail[p := Some(t)], have[p := true], count + 1, pool, extra')
        else if avail[p] != None && avail[p].value.hash != t.hash then
          Matched(short, ids, s0, avail[p := None], have, count - 1, pool, extra')
        else Matched(short, ids, s0, avail, have, count, pool, extra')
    {
      var p := Open(s0)[k];
      SlotFromExtra(short, ids[k], avail[p], have[p], pool, extra, t);
      NotHad(short, ids[k], avail[p], have[p], pool, extra);
      var now := if !have[p] then Some(t) else if avail[p] != None && avail[p].value.hash != t.hash then None else avail[p];
      MatchedUpdate(short, ids, s0, avail, have, count, pool, extra, k, now, pool, extra');
      if have[p] { assert have[p := true] == have; }
      if now == avail[p] { assert avail[p := now] == avail; }
    }
  }

  lemma NotHad(short: nat -> nat, id: nat, holds: Option<Tx>, have: bool, pool: seq<Tx>, extra: seq<Tx>)
    requires Slot(short, id, holds, have, pool, extra)
    ensures !have ==> holds == None
  {
    hide Matches;
  }

  lemma SlotsOf(short: nat -> nat, ids: seq<nat>, s0: Slots, avail: Slots, have: seq<bool>, count: int, pool: seq<Tx>, extra: seq<Tx>)
    requires Matched(short, ids, s0, avail, have, count, pool, extra)
    ensures |avail| == |have| == |s0| && |Open(s0)| == |ids|
    ensures forall k :: 0 <= k < |ids| ==> Slot(short, ids[k], avail[Open(s0)[k]], have[Open(s0)[k]], pool, extra)
  {
    hide Open, Taken, Slot;
  }

  lemma MatchedSame(short: nat -> nat, ids: seq<nat>, s0: Slots, avail: Slots, have: seq<bool>, count: int,
                    pool: seq<Tx>, extra: seq<Tx>, pool': seq<Tx>, extra': seq<Tx>)
    requires Matched(short, ids, s0, avail, have, count, pool, extra)
    requires forall j :: 0 <= j < |ids| ==> Slot(short, ids[j], avail[Open(s0)[j]], have[Open(s0)[j]], pool', extra')
    ensures Matched(short, ids, s0, avail, have, count, pool', extra')
  {
    hide Open, Taken, Slot;
  }

  lemma {:induction false} AllTaken(s: Slots)
    ensures Taken(s) <= |s|
    ensures Taken(s) == |s| ==> forall p :: 0 <= p < |s| ==> s[p] != None
  {
    if s != [] { AllTaken(s[..|s| - 1]); }
  }

  /** With as many slots taken as there are short ids, none is open. */
  lemma NoneOpen(short: nat -> nat, ids: seq<nat>, s0: Slots, avail: Slots, have: seq<bool>, count: int, pool: seq<Tx>, extra: seq<Tx>)
    requires Matched(short, ids, s0, avail, have, count, pool, extra) && count == |ids|
    ensures forall p :: 0 <= p < |avail| ==> avail[p] != None
  {
    hide Open, Taken, Slot;
    OpenCount(s0);
    AllTaken(avail);
  }

  lemma PoolExhausted(short: nat -> nat, ids: seq<nat>, s0: Slots, avail: Slots, have: seq<bool>, count: int, pool: seq<Tx>)
    requires Matched(short, ids, s0, avail, have, count, pool, []) && count == |ids|
    ensures forall k :: 0 <= k < |ids| ==> |Matches(short, ids[k], pool)| == 1
  {
    hide Open, Taken, Matches;
    NoneOpen(short, ids, s0, avail, have, count, pool, []);
    forall k | 0 <= k < |ids| ensures |Matches(short, ids[k], pool)| == 1 {
      NoMatches(short, ids[k]);
      assert Slot(short, ids[k], avail[Open(s0)[k]], have[Open(s0)[k]], pool, []);
      assert avail[Open(s0)[k]] != None;
    }
  }

  /** What `InitData` refuses outright. */
  ghost predicate Malformed(m: Message) {
    || m.headerIsNull
    || (m.shortIds == [] && m.prefilled == [])
    || |m.shortIds| + |m.prefilled| > MAX_BLOCK_SIZE / MIN_TRANSACTION_SIZE
    || exists i :: 0 <= i < |m.prefilled| && !PrefilledOk(m, i)
  }

  lemma SlotCount(m: Message, s: Slots)
    requires Placed(m, s, |m.prefilled|)
    ensures |s| == |m.shortIds| + |m.prefilled|
  {
  }

  lemma MapDecides(ids: seq<nat>, open: seq<nat>, slotOf: map<nat, nat>)
    requires Mapped(ids, open, slotOf, |ids|)
    ensures |slotOf| == |ids| <==> Distinct(ids)
  {
    assert ids[..|ids|] == ids;
  }

  // ---------------------------------------------------------------- filling the rest in

  /** Taken slots keep their transaction; open ones take the missing ones in order. */
  ghost predicate FilledFrom(avail: Slots, missing: seq<Tx>, out: seq<Tx>) {
    && |out| == |avail| && |missing| == |Open(avail)|
    && (forall p :: 0 <= p < |avail| && avail[p] != None ==> out[p] == avail[p].value)
    && (forall k :: 0 <= k < |missing| ==> out[Open(avail)[k]] == missing[k])
  }

  /** No candidate shares its short id with a different transaction of the block. */
  ghost predicate NoCollision(short: nat -> nat, vtx: seq<Tx>, candidates: seq<Tx>) {
    forall t, k :: t in candidates && 0 < k < |vtx| && short(t.hash) == short(vtx[k].hash) ==> t == vtx[k]
  }

  /** In an announced block the open slots are all but the first. */
  lemma {:induction false} OpenAfterFirst(s: Slots)
    requires s != [] && s[0] != None && forall p :: 0 < p < |s| ==> s[p] == None
    ensures |Open(s)| == |s| - 1 && forall k :: 0 <= k < |s| - 1 ==> Open(s)[k] == k + 1
  {
    if |s| > 1 {
      OpenAfterFirst(s[..|s| - 1]);
    } else {
      assert s[..0] == [];
    }
  }

  lemma AnnouncedSlots(vtx: seq<Tx>, short: nat -> nat, s0: Slots)
    requires vtx != [] && Placed(Announced(vtx, short), s0, 1)
    ensures |s0| == |vtx| && s0[0] == Some(vtx[0]) && forall p :: 0 < p < |s0| ==> s0[p] == None
  {
    hide Taken;
    var m := Announced(vtx, short);
    assert PrefilledOk(m, 0) && Position(m.prefilled, 0) == 0;
  }

  /** A slot of an announced block holds nothing or the block's own transaction. */
  lemma SlotHoldsOwn(short: nat -> nat, vtx: seq<Tx>, k: nat, holds: Option<Tx>, have: bool, pool: seq<Tx>, extra: seq<Tx>)
    requires 0 < k < |vtx| && Slot(short, short(vtx[k].hash), holds, have, pool, extra) && NoCollision(short, vtx, pool + extra)
    ensures holds == None || holds == Some(vtx[k])
  {
    hide Matches;
    var id := short(vtx[k].hash);
    var p, e := Matches(short, id, pool), Matches(short, id, extra);
    if holds != None {
      var t := holds.value;
      assert t == (p + e)[0];
      assert t in pool + extra;
    }
  }

  /** The status that checking a whole block gives. */
  function Checked(check: seq<Tx> -> bool, corruption: seq<Tx> -> bool, vtx: seq<Tx>): ReadStatus {
    if check(vtx) then Ok else if corruption(vtx) then Failed else CheckBlockFailed
  }

  // ---------------------------------------------------------------- the receiver

  class PartiallyDownloadedBlock {
    var headerIsNull: bool
    var txnAvailable: Slots
    var prefilledCount: int
    var mempoolCount: int
    var extraCount: int

    constructor ()
      ensures headerIsNull && txnAvailable == [] && prefilledCount == mempoolCount == extraCount == 0
    {
      headerIsNull, txnAvailable, prefilledCount, mempoolCount, extraCount := true, [], 0, 0, 0;
    }

    /** Puts the prefilled transactions into their slots. */
    method Prefill(m: Message) returns (ok: bool)
      modifies this
      ensures headerIsNull == old(headerIsNull) && mempoolCount == old(mempoolCount) && extraCount == old(extraCount)
      ensures ok <==> forall i :: 0 <= i < |m.prefilled| ==> PrefilledOk(m, i)
      ensures ok ==> Placed(m, txnAvailable, |m.prefilled|) && prefilledCount == |m.prefilled|
    {
      hide Position, Placed;
      txnAvailable := seq(|m.shortIds| + |m.prefilled|, _ => None);
      NonePlaced(m, txnAvailable);
      var last := -1;
      var i := 0;
      while i < |m.prefilled|
        invariant 0 <= i <= |m.prefilled| && Placed(m, txnAvailable, i)
        invariant last == if i == 0 then -1 else Position(m.prefilled, i - 1)
        invariant headerIsNull == old(headerIsNull) && mempoolCount == old(mempoolCount) && extraCount == old(extraCount)
      {
        if m.prefilled[i].tx.isNull {
          assert !PrefilledOk(m, i);
          return false;
        }
        PositionStep(m.prefilled, i);
        last := last + m.prefilled[i].index + 1;
        if last > UINT16_MAX {
          assert !PrefilledOk(m, i);
          return false;
        }
        if last > |m.shortIds| + i {
          assert !PrefilledOk(m, i);
          return false;
        }
        PlaceNext(m, txnAvailable, i);
        txnAvailable := txnAvailable[last := Some(m.prefilled[i].tx)];
        i := i + 1;
      }
      PlacedOk(m, txnAvailable, i);
      prefilledCount := |m.prefilled|;
      ok := true;
    }

    static lemma NonePlaced(m: Message, s: Slots)
      requires |s| == |m.shortIds| + |m.prefilled| && forall p :: 0 <= p < |s| ==> s[p] == None
      ensures Placed(m, s, 0)
    {
      TakenNone(s);
    }

    static lemma PlacedOk(m: Message, s: Slots, n: nat)
      requires Placed(m, s, n)
      ensures forall i :: 0 <= i < n ==> PrefilledOk(m, i)
    {
    }

    static lemma PositionStep(pre: seq<Prefilled>, i: nat)
      requires i < |pre|
      ensures Position(pre, i) == (if i == 0 then -1 else Position(pre, i - 1)) + pre[i].index + 1
    {
    }

    /** Gives each short id the next open slot, as a position of 16 bits; stops where a bucket of the map is too
        crowded. The search for open slots counts what it skips in 16 bits as well. */
    method MapShortIds(ids: seq<nat>, crowded: seq<bool>) returns (slotOf: map<nat, nat>, ok: bool)
      requires |Open(txnAvailable)| == |ids| == |crowded| && (ids == [] || Taken(txnAvailable) < POSITIONS)
      ensures ok <==> forall i :: 0 <= i < |ids| ==> !crowded[i]
      ensures ok ==> Mapped(ids, Cut(Open(txnAvailable)), slotOf, |ids|)
    {
      hide Open, Mapped, Taken, Word16, Cut;
      slotOf := map[];
      ghost var open := Open(txnAvailable);
      MapStart(ids, Cut(open));
      var offset := 0;
      var i := 0;
      assert txnAvailable[..0] == [];
      OpenOfNone();
      while i < |ids|
        invariant 0 <= i <= |ids| && 0 <= offset && i + offset <= |txnAvailable| && |Open(txnAvailable[..i + offset])| == i
        invariant Mapped(ids, Cut(open), slotOf, i) && forall k :: 0 <= k < i ==> !crowded[k]
      {
        StillOpen(txnAvailable, i + offset);
        while txnAvailable[i + offset] != None
          invariant 0 <= offset && i + offset < |txnAvailable| && |Open(txnAvailable[..i + offset])| == i
          decreases |txnAvailable| - offset
        {
          OpenStep(txnAvailable, i + offset);
          SkippedFew(txnAvailable, i + offset + 1);
          offset := Word16(offset + 1);
          StillOpen(txnAvailable, i + offset);
        }
        OpenPrefix(txnAvailable, i + offset);
        OpenStep(txnAvailable, i + offset);
        MapNext(ids, Cut(open), slotOf, i);
        slotOf := slotOf[ids[i] := Word16(i + offset)];
        if crowded[i] {
          return slotOf, false;
        }
        i := i + 1;
      }
      ok := true;
    }

    /** No more slots are skipped before a position than are taken in all. */
    static lemma SkippedFew(s: Slots, p: nat)
      requires p <= |s|
      ensures p - |Open(s[..p])| <= Taken(s)
    {
      hide Open, Taken;
      OpenCount(s[..p]);
      TakenPrefix(s, p);
    }

    static lemma {:induction false} TakenPrefix(s: Slots, p: nat)
      requires p <= |s|
      ensures Taken(s[..p]) <= Taken(s)
      decreases |s|
    {
      if p < |s| {
        TakenPrefix(s[..|s| - 1], p);
        assert s[..|s| - 1][..p] == s[..p];
      } else {
        assert s[..p] == s;
      }
    }

    static lemma OpenOfNone()
      ensures Open([]) == []
    {
    }

    static lemma OpenStep(s: Slots, p: nat)
      requires p < |s|
      ensures |Open(s[..p + 1])| == |Open(s[..p])| + if s[p] == None then 1 else 0
    {
      assert s[..p + 1][..p] == s[..p];
    }

    /** While open slots are left, the search has not reached the end. */
    static lemma StillOpen(s: Slots, p: nat)
      requires p <= |s| && |Open(s[..p])| < |Open(s)|
      ensures p < |s|
    {
      assert s[..|s|] == s;
    }

    /** Where a short id leads. */
    static ghost predicate Leads(ids: seq<nat>, open: seq<nat>, slotOf: map<nat, nat>) {
      && Distinct(ids) && |ids| == |open|
      && (forall id :: id in slotOf <==> id in ids)
      && (forall k :: 0 <= k < |ids| ==> slotOf[ids[k]] == open[k])
    }

    static lemma MappedLeads(ids: seq<nat>, open: seq<nat>, slotOf: map<nat, nat>)
      requires Mapped(ids, open, slotOf, |ids|) && |slotOf| == |ids|
      ensures Leads(ids, open, slotOf)
    {
      hide Distinct;
      assert ids[..|ids|] == ids;
      forall id ensures id in slotOf <==> id in ids { assert id in slotOf <==> id in slotOf.Keys; }
    }

    static lemma PoolOffered(short: nat -> nat, ids: seq<nat>, s0: Slots, slotOf: map<nat, nat>, avail: Slots, have: seq<bool>,
                             count: int, pool: seq<Tx>, t: Tx)
      requires Leads(ids, Open(s0), slotOf) && Matched(short, ids, s0, avail, have, count, pool, [])
      ensures short(t.hash) !in slotOf ==> Matched(short, ids, s0, avail, have, count, pool + [t], [])
      ensures |avail| == |have| && (short(t.hash) in slotOf ==>
        var p := slotOf[short(t.hash)];
        && p < |avail|
        && if !have[p] then Matched(short, ids, s0, avail[p := Some(t)], have[p := true], count + 1, pool + [t], [])
           else if avail[p] != None then Matched(short, ids, s0, avail[p := None], have, count - 1, pool + [t], [])
           else Matched(short, ids, s0, avail, have, count, pool + [t], []))
    {
      hide Matched, Open, Distinct;
      PoolStep(short, ids, s0, avail, have, count, pool, t);
      SlotsOf(short, ids, s0, avail, have, count, pool, []);
      if short(t.hash) in slotOf {
        var k :| 0 <= k < |ids| && ids[k] == short(t.hash);
        assert slotOf[short(t.hash)] == Open(s0)[k];
      }
    }

    static lemma ExtraOffered(short: nat -> nat, ids: seq<nat>, s0: Slots, slotOf: map<nat, nat>, avail: Slots, have: seq<bool>,
                              count: int, pool: seq<Tx>, extra: seq<Tx>, t: Tx)
      requires Leads(ids, Open(s0), slotOf) && Matched(short, ids, s0, avail, have, count, pool, extra)
      ensures short(t.hash) !in slotOf ==> Matched(short, ids, s0, avail, have, count, pool, extra + [t])
      ensures |avail| == |have| && (short(t.hash) in slotOf ==>
        var p := slotOf[short(t.hash)];
        && p < |avail|
        && if !have[p] then Matched(short, ids, s0, avail[p := Some(t)], have[p := true], count + 1, pool, extra + [t])
           else if avail[p] != None && avail[p].value.hash != t.hash then
             Matched(short, ids, s0, avail[p := None], have, count - 1, pool, extra + [t])
           else Matched(short, ids, s0, avail, have, count, pool, extra + [t]))
    {
      hide Matched, Open, Distinct;
      ExtraStep(short, ids, s0, avail, have, count, pool, extra, t);
      SlotsOf(short, ids, s0, avail, have, count, pool, extra);
      if short(t.hash) in slotOf {
        var k :| 0 <= k < |ids| && ids[k] == short(t.hash);
        assert slotOf[short(t.hash)] == Open(s0)[k];
      }
    }

    /** Every known short id leads to some slot. */
    static predicate InBounds(slotOf: map<nat, nat>, n: nat) { forall id :: id in slotOf ==> slotOf[id] < n }

    /** Offers the mempool's transactions; stops early once every slot is taken. `own` tells whether every short id leads
        to its own slot. */
    method OfferPool(short: nat -> nat, ids: seq<nat>, slotOf: map<nat, nat>, pool: seq<Tx>, have0: seq<bool>, ghost s0: Slots,
                     ghost own: bool)
      returns (have: seq<bool>, ghost n: nat)
      requires InBounds(slotOf, |txnAvailable|) && |have0| == |txnAvailable|
      requires own ==> Leads(ids, Open(s0), slotOf) && Matched(short, ids, s0, txnAvailable, have0, mempoolCount, [], [])
      modifies this`txnAvailable, this`mempoolCount
      ensures |txnAvailable| == |have| == old(|txnAvailable|) && n <= |pool|
      ensures own && n < |pool| ==> forall k :: 0 <= k < |ids| ==> |Matches(short, ids[k], pool[..n])| == 1
      ensures own ==> Matched(short, ids, s0, txnAvailable, have, mempoolCount, pool[..n], [])
    {
      hide Matched, Open, Leads;
      have := have0;
      var i := 0;
      assert pool[..0] == [];
      while i < |pool|
        invariant 0 <= i <= |pool| && |txnAvailable| == |have| == old(|txnAvailable|)
        invariant own ==> Matched(short, ids, s0, txnAvailable, have, mempoolCount, pool[..i], [])
      {
        var t := pool[i];
        var id := short(t.hash);
        if own {
          PoolOffered(short, ids, s0, slotOf, txnAvailable, have, mempoolCount, pool[..i], t);
        }
        assert pool[..i + 1] == pool[..i] + [t];
        if id in slotOf {
          var p := slotOf[id];
          if !have[p] {
            txnAvailable, have, mempoolCount := txnAvailable[p := Some(t)], have[p := true], mempoolCount + 1;
          } else if txnAvailable[p] != None {
            txnAvailable, mempoolCount := txnAvailable[p := None], mempoolCount - 1;
          }
        }
        i := i + 1;
        if mempoolCount == |slotOf| {
          if own {
            LeadsSize(ids, Open(s0), slotOf);
            PoolExhausted(short, ids, s0, txnAvailable, have, mempoolCount, pool[..i]);
          }
          break;
        }
      }
      n := i;
    }

    /** Offers the extra transactions; one that repeats what a slot holds does not count against it. */
    method OfferExtra(short: nat -> nat, ids: seq<nat>, slotOf: map<nat, nat>, extra: seq<Tx>, have0: seq<bool>,
                      ghost s0: Slots, ghost pool: seq<Tx>, ghost own: bool)
      returns (have: seq<bool>, ghost n: nat)
      requires InBounds(slotOf, |txnAvailable|) && |have0| == |txnAvailable|
      requires own ==> Leads(ids, Open(s0), slotOf) && Matched(short, ids, s0, txnAvailable, have0, mempoolCount, pool, [])
      modifies this`txnAvailable, this`mempoolCount, this`extraCount
      ensures |txnAvailable| == |have| == old(|txnAvailable|) && n <= |extra|
      ensures own && n < |extra| ==> forall p :: 0 <= p < |txnAvailable| ==> txnAvailable[p] != None
      ensures own ==> Matched(short, ids, s0, txnAvailable, have, mempoolCount, pool, extra[..n])
    {
      hide Matched, Open, Leads;
      have := have0;
      var i := 0;
      assert extra[..0] == [];
      while i < |extra|
        invariant 0 <= i <= |extra| && |txnAvailable| == |have| == old(|txnAvailable|)
        invariant own ==> Matched(short, ids, s0, txnAvailable, have, mempoolCount, pool, extra[..i])
      {
        var t := extra[i];
        var id := short(t.hash);
        if own {
          ExtraOffered(short, ids, s0, slotOf, txnAvailable, have, mempoolCount, pool, extra[..i], t);
        }
        assert extra[..i + 1] == extra[..i] + [t];
        if id in slotOf {
          var p := slotOf[id];
          if !have[p] {
            txnAvailable, have, mempoolCount := txnAvailable[p := Some(t)], have[p := true], mempoolCount + 1;
            extraCount := extraCount + 1;
          } else if txnAvailable[p] != None && txnAvailable[p].value.hash != t.hash {
            txnAvailable, mempoolCount := txnAvailable[p := None], mempoolCount - 1;
            extraCount := extraCount - 1;
          }
        }
        i := i + 1;
        if mempoolCount == |slotOf| {
          if own {
            LeadsSize(ids, Open(s0), slotOf);
            NoneOpen(short, ids, s0, txnAvailable, have, mempoolCount, pool, extra[..i]);
          }
          break;
        }
      }
      n := i;
    }

    /** Places everything that can be placed; reports malformed announcements and short id collisions. The search for
        open slots ends unless all positions are prefilled, and short ids keep their own slots while positions suffice
        for all slots. */
    method InitData(m: Message, short: nat -> nat, pool: seq<Tx>, extra: seq<Tx>, crowded: seq<bool>)
      returns (status: ReadStatus, ghost s0: Slots, ghost have: seq<bool>, ghost a: nat, ghost b: nat)
      requires headerIsNull && txnAvailable == [] && mempoolCount == 0 && |crowded| == |m.shortIds|
      requires m.shortIds != [] && |m.prefilled| == POSITIONS ==> Malformed(m)
      modifies this
      ensures status != CheckBlockFailed && (status == Invalid <==> Malformed(m))
      ensures status == Failed <==> !Malformed(m) && ((exists i :: 0 <= i < |crowded| && crowded[i]) || !Distinct(m.shortIds))
      ensures status == Ok ==> !headerIsNull && |txnAvailable| == |m.shortIds| + |m.prefilled|
      ensures status == Ok && |m.shortIds| + |m.prefilled| <= POSITIONS ==>
        && a <= |pool| && b <= |extra| && Placed(m, s0, |m.prefilled|)
        && Matched(short, m.shortIds, s0, txnAvailable, have, mempoolCount, pool[..a], extra[..b])
        && (a < |pool| ==> forall k :: 0 <= k < |m.shortIds| ==> |Matches(short, m.shortIds[k], pool[..a])| == 1)
        && (b < |extra| ==> forall p :: 0 <= p < |txnAvailable| ==> txnAvailable[p] != None)
    {
      hide Placed, Matched, Open, Taken, Distinct, Mapped, Leads, PrefilledOk;
      s0, have, a, b := [], [], 0, 0;
      if m.headerIsNull || (m.shortIds == [] && m.prefilled == []) {
        return Invalid, s0, have, a, b;
      }
      if |m.shortIds| + |m.prefilled| > MAX_BLOCK_SIZE / MIN_TRANSACTION_SIZE {
        return Invalid, s0, have, a, b;
      }
      headerIsNull := false;
      var ok := Prefill(m);
      if !ok {
        return Invalid, s0, have, a, b;
      }
      s0 := txnAvailable;
      OneSlotEach(m, s0);
      SlotCount(m, s0);
      PrefilledFew(m, s0);
      var slotOf, fine := MapShortIds(m.shortIds, crowded);
      if !fine {
        return Failed, s0, have, a, b;
      }
      MapDecides(m.shortIds, Cut(Open(s0)), slotOf);
      if |slotOf| != |m.shortIds| {
        return Failed, s0, have, a, b;
      }
      MappedLeads(m.shortIds, Cut(Open(s0)), slotOf);
      CutBelow(Open(s0), |s0|);
      LeadsInBounds(m.shortIds, Cut(Open(s0)), slotOf, |s0|);
      ghost var own := |s0| <= POSITIONS;
      if own { NothingCut(s0); }
      var had := seq(|txnAvailable|, _ => false);
      MatchedStart(short, m.shortIds, s0, had);
      had, a := OfferPool(short, m.shortIds, slotOf, pool, had, s0, own);
      had, b := OfferExtra(short, m.shortIds, slotOf, extra, had, s0, pool[..a], own);
      have := had;
      status := Ok;
    }

    static lemma NothingCut(s: Slots)
      requires |s| <= POSITIONS
      ensures Cut(Open(s)) == Open(s)
    {
      hide Open, Word16, Cut;
    }

    static lemma LeadsAt(ids: seq<nat>, open: seq<nat>, slotOf: map<nat, nat>, id: nat) returns (k: nat)
      requires Leads(ids, open, slotOf) && id in slotOf
      ensures k < |open| && slotOf[id] == open[k]
    {
      hide Distinct;
      k :| 0 <= k < |ids| && ids[k] == id;
    }

    /** Slots that are kept as positions still lie within the slots. */
    static lemma CutBelow(open: seq<nat>, n: nat)
      requires forall k :: 0 <= k < |open| ==> open[k] < n
      ensures forall k :: 0 <= k < |Cut(open)| ==> Cut(open)[k] < n
    {
      hide Word16, Cut;
      forall k | 0 <= k < |open| ensures Cut(open)[k] < n { assert Cut(open)[k] == Word16(open[k]); }
    }

    static lemma LeadsInBounds(ids: seq<nat>, open: seq<nat>, slotOf: map<nat, nat>, n: nat)
      requires Leads(ids, open, slotOf) && forall k :: 0 <= k < |open| ==> open[k] < n
      ensures InBounds(slotOf, n)
    {
      hide Leads;
      forall id | id in slotOf ensures slotOf[id] < n {
        var k := LeadsAt(ids, open, slotOf, id);
      }
    }

    /** Different short ids make as many entries. */
    static lemma LeadsSize(ids: seq<nat>, open: seq<nat>, slotOf: map<nat, nat>)
      requires Leads(ids, open, slotOf)
      ensures |slotOf| == |ids|
    {
      IdsSize(ids, slotOf.Keys);
    }

    static lemma {:induction false} IdsSize(ids: seq<nat>, keys: set<nat>)
      requires Distinct(ids) && forall id :: id in keys <==> id in ids
      ensures |keys| == |ids|
    {
      if ids == [] {
        assert keys == {};
      } else {
        var n := |ids| - 1;
        assert ids == ids[..n] + [ids[n]];
        DistinctNext(ids[..n], ids[n]);
        IdsSize(ids[..n], keys - {ids[n]});
      }
    }

    /** Fills the open slots in order; `check` is the check of the whole block, and `corruption` whether its failure may
        be due to wrong transactions. */
    method FillBlock(missing: seq<Tx>, check: seq<Tx> -> bool, corruption: seq<Tx> -> bool) returns (status: ReadStatus, vtx: seq<Tx>)
      requires !headerIsNull
      modifies this
      ensures status == Invalid <==> |missing| != |Open(old(txnAvailable))|
      ensures status != Invalid ==>
        && FilledFrom(old(txnAvailable), missing, vtx)
        && status == Checked(check, corruption, vtx)
      ensures |missing| >= |Open(old(txnAvailable))| ==> headerIsNull && txnAvailable == []
      ensures |missing| < |Open(old(txnAvailable))| ==>
        && !headerIsNull && |txnAvailable| == |old(txnAvailable)|
        && forall p :: 0 <= p < |txnAvailable| ==> txnAvailable[p] == None || txnAvailable[p] == old(txnAvailable[p])
    {
      hide Open, FilledFrom;
      ghost var was := txnAvailable;
      vtx := [];
      var offset, i := 0, 0;
      NothingFilled(was, missing);
      while i < |txnAvailable|
        invariant 0 <= i <= |txnAvailable| == |was| && !headerIsNull && offset == |Open(was[..i])| <= |missing|
        invariant forall p :: 0 <= p < |was| ==> txnAvailable[p] == if p < i then None else was[p]
        invariant FilledFrom(was[..i], missing[..offset], vtx)
      {
        FillNext(was, missing, vtx, i, offset);
        if txnAvailable[i] == None {
          if |missing| <= offset {
            OpenPrefix(was, i);
            return Invalid, vtx;
          }
          vtx := vtx + [missing[offset]];
          offset := offset + 1;
        } else {
          vtx := vtx + [txnAvailable[i].value];
          txnAvailable := txnAvailable[i := None];
        }
        i := i + 1;
      }
      assert was[..i] == was && (offset == |missing| ==> missing[..offset] == missing);
      headerIsNull := true;
      txnAvailable := [];
      if |missing| != offset {
        return Invalid, vtx;
      }
      if !check(vtx) {
        return if corruption(vtx) then Failed else CheckBlockFailed, vtx;
      }
      status := Ok;
    }

    static lemma NothingFilled(was: Slots, missing: seq<Tx>)
      ensures |Open(was[..0])| == 0 && FilledFrom(was[..0], missing[..0], [])
    {
      assert was[..0] == [] && missing[..0] == [];
    }

    /** One more slot: its own transaction, or the next missing one. */
    static lemma FillNext(was: Slots, missing: seq<Tx>, vtx: seq<Tx>, i: nat, offset: nat)
      requires i < |was| && offset == |Open(was[..i])| <= |missing| && FilledFrom(was[..i], missing[..offset], vtx)
      ensures was[i] == None ==> |Open(was[..i + 1])| == offset + 1
      ensures was[i] == None && offset < |missing| ==> FilledFrom(was[..i + 1], missing[..offset + 1], vtx + [missing[offset]])
      ensures was[i] != None ==> |Open(was[..i + 1])| == offset && FilledFrom(was[..i + 1], missing[..offset], vtx + [was[i].value])
    {
      hide Open;
      OpenGrows(was, i);
    }

    static lemma OpenGrows(s: Slots, p: nat)
      requires p < |s|
      ensures Open(s[..p + 1]) == if s[p] == None then Open(s[..p]) + [p] else Open(s[..p])
      ensures forall k :: 0 <= k < |Open(s[..p])| ==> Open(s[..p])[k] < p
    {
      assert s[..p + 1][..p] == s[..p];
    }

    /** The transactions of a block that are not available, as the sender answers a request for them. */
    method Answer(vtx: seq<Tx>) returns (missing: seq<Tx>)
      requires |txnAvailable| == |vtx|
      ensures |missing| == |Open(txnAvailable)| && forall k :: 0 <= k < |missing| ==> missing[k] == vtx[Open(txnAvailable)[k]]
    {
      hide Open;
      missing := [];
      OpenOfNone();
      assert txnAvailable[..0] == [];
      for i := 0 to |vtx|
        invariant |missing| == |Open(txnAvailable[..i])|
        invariant forall k :: 0 <= k < |missing| ==> Open(txnAvailable[..i])[k] < |vtx| && missing[k] == vtx[Open(txnAvailable[..i])[k]]
      {
        OpenGrows(txnAvailable, i);
        if txnAvailable[i] == None {
          missing := missing + [vtx[i]];
        }
      }
      assert txnAvailable[..|vtx|] == txnAvailable;
    }
  }

  lemma FewerCandidates(short: nat -> nat, vtx: seq<Tx>, pool: seq<Tx>, extra: seq<Tx>, a: nat, b: nat)
    requires NoCollision(short, vtx, pool + extra) && a <= |pool| && b <= |extra|
    ensures NoCollision(short, vtx, pool[..a] + extra[..b])
  {
    forall t | t in pool[..a] + extra[..b] ensures t in pool + extra {}
  }

  lemma AnnouncedWellFormed(vtx: seq<Tx>, short: nat -> nat)
    requires vtx != []
    ensures Malformed(Announced(vtx, short)) <==> vtx[0].isNull || |vtx| > MAX_BLOCK_SIZE / MIN_TRANSACTION_SIZE
  {
    var m := Announced(vtx, short);
    assert PrefilledOk(m, 0) <==> !vtx[0].isNull;
  }

  /** What a peer keeps is nothing but the block's own transactions. */
  ghost predicate Own(vtx: seq<Tx>, kept: Slots) {
    |kept| == |vtx| && forall p :: 0 <= p < |vtx| ==> kept[p] == None || kept[p] == Some(vtx[p])
  }

  /** With the sender's answers for the open slots the block comes back exactly if nothing wrong was kept. */
  lemma FilledExactly(vtx: seq<Tx>, kept: Slots, missing: seq<Tx>, out: seq<Tx>)
    requires |kept| == |vtx| && |missing| == |Open(kept)| && FilledFrom(kept, missing, out)
    requires forall k :: 0 <= k < |missing| ==> missing[k] == vtx[Open(kept)[k]]
    ensures out == vtx <==> Own(vtx, kept)
  {
    hide Open;
    forall p | 0 <= p < |vtx| ensures out[p] == vtx[p] <==> kept[p] == None || kept[p] == Some(vtx[p]) {
      if kept[p] == None {
        OpenComplete(kept, p);
        var k :| 0 <= k < |Open(kept)| && Open(kept)[k] == p;
      }
    }
  }

  /** In a block within the positions a peer keeps only the block's own transactions unless short ids collide. */
  lemma KeptOwn(vtx: seq<Tx>, short: nat -> nat, s0: Slots, kept: Slots, have: seq<bool>, count: int, pool: seq<Tx>, extra: seq<Tx>)
    requires vtx != [] && Placed(Announced(vtx, short), s0, 1)
    requires Matched(short, Announced(vtx, short).shortIds, s0, kept, have, count, pool, extra)
    requires NoCollision(short, vtx, pool + extra)
    ensures Own(vtx, kept)
  {
    hide Open, Taken, Placed, Slot, NoCollision;
    var m := Announced(vtx, short);
    AnnouncedSlots(vtx, short, s0);
    OpenAfterFirst(s0);
    forall p | 0 < p < |vtx| ensures kept[p] == None || kept[p] == Some(vtx[p]) {
      assert m.shortIds[p - 1] == short(vtx[p].hash) && Open(s0)[p - 1] == p;
      SlotHoldsOwn(short, vtx, p, kept[p], have[p], pool, extra);
    }
  }

  /** Announcing a block to a peer, the peer placing what it has, asking for the rest and filling it in. The announcement
      is malformed only for a block too big or without a first transaction, and placed exactly when its short ids differ
      and spread out. Then the peer has the block exactly when all it kept are the block's own transactions, which holds
      within the positions unless one of its candidates shares a short id with another transaction of the block; the
      status is that of checking what the peer has. */
  method SendAndRebuild(vtx: seq<Tx>, short: nat -> nat, pool: seq<Tx>, extra: seq<Tx>, crowded: seq<bool>,
                        check: seq<Tx> -> bool, corruption: seq<Tx> -> bool)
    returns (placed: bool, status: ReadStatus, out: seq<Tx>, ghost kept: Slots)
    requires vtx != [] && |crowded| == |vtx| - 1
    ensures status == Invalid <==> vtx[0].isNull || |vtx| > MAX_BLOCK_SIZE / MIN_TRANSACTION_SIZE
    ensures placed <==> status != Invalid && (forall i :: 0 <= i < |crowded| ==> !crowded[i]) && Distinct(Announced(vtx, short).shortIds)
    ensures !placed ==> status == Invalid || status == Failed
    ensures placed ==> status == Checked(check, corruption, out) && (out == vtx <==> Own(vtx, kept))
    ensures placed && |vtx| <= POSITIONS && NoCollision(short, vtx, pool + extra) ==> Own(vtx, kept)
  {
    hide Placed, Matched, Open, Taken, Distinct, Malformed, NoCollision, FilledFrom, Own;
    out, kept := [], [];
    var m := MakeMessage(vtx, short);
    AnnouncedWellFormed(vtx, short);
    var partial := new PartiallyDownloadedBlock();
    ghost var s0, have, a, b;
    status, s0, have, a, b := partial.InitData(m, short, pool, extra, crowded);
    placed := status == Ok;
    if !placed {
      return;
    }
    kept := partial.txnAvailable;
    if |vtx| <= POSITIONS && NoCollision(short, vtx, pool + extra) {
      FewerCandidates(short, vtx, pool, extra, a, b);
      KeptOwn(vtx, short, s0, kept, have, partial.mempoolCount, pool[..a], extra[..b]);
    }
    var missing := partial.Answer(vtx);
    status, out := partial.FillBlock(missing, check, corruption);
    FilledExactly(vtx, kept, missing, out);
  }
}
