/**
 The parallel check queue as a protocol: one master (thread 0) and any number of workers share a stack of
 checks under one mutex and sleep on two condition variables. A step is one critical section, one executed
 check, or one wake-up; wake-ups may be spurious. Checks are named by the order in which they were added.
 */
module CheckQueue {
  import opened Bits
  import opened Collections

  type Check = nat

  /** Where a thread is. `Locked` is the inside of a critical section and never visible between steps. */
  datatype Thread =
    | Out
    | Enter
    | Locked
    | Running(batch: seq<Check>, done: nat, ok: bool)
    | Sleeping
    | Awake

  /** The fields of CCheckQueue, the threads, and a record of the current round: the checks added since
      the previous Wait are `roundStart .. nextId`, and `ran` holds the results of executed checks. */
  datatype State = State(
    queue: seq<Check>, nIdle: int, nTotal: int, allOk: bool, nTodo: int, quit: bool, batchSize: nat,
    threads: seq<Thread>, roundStart: nat, nextId: nat, ran: map<Check, bool>)

  datatype Step =
    | Start(t: nat)
    | AddChecks(count: nat, woken: nat)
    | Section(t: nat)
    | Wake(t: nat)
    | Exec(t: nat, result: bool)

  // ---------------------------------------------------------------- the protocol

  predicate InitialState(s: State) {
    && s.queue == [] && s.nIdle == 0 && s.nTotal == 0 && s.allOk && s.nTodo == 0
    && |s.threads| > 0 && (forall t :: 0 <= t < |s.threads| ==> s.threads[t] == Out)
    && s.roundStart == s.nextId == 0 && s.ran == map[]
  }

  predicate Enabled(s: State, step: Step) {
    match step
    case Start(t) => t < |s.threads| && s.threads[t].Out?
    case AddChecks(_, _) => |s.threads| > 0 && s.threads[0].Out?
    case Section(t) => t < |s.threads| && (s.threads[t].Enter? || (s.threads[t].Running? && s.threads[t].done == |s.threads[t].batch|))
    case Wake(t) => t < |s.threads| && (s.threads[t].Sleeping? || s.threads[t].Awake?)
    case Exec(t, _) => t < |s.threads| && s.threads[t].Running? && s.threads[t].done < |s.threads[t].batch|
  }

  function Ids(from: nat, count: nat): (r: seq<Check>) {
    seq(count, i requires 0 <= i => from + i)
  }

  /** notify_one on condMaster. */
  function NotifyMaster(threads: seq<Thread>): seq<Thread>
    requires |threads| > 0
  {
    if threads[0].Sleeping? then threads[0 := Awake] else threads
  }

  /** notify_one (for a single new check) or notify_all on condWorker. */
  function NotifyWorkers(threads: seq<Thread>, count: nat, woken: nat): (r: seq<Thread>) {
    seq(|threads|, i requires 0 <= i < |threads| =>
      if i > 0 && threads[i].Sleeping? && (count > 1 || (count == 1 && i == woken)) then Awake else threads[i])
  }

  /** Taking the mutex: the clean-up after a batch, the registration of a new thread, or the return
      from a wait. */
  function Lock(s: State, t: nat): State
    requires t < |s.threads| && !s.threads[t].Out? && !s.threads[t].Locked?
  {
    match s.threads[t]
    case Running(batch, _, ok) =>
      var nTodo := s.nTodo - |batch|;
      var held := s.threads[t := Locked];
      s.(allOk := s.allOk && ok, nTodo := nTodo,
         threads := if nTodo == 0 && t != 0 then NotifyMaster(held) else held)
    case Enter => s.(nTotal := s.nTotal + 1, threads := s.threads[t := Locked])
    case _ => s.(nIdle := s.nIdle - 1, threads := s.threads[t := Locked])
  }

  predicate Returns(s: State, t: nat) {
    s.queue == [] && (t == 0 || s.quit) && s.nTodo == 0
  }

  function BatchLength(s: State): int
    requires s.nTotal + s.nIdle + 1 != 0
  {
    Max(1, Min(s.batchSize, |s.queue| / (s.nTotal + s.nIdle + 1)))
  }

  /** Computing and taking a batch does not divide by zero or pop an empty vector. */
  predicate BatchFits(s: State) {
    s.nTotal + s.nIdle + 1 > 0 && BatchLength(s) <= |s.queue|
  }

  /** The rest of the critical section: return, sleep, or take a batch off the back of the queue. */
  function Decide(s: State, t: nat): State
    requires t < |s.threads|
    requires s.queue != [] ==> BatchFits(s)
  {
    if Returns(s, t) then
      var out := s.(nTotal := s.nTotal - 1, threads := s.threads[t := Out]);
      if t == 0 then out.(allOk := true, roundStart := s.nextId) else out
    else if s.queue == [] then
      s.(nIdle := s.nIdle + 1, threads := s.threads[t := Sleeping])
    else
      var rest := |s.queue| - BatchLength(s);
      var batch := seq(|s.queue| - rest, i requires 0 <= i < |s.queue| - rest => s.queue[|s.queue| - 1 - i]);
      s.(queue := s.queue[..rest], threads := s.threads[t := Running(batch, 0, s.allOk)])
  }

  function Execute(s: State, t: nat, result: bool): State
    requires Enabled(s, Exec(t, result))
  {
    var th := s.threads[t];
    if th.ok then
      s.(ran := s.ran[th.batch[th.done] := result], threads := s.threads[t := Running(th.batch, th.done + 1, result)])
    else
      s.(threads := s.threads[t := Running(th.batch, th.done + 1, false)])
  }

  /** The state after a step; None if the step would go out of bounds. */
  function Apply(s: State, step: Step): Option<State>
    requires Enabled(s, step)
  {
    match step
    case Start(t) => Some(s.(threads := s.threads[t := Enter]))
    case AddChecks(count, woken) =>
      Some(s.(queue := s.queue + Ids(s.nextId, count), nTodo := s.nTodo + count, nextId := s.nextId + count,
              threads := NotifyWorkers(s.threads, count, woken)))
    case Exec(t, result) => Some(Execute(s, t, result))
    case _ =>
      var l := Lock(s, step.t);
      if l.queue != [] && !BatchFits(l) then None else Some(Decide(l, step.t))
  }

  /** The value Wait returns if this step makes it return. */
  predicate WaitReturns(s: State, step: Step)
    requires Enabled(s, step)
  {
    (step.Section? || step.Wake?) && step.t == 0 && Returns(Lock(s, 0), 0)
  }

  function WaitResult(s: State, step: Step): bool
    requires Enabled(s, step) && WaitReturns(s, step)
  {
    Lock(s, 0).allOk
  }

  // ---------------------------------------------------------------- invariants

  function Batch(th: Thread): seq<Check> {
    if th.Running? then th.batch else []
  }

  /** Checks in unfinished batches. */
  function Held(threads: seq<Thread>): nat {
    if threads == [] then 0 else |Batch(threads[0])| + Held(threads[1..])
  }

  function Count(threads: seq<Thread>, p: Thread -> bool): nat {
    if threads == [] then 0 else (if p(threads[0]) then 1 else 0) + Count(threads[1..], p)
  }

  function IsIdle(th: Thread): bool { th.Sleeping? || th.Awake? }
  function IsInside(th: Thread): bool { !th.Out? && !th.Enter? }

  predicate InRound(s: State, c: Check) { s.roundStart <= c < s.nextId }

  /** Some check of this round was executed and failed. */
  ghost predicate Failed(s: State) {
    exists c :: InRound(s, c) && c in s.ran && !s.ran[c]
  }

  predicate Passed(s: State, c: Check) { c in s.ran && s.ran[c] }

  ghost predicate Unfinished(s: State, c: Check) {
    c in s.queue || exists t :: 0 <= t < |s.threads| && c in Batch(s.threads[t])
  }

  /** The counters are exact. */
  predicate Counters(s: State) {
    && s.nTodo == |s.queue| + Held(s.threads)
    && s.nIdle == Count(s.threads, IsIdle)
    && s.nTotal == Count(s.threads, IsInside)
  }

  ghost predicate ThreadOk(s: State, th: Thread) {
    th.Running? ==>
      && 0 < |th.batch| && th.done <= |th.batch|
      && (forall i :: 0 <= i < |th.batch| ==> InRound(s, th.batch[i]))
      && (th.ok ==> forall i :: 0 <= i < th.done ==> Passed(s, th.batch[i]))
      && (!th.ok ==> Failed(s))
  }

  /** What is known about the checks of the round. */
  ghost predicate Results(s: State) {
    && s.roundStart <= s.nextId
    && (forall i :: 0 <= i < |s.queue| ==> InRound(s, s.queue[i]))
    && (forall t :: 0 <= t < |s.threads| ==> ThreadOk(s, s.threads[t]))
    && (!s.allOk ==> Failed(s))
    && (s.allOk ==> forall c :: InRound(s, c) && !Unfinished(s, c) ==> Passed(s, c))
  }

  /** The checks a thread has taken but not yet come to. */
  function Ahead(th: Thread): set<Check> {
    if th.Running? then set i | th.done <= i < |th.batch| && 0 <= i :: th.batch[i] else {}
  }

  predicate Distinct(q: seq<Check>, from: nat) {
    forall i, j :: from <= i < j < |q| ==> q[i] != q[j]
  }

  /** No check can be executed twice: those still to come are in one place and have not been executed. */
  ghost predicate Once(s: State) {
    && (forall c :: c in s.ran ==> c < s.nextId)
    && Distinct(s.queue, 0)
    && (forall c :: c in s.queue ==> c !in s.ran)
    && (forall t :: 0 <= t < |s.threads| && s.threads[t].Running? ==> Distinct(s.threads[t].batch, s.threads[t].done))
    && (forall t, c :: 0 <= t < |s.threads| && c in Ahead(s.threads[t]) ==> c !in s.ran && c !in s.queue)
    && (forall t, u :: 0 <= t < u < |s.threads| ==> Ahead(s.threads[t]) !! Ahead(s.threads[u]))
  }

  /** The master never sleeps through the end of the work. */
  predicate MasterOk(s: State) {
    && |s.threads| > 0
    && (IsIdle(s.threads[0]) ==> s.queue == [])
    && (s.threads[0].Sleeping? ==> s.nTodo > 0)
  }

  ghost predicate Inv(s: State) {
    Counters(s) && Results(s) && Once(s) && MasterOk(s)
  }

  // ---------------------------------------------------------------- sums over threads

  lemma {:induction false} HeldUpdate(threads: seq<Thread>, t: nat, th: Thread)
    requires t < |threads|
    ensures Held(threads[t := th]) == Held(threads) - |Batch(threads[t])| + |Batch(th)|
  {
    if t == 0 {
      assert threads[t := th][1..] == threads[1..];
    } else {
      HeldUpdate(threads[1..], t - 1, th);
      assert threads[t := th][1..] == threads[1..][t - 1 := th];
    }
  }

  lemma {:induction false} CountUpdate(threads: seq<Thread>, t: nat, th: Thread, p: Thread -> bool)
    requires t < |threads|
    ensures Count(threads[t := th], p) == Count(threads, p) - (if p(threads[t]) then 1 else 0) + (if p(th) then 1 else 0)
  {
    if t == 0 {
      assert threads[t := th][1..] == threads[1..];
    } else {
      CountUpdate(threads[1..], t - 1, th, p);
      assert threads[t := th][1..] == threads[1..][t - 1 := th];
    }
  }

  /** The three sums when one thread changes place. */
  lemma SumsUpdate(threads: seq<Thread>, t: nat, th: Thread)
    requires t < |threads|
    ensures Held(threads[t := th]) == Held(threads) - |Batch(threads[t])| + |Batch(th)|
    ensures Count(threads[t := th], IsIdle) == Count(threads, IsIdle) - (if IsIdle(threads[t]) then 1 else 0) + (if IsIdle(th) then 1 else 0)
    ensures Count(threads[t := th], IsInside) == Count(threads, IsInside) - (if IsInside(threads[t]) then 1 else 0) + (if IsInside(th) then 1 else 0)
  {
    HeldUpdate(threads, t, th);
    CountUpdate(threads, t, th, IsIdle);
    CountUpdate(threads, t, th, IsInside);
  }

  /** The sums do not see who is merely notified. */
  lemma {:induction false} SumsNotified(threads: seq<Thread>, after: seq<Thread>)
    requires |threads| == |after|
    requires forall i :: 0 <= i < |threads| ==> after[i] == threads[i] || (threads[i].Sleeping? && after[i].Awake?)
    ensures Held(after) == Held(threads)
    ensures Count(after, IsIdle) == Count(threads, IsIdle) && Count(after, IsInside) == Count(threads, IsInside)
  {
    if threads != [] { SumsNotified(threads[1..], after[1..]); }
  }

  lemma {:induction false} SomeoneHolds(threads: seq<Thread>) returns (t: nat)
    requires Held(threads) > 0
    ensures t < |threads| && threads[t].Running? && threads[t].batch != []
  {
    if Batch(threads[0]) != [] { t := 0; } else { t := SomeoneHolds(threads[1..]); t := t + 1; }
  }

  lemma {:induction false} NobodyHolds(threads: seq<Thread>, t: nat)
    requires Held(threads) == 0 && t < |threads|
    ensures Batch(threads[t]) == []
  {
    if t > 0 { NobodyHolds(threads[1..], t - 1); }
  }

  // ---------------------------------------------------------------- every step keeps the invariants

  /** Thread `t` moves to a place where it holds no batch and nothing else about the round changes. */
  lemma ResultsMove(s: State, s': State, t: nat)
    requires Results(s) && t < |s.threads| && Batch(s.threads[t]) == []
    requires |s'.threads| == |s.threads| && (forall i :: 0 <= i < |s.threads| ==> Batch(s'.threads[i]) == Batch(s.threads[i]))
    requires forall i :: 0 <= i < |s.threads| ==> s'.threads[i] == s.threads[i] || !s'.threads[i].Running?
    requires s' == s.(nIdle := s'.nIdle, nTotal := s'.nTotal, threads := s'.threads)
    ensures Results(s')
  {
    forall c | Unfinished(s, c) ensures Unfinished(s', c) {
      if c !in s.queue {
        var i :| 0 <= i < |s.threads| && c in Batch(s.threads[i]);
        assert c in Batch(s'.threads[i]);
      }
    }
    assert Failed(s) <==> Failed(s');
    forall i | 0 <= i < |s'.threads| ensures ThreadOk(s', s'.threads[i]) {
      assert ThreadOk(s, s.threads[i]);
    }
  }

  lemma LockKeepsInv(s: State, t: nat)
    requires Inv(s) && t < |s.threads| && !s.threads[t].Out? && !s.threads[t].Locked?
    requires s.threads[t].Running? ==> s.threads[t].done == |s.threads[t].batch|
    ensures Inv(Lock(s, t)) && Lock(s, t).threads[t].Locked? && |Lock(s, t).threads| == |s.threads|
  {
    hide Results, Once, Held, Count;
    var l := Lock(s, t);
    SumsUpdate(s.threads, t, Locked);
    if s.threads[t].Running? {
      SumsNotified(s.threads[t := Locked], l.threads);
      CleanUpResults(s, t);
    } else {
      ResultsMove(s, l, t);
    }
    OnceMove(s, l);
  }

  /** The clean-up after a batch accounts for exactly the checks of that batch. */
  lemma CleanUpResults(s: State, t: nat)
    requires Results(s) && t < |s.threads| && s.threads[t].Running? && s.threads[t].done == |s.threads[t].batch|
    ensures Results(Lock(s, t))
  {
    var l, th := Lock(s, t), s.threads[t];
    assert ThreadOk(s, th);
    forall i | 0 <= i < |l.threads| ensures ThreadOk(l, l.threads[i]) { assert ThreadOk(s, s.threads[i]); }
    forall c | Unfinished(s, c) && c !in th.batch ensures Unfinished(l, c) {
      if c !in s.queue {
        var i :| 0 <= i < |s.threads| && c in Batch(s.threads[i]);
        assert c in Batch(l.threads[i]);
      }
    }
    assert l.allOk ==> s.allOk && forall c :: c in th.batch ==> Passed(s, c);
  }

  /** A batch never exceeds the queue. */
  lemma BatchBound(s: State)
    requires Counters(s) && s.queue != []
    ensures BatchFits(s)
  {
    QuotientBound(|s.queue|, s.nTotal + s.nIdle + 1);
  }

  lemma DecideKeepsInv(s: State, t: nat)
    requires Inv(s) && t < |s.threads| && s.threads[t].Locked?
    requires s.queue != [] ==> BatchFits(s)
    ensures Inv(Decide(s, t))
  {
    if Returns(s, t) {
      ReturnKeepsInv(s, t);
    } else {
      var d := Decide(s, t);
      SumsUpdate(s.threads, t, d.threads[t]);
      if s.queue == [] {
        ResultsMove(s, d, t);
        OnceMove(s, d);
      } else {
        TakeResults(s, t);
        TakeOnce(s, t);
      }
    }
  }

  lemma ReturnKeepsInv(s: State, t: nat)
    requires Inv(s) && t < |s.threads| && s.threads[t].Locked? && Returns(s, t)
    ensures Inv(Decide(s, t))
  {
    var d := Decide(s, t);
    SumsUpdate(s.threads, t, Out);
    OnceMove(s, d);
    if t == 0 {
      forall i | 0 <= i < |d.threads| ensures ThreadOk(d, d.threads[i]) {
        assert ThreadOk(s, s.threads[i]);
        NobodyHolds(s.threads, i);
      }
    } else {
      ResultsMove(s, d, t);
    }
  }

  lemma TakeResults(s: State, t: nat)
    requires Results(s) && t < |s.threads| && s.threads[t].Locked? && s.queue != [] && BatchFits(s)
    ensures Results(Decide(s, t))
  {
    var d := Decide(s, t);
    forall i | 0 <= i < |d.threads| ensures ThreadOk(d, d.threads[i]) { assert ThreadOk(s, s.threads[i]); }
    forall c | Unfinished(s, c) ensures Unfinished(d, c) {
      if c in s.queue {
        var i :| 0 <= i < |s.queue| && s.queue[i] == c;
        if i < |d.queue| { assert d.queue[i] == c; } else { assert d.threads[t].batch[|s.queue| - 1 - i] == c; }
        assert c in d.queue || c in Batch(d.threads[t]);
      } else {
        var i :| 0 <= i < |s.threads| && c in Batch(s.threads[i]);
        assert c in Batch(d.threads[i]);
      }
    }
  }

  /** Threads that only move, holding nothing, leave the once-only record alone. */
  lemma OnceMove(s: State, s': State)
    requires Once(s) && |s'.threads| == |s.threads|
    requires s'.queue == s.queue && s'.ran == s.ran && s'.nextId == s.nextId
    requires forall i :: 0 <= i < |s.threads| ==>
               s'.threads[i] == s.threads[i] || !s'.threads[i].Running?
    ensures Once(s')
  {
    forall i | 0 <= i < |s.threads| ensures Ahead(s'.threads[i]) <= Ahead(s.threads[i]) {}
  }

  lemma TakeOnce(s: State, t: nat)
    requires Once(s) && t < |s.threads| && s.threads[t].Locked? && s.queue != [] && BatchFits(s)
    ensures Once(Decide(s, t))
  {
    var d := Decide(s, t);
    var n := |s.queue|;
    forall c | c in Ahead(d.threads[t]) ensures c in s.queue && c !in d.queue {
      var i :| 0 <= i < |d.threads[t].batch| && d.threads[t].batch[i] == c;
      assert s.queue[n - 1 - i] == c;
    }
    forall u | 0 <= u < |s.threads| && u != t ensures Ahead(d.threads[u]) !! Ahead(d.threads[t]) {
      assert d.threads[u] == s.threads[u];
    }
    forall c | c in d.queue ensures c in s.queue {}
  }

  /** Executing a check takes it off those to come. */
  lemma AheadStep(th: Thread, ok: bool)
    requires th.Running? && 0 <= th.done < |th.batch| && Distinct(th.batch, th.done)
    ensures Distinct(th.batch, th.done + 1) && th.batch[th.done] in Ahead(th)
    ensures Ahead(Running(th.batch, th.done + 1, ok)) == Ahead(th) - {th.batch[th.done]}
  {
    var next := Running(th.batch, th.done + 1, ok);
    forall c ensures c in Ahead(next) <==> c in Ahead(th) && c != th.batch[th.done] {
      if c in Ahead(th) && c != th.batch[th.done] {
        var i :| th.done <= i < |th.batch| && th.batch[i] == c;
        assert i > th.done;
      }
    }
  }

  lemma ExecOnce(s: State, t: nat, result: bool)
    requires Once(s) && Results(s) && Enabled(s, Exec(t, result))
    ensures Once(Execute(s, t, result)) && s.threads[t].batch[s.threads[t].done] !in s.ran
  {
    hide Ahead, Distinct, Failed, Passed, Unfinished;
    var e, th := Execute(s, t, result), s.threads[t];
    var c := th.batch[th.done];
    assert ThreadOk(s, th) && InRound(s, c);
    AheadStep(th, true);
    AheadStep(th, false);
    forall u | 0 <= u < |s.threads| && u != t ensures c !in Ahead(s.threads[u]) && e.threads[u] == s.threads[u] {
      if u < t { assert Ahead(s.threads[u]) !! Ahead(th); } else { assert Ahead(th) !! Ahead(s.threads[u]); }
    }
    forall u | 0 <= u < |s.threads| ensures Ahead(e.threads[u]) <= Ahead(s.threads[u]) {}
  }

  lemma ExecResults(s: State, t: nat, result: bool)
    requires Results(s) && Enabled(s, Exec(t, result))
    requires s.threads[t].batch[s.threads[t].done] !in s.ran
    ensures Results(Execute(s, t, result))
  {
    hide Failed, Unfinished;
    var e, th := Execute(s, t, result), s.threads[t];
    var c := th.batch[th.done];
    assert ThreadOk(s, th) && InRound(s, c);
    ExecFailed(s, t, result);
    forall i | 0 <= i < |e.threads| ensures ThreadOk(e, e.threads[i]) { assert ThreadOk(s, s.threads[i]); }
    forall x | Unfinished(s, x) ensures Unfinished(e, x) { ExecUnfinished(s, t, result, x); }
  }

  /** A failure stays one, and a check that returns false is one. */
  lemma ExecFailed(s: State, t: nat, result: bool)
    requires Enabled(s, Exec(t, result)) && s.threads[t].batch[s.threads[t].done] !in s.ran
    requires InRound(s, s.threads[t].batch[s.threads[t].done])
    ensures Failed(s) ==> Failed(Execute(s, t, result))
    ensures s.threads[t].ok && !result ==> Failed(Execute(s, t, result))
  {
    var e, c := Execute(s, t, result), s.threads[t].batch[s.threads[t].done];
    if Failed(s) {
      var f :| InRound(s, f) && f in s.ran && !s.ran[f];
      assert InRound(e, f) && f in e.ran && !e.ran[f];
    }
    if s.threads[t].ok && !result { assert InRound(e, c); }
  }

  lemma ExecUnfinished(s: State, t: nat, result: bool, x: Check)
    requires Enabled(s, Exec(t, result)) && Unfinished(s, x)
    ensures Unfinished(Execute(s, t, result), x)
  {
    if x !in s.queue {
      var i :| 0 <= i < |s.threads| && x in Batch(s.threads[i]);
      assert x in Batch(Execute(s, t, result).threads[i]);
    }
  }

  lemma ExecKeepsInv(s: State, t: nat, result: bool)
    requires Inv(s) && Enabled(s, Exec(t, result))
    ensures Inv(Execute(s, t, result))
  {
    hide Results, Once, Held, Count;
    var e := Execute(s, t, result);
    SumsUpdate(s.threads, t, e.threads[t]);
    ExecOnce(s, t, result);
    ExecResults(s, t, result);
  }

  lemma AddResults(s: State, count: nat, woken: nat)
    requires Results(s) && Enabled(s, AddChecks(count, woken))
    ensures Results(Apply(s, AddChecks(count, woken)).value)
  {
    var a := Apply(s, AddChecks(count, woken)).value;
    assert Failed(s) ==> Failed(a) by {
      if Failed(s) {
        var f :| InRound(s, f) && f in s.ran && !s.ran[f];
        assert InRound(a, f);
      }
    }
    forall i | 0 <= i < |a.threads| ensures ThreadOk(a, a.threads[i]) { assert ThreadOk(s, s.threads[i]); }
    forall c | Unfinished(s, c) ensures Unfinished(a, c) {
      if c !in s.queue {
        var i :| 0 <= i < |s.threads| && c in Batch(s.threads[i]);
        assert c in Batch(a.threads[i]);
      }
    }
    forall c | s.nextId <= c < a.nextId ensures c in a.queue {
      assert a.queue[|s.queue| + (c - s.nextId)] == c;
    }
  }

  lemma AddOnce(s: State, count: nat, woken: nat)
    requires Once(s) && Results(s) && Enabled(s, AddChecks(count, woken))
    ensures Once(Apply(s, AddChecks(count, woken)).value)
  {
    var a := Apply(s, AddChecks(count, woken)).value;
    forall i | 0 <= i < |a.threads| ensures Ahead(a.threads[i]) == Ahead(s.threads[i]) {}
    forall t, c | 0 <= t < |s.threads| && c in Ahead(s.threads[t]) ensures c < s.nextId {
      var i :| 0 <= i < |s.threads[t].batch| && s.threads[t].batch[i] == c;
      assert ThreadOk(s, s.threads[t]);
    }
    forall c | c in a.queue ensures c in s.queue || c >= s.nextId {}
  }

  lemma AddKeepsInv(s: State, count: nat, woken: nat)
    requires Inv(s) && Enabled(s, AddChecks(count, woken))
    ensures Inv(Apply(s, AddChecks(count, woken)).value)
  {
    SumsNotified(s.threads, Apply(s, AddChecks(count, woken)).value.threads);
    AddResults(s, count, woken);
    AddOnce(s, count, woken);
  }

  /** Every step of every thread keeps the invariants, and none goes out of bounds. */
  lemma StepKeepsInv(s: State, step: Step)
    requires Inv(s) && Enabled(s, step)
    ensures Apply(s, step).Some? && Inv(Apply(s, step).value)
  {
    match step
    case Start(t) =>
      var s' := Apply(s, step).value;
      SumsUpdate(s.threads, t, Enter);
      ResultsMove(s, s', t);
      OnceMove(s, s');
    case AddChecks(count, woken) => AddKeepsInv(s, count, woken);
    case Exec(t, result) => ExecKeepsInv(s, t, result);
    case _ =>
      LockKeepsInv(s, step.t);
      var l := Lock(s, step.t);
      if l.queue != [] { BatchBound(l); }
      DecideKeepsInv(l, step.t);
  }

  // ---------------------------------------------------------------- runs

  /** `states` is a run of the protocol driven by `steps`. */
  ghost predicate IsRun(states: seq<State>, steps: seq<Step>) {
    && |states| == |steps| + 1 && InitialState(states[0])
    && forall i {:trigger steps[i]} :: 0 <= i < |steps| ==>
         Enabled(states[i], steps[i]) && Apply(states[i], steps[i]) == Some(states[i + 1])
  }

  lemma {:induction false} NobodyStarted(threads: seq<Thread>)
    requires forall t :: 0 <= t < |threads| ==> threads[t] == Out
    ensures Held(threads) == 0 && Count(threads, IsIdle) == 0 && Count(threads, IsInside) == 0
  {
    if threads != [] { NobodyStarted(threads[1..]); }
  }

  /** The mutex is free between steps. */
  predicate NoneLocked(s: State) {
    forall t :: 0 <= t < |s.threads| ==> !s.threads[t].Locked?
  }

  lemma {:induction false} RunKeepsInv(states: seq<State>, steps: seq<Step>, i: nat)
    requires IsRun(states, steps) && i < |states|
    ensures Inv(states[i]) && NoneLocked(states[i])
  {
    if i == 0 {
      NobodyStarted(states[0].threads);
    } else {
      RunKeepsInv(states, steps, i - 1);
      var step := steps[i - 1];
      StepKeepsInv(states[i - 1], step);
      StepUnlocks(states[i - 1], step);
    }
  }

  lemma StepUnlocks(s: State, step: Step)
    requires NoneLocked(s) && Enabled(s, step) && Apply(s, step).Some?
    ensures NoneLocked(Apply(s, step).value)
  {
  }

  /** The verdict of Wait, in any reachable state: true exactly when every check added since the previous
      Wait was executed and returned true, false only if one was executed and returned false. Afterwards
      no check of the finished round is queued or held by any thread. */
  lemma WaitVerdict(s: State, step: Step)
    requires Inv(s) && Enabled(s, step) && WaitReturns(s, step)
    ensures WaitResult(s, step) <==> forall c :: InRound(s, c) ==> Passed(s, c)
    ensures !WaitResult(s, step) <==> Failed(s)
    ensures
      var s' := Apply(s, step).value;
      && s'.queue == [] && s'.nTodo == 0 && s'.allOk && s'.roundStart == s'.nextId == s.nextId
      && forall t :: 0 <= t < |s'.threads| ==> Batch(s'.threads[t]) == []
  {
    LockKeepsInv(s, 0);
    var l := Lock(s, 0);
    forall t | 0 <= t < |l.threads| ensures Batch(l.threads[t]) == [] { NobodyHolds(l.threads, t); }
    forall c ensures !Unfinished(l, c) {}
    assert Failed(l) <==> Failed(s) by {
      if Failed(s) { var c :| InRound(s, c) && c in s.ran && !s.ran[c]; assert InRound(l, c); }
      if Failed(l) { var c :| InRound(l, c) && c in l.ran && !l.ran[c]; assert InRound(s, c); }
    }
    if l.allOk {
      forall c | InRound(s, c) ensures Passed(s, c) { assert InRound(l, c) && !Unfinished(l, c); }
    }
  }

  /** While the master sleeps un-notified, the queue is empty and some worker still has a batch; the last
      such worker to clean up notifies the master. */
  lemma NoLostWakeup(s: State) returns (t: nat)
    requires Inv(s) && s.threads[0].Sleeping?
    ensures 0 < t < |s.threads| && s.threads[t].Running? && s.queue == []
    ensures s.threads[t].done == |s.threads[t].batch| == s.nTodo ==> Lock(s, t).threads[0].Awake?
  {
    t := SomeoneHolds(s.threads);
  }

  // ---------------------------------------------------------------- Wait comes to its end

  /** The checks of a batch that were not come to yet. */
  function Left(th: Thread): nat {
    if th.Running? && th.done <= |th.batch| then |th.batch| - th.done else 0
  }

  function Remaining(threads: seq<Thread>): nat {
    if threads == [] then 0 else Left(threads[0]) + Remaining(threads[1..])
  }

  /** The work that is left: a queued check must be taken, come to and accounted for, a taken one come to and accounted
      for, one that was come to only accounted for. */
  function Work(s: State): nat { 3 * |s.queue| + Held(s.threads) + Remaining(s.threads) }

  lemma {:induction false} RemainingUpdate(threads: seq<Thread>, t: nat, th: Thread)
    requires t < |threads|
    ensures Remaining(threads[t := th]) == Remaining(threads) - Left(threads[t]) + Left(th)
  {
    if t == 0 {
      assert threads[t := th][1..] == threads[1..];
    } else {
      RemainingUpdate(threads[1..], t - 1, th);
      assert threads[t := th][1..] == threads[1..][t - 1 := th];
    }
  }

  lemma {:induction false} RemainingHeld(threads: seq<Thread>)
    ensures Remaining(threads) <= Held(threads)
  {
    if threads != [] { RemainingHeld(threads[1..]); }
  }

  lemma WorkUpdate(threads: seq<Thread>, t: nat, th: Thread)
    requires t < |threads|
    ensures Held(threads[t := th]) == Held(threads) - |Batch(threads[t])| + |Batch(th)|
    ensures Remaining(threads[t := th]) == Remaining(threads) - Left(threads[t]) + Left(th)
  {
    HeldUpdate(threads, t, th);
    RemainingUpdate(threads, t, th);
  }

  lemma LockWork(s: State, t: nat)
    requires |s.threads| > t && !s.threads[t].Out? && !s.threads[t].Locked?
    requires s.threads[t].Running? ==> s.threads[t].done == |s.threads[t].batch|
    ensures Work(Lock(s, t)) == Work(s) - |Batch(s.threads[t])|
  {
    hide Held, Remaining;
    WorkUpdate(s.threads, t, Locked);
    var held := s.threads[t := Locked];
    WorkUpdate(held, 0, Awake);
  }

  lemma DecideWork(s: State, t: nat)
    requires t < |s.threads| && s.threads[t].Locked? && (s.queue != [] ==> BatchFits(s))
    ensures Work(Decide(s, t)) == Work(s) - if s.queue == [] then 0 else BatchLength(s)
  {
    hide Held, Remaining;
    WorkUpdate(s.threads, t, Decide(s, t).threads[t]);
  }

  predicate InsideWait(s: State) { |s.threads| > 0 && !s.threads[0].Out? }

  ghost predicate Waiting(s: State) {
    Inv(s) && InsideWait(s) && NoneLocked(s)
  }

  /** Steps that do some of the work: coming to a check, accounting for a batch, and taking one. */
  predicate Productive(s: State, step: Step)
    requires Enabled(s, step)
  {
    step.Exec? || ((step.Section? || step.Wake?) && (s.threads[step.t].Running? || s.queue != []))
  }

  /** While the master waits, no step of any thread adds to the work, and every productive step lowers it. */
  lemma StepWork(s: State, step: Step)
    requires Waiting(s) && Enabled(s, step)
    ensures Apply(s, step).Some? && Work(Apply(s, step).value) + (if Productive(s, step) then 1 else 0) <= Work(s)
  {
    hide Once, Held, Remaining, Work, Count;
    StepKeepsInv(s, step);
    match step
    case Start(t) => StartWork(s, t);
    case Exec(t, result) => ExecWork(s, t, result);
    case AddChecks(_, _) =>
    case _ =>
      LockKeepsInv(s, step.t);
      assert ThreadOk(s, s.threads[step.t]);
      LockWork(s, step.t);
      DecideWork(Lock(s, step.t), step.t);
  }

  lemma StartWork(s: State, t: nat)
    requires Enabled(s, Start(t))
    ensures Work(Apply(s, Start(t)).value) == Work(s)
  {
    hide Held, Remaining;
    WorkUpdate(s.threads, t, Enter);
  }

  lemma ExecWork(s: State, t: nat, result: bool)
    requires Enabled(s, Exec(t, result))
    ensures Work(Execute(s, t, result)) == Work(s) - 1
  {
    hide Held, Remaining;
    WorkUpdate(s.threads, t, Execute(s, t, result).threads[t]);
  }

  /** The condition variable wakes nobody who was not notified. */
  predicate Notified(s: State, step: Step)
    requires Enabled(s, step)
  {
    step.Wake? ==> s.threads[step.t].Awake?
  }

  /** While the master waits there is always, without any spurious wake-up, a productive step or the one that makes
      Wait return. */
  lemma Progress(s: State) returns (step: Step)
    requires Waiting(s)
    ensures Enabled(s, step) && Notified(s, step) && (WaitReturns(s, step) || Productive(s, step))
  {
    hide Once, Decide, BatchFits;
    if t :| 0 <= t < |s.threads| && s.threads[t].Running? {
      assert ThreadOk(s, s.threads[t]);
      step := if s.threads[t].done < |s.threads[t].batch| then Exec(t, true) else Section(t);
    } else {
      if Held(s.threads) > 0 {
        var t := SomeoneHolds(s.threads);
        assert false;
      }
      step := if s.threads[0].Enter? then Section(0) else Wake(0);
    }
  }

  /** The productive steps between two points of a run. */
  ghost function ProductiveSteps(states: seq<State>, steps: seq<Step>, i: nat, j: nat): nat
    requires IsRun(states, steps) && i <= j <= |steps|
    decreases j
  {
    if i == j then 0
    else ProductiveSteps(states, steps, i, j - 1) + if Productive(states[j - 1], steps[j - 1]) then 1 else 0
  }

  /** In every schedule: while the master is inside Wait, the threads can take no more productive steps than three for
      each check that was to do. */
  lemma {:induction false} EverySchedule(states: seq<State>, steps: seq<Step>, i: nat, j: nat)
    requires IsRun(states, steps) && i <= j <= |steps| && forall k :: i <= k < j ==> InsideWait(states[k])
    ensures ProductiveSteps(states, steps, i, j) + Work(states[j]) <= Work(states[i]) <= 3 * states[i].nTodo
    decreases j
  {
    hide Inv, Work, Apply;
    if i == j {
      RunKeepsInv(states, steps, i);
      WorkBound(states[i]);
    } else {
      EverySchedule(states, steps, i, j - 1);
      RunKeepsInv(states, steps, j - 1);
      assert Apply(states[j - 1], steps[j - 1]) == Some(states[j]);
      StepWork(states[j - 1], steps[j - 1]);
    }
  }

  lemma WorkBound(s: State)
    requires Inv(s)
    ensures Work(s) <= 3 * s.nTodo
  {
    RemainingHeld(s.threads);
  }

  /** A schedule without spurious wake-ups: steps that can be taken one after the other from `s`, the last making Wait
      return. */
  ghost predicate Finishes(s: State, steps: seq<Step>)
    decreases |steps|
  {
    && steps != [] && Enabled(s, steps[0]) && Notified(s, steps[0])
    && if |steps| == 1 then WaitReturns(s, steps[0])
       else Apply(s, steps[0]).Some? && Finishes(Apply(s, steps[0]).value, steps[1..])
  }

  lemma StillWaiting(s: State, step: Step)
    requires Waiting(s) && Enabled(s, step) && !WaitReturns(s, step)
    ensures Apply(s, step).Some? && Waiting(Apply(s, step).value)
  {
    hide Inv, BatchFits, BatchLength, NoneLocked;
    StepKeepsInv(s, step);
    StepUnlocks(s, step);
    StillInside(s, step);
  }

  lemma StillInside(s: State, step: Step)
    requires InsideWait(s) && NoneLocked(s) && Enabled(s, step) && Apply(s, step).Some? && !WaitReturns(s, step)
    ensures InsideWait(Apply(s, step).value)
  {
    hide BatchFits, BatchLength;
  }

  /** No deadlock: from every reachable state in which the master is inside Wait, the threads can go on
      until Wait returns. */
  lemma {:induction false} WaitCanFinish(s: State) returns (steps: seq<Step>)
    requires Waiting(s)
    ensures Finishes(s, steps)
    decreases Work(s)
  {
    hide Waiting, Work, Apply, WaitReturns;
    var step := Progress(s);
    if WaitReturns(s, step) {
      steps := [step];
    } else {
      StillWaiting(s, step);
      StepWork(s, step);
      steps := WaitCanFinish(Apply(s, step).value);
      steps := [step] + steps;
    }
  }

  /** The same facts about every point of every run: Wait's verdict is right, no wake-up is lost, and
      Wait can always be brought to return. */
  lemma EveryRun(states: seq<State>, steps: seq<Step>, i: nat)
    requires IsRun(states, steps) && i < |steps|
    ensures WaitReturns(states[i], steps[i]) ==>
              && (WaitResult(states[i], steps[i]) <==> forall c :: InRound(states[i], c) ==> Passed(states[i], c))
              && (!WaitResult(states[i], steps[i]) <==> Failed(states[i]))
    ensures states[i].threads[0].Sleeping? ==> states[i].queue == [] && exists t :: 0 < t < |states[i].threads| && states[i].threads[t].Running?
    ensures !states[i].threads[0].Out? ==> exists more :: Finishes(states[i], more)
  {
    RunKeepsInv(states, steps, i);
    assert Enabled(states[i], steps[i]);
    if WaitReturns(states[i], steps[i]) { WaitVerdict(states[i], steps[i]); }
    if states[i].threads[0].Sleeping? { var t := NoLostWakeup(states[i]); }
    if !states[i].threads[0].Out? { var more := WaitCanFinish(states[i]); }
  }
}
