/** The scheduler (kernel/src/process/scheduler.c) as a state machine.

    A `State` holds what the file keeps in static variables, plus the semaphores whose
    queues hold blocked processes.  `Do(s, op)` is the state after one call made by the
    current process or by the timer; it is `None` when the ready queue is empty and the
    source would dereference a null process. */
module Scheduling {
  import opened Common
  import S = Semaphores

  const IDLE: nat := 1
  const PROCESS_ALIVE_TICKS: nat := 4
  const U64: nat := 0x1_0000_0000_0000_0000

  datatype Proc = Proc(aliveTicks: nat, sleepTicks: nat, attachedFrom: Option<nat>, receivedExitCode: int)

  const FRESH: Proc := Proc(0, 0, None, 0)

  datatype State = State(
    current: nat,
    ready: seq<nat>,
    sleep: seq<nat>,
    dead: seq<nat>,          // delete_queue
    clock: nat,              // global_sleep_ticks
    all: seq<nat>,           // the global list, oldest first
    procs: map<nat, Proc>,
    sems: seq<S.Sem>)

  datatype Op =
    | Tick
    | Yield
    | Spawn(pid: nat)
    | Attach(pid: nat)
    | Kill(code: int)
    | Sleep(ticks: nat)
    | Acquire(sem: nat, n: nat)
    | Release(sem: nat, n: nat)

  function Of(s: State, p: nat): Proc {
    if p in s.procs then s.procs[p] else FRESH
  }

  function Boot(sems: seq<S.Sem>): State {
    State(IDLE, [], [], [], 0, [IDLE], map[IDLE := FRESH], sems)
  }

  // ----- the operations -----

  function PushReady(s: State, p: nat): State {
    s.(ready := s.ready + [p])
  }

  /** scheduler_to_next_process: None is the null dereference on an empty queue. */
  function ToNext(s: State, addBack: bool): Option<State> {
    var t := if addBack then PushReady(s, s.current) else s;
    if t.ready == [] then None
    else Some(t.(current := t.ready[0], ready := t.ready[1..]))
  }

  function AddProcess(s: State, p: nat, proc: Proc): State {
    PushReady(s, p).(all := s.all + [p], procs := s.procs[p := proc])
  }

  function DoAttach(s: State, p: nat): Option<State> {
    ToNext(AddProcess(s, p, FRESH.(attachedFrom := Some(s.current))), false)
  }

  /** A killed child hands its exit code to the parent it was attached from. */
  function WakeParent(s: State, code: int): State {
    match Of(s, s.current).attachedFrom
    case None => s
    case Some(parent) =>
      PushReady(s, parent).(procs := s.procs[parent := Of(s, parent).(receivedExitCode := code)])
  }

  function DoKill(s: State, code: int): Option<State> {
    if s.current == IDLE then Some(s)
    else
      var t := WakeParent(s, code);
      ToNext(t.(dead := t.dead + [t.current]), false)
  }

  predicate HaveRecords(q: seq<nat>, procs: map<nat, Proc>) {
    forall i :: 0 <= i < |q| ==> q[i] in procs
  }

  /** process_queue_sorted_push: before the first entry that is not strictly earlier. */
  function Inserted(q: seq<nat>, procs: map<nat, Proc>, p: nat): seq<nat>
    requires p in procs
    requires HaveRecords(q, procs)
  {
    if q == [] || !(procs[q[0]].sleepTicks < procs[p].sleepTicks) then [p] + q
    else [q[0]] + Inserted(q[1..], procs, p)
  }

  lemma {:induction false} InsertedAt(q: seq<nat>, procs: map<nat, Proc>, p: nat, i: nat)
    requires p in procs && HaveRecords(q, procs) && i <= |q|
    requires forall j :: 0 <= j < i ==> procs[q[j]].sleepTicks < procs[p].sleepTicks
    requires i < |q| ==> !(procs[q[i]].sleepTicks < procs[p].sleepTicks)
    ensures Inserted(q, procs, p) == q[..i] + [p] + q[i..]
  {
    if i > 0 {
      var t := q[1..];
      InsertedAt(t, procs, p, i - 1);
      assert [q[0]] + t[..i - 1] == q[..i] && t[i - 1..] == q[i..];
      assert [q[0]] + (t[..i - 1] + [p] + t[i - 1..]) == [q[0]] + t[..i - 1] + [p] + t[i - 1..];
    }
  }

  function DoSleep(s: State, ticks: nat): Option<State>
    requires Known(s)
  {
    var target := Wrap64(ticks + s.clock);
    var t := s.(procs := s.procs[s.current := s.procs[s.current].(sleepTicks := target)]);
    ToNext(t.(sleep := Inserted(t.sleep, t.procs, t.current)), false)
  }

  function DoAcquire(s: State, sem: nat, n: nat): Option<State>
    requires sem < |s.sems|
  {
    var t := s.(sems := s.sems[sem := S.Acquired(s.sems[sem], s.current, n)]);
    if s.sems[sem].count >= n then Some(t) else ToNext(t, false)
  }

  function Pids(ws: seq<S.Waiter>): (q: seq<nat>)
    ensures |q| == |ws| && forall i :: 0 <= i < |q| ==> q[i] == ws[i].pid
  {
    if ws == [] then [] else [ws[0].pid] + Pids(ws[1..])
  }

  lemma PidsSnoc(ws: seq<S.Waiter>, w: S.Waiter)
    ensures Pids(ws + [w]) == Pids(ws) + [w.pid]
  {
  }

  function DoRelease(s: State, sem: nat, n: nat): State
    requires sem < |s.sems|
  {
    s.(sems := s.sems[sem := S.Released(s.sems[sem], n)],
       ready := s.ready + Pids(S.Woken(s.sems[sem], n)))
  }

  function Without(q: seq<nat>, gone: seq<nat>): (r: seq<nat>)
    ensures forall p :: p in r <==> p in q && p !in gone
  {
    if q == [] then []
    else if q[0] in gone then Without(q[1..], gone)
    else [q[0]] + Without(q[1..], gone)
  }

  lemma {:induction false} WithoutNothing(q: seq<nat>)
    ensures Without(q, []) == q
  {
    if q != [] {
      WithoutNothing(q[1..]);
    }
  }

  /** Removing one zombie after another is removing them together. */
  lemma {:induction false} WithoutTwice(q: seq<nat>, a: seq<nat>, b: seq<nat>)
    ensures Without(Without(q, a), b) == Without(q, a + b)
  {
    if q != [] {
      WithoutTwice(q[1..], a, b);
      assert q[0] in a + b <==> q[0] in a || q[0] in b;
    }
  }

  function Elems(q: seq<nat>): set<nat> {
    set p | p in q
  }

  /** First loop of scheduler_switch: everything in the delete queue goes. */
  function Reap(s: State): State {
    Reaped(s, s.dead, [])
  }

  /** After the zombies in `gone` went; `rest` is still queued. */
  function Reaped(s: State, gone: seq<nat>, rest: seq<nat>): State {
    s.(all := Without(s.all, gone), procs := s.procs - Elems(gone), dead := rest)
  }

  lemma ReapedNext(s: State, gone: seq<nat>, p: nat, rest: seq<nat>)
    ensures var t := Reaped(s, gone, [p] + rest);
      Reaped(s, gone + [p], rest) == t.(all := Without(t.all, [p]), procs := t.procs - {p}, dead := rest)
  {
    WithoutTwice(s.all, gone, [p]);
    assert Elems(gone + [p]) == Elems(gone) + {p};
  }

  lemma ReapedNone(s: State)
    ensures Reaped(s, [], s.dead) == s
  {
    WithoutNothing(s.all);
  }

  /** Length of the prefix of the sleep queue that is due at `now`. */
  function Due(q: seq<nat>, procs: map<nat, Proc>, now: nat): (k: nat)
    requires HaveRecords(q, procs)
    ensures k <= |q|
    ensures forall i :: 0 <= i < k ==> procs[q[i]].sleepTicks <= now
    ensures k < |q| ==> procs[q[k]].sleepTicks > now
  {
    if q == [] || procs[q[0]].sleepTicks > now then 0 else 1 + Due(q[1..], procs, now)
  }

  /** Second part of scheduler_switch: the shared tick count moves only while someone
      sleeps and restarts from 0 when the last sleeper leaves. */
  function Wake(s: State): State
    requires HaveRecords(s.sleep, s.procs)
  {
    if s.sleep == [] then s
    else
      var now := Bump(s.clock);
      var k := Due(s.sleep, s.procs, now);
      s.(ready := s.ready + s.sleep[..k],
         sleep := s.sleep[k..],
         clock := if k == |s.sleep| then 0 else now)
  }

  lemma WakeIs(s: State, now: nat, k: nat)
    requires HaveRecords(s.sleep, s.procs) && s.sleep != [] && k <= |s.sleep|
    requires now == Bump(s.clock)
    requires forall j :: 0 <= j < k ==> s.procs[s.sleep[j]].sleepTicks <= now
    requires k < |s.sleep| ==> s.procs[s.sleep[k]].sleepTicks > now
    ensures Wake(s) == s.(ready := s.ready + s.sleep[..k], sleep := s.sleep[k..],
                          clock := if k == |s.sleep| then 0 else now)
  {
  }

  function Charge(s: State): State
    requires s.current in s.procs
  {
    var p := s.procs[s.current];
    s.(procs := s.procs[s.current := p.(aliveTicks := Bump(p.aliveTicks))])
  }

  function Wrap64(x: nat): nat {
    x % U64
  }

  lemma Wrap64Small(x: nat)
    requires x < U64
    ensures Wrap64(x) == x
  {
  }

  /** A 64-bit tick counter. */
  function Bump(ticks: nat): nat {
    Wrap64(ticks + 1)
  }

  lemma BumpSmall(ticks: nat)
    requires ticks + 1 < U64
    ensures Bump(ticks) == ticks + 1
  {
  }

  function Phase(ticks: nat): nat {
    ticks % PROCESS_ALIVE_TICKS
  }

  /** Wrapping does not disturb the phase, because the quantum divides 2^64. */
  lemma BumpPhase(ticks: nat)
    ensures Phase(Bump(ticks)) == if Phase(ticks) == PROCESS_ALIVE_TICKS - 1 then 0 else Phase(ticks) + 1
  {
  }

  function DoTick(s: State): Option<State>
    requires Known(s)
  {
    var t := Charge(Wake(Reap(s)));
    if Phase(t.procs[t.current].aliveTicks) == 0 then ToNext(t, true) else Some(t)
  }

  /** Deleting zombies leaves the records that the rest of the timer handler needs. */
  lemma TickReady(s: State)
    requires Known(s)
    ensures HaveRecords(Reap(s).sleep, Reap(s).procs)
    ensures Wake(Reap(s)).current in Wake(Reap(s)).procs
  {
  }

  /** Every process named by the queues the timer touches has a record, and none of
      them is waiting to be deleted. */
  predicate Known(s: State) {
    && s.current in s.procs && s.current !in s.dead
    && HaveRecords(s.sleep, s.procs)
    && (forall i :: 0 <= i < |s.sleep| ==> s.sleep[i] !in s.dead)
  }

  function Do(s: State, op: Op): Option<State>
    requires Known(s) && SemExists(s, op)
  {
    match op
    case Tick => DoTick(s)
    case Yield => ToNext(s, true)
    case Spawn(p) => Some(AddProcess(s, p, FRESH))
    case Attach(p) => DoAttach(s, p)
    case Kill(code) => DoKill(s, code)
    case Sleep(n) => DoSleep(s, n)
    case Acquire(sem, n) => DoAcquire(s, sem, n)
    case Release(sem, n) => Some(DoRelease(s, sem, n))
  }

  predicate SemExists(s: State, op: Op) {
    && (op.Acquire? ==> op.sem < |s.sems|)
    && (op.Release? ==> op.sem < |s.sems|)
  }

  /** What the callers guarantee: new processes are new, tick counts are 32-bit, and
      the idle process never blocks (after booting it only halts, kernel.c:320). */
  ghost predicate Allowed(s: State, op: Op) {
    && SemExists(s, op)
    && ((op.Spawn? || op.Attach?) ==> op.pid !in s.all)
    && (op.Sleep? ==> op.ticks < S.U32)
    && (s.current == IDLE ==> !Blocks(s, op))
  }

  ghost predicate Blocks(s: State, op: Op)
    requires SemExists(s, op)
  {
    op.Attach? || op.Sleep? || (op.Acquire? && s.sems[op.sem].count < op.n)
  }

  // ----- runs -----

  /** The state after a run; None if some step faulted. */
  function Exec(s: State, ops: seq<Op>): Option<State>
    decreases |ops|
  {
    if ops == [] then Some(s)
    else if !Known(s) || !SemExists(s, ops[0]) then None
    else
      match Do(s, ops[0])
      case None => None
      case Some(t) => Exec(t, ops[1..])
  }

  /** Every call of the run keeps the rules of `Allowed` in the state it is made in. */
  ghost predicate Legal(s: State, ops: seq<Op>)
    decreases |ops|
  {
    ops != [] ==>
      && Allowed(s, ops[0])
      && (Known(s) ==> match Do(s, ops[0]) case None => true case Some(t) => Legal(t, ops[1..]))
  }
}
