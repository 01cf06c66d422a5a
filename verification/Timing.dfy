/** Timing laws of the scheduler: sleeps last exactly as long as asked, and a ready
    process runs within a bounded number of ticks. */
module Timing {
  import opened Common
  import opened Scheduling
  import opened Partition
  import S = Semaphores

  function Ticks(ops: seq<Op>): nat {
    if ops == [] then 0 else (if ops[0].Tick? then 1 else 0) + Ticks(ops[1..])
  }

  // ----- sleeping -----

  /** The sleep queue is sorted by target, targets are 64-bit numbers, and the shared tick
      count is not about to wrap: some target is above it, or it is 0. */
  ghost predicate SleepOrder(s: State) {
    && HaveRecords(s.sleep, s.procs) && s.clock + 1 < U64
    && (forall x :: x in s.sleep ==> x in s.procs && s.procs[x].sleepTicks < U64)
    && Sorted(s.sleep, s.procs)
  }

  ghost predicate Sorted(q: seq<nat>, procs: map<nat, Proc>) {
    forall i, j :: 0 <= i < j < |q| && q[i] in procs && q[j] in procs ==>
      procs[q[i]].sleepTicks <= procs[q[j]].sleepTicks
  }

  /** Ticks still to come before a sleeper wakes; a sleep of 0 lasts until the next one. */
  function Remaining(s: State, p: nat): int {
    if Of(s, p).sleepTicks - s.clock <= 1 then 1 else Of(s, p).sleepTicks - s.clock
  }

  /** How many ticks a sleep(n) called in s lasts: max(1, n), or 1 if its target wraps. */
  function Length(s: State, n: nat): nat {
    if n <= 1 || s.clock + n >= U64 then 1 else n
  }

  lemma {:induction false} InsertedSorted(q: seq<nat>, procs: map<nat, Proc>, p: nat)
    requires p in procs && HaveRecords(q, procs) && Sorted(q, procs)
    ensures Sorted(Inserted(q, procs, p), procs)
    ensures forall x :: x in Inserted(q, procs, p) <==> x in q || x == p
  {
    if q == [] || !(procs[q[0]].sleepTicks < procs[p].sleepTicks) {
    } else {
      InsertedSorted(q[1..], procs, p);
      var r := Inserted(q[1..], procs, p);
      assert forall i :: 0 <= i < |r| ==> r[i] in r;
      assert forall x :: x in r ==> procs[q[0]].sleepTicks <= procs[x].sleepTicks;
    }
  }

  lemma CurrentAwake(s: State, w: Places)
    requires Placed(s, w)
    ensures s.current !in s.sleep && NoDup(s.sleep) && s.current in s.procs && s.procs.Keys == Elems(s.all)
  {
    CurrentPlace(s, w);
    assert Lists(QueueOf(s, [s.current], Sleeping), w, Sleeping);
  }

  /** What a step may do to the sleep queue, when the process `p` sleeps through it. */
  ghost predicate SameSleep(s: State, t: State) {
    && t.sleep == s.sleep && t.clock == s.clock
    && (forall x :: x in s.sleep ==> x in t.procs && t.procs[x].sleepTicks == Of(s, x).sleepTicks)
  }

  lemma SameSleepKeeps(s: State, t: State)
    requires SleepOrder(s) && SameSleep(s, t)
    ensures SleepOrder(t)
    ensures forall p :: p in s.sleep ==> Remaining(t, p) == Remaining(s, p)
  {
  }

  /** Every call but sleep and the timer leaves sleepers alone. */
  lemma QuietStep(s: State, op: Op)
    requires Known(s) && Allowed(s, op) && !op.Tick? && !op.Sleep? && Do(s, op).Some?
    requires s.procs.Keys == Elems(s.all)
    ensures SameSleep(s, Do(s, op).value)
  {
  }

  lemma SortedFrame(q: seq<nat>, procs: map<nat, Proc>, p: nat, proc: Proc)
    requires Sorted(q, procs) && p !in q && HaveRecords(q, procs)
    ensures Sorted(q, procs[p := proc])
  {
  }

  lemma SleepStep(s: State, n: nat)
    requires Known(s) && SleepOrder(s) && s.current !in s.sleep && n < S.U32 && DoSleep(s, n).Some?
    ensures var t := DoSleep(s, n).value;
            && SleepOrder(t)
            && s.current in t.sleep && Remaining(t, s.current) == Length(s, n)
            && (forall p :: p in s.sleep ==> p in t.sleep && Remaining(t, p) == Remaining(s, p))
  {
    hide Wrap64, Inserted, Sorted;
    Wrap64Once(n + s.clock);
    var procs := s.procs[s.current := s.procs[s.current].(sleepTicks := Wrap64(n + s.clock))];
    SortedFrame(s.sleep, s.procs, s.current, procs[s.current]);
    InsertedSorted(s.sleep, procs, s.current);
  }

  lemma Wrap64Once(x: nat)
    requires x < 2 * U64
    ensures Wrap64(x) == if x < U64 then x else x - U64
  {
  }

  /** One tick: sleepers with one tick left become ready, the others lose one. */
  lemma WakeStep(s: State, p: nat)
    requires HaveRecords(s.sleep, s.procs) && Sorted(s.sleep, s.procs) && NoDup(s.sleep)
    requires p in s.sleep && s.clock + 1 < U64
    ensures Remaining(s, p) == 1 ==> p !in Wake(s).sleep && p in Wake(s).ready
    ensures Remaining(s, p) > 1 ==> p in Wake(s).sleep && Remaining(Wake(s), p) == Remaining(s, p) - 1
  {
  }

  /** The sleepers whose target is reached become ready in the order of their targets, behind
      everyone who was ready; the others stay in the queue as they were. */
  lemma WakesInOrder(s: State)
    requires SleepOrder(s) && NoDup(s.sleep) && s.sleep != []
    ensures var t, now := Wake(s), s.clock + 1;
      && s.ready <= t.ready && t.ready[|s.ready|..] + t.sleep == s.sleep
      && (forall x :: x in t.ready[|s.ready|..] ==> s.procs[x].sleepTicks <= now)
      && (forall x :: x in t.sleep ==> s.procs[x].sleepTicks > now)
      && t.clock == (if t.sleep == [] then 0 else now)
  {
    hide Bump;
    BumpSmall(s.clock);
    var k := Due(s.sleep, s.procs, s.clock + 1);
    assert Wake(s).ready[|s.ready|..] == s.sleep[..k];
    assert forall i :: k <= i < |s.sleep| ==> s.sleep[i] in s.sleep;
    forall x | x in s.sleep[k..] ensures s.procs[x].sleepTicks > s.clock + 1 {
      var i :| 0 <= i < |s.sleep[k..]| && s.sleep[k..][i] == x;
      assert s.sleep[k + i] == x && s.sleep[k] in s.procs;
    }
  }

  lemma SuffixSorted(q: seq<nat>, procs: map<nat, Proc>, k: nat)
    requires Sorted(q, procs) && k <= |q|
    ensures Sorted(q[k..], procs)
  {
  }

  lemma WakeOrder(s: State)
    requires SleepOrder(s) && NoDup(s.sleep)
    ensures SleepOrder(Wake(s))
  {
    hide Due, Sorted, NoDup, Bump;
    if s.sleep != [] {
      var now := s.clock + 1;
      BumpSmall(s.clock);
      var k := Due(s.sleep, s.procs, now);
      SuffixSorted(s.sleep, s.procs, k);
      assert Wake(s).sleep == s.sleep[k..] && Wake(s).procs == s.procs;
      if k < |s.sleep| {
        assert s.sleep[k] in s.sleep;
      }
    }
  }

  lemma TickStep(s: State, w: Places, p: nat)
    requires Placed(s, w) && Known(s) && SleepOrder(s) && DoTick(s).Some?
    ensures SleepOrder(DoTick(s).value)
    ensures p in s.sleep && Remaining(s, p) == 1 ==>
              var t := DoTick(s).value; p !in t.sleep && (p in t.ready || t.current == p)
    ensures p in s.sleep && Remaining(s, p) > 1 ==>
              var t := DoTick(s).value; p in t.sleep && Remaining(t, p) == Remaining(s, p) - 1
  {
    hide Placed, Wake, NoDup, SleepOrder;
    CurrentAwake(s, w);
    var a := Reap(s);
    ReapSleep(s);
    hide SameSleep, Reap;
    var b := Wake(a);
    WakeTick(a, s.current, p);
    SameSleepKeeps(b, Charge(b));
    TickEnd(Charge(b), p);
  }

  lemma ReapSleep(s: State)
    requires Known(s) && SleepOrder(s)
    ensures SameSleep(s, Reap(s)) && SleepOrder(Reap(s))
    ensures forall p :: p in s.sleep ==> Remaining(Reap(s), p) == Remaining(s, p)
    ensures s.current in Reap(s).procs && Reap(s).current == s.current
  {
  }

  lemma WakeTick(a: State, cur: nat, p: nat)
    requires SleepOrder(a) && NoDup(a.sleep) && cur == a.current
    requires cur !in a.sleep && cur in a.procs
    ensures SleepOrder(Wake(a))
    ensures Wake(a).current == cur && cur in Wake(a).procs && SameSleep(Wake(a), Charge(Wake(a)))
    ensures p in a.sleep && Remaining(a, p) == 1 ==> p !in Wake(a).sleep && p in Wake(a).ready
    ensures p in a.sleep && Remaining(a, p) > 1 ==> p in Wake(a).sleep && Remaining(Wake(a), p) == Remaining(a, p) - 1
  {
    WakeOrder(a);
    if p in a.sleep {
      WakeStep(a, p);
    }
    hide Sorted, Due;
  }

  /** Whether or not the tick ends the quantum, sleepers and ready processes stay so. */
  lemma TickEnd(c: State, p: nat)
    ensures ToNext(c, true).Some?
    ensures var t := ToNext(c, true).value;
      && t.sleep == c.sleep && t.procs == c.procs && t.clock == c.clock
      && (SleepOrder(c) ==> SleepOrder(t))
      && (p in c.ready ==> p in t.ready || t.current == p)
  {
    var r := c.ready + [c.current];
    assert r == [r[0]] + r[1..];
    assert p in c.ready ==> p in r;
  }

  /** One step of any kind, seen by a process that is asleep. */
  lemma SleeperStep(s: State, w: Places, op: Op, p: nat)
    requires Placed(s, w) && Allowed(s, op) && SleepOrder(s)
    ensures Known(s) && Do(s, op).Some?
    ensures var t := Do(s, op).value;
      && SleepOrder(t)
      && (p in s.sleep ==>
            if !op.Tick? then p in t.sleep && Remaining(t, p) == Remaining(s, p)
            else if Remaining(s, p) == 1 then p !in t.sleep && (p in t.ready || t.current == p)
            else p in t.sleep && Remaining(t, p) == Remaining(s, p) - 1)
  {
    hide Placed, DoTick, DoSleep, SleepOrder, Known, ToNext, AddProcess, DoAttach, DoKill, DoAcquire, DoRelease;
    var w' := StepKeeps(s, w, op);
    CurrentAwake(s, w);
    if op.Tick? {
      TickStep(s, w, p);
    } else if op.Sleep? {
      SleepStep(s, op.ticks);
    } else {
      QuietStep(s, op);
      SameSleepKeeps(s, Do(s, op).value);
    }
  }

  /** `p` is asleep in every state of the run. */
  ghost predicate SleepsThrough(s: State, ops: seq<Op>, p: nat)
    decreases |ops|
  {
    && p in s.sleep
    && (ops != [] ==>
          Known(s) && SemExists(s, ops[0]) && Do(s, ops[0]).Some? && SleepsThrough(Do(s, ops[0]).value, ops[1..], p))
  }

  /** Over every run, a sleeper stays asleep until exactly its last tick, and that very
      tick makes it ready. */
  lemma {:induction false} SleepIsExact(s: State, w: Places, ops: seq<Op>, p: nat)
    requires Placed(s, w) && SleepOrder(s) && AllSettled(s) && Legal(s, ops) && p in s.sleep
    ensures SleepsThrough(s, ops, p) <==> Ticks(ops) < Remaining(s, p)
    ensures Exec(s, ops).Some?
    ensures ops != [] && ops[|ops| - 1].Tick? && Ticks(ops) == Remaining(s, p) ==>
              var t := Exec(s, ops).value; p !in t.sleep && (p in t.ready || t.current == p)
    decreases |ops|
  {
    hide Placed, AllSettled, SleepOrder, Do, Known;
    if ops == [] {
      return;
    }
    var w' := StepKeeps(s, w, ops[0]);
    StepSettles(s, ops[0]);
    SleeperStep(s, w, ops[0], p);
    var t := Do(s, ops[0]).value;
    if p in t.sleep {
      SleepIsExact(t, w', ops[1..], p);
    } else {
      var w'' := RunKeeps(t, w', ops[1..]);
      LastTick(ops);
    }
  }

  /** A run that ends in its first tick has nothing after it. */
  lemma {:induction false} LastTick(ops: seq<Op>)
    ensures ops != [] && ops[|ops| - 1].Tick? ==> Ticks(ops) >= 1
    ensures |ops| > 1 && ops[0].Tick? && ops[|ops| - 1].Tick? ==> Ticks(ops) >= 2
    decreases |ops|
  {
    if |ops| > 1 {
      LastTick(ops[1..]);
    }
  }

  /** The current process may sleep, and `ops` may follow. */
  ghost predicate MaySleep(s: State, n: nat, ops: seq<Op>) {
    Allowed(s, Sleep(n)) && (Known(s) && DoSleep(s, n).Some? ==> Legal(DoSleep(s, n).value, ops))
  }

  /** sleep(n) succeeds; its caller sleeps through `ops` exactly while fewer than `length`
      ticks pass, and the tick that completes them makes it ready. */
  ghost predicate SleepsFor(s: State, n: nat, length: nat, ops: seq<Op>) {
    && Known(s) && DoSleep(s, n).Some?
    && var t := DoSleep(s, n).value;
      && (SleepsThrough(t, ops, s.current) <==> Ticks(ops) < length)
      && Exec(t, ops).Some?
      && (ops != [] && ops[|ops| - 1].Tick? && Ticks(ops) == length ==>
            var u := Exec(t, ops).value; s.current !in u.sleep && (s.current in u.ready || u.current == s.current))
  }

  /** The law a caller sees: sleep(n) lasts exactly Length(s, n) ticks, whatever every other
      process does meanwhile. */
  lemma SleepLasts(s: State, w: Places, n: nat, ops: seq<Op>)
    requires Placed(s, w) && SleepOrder(s) && AllSettled(s) && MaySleep(s, n, ops)
    ensures SleepsFor(s, n, Length(s, n), ops)
  {
    hide Placed, AllSettled, SleepOrder, DoSleep, Known;
    var w' := StepKeeps(s, w, Sleep(n));
    StepSettles(s, Sleep(n));
    CurrentAwake(s, w);
    SleepStep(s, n);
    SleepIsExact(DoSleep(s, n).value, w', ops, s.current);
  }

  // ----- sleeping, from boot -----

  lemma BootOrder(sems: seq<S.Sem>)
    ensures SleepOrder(Boot(sems))
  {
  }

  /** Every run keeps the sleep queue in order and the shared tick count from wrapping. */
  lemma {:induction false} RunKeepsOrder(s: State, w: Places, ops: seq<Op>) returns (w': Places)
    requires Placed(s, w) && SleepOrder(s) && AllSettled(s) && Legal(s, ops)
    ensures Exec(s, ops).Some?
    ensures var t := Exec(s, ops).value; Placed(t, w') && SleepOrder(t) && AllSettled(t)
    decreases |ops|
  {
    hide Placed, AllSettled, SleepOrder, Do, Known;
    if ops == [] {
      return w;
    }
    var w1 := StepKeeps(s, w, ops[0]);
    StepSettles(s, ops[0]);
    SleeperStep(s, w, ops[0], s.current);
    w' := RunKeepsOrder(Do(s, ops[0]).value, w1, ops[1..]);
  }

  /** The placement behind a state that a run from boot reaches. */
  lemma Reached(sems: seq<S.Sem>, past: seq<Op>) returns (w: Places)
    requires forall i :: 0 <= i < |sems| ==> sems[i].waiting == []
    requires Legal(Boot(sems), past)
    ensures Exec(Boot(sems), past).Some?
    ensures var s := Exec(Boot(sems), past).value; Placed(s, w) && SleepOrder(s) && AllSettled(s)
  {
    hide Placed, AllSettled, SleepOrder;
    BootPlaced(sems);
    BootOrder(sems);
    BootSettled(sems);
    w := RunKeepsOrder(Boot(sems), map[IDLE := Current], past);
  }

  lemma BootSettled(sems: seq<S.Sem>)
    requires forall i :: 0 <= i < |sems| ==> sems[i].waiting == []
    ensures AllSettled(Boot(sems))
  {
  }

  /** The law in every state that a run from boot reaches, after any past and for any
      future. */
  lemma SleepFromBoot(sems: seq<S.Sem>, past: seq<Op>, n: nat, ops: seq<Op>)
    requires forall i :: 0 <= i < |sems| ==> sems[i].waiting == []
    requires Legal(Boot(sems), past)
    requires Exec(Boot(sems), past).Some? ==> MaySleep(Exec(Boot(sems), past).value, n, ops)
    ensures Exec(Boot(sems), past).Some?
    ensures var s := Exec(Boot(sems), past).value; SleepsFor(s, n, Length(s, n), ops)
  {
    hide Placed, AllSettled, SleepOrder, SleepsFor;
    var w := Reached(sems, past);
    SleepLasts(Exec(Boot(sems), past).value, w, n, ops);
  }

  /** sleep(n) called in s lasts max(1, n) ticks whatever follows. */
  ghost predicate SleepsFully(s: State, n: nat) {
    forall ops :: MaySleep(s, n, ops) ==> SleepsFor(s, n, if n <= 1 then 1 else n, ops)
  }

  /** In every state that a run from boot reaches, it does exactly when n <= 1 or the shared
      tick count plus n stays below 2^64. */
  lemma SleepFullyIff(sems: seq<S.Sem>, past: seq<Op>, n: nat)
    requires forall i :: 0 <= i < |sems| ==> sems[i].waiting == []
    requires Legal(Boot(sems), past)
    requires Exec(Boot(sems), past).Some? ==> Allowed(Exec(Boot(sems), past).value, Sleep(n))
    ensures Exec(Boot(sems), past).Some?
    ensures var s := Exec(Boot(sems), past).value; SleepsFully(s, n) <==> n <= 1 || s.clock + n < U64
  {
    hide Placed, AllSettled, SleepOrder, SleepsFor, MaySleep;
    var w := Reached(sems, past);
    var s := Exec(Boot(sems), past).value;
    if n <= 1 || s.clock + n < U64 {
      forall ops | MaySleep(s, n, ops) ensures SleepsFor(s, n, if n <= 1 then 1 else n, ops) {
        SleepLasts(s, w, n, ops);
      }
    } else {
      OneTickMayFollow(s, n);
      SleepLasts(s, w, n, [Tick]);
      NotBoth(s, n);
    }
  }

  lemma OneTickMayFollow(s: State, n: nat)
    requires Allowed(s, Sleep(n))
    ensures MaySleep(s, n, [Tick])
  {
  }

  /** One tick cannot both end a sleep and leave it going. */
  lemma NotBoth(s: State, n: nat)
    requires n > 1 && SleepsFor(s, n, 1, [Tick])
    ensures !SleepsFor(s, n, n, [Tick])
  {
    hide SleepsThrough, Exec, DoSleep;
    assert Ticks([Tick]) == 1;
  }

  // ----- the quantum -----

  /** What a timer tick does to the process it interrupts: its tick count goes up by one, and
      exactly when the new count is a multiple of PROCESS_ALIVE_TICKS it goes to the back of
      the ready queue and the head of that queue runs; otherwise it keeps the CPU.  Nobody
      else's count changes. */
  lemma TickSwitchesIff(s: State)
    requires Known(s)
    ensures DoTick(s).Some?
    ensures var t, ready := DoTick(s).value, Wake(Reap(s)).ready;
      var n := (s.procs[s.current].aliveTicks + 1) % U64;
      && s.current in t.procs && t.procs[s.current].aliveTicks == n
      && (n % PROCESS_ALIVE_TICKS == 0 ==> [t.current] + t.ready == ready + [s.current])
      && (n % PROCESS_ALIVE_TICKS != 0 ==> t.current == s.current && t.ready == ready)
      && s.ready <= ready
      && (forall p :: p in t.procs && p != s.current ==> p in s.procs && t.procs[p].aliveTicks == s.procs[p].aliveTicks)
  {
    hide Due, Without;
    var c := Charge(Wake(Reap(s)));
    var r := c.ready + [c.current];
    assert r == [r[0]] + r[1..];
  }

  /** A call that neither blocks nor gives up the CPU. */
  predicate KeepsCpu(s: State, op: Op) {
    || op.Tick? || op.Spawn? || op.Release?
    || (op.Acquire? && op.sem < |s.sems| && s.sems[op.sem].count >= op.n)
  }

  /** Nothing but such calls and ticks happens while p runs. */
  ghost predicate Undisturbed(s: State, ops: seq<Op>)
    decreases |ops|
  {
    ops != [] ==>
      && KeepsCpu(s, ops[0])
      && (Known(s) && SemExists(s, ops[0]) && Do(s, ops[0]).Some? ==>
            Do(s, ops[0]).value.current == s.current ==> Undisturbed(Do(s, ops[0]).value, ops[1..]))
  }

  lemma KeepStep(s: State, op: Op)
    requires Known(s) && Allowed(s, op) && KeepsCpu(s, op) && s.procs.Keys == Elems(s.all)
    ensures Do(s, op).Some?
    ensures !op.Tick? ==> var t := Do(s, op).value;
      t.current == s.current && Of(t, s.current).aliveTicks == Of(s, s.current).aliveTicks
  {
    if op.Tick? {
      TickSwitchesIff(s);
    }
  }

  /** A process that has used k ticks of its quantum and makes no call that gives up the CPU
      runs on through every tick before the one that completes it, and that one sends it to
      the back of the ready queue. */
  lemma {:induction false} QuantumIsExact(s: State, w: Places, ops: seq<Op>, k: nat)
    requires Placed(s, w) && AllSettled(s) && Legal(s, ops) && Undisturbed(s, ops)
    requires k == Of(s, s.current).aliveTicks % PROCESS_ALIVE_TICKS
    ensures Exec(s, ops).Some?
    ensures k + Ticks(ops) < PROCESS_ALIVE_TICKS ==> Exec(s, ops).value.current == s.current
    ensures k + Ticks(ops) == PROCESS_ALIVE_TICKS && ops != [] && ops[|ops| - 1].Tick? ==>
              var t := Exec(s, ops).value;
              var line := [t.current] + t.ready; line[|line| - 1] == s.current
    decreases |ops|
  {
    hide Placed, AllSettled, Known, Do, Allowed;
    var w' := RunKeeps(s, w, ops);
    if ops == [] {
      return;
    }
    var w1 := StepKeeps(s, w, ops[0]);
    StepSettles(s, ops[0]);
    CurrentAwake(s, w);
    KeepStep(s, ops[0]);
    var t := Do(s, ops[0]).value;
    if ops[0].Tick? {
      TickPhase(s, k);
      if k == PROCESS_ALIVE_TICKS - 1 {
        LastTick(ops);
        return;
      }
      QuantumIsExact(t, w1, ops[1..], k + 1);
    } else {
      QuantumIsExact(t, w1, ops[1..], k);
    }
  }

  lemma TickPhase(s: State, k: nat)
    requires Known(s) && k == Of(s, s.current).aliveTicks % PROCESS_ALIVE_TICKS
    ensures Do(s, Tick).Some?
    ensures var t := Do(s, Tick).value;
      if k == PROCESS_ALIVE_TICKS - 1 then
        var line := [t.current] + t.ready; line[|line| - 1] == s.current
      else t.current == s.current && Of(t, s.current).aliveTicks % PROCESS_ALIVE_TICKS == k + 1
  {
    hide DoTick;
    TickSwitchesIff(s);
    var n := s.procs[s.current].aliveTicks;
    BumpPhase(n);
  }

  // ----- round robin -----

  /** An upper bound on the ticks before the process at ready index k runs. */
  function Deadline(s: State, k: nat): nat {
    k * PROCESS_ALIVE_TICKS + (PROCESS_ALIVE_TICKS - Phase(Of(s, s.current).aliveTicks))
  }

  /** The current process keeps the CPU, or the head of the ready queue gets it; new
      arrivals only ever join the back. */
  ghost predicate FifoStep(s: State, t: State, ticked: nat) {
    || (&& t.current == s.current && s.ready <= t.ready
        && Phase(Of(t, t.current).aliveTicks) == Phase(Of(s, s.current).aliveTicks) + ticked)
    || (s.ready <= [t.current] + t.ready)
  }

  lemma NextIsFifo(s: State, u: State)
    requires s.ready <= u.ready && u.ready != []
    ensures var t := ToNext(u, false).value; s.ready <= [t.current] + t.ready
  {
  }

  lemma StepIsFifo(s: State, op: Op)
    requires Known(s) && SemExists(s, op) && Do(s, op).Some?
    requires (op.Spawn? || op.Attach?) ==> op.pid !in s.procs
    requires Of(s, s.current).attachedFrom != Some(s.current)
    ensures FifoStep(s, Do(s, op).value, if op.Tick? then 1 else 0)
  {
    match op
    case Tick => TickIsFifo(s);
    case Yield => NextIsFifo(s, PushReady(s, s.current));
    case Spawn(p) =>
    case Attach(p) => NextIsFifo(s, AddProcess(s, p, FRESH.(attachedFrom := Some(s.current))));
    case Kill(code) =>
      if s.current != IDLE {
        var t := WakeParent(s, code);
        NextIsFifo(s, t.(dead := t.dead + [t.current]));
      }
    case Sleep(n) => assert s.ready <= [Do(s, op).value.current] + Do(s, op).value.ready;
    case Acquire(sem, n) =>
      var t := s.(sems := s.sems[sem := S.Acquired(s.sems[sem], s.current, n)]);
      if s.sems[sem].count < n {
        NextIsFifo(s, t);
      }
    case Release(sem, n) =>
  }

  lemma TickIsFifo(s: State)
    requires Known(s)
    ensures DoTick(s).Some? && FifoStep(s, DoTick(s).value, 1)
  {
    hide Bump, Phase, Due, Without;
    var b := Wake(Reap(s));
    assert s.ready <= b.ready && b.current == s.current;
    assert b.procs[b.current] == s.procs[s.current];
    var c := Charge(b);
    BumpPhase(s.procs[s.current].aliveTicks);
    if Phase(c.procs[c.current].aliveTicks) == 0 {
      NextIsFifo(s, PushReady(c, c.current));
    }
  }

  /** One step brings the process at ready index k closer to running. */
  lemma QueueStep(s: State, t: State, ticked: nat, k: nat) returns (j: nat)
    requires FifoStep(s, t, ticked) && k < |s.ready| && ticked <= 1
    ensures t.current == s.ready[k] ||
      (j < |t.ready| && t.ready[j] == s.ready[k] && Deadline(t, j) + ticked <= Deadline(s, k))
  {
    if t.current == s.current && s.ready <= t.ready &&
       Phase(Of(t, t.current).aliveTicks) == Phase(Of(s, s.current).aliveTicks) + ticked {
      j := k;
    } else if k > 0 {
      j := k - 1;
      assert ([t.current] + t.ready)[k] == t.ready[j];
    } else {
      j := 0;
      assert ([t.current] + t.ready)[0] == t.current;
    }
  }

  /** `p` is the current process in some state of the run. */
  ghost predicate Runs(s: State, ops: seq<Op>, p: nat)
    decreases |ops|
  {
    || s.current == p
    || (ops != [] && Known(s) && SemExists(s, ops[0]) && Do(s, ops[0]).Some? && Runs(Do(s, ops[0]).value, ops[1..], p))
  }

  lemma {:induction false} RunsByDeadline(s: State, w: Places, ops: seq<Op>, k: nat)
    requires Placed(s, w) && Legal(s, ops) && k < |s.ready|
    requires Ticks(ops) >= Deadline(s, k)
    ensures Runs(s, ops, s.ready[k])
    decreases |ops|
  {
    hide Placed, Do, Known, FifoStep;
    var w' := StepKeeps(s, w, ops[0]);
    NotOwnParent(s, w);
    CurrentAwake(s, w);
    StepIsFifo(s, ops[0]);
    var t := Do(s, ops[0]).value;
    var j := QueueStep(s, t, if ops[0].Tick? then 1 else 0, k);
    if t.current != s.ready[k] {
      RunsByDeadline(t, w', ops[1..], j);
    }
  }

  lemma NotOwnParent(s: State, w: Places)
    requires Placed(s, w)
    ensures Of(s, s.current).attachedFrom != Some(s.current)
  {
    CurrentPlace(s, w);
    assert !IsChild(s.procs, w, s.current, s.current);
  }

  /** Round robin: a process at ready index k runs within PROCESS_ALIVE_TICKS * (k + 1)
      ticks, under any mix of operations. */
  lemma RoundRobin(s: State, w: Places, ops: seq<Op>, k: nat)
    requires Placed(s, w) && Legal(s, ops) && k < |s.ready|
    requires Ticks(ops) >= PROCESS_ALIVE_TICKS * (k + 1)
    ensures Runs(s, ops, s.ready[k])
  {
    RunsByDeadline(s, w, ops, k);
  }
}
