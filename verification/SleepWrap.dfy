/** A run from boot after which a sleep is cut short: two processes take turns so that one of
    them always sleeps and the shared tick count of kernel/src/process/scheduler.c is never
    reset. */
module SleepWrap {
  import opened Common
  import opened Scheduling
  import opened Timing

  /** Both processes have records, and nobody waits to be deleted. */
  ghost predicate Pair(s: State, a: nat, b: nat) {
    && a != b && a != IDLE && b != IDLE && s.dead == []
    && IDLE in s.procs && a in s.procs && b in s.procs
  }

  /** a runs, idle is ready with a fresh quantum, and b sleeps four more ticks. */
  ghost predicate Turn(s: State, a: nat, b: nat) {
    && Pair(s, a, b) && s.current == a && s.ready == [IDLE] && s.sleep == [b]
    && Phase(s.procs[IDLE].aliveTicks) == 0 && s.procs[b].sleepTicks == s.clock + 4
  }

  /** Both sleep; idle has used k ticks of its quantum. */
  ghost predicate Idling(s: State, a: nat, b: nat, k: nat) {
    && Pair(s, a, b) && s.current == IDLE && s.ready == [] && s.sleep == [b, a] && k < 4
    && Phase(s.procs[IDLE].aliveTicks) == k
    && s.procs[b].sleepTicks + k == s.clock + 4 && s.procs[a].sleepTicks + k == s.clock + 8
  }

  lemma TurnSleeps(s: State, a: nat, b: nat)
    requires Turn(s, a, b) && s.clock + 8 < U64
    ensures Known(s) && DoSleep(s, 8).Some? && Idling(DoSleep(s, 8).value, a, b, 0)
    ensures DoSleep(s, 8).value.clock == s.clock
  {
    hide Wrap64, Phase;
    Wrap64Small(8 + s.clock);
    var procs := s.procs[a := s.procs[a].(sleepTicks := 8 + s.clock)];
    InsertedAt([b], procs, a, 1);
  }

  /** Deleting no zombies changes nothing. */
  lemma NoZombies(s: State)
    requires s.dead == []
    ensures Reap(s) == s
  {
    WithoutNothing(s.all);
    assert s.procs - Elems([]) == s.procs;
  }

  lemma IdleTick(s: State, a: nat, b: nat, k: nat)
    requires Idling(s, a, b, k) && k < 3 && s.clock + 1 < U64
    ensures Known(s) && DoTick(s).Some? && Idling(DoTick(s).value, a, b, k + 1)
    ensures DoTick(s).value.clock == s.clock + 1
  {
    hide Bump, Phase, Due;
    NoZombies(s);
    BumpSmall(s.clock);
    WakeIs(s, s.clock + 1, 0);
    BumpPhase(s.procs[IDLE].aliveTicks);
    hide Wake;
  }

  lemma IdleWakes(s: State, a: nat, b: nat)
    requires Idling(s, a, b, 3) && s.clock + 1 < U64
    ensures Known(s) && DoTick(s).Some? && Turn(DoTick(s).value, b, a)
    ensures DoTick(s).value.clock == s.clock + 1
  {
    hide Bump, Phase, Due;
    NoZombies(s);
    BumpSmall(s.clock);
    WakeIs(s, s.clock + 1, 1);
    BumpPhase(s.procs[IDLE].aliveTicks);
    hide Wake;
    assert [b, a][..1] == [b] && [b, a][1..] == [a];
  }

  const ROUND: seq<Op> := [Sleep(8), Tick, Tick, Tick, Tick]

  /** One legal call that succeeds, then the rest of the run. */
  lemma Then(s: State, op: Op, t: State, ops: seq<Op>)
    requires Allowed(s, op) && Known(s) && Do(s, op) == Some(t)
    ensures Exec(s, [op] + ops) == Exec(t, ops)
    ensures Legal(t, ops) ==> Legal(s, [op] + ops)
  {
    hide Do, Known, Blocks;
    assert ([op] + ops)[1..] == ops;
  }

  /** `before` leads from s to t, whatever follows. */
  ghost predicate Leads(s: State, before: seq<Op>, t: State) {
    forall ops :: Exec(s, before + ops) == Exec(t, ops) && (Legal(t, ops) ==> Legal(s, before + ops))
  }

  /** Five calls in a row. */
  lemma Five(s: State, a: Op, t0: State, b: Op, t1: State, c: Op, t2: State, d: Op, t3: State, e: Op, t: State)
    requires Allowed(s, a) && Known(s) && Do(s, a) == Some(t0)
    requires Allowed(t0, b) && Known(t0) && Do(t0, b) == Some(t1)
    requires Allowed(t1, c) && Known(t1) && Do(t1, c) == Some(t2)
    requires Allowed(t2, d) && Known(t2) && Do(t2, d) == Some(t3)
    requires Allowed(t3, e) && Known(t3) && Do(t3, e) == Some(t)
    ensures Leads(s, [a, b, c, d, e], t)
  {
    hide Exec, Legal, Allowed, Known, Do;
    var five := [a, b, c, d, e];
    forall ops ensures Exec(s, five + ops) == Exec(t, ops) && (Legal(t, ops) ==> Legal(s, five + ops)) {
      var r1 := [e] + ops;
      var r2 := [d] + r1;
      var r3 := [c] + r2;
      var r4 := [b] + r3;
      Then(t3, e, t, ops);
      Then(t2, d, t3, r1);
      Then(t1, c, t2, r2);
      Then(t0, b, t1, r3);
      Then(s, a, t0, r4);
      assert five + ops == [a] + r4;
    }
  }

  lemma TickMay(s: State)
    ensures Allowed(s, Tick)
  {
  }

  /** A round: the other process has its turn four ticks later. */
  lemma Round(s: State, a: nat, b: nat) returns (t: State)
    requires Turn(s, a, b) && s.clock + 8 < U64
    ensures Turn(t, b, a) && t.clock == s.clock + 4 && Leads(s, ROUND, t)
  {
    hide Turn, Idling, DoSleep, DoTick, Leads, Allowed, Known;
    TurnMay(s, a, b);
    TurnSleeps(s, a, b);
    var t0 := DoSleep(s, 8).value;
    IdleTick(t0, a, b, 0);
    var t1 := DoTick(t0).value;
    IdleTick(t1, a, b, 1);
    var t2 := DoTick(t1).value;
    IdleTick(t2, a, b, 2);
    var t3 := DoTick(t2).value;
    IdleWakes(t3, a, b);
    t := DoTick(t3).value;
    TickMay(t0);
    TickMay(t1);
    TickMay(t2);
    TickMay(t3);
    Five(s, Sleep(8), t0, Tick, t1, Tick, t2, Tick, t3, Tick, t);
  }

  lemma TurnMay(s: State, a: nat, b: nat)
    requires Turn(s, a, b)
    ensures Allowed(s, Sleep(8))
  {
  }

  /** Rounds bring the shared tick count to any multiple of four below 2^64. */
  lemma {:induction false} Rounds(s: State, a: nat, b: nat, k: nat) returns (ops: seq<Op>, a': nat, b': nat)
    requires Turn(s, a, b) && s.clock + 4 * k + 8 <= U64
    ensures Legal(s, ops) && Exec(s, ops).Some?
    ensures var t := Exec(s, ops).value; Turn(t, a', b') && t.clock == s.clock + 4 * k
    decreases k
  {
    hide Turn, Exec, Legal, Leads;
    if k == 0 {
      NothingFollows(s);
      return [], a, b;
    }
    var t := Round(s, a, b);
    var rest;
    rest, a', b' := Rounds(t, b, a, k - 1);
    Follows(s, ROUND, t, rest);
    ops := ROUND + rest;
  }

  lemma NothingFollows(s: State)
    ensures Legal(s, []) && Exec(s, []) == Some(s)
  {
  }

  lemma Follows(s: State, before: seq<Op>, t: State, ops: seq<Op>)
    requires Leads(s, before, t)
    ensures Exec(s, before + ops) == Exec(t, ops) && (Legal(t, ops) ==> Legal(s, before + ops))
  {
    hide Exec, Legal;
  }

  // ----- from boot -----

  /** Idle has used k ticks of its first quantum and the two processes wait for it. */
  ghost predicate Warming(s: State, k: nat) {
    && Pair(s, 2, 3) && s.current == IDLE && s.ready == [2, 3] && s.sleep == [] && s.clock == 0
    && Phase(s.procs[IDLE].aliveTicks) == k && k < 4
  }

  lemma WarmTick(s: State, k: nat)
    requires Warming(s, k) && k < 3
    ensures Known(s) && DoTick(s).Some? && Warming(DoTick(s).value, k + 1)
  {
    hide Bump, Phase;
    NoZombies(s);
    BumpPhase(s.procs[IDLE].aliveTicks);
  }

  lemma WarmEnd(s: State)
    requires Warming(s, 3)
    ensures Known(s) && DoTick(s).Some?
    ensures var t := DoTick(s).value;
      && Known(t) && Allowed(t, Sleep(4)) && DoSleep(t, 4).Some?
      && Turn(DoSleep(t, 4).value, 3, 2) && DoSleep(t, 4).value.clock == 0
  {
    hide Bump, Phase, Wrap64;
    NoZombies(s);
    BumpPhase(s.procs[IDLE].aliveTicks);
    Wrap64Small(4);
    var t := DoTick(s).value;
    assert t.ready == [3, IDLE] && t.current == 2;
    InsertedAt([], t.procs[2 := t.procs[2].(sleepTicks := 4)], 2, 0);
  }

  lemma BootWarms() returns (s0: State, s1: State)
    ensures Known(Boot([])) && Allowed(Boot([]), Spawn(2)) && Do(Boot([]), Spawn(2)) == Some(s0)
    ensures Known(s0) && Allowed(s0, Spawn(3)) && Do(s0, Spawn(3)) == Some(s1) && Warming(s1, 0)
  {
    s0 := AddProcess(Boot([]), 2, FRESH);
    s1 := AddProcess(s0, 3, FRESH);
  }

  /** Spawning the two processes and letting idle use up its quantum brings the first turn. */
  lemma Opening() returns (before: seq<Op>, t: State)
    ensures Turn(t, 3, 2) && t.clock == 0 && Leads(Boot([]), before, t)
  {
    hide Warming, Turn, Do, DoTick, DoSleep, Leads, Known, Allowed, Exec, Legal;
    var s0, s1 := BootWarms();
    WarmTick(s1, 0);
    var s2 := DoTick(s1).value;
    WarmTick(s2, 1);
    var s3 := DoTick(s2).value;
    WarmTick(s3, 2);
    var s4 := DoTick(s3).value;
    WarmEnd(s4);
    var s5 := DoTick(s4).value;
    t := DoSleep(s5, 4).value;
    DoTickIs(s1);
    DoTickIs(s2);
    DoTickIs(s3);
    DoTickIs(s4);
    DoSleepIs(s5, 4);
    Five(Boot([]), Spawn(2), s0, Spawn(3), s1, Tick, s2, Tick, s3, Tick, s4);
    before := [Spawn(2), Spawn(3), Tick, Tick, Tick, Tick, Sleep(4)];
    Finish(Boot([]), s4, s5, t);
  }

  lemma DoTickIs(s: State)
    requires Known(s)
    ensures Do(s, Tick) == DoTick(s) && Allowed(s, Tick)
  {
  }

  lemma DoSleepIs(s: State, n: nat)
    requires Known(s)
    ensures Do(s, Sleep(n)) == DoSleep(s, n)
  {
  }

  lemma Finish(s: State, s4: State, s5: State, t: State)
    requires Leads(s, [Spawn(2), Spawn(3), Tick, Tick, Tick], s4)
    requires Known(s4) && Allowed(s4, Tick) && Do(s4, Tick) == Some(s5)
    requires Known(s5) && Allowed(s5, Sleep(4)) && Do(s5, Sleep(4)) == Some(t)
    ensures Leads(s, [Spawn(2), Spawn(3), Tick, Tick, Tick, Tick, Sleep(4)], t)
  {
    hide Exec, Legal, Allowed, Known, Do;
    var front, all := [Spawn(2), Spawn(3), Tick, Tick, Tick], [Spawn(2), Spawn(3), Tick, Tick, Tick, Tick, Sleep(4)];
    forall ops ensures Exec(s, all + ops) == Exec(t, ops) && (Legal(t, ops) ==> Legal(s, all + ops)) {
      var r1 := [Sleep(4)] + ops;
      var r2 := [Tick] + r1;
      Then(s5, Sleep(4), t, ops);
      Then(s4, Tick, s5, r1);
      assert all + ops == front + r2;
    }
  }

  /** A run from boot after which a sleep of 8 ticks reaches exactly 2^64: it is legal, and
      the sleep does not last its 8 ticks but one, whatever follows. */
  lemma WrapReached() returns (past: seq<Op>)
    ensures Legal(Boot([]), past) && Exec(Boot([]), past).Some?
    ensures var s := Exec(Boot([]), past).value;
      && Allowed(s, Sleep(8)) && s.clock + 8 == U64 && !SleepsFully(s, 8)
      && (forall ops :: MaySleep(s, 8, ops) ==> SleepsFor(s, 8, 1, ops))
  {
    hide Turn, Exec, Legal, Leads, SleepsFor, SleepsFully, MaySleep, Allowed;
    var before, t := Opening();
    var ops, a, b := Rounds(t, 3, 2, (U64 - 8) / 4);
    Follows(Boot([]), before, t, ops);
    past := before + ops;
    var s := Exec(Boot([]), past).value;
    TurnMay(s, a, b);
    SleepFullyIff([], past, 8);
    forall after | MaySleep(s, 8, after) ensures SleepsFor(s, 8, 1, after) {
      SleepFromBoot([], past, 8, after);
    }
  }
}
