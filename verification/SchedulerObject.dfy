/** The scheduler's static variables and the functions that update them in place
    (kernel/src/process/scheduler.c, with the blocking half of kernel/src/semaphore.c).
    Each method is proved to take the state exactly where `Scheduling.Do` says. */
module SchedulerObject {
  import opened Common
  import M = Scheduling
  import S = Semaphores

  class Scheduler {
    var current: nat
    var ready: seq<nat>
    var sleep: seq<nat>
    var dead: seq<nat>
    var clock: nat
    var all: seq<nat>
    var procs: map<nat, M.Proc>
    const sems: seq<S.Semaphore>

    ghost predicate Valid() {
      NoDup(sems)
    }

    ghost function View(): M.State
      reads this, sems
    {
      M.State(current, ready, sleep, dead, clock, all, procs, SemViews(sems))
    }

    constructor (sems: seq<S.Semaphore>)
      requires NoDup(sems)
      ensures Valid() && this.sems == sems && View() == M.Boot(SemViews(sems))
    {
      this.sems := sems;
      current, ready, sleep, dead := M.IDLE, [], [], [];
      clock, all, procs := 0, [M.IDLE], map[M.IDLE := M.FRESH];
    }

    /** `ok` is false where the source would run a null process. */
    method ToNext(addBack: bool) returns (ok: bool)
      modifies this
      ensures ok <==> M.ToNext(old(View()), addBack).Some?
      ensures ok ==> View() == M.ToNext(old(View()), addBack).value
    {
      if addBack {
        ready := ready + [current];
      }
      if ready == [] {
        return false;
      }
      current, ready := ready[0], ready[1..];
      return true;
    }

    method AddProcess(p: nat, proc: M.Proc)
      modifies this
      ensures View() == M.AddProcess(old(View()), p, proc)
    {
      all := all + [p];
      procs := procs[p := proc];
      ready := ready + [p];
    }

    method Attach(p: nat) returns (ok: bool)
      modifies this
      ensures ok <==> M.DoAttach(old(View()), p).Some?
      ensures ok ==> View() == M.DoAttach(old(View()), p).value
    {
      AddProcess(p, M.FRESH.(attachedFrom := Some(current)));
      ok := ToNext(false);
    }

    method Kill(code: int) returns (ok: bool)
      requires M.Known(View())
      modifies this
      ensures ok <==> M.DoKill(old(View()), code).Some?
      ensures ok ==> View() == M.DoKill(old(View()), code).value
    {
      if current == M.IDLE {
        return true;
      }
      var from := procs[current].attachedFrom;
      if from.Some? {
        var parent := if from.value in procs then procs[from.value] else M.FRESH;
        procs := procs[from.value := parent.(receivedExitCode := code)];
        ready := ready + [from.value];
      }
      dead := dead + [current];
      ok := ToNext(false);
    }

    /** process_queue_sorted_push walks past the strictly earlier sleepers. */
    method SetSleep(ticks: nat) returns (ok: bool)
      requires M.Known(View())
      modifies this
      ensures ok <==> M.DoSleep(old(View()), ticks).Some?
      ensures ok ==> View() == M.DoSleep(old(View()), ticks).value
    {
      hide M.Wrap64, M.Inserted, M.ToNext;
      procs := procs[current := procs[current].(sleepTicks := M.Wrap64(ticks + clock))];
      var i := 0;
      while i < |sleep| && procs[sleep[i]].sleepTicks < procs[current].sleepTicks
        invariant i <= |sleep|
        invariant forall j :: 0 <= j < i ==> procs[sleep[j]].sleepTicks < procs[current].sleepTicks
      {
        i := i + 1;
      }
      M.InsertedAt(sleep, procs, current, i);
      sleep := sleep[..i] + [current] + sleep[i..];
      ok := ToNext(false);
    }

    /** The timer handler. */
    method Switch() returns (ok: bool)
      requires M.Known(View())
      modifies this
      ensures ok <==> M.DoTick(old(View())).Some?
      ensures ok ==> View() == M.DoTick(old(View())).value
    {
      hide M.Bump, M.Phase, M.Without, M.Due, M.Reap, M.Wake, M.ToNext, M.Known;
      M.TickReady(View());
      DeleteZombies();
      WakeSleepers();
      var p := procs[current];
      procs := procs[current := p.(aliveTicks := M.Bump(p.aliveTicks))];
      if M.Phase(procs[current].aliveTicks) == 0 {
        ok := ToNext(true);
      } else {
        ok := true;
      }
    }

    method DeleteZombies()
      modifies this
      ensures View() == M.Reap(old(View()))
    {
      hide M.Without, SemViews;
      ghost var s0 := View();
      ghost var gone: seq<nat> := [];
      M.ReapedNone(s0);
      while |dead| > 0
        invariant s0.dead == gone + dead
        invariant all == M.Reaped(s0, gone, dead).all && procs == M.Reaped(s0, gone, dead).procs
        invariant current == s0.current && ready == s0.ready && sleep == s0.sleep && clock == s0.clock
        decreases |dead|
      {
        var p := dead[0];
        assert dead == [p] + dead[1..];
        M.ReapedNext(s0, gone, p, dead[1..]);
        dead := dead[1..];
        all := M.Without(all, [p]);
        procs := procs - {p};
        gone := gone + [p];
      }
      assert gone == s0.dead && dead == [];
    }

    method WakeSleepers()
      requires M.HaveRecords(sleep, procs)
      modifies this
      ensures View() == M.Wake(old(View()))
    {
      if |sleep| == 0 {
        assert M.Wake(View()) == View();
        return;
      }
      hide M.Due, M.Wake, M.Bump;
      ghost var s0 := View();
      clock := M.Bump(clock);
      ghost var k := 0;
      while |sleep| > 0 && procs[sleep[0]].sleepTicks <= clock
        invariant k <= |s0.sleep| && sleep == s0.sleep[k..]
        invariant ready == s0.ready + s0.sleep[..k]
        invariant View() == s0.(ready := ready, sleep := sleep, clock := M.Bump(s0.clock))
        invariant forall j :: 0 <= j < k ==> s0.procs[s0.sleep[j]].sleepTicks <= clock
        decreases |sleep|
      {
        assert sleep[0] == s0.sleep[k] && s0.sleep[..k + 1] == s0.sleep[..k] + [s0.sleep[k]];
        ready := ready + [sleep[0]];
        sleep := sleep[1..];
        k := k + 1;
      }
      assert k < |s0.sleep| ==> sleep[0] == s0.sleep[k];
      M.WakeIs(s0, clock, k);
      if |sleep| == 0 {
        clock := 0;
      }
    }

    /** Only semaphore i changed. */
    lemma SameViews(before: seq<S.Sem>, i: nat, v: S.Sem)
      requires i < |sems| == |before| && sems[i].View() == v
      requires forall j :: 0 <= j < |sems| && j != i ==> sems[j].View() == before[j]
      ensures SemViews(sems) == before[i := v]
    {
    }

    method Acquire(i: nat, n: nat) returns (ok: bool)
      requires Valid() && i < |sems|
      modifies this, sems[i]
      ensures ok <==> M.DoAcquire(old(View()), i, n).Some?
      ensures ok ==> View() == M.DoAcquire(old(View()), i, n).value
    {
      hide SemViews;
      ghost var s0 := View();
      var granted := sems[i].Acquire(current, n);
      SameViews(s0.sems, i, S.Acquired(s0.sems[i], current, n));
      if granted {
        ok := true;
      } else {
        ok := ToNext(false);
      }
    }

    method Release(i: nat, n: nat)
      requires Valid() && i < |sems|
      modifies this, sems[i]
      ensures View() == M.DoRelease(old(View()), i, n)
    {
      hide SemViews, S.Served, S.Left, S.Added, M.Pids;
      ghost var s0 := View();
      var woken := sems[i].Release(n);
      SameViews(s0.sems, i, S.Released(s0.sems[i], n));
      ready := ready + M.Pids(woken);
    }
  }

  ghost function SemViews(sems: seq<S.Semaphore>): (v: seq<S.Sem>)
    reads sems
    ensures |v| == |sems| && forall i :: 0 <= i < |v| ==> v[i] == sems[i].View()
  {
    if sems == [] then [] else [sems[0].View()] + SemViews(sems[1..])
  }
}
