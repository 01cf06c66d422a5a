/** Where every process is: over every run, each live process is at exactly one place,
    the global list holds exactly the live processes, and idle is current or ready. */
module Partition {
  import opened Common
  import opened Scheduling
  import S = Semaphores

  datatype Place = Current | Ready | Sleeping | Dying | Waiting(sem: nat) | Suspended(child: nat)

  type Places = map<nat, Place>

  /** The queue of a place; `head` is [current], or [] between two processes. */
  function QueueOf(s: State, head: seq<nat>, pl: Place): seq<nat> {
    match pl
    case Current => head
    case Ready => s.ready
    case Sleeping => s.sleep
    case Dying => s.dead
    case Waiting(i) => if i < |s.sems| then Pids(s.sems[i].waiting) else []
    case Suspended(_) => []
  }

  /** `q` lists exactly the processes at `pl`, each once. */
  ghost predicate Lists(q: seq<nat>, w: Places, pl: Place) {
    && NoDup(q)
    && (forall p :: p in q <==> p in w && w[p] == pl)
  }

  ghost predicate Queues(s: State, head: seq<nat>, w: Places) {
    forall pl: Place :: !pl.Suspended? ==> Lists(QueueOf(s, head, pl), w, pl)
  }

  /** A suspended process is the parent of exactly one attached child not yet killed. */
  ghost predicate Family(procs: map<nat, Proc>, w: Places) {
    && (forall p :: p in w && w[p].Suspended? ==> IsChild(procs, w, w[p].child, p))
    && (forall c, p :: IsChild(procs, w, c, p) ==> p in w && w[p] == Suspended(c))
  }

  ghost predicate IsChild(procs: map<nat, Proc>, w: Places, c: nat, p: nat) {
    c in w && w[c] != Dying && c in procs && procs[c].attachedFrom == Some(p)
  }

  ghost predicate Roster(s: State, w: Places) {
    && NoDup(s.all)
    && (forall p :: p in s.all <==> p in w)
    && s.procs.Keys == w.Keys
  }

  /** The scheduler invariant; `w` is a function, so each process is at one place. */
  ghost predicate Placed(s: State, w: Places) {
    && Roster(s, w)
    && Queues(s, [s.current], w)
    && Family(s.procs, w)
    && IDLE in w && (w[IDLE] == Current || w[IDLE] == Ready)
  }

  /** The same between two processes, when the one that ran has been put away. */
  ghost predicate Headless(s: State, w: Places) {
    && Roster(s, w)
    && Queues(s, [], w)
    && Family(s.procs, w)
    && IDLE in w && w[IDLE] == Ready
  }

  function Moved(w: Places, movers: set<nat>, to: Place): (r: Places)
    ensures r.Keys == w.Keys
  {
    map p | p in w :: if p in movers then to else w[p]
  }

  // ----- one move of processes between queues -----

  /** The queues of s' are those of s with the first k entries of `from` moved to the
      end of `to`. */
  ghost predicate Moves(s: State, h: seq<nat>, s': State, h': seq<nat>, from: Place, k: nat, to: Place) {
    && !from.Suspended? && !to.Suspended? && from != to
    && k <= |QueueOf(s, h, from)|
    && QueueOf(s', h', from) == QueueOf(s, h, from)[k..]
    && QueueOf(s', h', to) == QueueOf(s, h, to) + QueueOf(s, h, from)[..k]
    && (forall pl :: pl != from && pl != to ==> QueueOf(s', h', pl) == QueueOf(s, h, pl))
  }

  lemma MoveQueues(s: State, h: seq<nat>, s': State, h': seq<nat>, w: Places, from: Place, k: nat, to: Place)
    requires Queues(s, h, w) && Moves(s, h, s', h', from, k, to)
    ensures Queues(s', h', Moved(w, Elems(QueueOf(s, h, from)[..k]), to))
    ensures forall p :: p in QueueOf(s, h, from)[..k] ==> p in w && w[p] == from
  {
    var q := QueueOf(s, h, from);
    var w' := Moved(w, Elems(q[..k]), to);
    assert Lists(q, w, from);
    assert forall p :: p in q[..k] ==> p in q;
    forall pl: Place | !pl.Suspended? ensures Lists(QueueOf(s', h', pl), w', pl) {
      assert Lists(QueueOf(s, h, pl), w, pl);
      if pl == from {
        MovedFrom(q, k, w, from, to);
      } else if pl == to {
        MovedTo(q, k, QueueOf(s, h, to), w, from, to);
      }
    }
  }

  lemma MovedFrom(q: seq<nat>, k: nat, w: Places, from: Place, to: Place)
    requires k <= |q| && from != to && Lists(q, w, from)
    ensures Lists(q[k..], Moved(w, Elems(q[..k]), to), from)
  {
  }

  lemma MovedTo(q: seq<nat>, k: nat, r: seq<nat>, w: Places, from: Place, to: Place)
    requires k <= |q| && from != to && Lists(q, w, from) && Lists(r, w, to)
    ensures Lists(r + q[..k], Moved(w, Elems(q[..k]), to), to)
  {
    assert forall p :: p in q[..k] ==> p in q;
    forall i, j | 0 <= i < j < |r + q[..k]| ensures (r + q[..k])[i] != (r + q[..k])[j] {
      if i < |r| <= j {
        assert r[i] in r && q[j - |r|] in q;
      }
    }
  }

  /** Moves between places other than Suspended and Dying keep the family links. */
  lemma FamilyFrame(procs: map<nat, Proc>, w: Places, movers: set<nat>, to: Place)
    requires Family(procs, w)
    requires !to.Suspended? && to != Dying
    requires forall p :: p in movers && p in w ==> !w[p].Suspended? && w[p] != Dying
    ensures Family(procs, Moved(w, movers, to))
  {
    var w' := Moved(w, movers, to);
    assert forall c, p :: IsChild(procs, w', c, p) <==> IsChild(procs, w, c, p);
  }

  lemma CurrentPlace(s: State, w: Places)
    requires Queues(s, [s.current], w)
    ensures s.current in w && w[s.current] == Current
    ensures forall p :: p in w && w[p] == Current ==> p == s.current
  {
    assert Lists(QueueOf(s, [s.current], Current), w, Current);
    assert s.current in [s.current];
    assert forall p :: p in w && w[p] == Current ==> p in [s.current];
  }

  // ----- every operation keeps the invariant -----

  lemma IdleIsReady(s: State, w: Places)
    requires Queues(s, [], w) && IDLE in w && w[IDLE] == Ready
    ensures IDLE in s.ready
  {
    assert Lists(QueueOf(s, [], Ready), w, Ready);
  }

  /** Picking the next process never fails, because idle is ready. */
  lemma NextKeeps(s: State, w: Places)
    requires Headless(s, w)
    ensures ToNext(s, false).Some?
    ensures Placed(ToNext(s, false).value, Moved(w, Elems(s.ready[..1]), Current))
  {
    hide Lists, Queues, Family;
    IdleIsReady(s, w);
    var t := ToNext(s, false).value;
    assert s.ready[..1] == [t.current] && [] + [t.current] == [t.current];
    MoveQueues(s, [], t, [t.current], w, Ready, 1, Current);
    FamilyFrame(s.procs, w, Elems(s.ready[..1]), Current);
  }

  /** The current process was put somewhere into the queue of `to`; nothing else moved. */
  ghost predicate Parks(s: State, t: State, to: Place) {
    && !to.Suspended? && to != Current && to != Dying
    && multiset(QueueOf(t, [], to)) == multiset(QueueOf(s, [], to) + [s.current])
    && (forall pl :: pl != to ==> QueueOf(t, [], pl) == QueueOf(s, [], pl))
    && t.all == s.all && t.procs.Keys == s.procs.Keys
    && (forall p :: p in s.procs ==> t.procs[p].attachedFrom == s.procs[p].attachedFrom)
  }

  lemma ParkQueues(s: State, t: State, w: Places, to: Place)
    requires Queues(s, [s.current], w) && Parks(s, t, to)
    ensures Queues(t, [], Moved(w, {s.current}, to))
  {
    CurrentPlace(s, w);
    hide Lists;
    var w1 := Moved(w, {s.current}, to);
    var one := [s.current];
    assert one[..1] == one && one[1..] == [] && Elems(one) == {s.current};
    assert Lists(QueueOf(s, one, Current), w, Current);
    MovedFrom(one, 1, w, Current, to);
    assert Lists(QueueOf(s, one, to), w, to);
    MovedTo(one, 1, QueueOf(s, one, to), w, Current, to);
    Reorders(QueueOf(s, one, to) + one, QueueOf(t, [], to), w1, to);
    forall pl: Place | !pl.Suspended? && pl != to && pl != Current ensures Lists(QueueOf(t, [], pl), w1, pl) {
      assert Lists(QueueOf(s, one, pl), w, pl);
      ListsFrame(QueueOf(s, one, pl), w, pl, s.current, to);
    }
  }

  lemma ListsFrame(q: seq<nat>, w: Places, pl: Place, p: nat, to: Place)
    requires Lists(q, w, pl) && pl != to && p in w && w[p] != pl
    ensures Lists(q, Moved(w, {p}, to), pl)
  {
  }

  /** The current process waits in some queue and the next one runs. */
  lemma ParkThenNext(s: State, t: State, w: Places, to: Place) returns (w': Places)
    requires Placed(s, w) && Parks(s, t, to)
    requires s.current == IDLE ==> to == Ready
    ensures ToNext(t, false).Some? && Placed(ToNext(t, false).value, w')
  {
    hide Lists, Queues, Family;
    CurrentPlace(s, w);
    var w1 := Moved(w, {s.current}, to);
    ParkQueues(s, t, w, to);
    FamilyFrame(s.procs, w, {s.current}, to);
    FamilySame(s.procs, t.procs, w1);
    NextKeeps(t, w1);
    w' := Moved(w1, Elems(t.ready[..1]), Current);
  }

  lemma FamilySame(a: map<nat, Proc>, b: map<nat, Proc>, w: Places)
    requires Family(a, w) && a.Keys == b.Keys
    requires forall p :: p in a ==> b[p].attachedFrom == a[p].attachedFrom
    ensures Family(b, w)
  {
    assert forall c, p :: IsChild(a, w, c, p) <==> IsChild(b, w, c, p);
  }

  lemma YieldKeeps(s: State, w: Places) returns (w': Places)
    requires Placed(s, w)
    ensures ToNext(s, true).Some? && Placed(ToNext(s, true).value, w')
  {
    hide Lists, Queues, Family;
    w' := ParkThenNext(s, PushReady(s, s.current), w, Ready);
  }

  /** Only the queue of semaphore `sem` may differ. */
  lemma SemQueues(s: State, sem: nat, v: S.Sem, head: seq<nat>)
    requires sem < |s.sems|
    ensures var t := s.(sems := s.sems[sem := v]);
            QueueOf(t, head, Waiting(sem)) == Pids(v.waiting) &&
            forall pl :: pl != Waiting(sem) ==> QueueOf(t, head, pl) == QueueOf(s, head, pl)
  {
  }

  lemma AcquireKeeps(s: State, w: Places, sem: nat, n: nat) returns (w': Places)
    requires Placed(s, w) && sem < |s.sems|
    requires s.current == IDLE ==> s.sems[sem].count >= n
    ensures DoAcquire(s, sem, n).Some? && Placed(DoAcquire(s, sem, n).value, w')
  {
    hide Lists, Family, Pids;
    var v := S.Acquired(s.sems[sem], s.current, n);
    var t := s.(sems := s.sems[sem := v]);
    SemQueues(s, sem, v, [s.current]);
    SemQueues(s, sem, v, []);
    if s.sems[sem].count >= n {
      assert forall pl :: QueueOf(t, [t.current], pl) == QueueOf(s, [s.current], pl);
      w' := w;
    } else {
      hide Queues, QueueOf;
      PidsSnoc(s.sems[sem].waiting, S.Waiter(s.current, n));
      assert QueueOf(s, [], Waiting(sem)) == Pids(s.sems[sem].waiting) by {
        SemQueues(s, sem, s.sems[sem], []);
        assert s.(sems := s.sems[sem := s.sems[sem]]) == s;
      }
      assert Parks(s, t, Waiting(sem));
      w' := ParkThenNext(s, t, w, Waiting(sem));
    }
  }

  lemma ReleaseKeeps(s: State, w: Places, sem: nat, n: nat) returns (w': Places)
    requires Placed(s, w) && sem < |s.sems|
    ensures Placed(DoRelease(s, sem, n), w')
  {
    hide Lists, Queues, Family, S.Served, S.Left, S.Added;
    var t, q, k := DoRelease(s, sem, n), Pids(s.sems[sem].waiting), |S.Woken(s.sems[sem], n)|;
    assert q[..k] == Pids(S.Woken(s.sems[sem], n));
    assert q[k..] == Pids(t.sems[sem].waiting);
    MoveQueues(s, [s.current], t, [t.current], w, Waiting(sem), k, Ready);
    FamilyFrame(s.procs, w, Elems(q[..k]), Ready);
    w' := Moved(w, Elems(q[..k]), Ready);
  }

  lemma SleepKeeps(s: State, w: Places, n: nat) returns (w': Places)
    requires Placed(s, w) && Known(s) && s.current != IDLE
    ensures DoSleep(s, n).Some? && Placed(DoSleep(s, n).value, w')
  {
    hide Lists, Queues, Family, Inserted, Wrap64, Roster;
    var proc := s.procs[s.current].(sleepTicks := Wrap64(n + s.clock));
    SleepParks(s, proc);
    var procs := s.procs[s.current := proc];
    hide Parks;
    w' := ParkThenNext(s, s.(procs := procs, sleep := Inserted(s.sleep, procs, s.current)), w, Sleeping);
  }

  lemma SleepParks(s: State, proc: Proc)
    requires Known(s) && proc.attachedFrom == s.procs[s.current].attachedFrom
    ensures var procs := s.procs[s.current := proc];
            Parks(s, s.(procs := procs, sleep := Inserted(s.sleep, procs, s.current)), Sleeping)
  {
    hide Inserted;
    var procs := s.procs[s.current := proc];
    InsertedPermutes(s.sleep, procs, s.current);
    var t := s.(procs := procs, sleep := Inserted(s.sleep, procs, s.current));
    assert forall pl :: pl != Sleeping ==> QueueOf(t, [], pl) == QueueOf(s, [], pl);
  }

  lemma {:induction false} InsertedPermutes(q: seq<nat>, procs: map<nat, Proc>, p: nat)
    requires p in procs && HaveRecords(q, procs)
    ensures multiset(Inserted(q, procs, p)) == multiset(q + [p])
  {
    if q == [] || !(procs[q[0]].sleepTicks < procs[p].sleepTicks) {
    } else {
      InsertedPermutes(q[1..], procs, p);
      assert q == [q[0]] + q[1..];
    }
  }

  lemma Reorders(a: seq<nat>, b: seq<nat>, w: Places, pl: Place)
    requires Lists(a, w, pl) && multiset(a) == multiset(b)
    ensures Lists(b, w, pl)
  {
    forall p ensures p in b <==> p in a {
      assert p in multiset(a) <==> p in multiset(b);
    }
    forall p ensures multiset(b)[p] <= 1 {
      Multiplicity(a, p);
    }
    forall i, j | 0 <= i < j < |b| ensures b[i] != b[j] {
      Twice(b, i, j);
    }
  }

  lemma {:induction false} Multiplicity(a: seq<nat>, p: nat)
    requires NoDup(a)
    ensures multiset(a)[p] <= 1
  {
    if a != [] {
      Multiplicity(a[1..], p);
      assert a == [a[0]] + a[1..];
      if a[0] == p {
        assert p !in a[1..];
      }
    }
  }

  lemma Twice(b: seq<nat>, i: nat, j: nat)
    requires i < j < |b| && multiset(b)[b[i]] <= 1
    ensures b[i] != b[j]
  {
    assert b == b[..j] + b[j..];
    assert b[i] in multiset(b[..j]) && b[j] in multiset(b[j..]);
  }

  lemma SpawnKeeps(s: State, w: Places, p: nat)
    requires Placed(s, w) && p !in s.all
    ensures Placed(AddProcess(s, p, FRESH), w[p := Ready])
  {
    hide Lists, Queues, Family;
    var t := AddProcess(s, p, FRESH);
    AddQueues(s, t, w, p, [s.current]);
    assert t.procs.Keys == s.procs.Keys + {p};
    SpawnFamily(s.procs, w, p);
    assert Roster(t, w[p := Ready]);
  }

  lemma SpawnFamily(procs: map<nat, Proc>, w: Places, p: nat)
    requires Family(procs, w) && procs.Keys == w.Keys && p !in w
    ensures Family(procs[p := FRESH], w[p := Ready])
  {
    var procs', w' := procs[p := FRESH], w[p := Ready];
    forall q | q in w' && w'[q].Suspended? ensures IsChild(procs', w', w'[q].child, q) {
      assert IsChild(procs, w, w[q].child, q);
    }
    forall c, q | IsChild(procs', w', c, q) ensures q in w' && w'[q] == Suspended(c) {
      assert IsChild(procs, w, c, q);
    }
  }

  /** A new process joins the ready queue and disturbs no other queue. */
  lemma AddQueues(s: State, t: State, w: Places, p: nat, head: seq<nat>)
    requires Queues(s, head, w) && p !in w
    requires t.ready == s.ready + [p]
    requires forall pl :: pl != Ready ==> QueueOf(t, head, pl) == QueueOf(s, head, pl)
    ensures Queues(t, head, w[p := Ready])
  {
  }

  lemma AttachKeeps(s: State, w: Places, p: nat) returns (w': Places)
    requires Placed(s, w) && p !in s.all && s.current != IDLE
    ensures DoAttach(s, p).Some? && Placed(DoAttach(s, p).value, w')
  {
    hide Lists, Queues, Family;
    var cur := s.current;
    var t := AddProcess(s, p, FRESH.(attachedFrom := Some(cur)));
    CurrentPlace(s, w);
    AddQueues(s, t, w, p, [cur]);
    var w1 := w[p := Ready][cur := Suspended(p)];
    SuspendQueues(t, w[p := Ready], cur, p);
    AttachFamily(s.procs, w, cur, p);
    assert t.procs.Keys == s.procs.Keys + {p};
    NextKeeps(t, w1);
    w' := Moved(w1, Elems(t.ready[..1]), Current);
  }

  /** The current process steps aside for its child; no queue holds it. */
  lemma SuspendQueues(s: State, w: Places, cur: nat, child: nat)
    requires Queues(s, [cur], w)
    ensures Queues(s, [], w[cur := Suspended(child)])
  {
    assert Lists(QueueOf(s, [cur], Current), w, Current);
    assert cur in [cur];
    forall pl: Place | !pl.Suspended? ensures Lists(QueueOf(s, [], pl), w[cur := Suspended(child)], pl) {
      assert Lists(QueueOf(s, [cur], pl), w, pl);
      if pl == Current {
        assert forall x :: x in w && w[x] == Current ==> x in [cur];
      }
    }
  }

  lemma AttachFamily(procs: map<nat, Proc>, w: Places, cur: nat, p: nat)
    requires Family(procs, w) && procs.Keys == w.Keys
    requires p !in w && cur in w && w[cur] == Current
    ensures Family(procs[p := FRESH.(attachedFrom := Some(cur))], w[p := Ready][cur := Suspended(p)])
  {
    var procs', w' := procs[p := FRESH.(attachedFrom := Some(cur))], w[p := Ready][cur := Suspended(p)];
    assert forall c, q :: c != p ==> (IsChild(procs', w', c, q) <==> IsChild(procs, w, c, q));
  }

  lemma KillKeeps(s: State, w: Places, code: int) returns (w': Places)
    requires Placed(s, w)
    ensures DoKill(s, code).Some? && Placed(DoKill(s, code).value, w')
  {
    hide Lists, Queues, Family;
    if s.current == IDLE {
      return w;
    }
    CurrentPlace(s, w);
    ParentIsSuspended(s, w);
    var t := WakeParent(s, code);
    var u, w2 := t.(dead := t.dead + [s.current]), Moved(ParentReady(s, w), {s.current}, Dying);
    KillQueues(s, w, code);
    KillFamily(s, w, code);
    NextKeeps(u, w2);
    w' := Moved(w2, Elems(u.ready[..1]), Current);
  }

  lemma ParentIsSuspended(s: State, w: Places)
    requires Placed(s, w) && s.current in w && w[s.current] == Current
    ensures Of(s, s.current).attachedFrom.Some? ==>
      var p := Of(s, s.current).attachedFrom.value; p in w && w[p].Suspended?
  {
    if s.procs[s.current].attachedFrom.Some? {
      assert IsChild(s.procs, w, s.current, s.procs[s.current].attachedFrom.value);
    }
  }

  lemma KillQueues(s: State, w: Places, code: int)
    requires Queues(s, [s.current], w)
    requires Of(s, s.current).attachedFrom.Some? ==>
      var p := Of(s, s.current).attachedFrom.value; p in w && w[p].Suspended?
    ensures var t := WakeParent(s, code);
      Queues(t.(dead := t.dead + [s.current]), [], Moved(ParentReady(s, w), {s.current}, Dying))
  {
    hide Lists, Queues;
    var cur, t, w1 := s.current, WakeParent(s, code), ParentReady(s, w);
    if Of(s, cur).attachedFrom.Some? {
      ResumeQueues(s, t, w, Of(s, cur).attachedFrom.value);
    }
    var one := [cur];
    assert one[..1] == one && one[1..] == [] && Elems(one) == {cur};
    MoveQueues(t, one, t.(dead := t.dead + one), [], w1, Current, 1, Dying);
  }

  function ParentReady(s: State, w: Places): Places {
    match Of(s, s.current).attachedFrom
    case None => w
    case Some(parent) => w[parent := Ready]
  }

  lemma ResumeQueues(s: State, t: State, w: Places, p: nat)
    requires Queues(s, [s.current], w) && p in w && w[p].Suspended?
    requires t.current == s.current && t.ready == s.ready + [p]
    requires forall pl :: pl != Ready ==> QueueOf(t, [s.current], pl) == QueueOf(s, [s.current], pl)
    ensures Queues(t, [t.current], w[p := Ready])
  {
  }

  /** The parent of a killed child resumes and the link is severed. */
  lemma KillFamily(s: State, w: Places, code: int)
    requires Family(s.procs, w) && s.procs.Keys == w.Keys
    requires s.current in w && w[s.current] == Current
    ensures Family(WakeParent(s, code).procs, Moved(ParentReady(s, w), {s.current}, Dying))
  {
    var procs', w' := WakeParent(s, code).procs, Moved(ParentReady(s, w), {s.current}, Dying);
    if s.procs[s.current].attachedFrom.Some? {
      assert IsChild(s.procs, w, s.current, s.procs[s.current].attachedFrom.value);
    }
    assert procs'.Keys == s.procs.Keys;
    assert forall c, q :: c != s.current ==> IsChild(s.procs, w, c, q) == IsChild(procs', w', c, q);
    forall p | p in w' && w'[p].Suspended? ensures IsChild(procs', w', w'[p].child, p) {
      assert IsChild(s.procs, w, w[p].child, p);
    }
    forall c, p | IsChild(procs', w', c, p) ensures p in w' && w'[p] == Suspended(c) {
      assert IsChild(s.procs, w, c, p);
    }
  }

  // ----- the timer -----

  /** Deleting the zombies removes them from the global list and from nowhere else. */
  lemma ReapKeeps(s: State, w: Places)
    requires Placed(s, w)
    ensures Placed(Reap(s), Alive(w))
  {
    hide Queues, Family, Without, Lists;
    var t := Reap(s);
    DyingIsDead(s, w);
    WithoutNoDup(s.all, s.dead);
    assert t.procs.Keys == Alive(w).Keys;
    ReapQueues(s, w);
    ReapFamily(s.procs, w, s.dead);
  }

  lemma DyingIsDead(s: State, w: Places)
    requires Queues(s, [s.current], w)
    ensures forall p :: p in s.dead <==> p in w && w[p] == Dying
  {
    assert Lists(QueueOf(s, [s.current], Dying), w, Dying);
  }

  function Alive(w: Places): Places {
    map p | p in w && w[p] != Dying :: w[p]
  }

  lemma {:induction false} WithoutNoDup(q: seq<nat>, gone: seq<nat>)
    requires NoDup(q)
    ensures NoDup(Without(q, gone))
  {
    if q != [] {
      WithoutNoDup(q[1..], gone);
      assert q[0] !in q[1..];
    }
  }

  lemma ReapQueues(s: State, w: Places)
    requires Queues(s, [s.current], w)
    ensures Queues(Reap(s), [s.current], Alive(w))
  {
  }

  lemma ReapFamily(procs: map<nat, Proc>, w: Places, dead: seq<nat>)
    requires Family(procs, w) && procs.Keys == w.Keys
    requires forall p :: p in dead <==> p in w && w[p] == Dying
    ensures Family(procs - Elems(dead), Alive(w))
  {
    var procs', w' := procs - Elems(dead), Alive(w);
    forall q | q in w' && w'[q].Suspended? ensures IsChild(procs', w', w'[q].child, q) {
      assert IsChild(procs, w, w[q].child, q);
    }
    forall c, q | IsChild(procs', w', c, q) ensures q in w' && w'[q] == Suspended(c) {
      assert IsChild(procs, w, c, q);
    }
  }

  lemma WakeKeeps(s: State, w: Places) returns (w': Places)
    requires Placed(s, w) && HaveRecords(s.sleep, s.procs)
    ensures Placed(Wake(s), w')
  {
    hide Lists, Queues, Family, Due, Bump;
    if s.sleep == [] {
      return w;
    }
    var k := Due(s.sleep, s.procs, Bump(s.clock));
    MoveQueues(s, [s.current], Wake(s), [s.current], w, Sleeping, k, Ready);
    FamilyFrame(s.procs, w, Elems(s.sleep[..k]), Ready);
    w' := Moved(w, Elems(s.sleep[..k]), Ready);
  }

  lemma ChargeKeeps(s: State, w: Places)
    requires Placed(s, w) && s.current in s.procs
    ensures Placed(Charge(s), w)
  {
    hide Lists, Family, Bump;
    assert forall pl :: QueueOf(Charge(s), [s.current], pl) == QueueOf(s, [s.current], pl);
    FamilySame(s.procs, Charge(s).procs, w);
  }

  lemma PlacedIsKnown(s: State, w: Places)
    requires Placed(s, w)
    ensures Known(s)
  {
    CurrentPlace(s, w);
    DyingIsDead(s, w);
    assert Lists(QueueOf(s, [s.current], Sleeping), w, Sleeping);
  }

  lemma TickKeeps(s: State, w: Places) returns (w': Places)
    requires Placed(s, w) && Known(s)
    ensures DoTick(s).Some? && Placed(DoTick(s).value, w')
  {
    hide Placed, Reap, Wake, Charge;
    ReapKeeps(s, w);
    var a := Reap(s);
    PlacedIsKnown(a, Alive(w));
    var w1 := WakeKeeps(a, Alive(w));
    var b := Wake(a);
    PlacedIsKnown(b, w1);
    ChargeKeeps(b, w1);
    if DoTick(s) == Some(Charge(b)) {
      return w1;
    }
    w' := YieldKeeps(Charge(b), w1);
  }

  /** Every operation succeeds and keeps the invariant. */
  lemma StepKeeps(s: State, w: Places, op: Op) returns (w': Places)
    requires Placed(s, w) && Allowed(s, op)
    ensures Known(s) && Do(s, op).Some? && Placed(Do(s, op).value, w')
  {
    hide Placed, Known, DoTick, ToNext, AddProcess, DoAttach, DoKill, DoSleep, DoAcquire, DoRelease;
    PlacedIsKnown(s, w);
    match op
    case Tick => w' := TickKeeps(s, w);
    case Yield => w' := YieldKeeps(s, w);
    case Spawn(p) => SpawnKeeps(s, w, p); w' := w[p := Ready];
    case Attach(p) => w' := AttachKeeps(s, w, p);
    case Kill(code) => w' := KillKeeps(s, w, code);
    case Sleep(n) => w' := SleepKeeps(s, w, n);
    case Acquire(sem, n) => w' := AcquireKeeps(s, w, sem, n);
    case Release(sem, n) => w' := ReleaseKeeps(s, w, sem, n);
  }

  // ----- every run -----

  /** `p` is at place `pl`, read off the queues and the family links. */
  ghost predicate At(s: State, p: nat, pl: Place) {
    if pl.Suspended? then
      pl.child in s.all && pl.child !in s.dead && Of(s, pl.child).attachedFrom == Some(p)
    else p in QueueOf(s, [s.current], pl)
  }

  /** The global list holds each live process once, and each live process is at exactly
      one place, once. */
  ghost predicate Partitioned(s: State) {
    && NoDup(s.all)
    && (forall p :: p in s.all <==> exists pl :: At(s, p, pl))
    && (forall p, a, b :: At(s, p, a) && At(s, p, b) ==> a == b)
    && (forall pl :: NoDup(QueueOf(s, [s.current], pl)))
    && (At(s, IDLE, Current) || At(s, IDLE, Ready))
  }

  lemma PlacedAt(s: State, w: Places, p: nat, pl: Place)
    requires Placed(s, w)
    ensures At(s, p, pl) <==> p in w && w[p] == pl
  {
    DyingIsDead(s, w);
    if pl.Suspended? {
      assert IsChild(s.procs, w, pl.child, p) <==> At(s, p, pl);
    } else {
      assert Lists(QueueOf(s, [s.current], pl), w, pl);
    }
  }

  lemma PlacedPartitions(s: State, w: Places)
    requires Placed(s, w)
    ensures Partitioned(s)
  {
    forall p, pl ensures At(s, p, pl) <==> p in w && w[p] == pl {
      PlacedAt(s, w, p, pl);
    }
    forall p ensures p in s.all <==> exists pl :: At(s, p, pl) {
      if p in s.all {
        assert At(s, p, w[p]);
      }
    }
    forall pl ensures NoDup(QueueOf(s, [s.current], pl)) {
      assert !pl.Suspended? ==> Lists(QueueOf(s, [s.current], pl), w, pl);
    }
  }

  ghost predicate AllSettled(s: State) {
    forall i :: 0 <= i < |s.sems| ==> S.Settled(s.sems[i])
  }

  lemma StepSettles(s: State, op: Op)
    requires Known(s) && SemExists(s, op) && Do(s, op).Some? && AllSettled(s)
    ensures AllSettled(Do(s, op).value)
  {
    if op.Release? {
      S.ReleaseWakesLongestPrefix(s.sems[op.sem], op.n, 0);
    }
  }

  lemma {:induction false} RunKeeps(s: State, w: Places, ops: seq<Op>) returns (w': Places)
    requires Placed(s, w) && AllSettled(s) && Legal(s, ops)
    ensures Exec(s, ops).Some? && Placed(Exec(s, ops).value, w') && AllSettled(Exec(s, ops).value)
    decreases |ops|
  {
    if ops == [] {
      return w;
    }
    hide Placed, Do, AllSettled, Allowed;
    var w1 := StepKeeps(s, w, ops[0]);
    StepSettles(s, ops[0]);
    w' := RunKeeps(Do(s, ops[0]).value, w1, ops[1..]);
  }

  lemma BootPlaced(sems: seq<S.Sem>)
    requires forall i :: 0 <= i < |sems| ==> sems[i].waiting == []
    ensures Placed(Boot(sems), map[IDLE := Current])
  {
  }

  /** The scheduler theorem.  From boot, with idle never blocking, no run of ticks,
      yields, spawns, attaches, kills, sleeps, acquires and releases ever pops an empty
      ready queue; every process is always at exactly one place; and no semaphore
      forgets a waiter it could serve. */
  lemma EveryRunPartitions(sems: seq<S.Sem>, ops: seq<Op>)
    requires forall i :: 0 <= i < |sems| ==> sems[i].waiting == []
    requires Legal(Boot(sems), ops)
    ensures Exec(Boot(sems), ops).Some?
    ensures Partitioned(Exec(Boot(sems), ops).value)
    ensures AllSettled(Exec(Boot(sems), ops).value)
  {
    BootPlaced(sems);
    var w := RunKeeps(Boot(sems), map[IDLE := Current], ops);
    PlacedPartitions(Exec(Boot(sems), ops).value, w);
  }

  // ----- what a call hands over -----

  /** A killed process hands its exit code to the parent it was attached from, which becomes
      ready, and to nobody else; idle is not killed. */
  lemma KillHandsCode(s: State, code: int)
    requires s.current in s.procs && DoKill(s, code).Some?
    ensures var t, parent := DoKill(s, code).value, s.procs[s.current].attachedFrom;
      && (s.current == IDLE ==> t == s)
      && (s.current != IDLE && parent.Some? ==>
            && Of(t, parent.value).receivedExitCode == code
            && [t.current] + t.ready == s.ready + [parent.value])
      && (s.current != IDLE && parent.None? ==> [t.current] + t.ready == s.ready)
      && (s.current != IDLE ==> t.dead == s.dead + [s.current])
      && (forall p :: p in s.procs && (s.current == IDLE || parent != Some(p)) ==> Of(t, p) == s.procs[p])
  {
    if s.current != IDLE {
      var r := WakeParent(s, code).ready;
      assert r == [r[0]] + r[1..];
    }
  }

  /** Who is listed after a call: a tick drops the zombies and nobody else, and only a new
      process joins, at the end. */
  lemma ListChanges(s: State, op: Op)
    requires Known(s) && SemExists(s, op) && Do(s, op).Some?
    ensures var t := Do(s, op).value;
      && (op.Tick? ==> t.dead == [] && forall p :: p in t.all <==> p in s.all && p !in s.dead)
      && (op.Tick? ==> forall p :: p in t.procs <==> p in s.procs && p !in s.dead)
      && (op.Spawn? || op.Attach? ==> t.all == s.all + [op.pid])
      && (!op.Tick? && !op.Spawn? && !op.Attach? ==> t.all == s.all)
      && (!op.Tick? ==> s.dead <= t.dead)
  {
  }

  /** A killed process stays listed until the next tick, which removes it. */
  lemma {:induction false} ZombieGoes(s: State, ops: seq<Op>, p: nat)
    requires p in s.dead && p in s.all && Legal(s, ops)
    requires forall i :: 0 <= i < |ops| ==> !ops[i].Tick?
    requires Exec(s, ops + [Tick]).Some?
    ensures Exec(s, ops).Some? && p in Exec(s, ops).value.all
    ensures p !in Exec(s, ops + [Tick]).value.all && p !in Exec(s, ops + [Tick]).value.procs
    decreases |ops|
  {
    hide Do, Allowed, Known, SemExists;
    if ops == [] {
      ListChanges(s, Tick);
      assert ([] + [Tick])[1..] == [];
    } else {
      ListChanges(s, ops[0]);
      assert (ops + [Tick])[1..] == ops[1..] + [Tick];
      ZombieGoes(Do(s, ops[0]).value, ops[1..], p);
    }
  }

  /** An attached process knows its parent, and runs after everyone who is ready. */
  lemma AttachLinks(s: State, p: nat)
    ensures DoAttach(s, p).Some?
    ensures var t := DoAttach(s, p).value;
      && Of(t, p).attachedFrom == Some(s.current) && [t.current] + t.ready == s.ready + [p]
  {
    var r := s.ready + [p];
    assert r == [r[0]] + r[1..];
  }

  /** A release makes the longest prefix of the waiters that the new count covers ready, in
      the order in which they blocked. */
  lemma ReleaseReadies(s: State, sem: nat, n: nat, k: nat)
    requires sem < |s.sems| && k <= |s.sems[sem].waiting| && s.sems[sem].count + n < S.U32
    requires S.Needs(s.sems[sem].waiting[..k]) <= s.sems[sem].count + n
    requires k < |s.sems[sem].waiting| ==> S.Needs(s.sems[sem].waiting[..k + 1]) > s.sems[sem].count + n
    ensures var t, woken := DoRelease(s, sem, n), s.sems[sem].waiting[..k];
      && |t.ready| == |s.ready| + k && s.ready <= t.ready
      && (forall i :: 0 <= i < k ==> t.ready[|s.ready| + i] == woken[i].pid)
      && t.current == s.current
  {
    hide S.Needs, S.Served, S.Left, S.Added;
    var sm := s.sems[sem];
    S.AddedSmall(sm, n);
    S.ReleaseWakesLongestPrefix(sm, n, k);
    if k < |sm.waiting| {
      S.ReleaseWakesLongestPrefix(sm, n, k + 1);
    }
    assert S.Woken(sm, n) == sm.waiting[..k];
  }

  /** Exactly when a call pops an empty ready queue, in any state: it gives up the CPU
      with nobody ready, and (for a kill) no parent to resume. */
  lemma NullPopExactly(s: State, op: Op)
    requires Known(s) && SemExists(s, op)
    ensures Do(s, op) == None <==>
              s.ready == [] && (op.Sleep? || (op.Acquire? && s.sems[op.sem].count < op.n) ||
                                (op.Kill? && s.current != IDLE && Of(s, s.current).attachedFrom == None))
  {
  }

  /** So the rule that idle never blocks is needed: alone, it would crash the kernel. */
  lemma IdleMustNotSleep()
    ensures Do(Boot([]), Sleep(1)) == None
  {
  }
}
