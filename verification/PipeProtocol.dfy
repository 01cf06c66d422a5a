/** The blocking pipe protocol (ramfs_pipe_read/ramfs_pipe_write inside the lock/unlock
    bracket of vfs_read/vfs_write), for any number of readers and writers and any
    interleaving.

    An agent is one call in progress.  System calls run with interrupts off, so an agent
    advances in atomic segments that end at the semaphore operations where it may block;
    `Step(s, i)` is one such segment.  Allowing a switch after every segment gives at
    least the interleavings of the kernel. */
module PipeProtocol {
  import opened Common
  import S = Semaphores
  import Sch = Scheduling

  const PIPE_SIZE: nat := 2048

  datatype Role = Reader(size: nat) | Writer(data: seq<Byte>)

  /** Where the call stands; while blocked, at the acquire it is waiting in. */
  datatype Pc =
    | Start      // vfs_read/vfs_write: about to lock the node
    | Locked     // holds the node lock
    | Want       // lock dropped, about to take one byte or space token
    | Token      // holds a token, about to retake the lock
    | Critical   // holds a token and the lock
    | Unlocking  // data moved, holds the lock
    | Done

  /** `moved` is what the call has read or written: a reader's answer, a writer's count. */
  datatype Agent = Agent(role: Role, pc: Pc, blocked: bool, moved: seq<Byte>)

  /** The node lock, bytes_available and space_available. */
  datatype Which = Lock | Bytes | Space

  datatype Sys = Sys(
    agents: seq<Agent>,
    lock: S.Sem, bytes: S.Sem, space: S.Sem,
    content: seq<Byte>,      // what the block chain holds, oldest first
    size: nat,               // node->size
    written: seq<Byte>,      // history: everything ever put in
    read: seq<Byte>,         // history: everything ever taken out
    order: seq<nat>)         // history: the calls that moved data, in the order in which they did

  function Begin(roles: seq<Role>): Sys {
    Sys(seq(|roles|, i requires 0 <= i < |roles| => Agent(roles[i], Start, false, [])),
        S.Sem(1, []), S.Sem(0, []), S.Sem(PIPE_SIZE, []), [], 0, [], [], [])
  }

  function SemOf(s: Sys, w: Which): S.Sem {
    match w
    case Lock => s.lock
    case Bytes => s.bytes
    case Space => s.space
  }

  function WithSem(s: Sys, w: Which, v: S.Sem): Sys {
    match w
    case Lock => s.(lock := v)
    case Bytes => s.(bytes := v)
    case Space => s.(space := v)
  }

  /** The semaphore an agent asks for at its next acquire. */
  function Target(a: Agent): Which {
    if a.pc != Want then Lock else if a.role.Reader? then Bytes else Space
  }

  /** An acquire was granted. */
  function Granted(a: Agent): Agent {
    match a.pc
    case Start => a.(pc := Locked, blocked := false)
    case Want => a.(pc := Token, blocked := false)
    case Token => a.(pc := Critical, blocked := false)
    case _ => a
  }

  function AcquireOn(s: Sys, i: nat): Sys
    requires i < |s.agents|
  {
    var a := s.agents[i];
    var sem := SemOf(s, Target(a));
    WithSem(s, Target(a), S.Acquired(sem, i, 1)).(
      agents := s.agents[i := if sem.count >= 1 then Granted(a) else a.(blocked := true)])
  }

  function WakeAll(agents: seq<Agent>, pids: seq<nat>): (r: seq<Agent>)
    ensures |r| == |agents|
    decreases |pids|
  {
    if pids == [] then agents
    else if pids[0] < |agents| then WakeAll(agents[pids[0] := Granted(agents[pids[0]])], pids[1..])
    else WakeAll(agents, pids[1..])
  }

  function ReleaseOn(s: Sys, w: Which, n: nat): Sys {
    WithSem(s, w, S.Released(SemOf(s, w), n)).(
      agents := WakeAll(s.agents, Sch.Pids(S.Woken(SemOf(s, w), n))))
  }

  function At(s: Sys, i: nat, pc: Pc): Sys
    requires i < |s.agents|
  {
    s.(agents := s.agents[i := s.agents[i].(pc := pc)])
  }

  /** Agent i has moved `bs` and is about to unlock. */
  function Record(s: Sys, i: nat, bs: seq<Byte>): Sys
    requires i < |s.agents|
  {
    s.(agents := s.agents[i := s.agents[i].(pc := Unlocking, moved := bs)], order := s.order + [i])
  }

  function Min(a: nat, b: nat): nat {
    if a < b then a else b
  }

  /** The critical section of ramfs_pipe_read; None if the chain held too few bytes. */
  function ReadSection(s: Sys, i: nat): Option<Sys>
    requires i < |s.agents| && s.agents[i].role.Reader?
  {
    var n := Min(s.agents[i].role.size, 1 + s.bytes.count);
    if n == 0 || s.bytes.count < n - 1 || |s.content| < n || s.size < n then None
    else
      var t := Record(s, i, s.content[..n]).(bytes := S.Acquired(s.bytes, i, n - 1),
                                             content := s.content[n..], size := s.size - n,
                                             read := s.read + s.content[..n]);
      Some(ReleaseOn(t, Space, n))
  }

  /** The critical section of ramfs_pipe_write. */
  function WriteSection(s: Sys, i: nat): Option<Sys>
    requires i < |s.agents| && s.agents[i].role.Writer?
  {
    var n := Min(|s.agents[i].role.data|, 1 + s.space.count);
    if n == 0 || s.space.count < n - 1 then None
    else
      var bs := s.agents[i].role.data[..n];
      var t := Record(s, i, bs).(space := S.Acquired(s.space, i, n - 1),
                                 content := s.content + bs, size := s.size + n,
                                 written := s.written + bs);
      Some(ReleaseOn(t, Bytes, n))
  }

  function Request(r: Role): nat {
    match r
    case Reader(n) => n
    case Writer(data) => |data|
  }

  predicate CanStep(s: Sys, i: nat) {
    i < |s.agents| && !s.agents[i].blocked && s.agents[i].pc != Done
  }

  /** One atomic segment of agent i; None is a fault the source would not notice. */
  function Step(s: Sys, i: nat): Option<Sys>
    requires CanStep(s, i)
  {
    match s.agents[i].pc
    case Start => Some(AcquireOn(s, i))
    case Locked =>
      if Request(s.agents[i].role) == 0 then Some(At(s, i, Unlocking))
      else Some(ReleaseOn(At(s, i, Want), Lock, 1))
    case Want => Some(AcquireOn(s, i))
    case Token => Some(AcquireOn(s, i))
    case Critical => if s.agents[i].role.Reader? then ReadSection(s, i) else WriteSection(s, i)
    case Unlocking => Some(ReleaseOn(At(s, i, Done), Lock, 1))
  }

  // ----- the invariant -----

  /** Units of semaphore `w` an agent holds. */
  function Holds(w: Which, a: Agent): nat {
    match w
    case Lock => if a.pc in {Locked, Critical, Unlocking} then 1 else 0
    case Bytes => if a.role.Reader? && a.pc in {Token, Critical} then 1 else 0
    case Space => if a.role.Writer? && a.pc in {Token, Critical} then 1 else 0
  }

  function Held(w: Which, agents: seq<Agent>): nat {
    if agents == [] then 0 else Held(w, agents[..|agents| - 1]) + Holds(w, agents[|agents| - 1])
  }

  /** The queue of `w` lists exactly the agents blocked on it, each once and for one unit. */
  ghost predicate QueueOk(agents: seq<Agent>, sem: S.Sem, w: Which) {
    && NoDup(Sch.Pids(sem.waiting))
    && (forall i: nat :: i in Sch.Pids(sem.waiting) <==> i < |agents| && agents[i].blocked && Target(agents[i]) == w)
    && (forall k :: 0 <= k < |sem.waiting| ==> sem.waiting[k].need == 1)
    && S.Settled(sem)
  }

  ghost predicate Queues(s: Sys) {
    && (forall w: Which :: QueueOk(s.agents, SemOf(s, w), w))
    && (forall i :: 0 <= i < |s.agents| && s.agents[i].blocked ==> s.agents[i].pc in {Start, Want, Token})
  }

  ghost predicate Requests(agents: seq<Agent>) {
    forall i :: 0 <= i < |agents| && agents[i].pc in {Want, Token, Critical} ==> Request(agents[i].role) > 0
  }

  /** Conservation: every unit is in a counter or held by someone. */
  ghost predicate Accounts(s: Sys) {
    && s.lock.count + Held(Lock, s.agents) == 1
    && s.bytes.count + Held(Bytes, s.agents) == s.size
    && s.space.count + Held(Space, s.agents) + s.size == PIPE_SIZE
  }

  ghost predicate Fifo(s: Sys) {
    s.size == |s.content| && s.written == s.read + s.content
  }

  ghost predicate Balance(s: Sys) {
    Queues(s) && Requests(s.agents) && Accounts(s) && Fifo(s)
  }

  /** The call has been through its critical section. */
  predicate Past(a: Agent) {
    a.pc in {Unlocking, Done} && Request(a.role) > 0
  }

  /** What a call may have moved: nothing before its critical section or when it asked for
      nothing, then at least one byte and no more than it asked for; a writer's bytes are the
      first of its data. */
  ghost predicate Answer(a: Agent) {
    && (!Past(a) ==> a.moved == [])
    && (Past(a) ==> 1 <= |a.moved| <= Request(a.role))
    && (a.role.Writer? ==> a.moved <= a.role.data)
  }

  /** What the readers, or the writers, moved, in the order in which they did. */
  function Gather(agents: seq<Agent>, order: seq<nat>, readers: bool): seq<Byte> {
    if order == [] then []
    else
      var n := |order| - 1;
      Gather(agents, order[..n], readers) +
      (if order[n] < |agents| && agents[order[n]].role.Reader? == readers then agents[order[n]].moved else [])
  }

  /** Every call past its critical section is recorded once, with its answer, and the answers
      together are everything read and everything written. */
  ghost predicate Records(s: Sys) {
    && NoDup(s.order)
    && (forall i: nat :: i in s.order <==> i < |s.agents| && Past(s.agents[i]))
    && (forall i :: 0 <= i < |s.agents| ==> Answer(s.agents[i]))
    && s.read == Gather(s.agents, s.order, true) && s.written == Gather(s.agents, s.order, false)
  }

  ghost predicate Inv(s: Sys) {
    Balance(s) && Records(s)
  }

  // ----- bookkeeping lemmas -----

  lemma {:induction false} HeldUpdate(w: Which, agents: seq<Agent>, i: nat, a: Agent)
    requires i < |agents|
    ensures Held(w, agents[i := a]) == Held(w, agents) - Holds(w, agents[i]) + Holds(w, a)
    ensures Holds(w, agents[i]) <= Held(w, agents)
  {
    var n := |agents| - 1;
    if i < n {
      HeldUpdate(w, agents[..n], i, a);
      assert agents[i := a][..n] == agents[..n][i := a];
    } else {
      assert agents[i := a][..n] == agents[..n];
    }
  }

  /** Waking blocked agents hands each one unit of `w` and touches nothing else. */
  lemma {:induction false} WakeAllEffect(w: Which, agents: seq<Agent>, pids: seq<nat>)
    requires NoDup(pids)
    requires forall p: nat :: p in pids ==>
      p < |agents| && agents[p].blocked && Target(agents[p]) == w && agents[p].pc in {Start, Want, Token}
    ensures var r := WakeAll(agents, pids);
      && Held(w, r) == Held(w, agents) + |pids|
      && (forall v :: v != w ==> Held(v, r) == Held(v, agents))
      && (forall i :: 0 <= i < |agents| ==> r[i] == if i in pids then Granted(agents[i]) else agents[i])
    decreases |pids|
  {
    hide Held;
    if pids != [] {
      var p, rest := pids[0], pids[1..];
      assert p in pids;
      var next := agents[p := Granted(agents[p])];
      assert p !in rest;
      assert forall q :: q in rest ==> q in pids;
      assert pids == [p] + rest;
      WakeAllEffect(w, next, rest);
      forall v ensures Held(v, next) == Held(v, agents) + (if v == w then 1 else 0) {
        HeldUpdate(v, agents, p, Granted(agents[p]));
      }
    }
  }

  lemma {:induction false} UnitNeeds(ws: seq<S.Waiter>)
    requires forall k :: 0 <= k < |ws| ==> ws[k].need == 1
    ensures S.Needs(ws) == |ws|
  {
    if ws != [] {
      UnitNeeds(ws[1..]);
    }
  }

  /** `r` is `agents` with the processes in `woken` granted and the rest unchanged. */
  ghost predicate Woke(agents: seq<Agent>, r: seq<Agent>, woken: seq<nat>) {
    && |r| == |agents|
    && (forall i :: 0 <= i < |agents| ==> r[i] == if i in woken then Granted(agents[i]) else agents[i])
  }

  lemma WokenQueue(agents: seq<Agent>, r: seq<Agent>, sem: S.Sem, sem': S.Sem, w: Which, k: nat)
    requires QueueOk(agents, sem, w) && k <= |sem.waiting|
    requires forall i :: 0 <= i < |agents| && agents[i].blocked ==> agents[i].pc in {Start, Want, Token}
    requires sem'.waiting == sem.waiting[k..] && S.Settled(sem')
    requires Woke(agents, r, Sch.Pids(sem.waiting)[..k])
    ensures QueueOk(r, sem', w)
  {
    var q, q' := Sch.Pids(sem.waiting), Sch.Pids(sem'.waiting);
    hide Sch.Pids;
    assert q' == q[k..];
    assert q == q[..k] + q[k..];
    forall i: nat ensures i in q' <==> i < |r| && r[i].blocked && Target(r[i]) == w {
      assert i in q <==> i in q[..k] || i in q[k..];
    }
  }

  lemma OtherQueue(agents: seq<Agent>, r: seq<Agent>, woken: seq<nat>, sem: S.Sem, w: Which)
    requires QueueOk(agents, sem, w) && Woke(agents, r, woken)
    requires forall p: nat :: p in woken ==>
      p < |agents| && agents[p].blocked && Target(agents[p]) != w && agents[p].pc in {Start, Want, Token}
    ensures QueueOk(r, sem, w)
  {
  }

  lemma WokenPids(sem: S.Sem, n: nat)
    ensures |S.Woken(sem, n)| <= |sem.waiting|
    ensures Sch.Pids(S.Woken(sem, n)) == Sch.Pids(sem.waiting)[..|S.Woken(sem, n)|]
    ensures S.Released(sem, n).waiting == sem.waiting[|S.Woken(sem, n)|..]
  {
  }

  /** A release of single-unit waiters: what leaves the counter goes to the woken. */
  lemma UnitRelease(sem: S.Sem, n: nat)
    requires sem.count + n < S.U32
    requires forall k :: 0 <= k < |sem.waiting| ==> sem.waiting[k].need == 1
    ensures S.Released(sem, n).count + |S.Woken(sem, n)| == sem.count + n
    ensures S.Settled(S.Released(sem, n))
  {
    hide S.Added, S.Served, S.Left, S.Needs;
    S.AddedSmall(sem, n);
    S.ReleaseWakesLongestPrefix(sem, n, 0);
    S.DrainPaysForPrefix(S.Added(sem, n), sem.waiting);
    UnitNeeds(S.Woken(sem, n));
  }

  ghost predicate SameData(s: Sys, t: Sys) {
    t.content == s.content && t.size == s.size && t.written == s.written && t.read == s.read
  }

  /** Releasing n units of `w`: they end up in the counter or with woken agents, the
      queues stay right, and nobody else notices. */
  lemma ReleaseEffect(s: Sys, w: Which, n: nat)
    requires Queues(s) && SemOf(s, w).count + n < S.U32
    ensures var t := ReleaseOn(s, w, n);
      && Queues(t)
      && SameData(s, t)
      && SemOf(t, w).count + Held(w, t.agents) == SemOf(s, w).count + n + Held(w, s.agents)
      && (forall v :: v != w ==> SemOf(t, v) == SemOf(s, v) && Held(v, t.agents) == Held(v, s.agents))
      && (Requests(s.agents) ==> Requests(t.agents))
  {
    hide S.Released, S.Woken, S.Settled, QueueOk, Held, Queues;
    var sem, t := SemOf(s, w), ReleaseOn(s, w, n);
    var woken := ReleaseWakes(s, w, n);
    UnitRelease(sem, n);
    WakeAllEffect(w, s.agents, woken);
    assert SemOf(t, w) == S.Released(sem, n);
    assert forall v :: v != w ==> SemOf(t, v) == SemOf(s, v);
    ReleaseQueues(s, w, n, woken);
  }

  /** The agents woken by a release, and what is known of them. */
  lemma ReleaseWakes(s: Sys, w: Which, n: nat) returns (woken: seq<nat>)
    requires Queues(s)
    ensures woken == Sch.Pids(S.Woken(SemOf(s, w), n)) && |woken| == |S.Woken(SemOf(s, w), n)|
    ensures |woken| <= |SemOf(s, w).waiting| && woken == Sch.Pids(SemOf(s, w).waiting)[..|woken|]
    ensures NoDup(woken)
    ensures forall p: nat :: p in woken ==>
      p < |s.agents| && s.agents[p].blocked && Target(s.agents[p]) == w && s.agents[p].pc in {Start, Want, Token}
    ensures forall k :: 0 <= k < |SemOf(s, w).waiting| ==> SemOf(s, w).waiting[k].need == 1
  {
    hide S.Released, S.Woken, S.Settled, QueueOk;
    var sem := SemOf(s, w);
    assert QueueOk(s.agents, sem, w);
    QueueFacts(s.agents, sem, w);
    WokenPids(sem, n);
    woken := Sch.Pids(S.Woken(sem, n));
    assert forall p :: p in woken ==> p in Sch.Pids(sem.waiting);
  }

  lemma ReleaseQueues(s: Sys, w: Which, n: nat, woken: seq<nat>)
    requires Queues(s) && SemOf(s, w).count + n < S.U32
    requires woken == Sch.Pids(S.Woken(SemOf(s, w), n)) && |woken| == |S.Woken(SemOf(s, w), n)|
    requires |woken| <= |SemOf(s, w).waiting| && woken == Sch.Pids(SemOf(s, w).waiting)[..|woken|]
    requires forall p: nat :: p in woken ==>
      p < |s.agents| && s.agents[p].blocked && Target(s.agents[p]) == w && s.agents[p].pc in {Start, Want, Token}
    requires forall k :: 0 <= k < |SemOf(s, w).waiting| ==> SemOf(s, w).waiting[k].need == 1
    requires Woke(s.agents, ReleaseOn(s, w, n).agents, woken)
    ensures Queues(ReleaseOn(s, w, n))
  {
    hide S.Released, S.Woken, S.Settled, QueueOk, Sch.Pids, WakeAll;
    var sem, t := SemOf(s, w), ReleaseOn(s, w, n);
    UnitRelease(sem, n);
    WokenPids(sem, n);
    forall v ensures QueueOk(t.agents, SemOf(t, v), v) {
      assert QueueOk(s.agents, SemOf(s, v), v);
      if v == w {
        WokenQueue(s.agents, t.agents, sem, SemOf(t, w), w, |woken|);
      } else {
        OtherQueue(s.agents, t.agents, woken, SemOf(s, v), v);
      }
    }
  }

  lemma QueueFacts(agents: seq<Agent>, sem: S.Sem, w: Which)
    requires QueueOk(agents, sem, w)
    ensures NoDup(Sch.Pids(sem.waiting)) && S.Settled(sem)
    ensures forall i: nat :: i in Sch.Pids(sem.waiting) <==> i < |agents| && agents[i].blocked && Target(agents[i]) == w
    ensures forall k :: 0 <= k < |sem.waiting| ==> sem.waiting[k].need == 1
  {
  }

  /** A running agent may change its program counter without touching any queue. */
  lemma MoveQueue(agents: seq<Agent>, i: nat, a: Agent, sem: S.Sem, w: Which)
    requires QueueOk(agents, sem, w) && i < |agents| && !agents[i].blocked && !a.blocked
    ensures QueueOk(agents[i := a], sem, w)
  {
  }

  lemma MoveQueues(s: Sys, i: nat, a: Agent)
    requires Queues(s) && i < |s.agents| && !s.agents[i].blocked && !a.blocked
    ensures Queues(s.(agents := s.agents[i := a]))
  {
    hide QueueOk;
    var t := s.(agents := s.agents[i := a]);
    forall w: Which ensures QueueOk(t.agents, SemOf(t, w), w) {
      assert QueueOk(s.agents, SemOf(s, w), w);
      MoveQueue(s.agents, i, a, SemOf(s, w), w);
    }
  }

  /** A running agent joins the queue of the semaphore it asked for. */
  lemma BlockQueue(agents: seq<Agent>, i: nat, sem: S.Sem, w: Which)
    requires QueueOk(agents, sem, w) && i < |agents| && !agents[i].blocked && sem.count < 1
    requires Target(agents[i]) == w
    ensures QueueOk(agents[i := agents[i].(blocked := true)], S.Acquired(sem, i, 1), w)
  {
    Sch.PidsSnoc(sem.waiting, S.Waiter(i, 1));
  }

  lemma BlockOther(agents: seq<Agent>, i: nat, sem: S.Sem, w: Which)
    requires QueueOk(agents, sem, w) && i < |agents| && !agents[i].blocked && Target(agents[i]) != w
    ensures QueueOk(agents[i := agents[i].(blocked := true)], sem, w)
  {
  }

  lemma TakeUnits(agents: seq<Agent>, sem: S.Sem, w: Which, i: nat, n: nat)
    requires QueueOk(agents, sem, w) && sem.count >= n
    ensures QueueOk(agents, S.Acquired(sem, i, n), w)
  {
  }

  lemma AcquireQueues(s: Sys, i: nat)
    requires Queues(s) && CanStep(s, i) && s.agents[i].pc in {Start, Want, Token}
    ensures Queues(AcquireOn(s, i))
  {
    hide QueueOk;
    var t, a := AcquireOn(s, i), s.agents[i];
    var w, sem := Target(a), SemOf(s, Target(a));
    forall v ensures QueueOk(t.agents, SemOf(t, v), v) {
      assert QueueOk(s.agents, SemOf(s, v), v);
      if sem.count >= 1 {
        MoveQueue(s.agents, i, Granted(a), SemOf(s, v), v);
        if v == w {
          TakeUnits(t.agents, sem, w, i, 1);
        }
      } else if v == w {
        BlockQueue(s.agents, i, sem, w);
      } else {
        BlockOther(s.agents, i, SemOf(s, v), v);
      }
    }
  }

  /** Asking for one unit: it leaves the counter for the agent, or the agent queues. */
  lemma AcquireEffect(s: Sys, i: nat)
    requires Queues(s) && CanStep(s, i) && s.agents[i].pc in {Start, Want, Token}
    ensures var t, w := AcquireOn(s, i), Target(s.agents[i]);
      && Queues(t)
      && SemOf(t, w).count + Held(w, t.agents) == SemOf(s, w).count + Held(w, s.agents)
      && (forall v :: v != w ==> SemOf(t, v) == SemOf(s, v) && Held(v, t.agents) == Held(v, s.agents))
      && (Requests(s.agents) ==> Requests(t.agents))
  {
    hide QueueOk, Queues, Held;
    AcquireQueues(s, i);
    var t, a := AcquireOn(s, i), s.agents[i];
    forall v ensures Held(v, t.agents) == Held(v, s.agents) + Holds(v, t.agents[i]) - Holds(v, a) {
      HeldUpdate(v, s.agents, i, t.agents[i]);
    }
  }

  // ----- every step keeps the invariant -----

  lemma PlainAcquireKeeps(s: Sys, i: nat)
    requires Balance(s) && CanStep(s, i) && s.agents[i].pc in {Start, Want, Token}
    ensures Balance(AcquireOn(s, i))
  {
    hide Queues, Requests, Held;
    AcquireEffect(s, i);
    var t := AcquireOn(s, i);
    assert SemOf(t, Lock) == t.lock && SemOf(t, Bytes) == t.bytes && SemOf(t, Space) == t.space;
    assert SemOf(s, Lock) == s.lock && SemOf(s, Bytes) == s.bytes && SemOf(s, Space) == s.space;
  }

  /** A running agent at `from` moves on to `pc`, giving back what it held. */
  lemma AtEffect(s: Sys, i: nat, pc: Pc)
    requires Balance(s) && CanStep(s, i)
    requires pc in {Want, Token, Critical} ==> Request(s.agents[i].role) > 0
    ensures Queues(At(s, i, pc)) && Requests(At(s, i, pc).agents)
    ensures forall v :: Held(v, At(s, i, pc).agents) == Held(v, s.agents) - Holds(v, s.agents[i]) + Holds(v, s.agents[i].(pc := pc))
    ensures forall v :: Holds(v, s.agents[i]) <= Held(v, s.agents)
  {
    MoveQueues(s, i, s.agents[i].(pc := pc));
    forall v
      ensures Held(v, At(s, i, pc).agents) == Held(v, s.agents) - Holds(v, s.agents[i]) + Holds(v, s.agents[i].(pc := pc))
      ensures Holds(v, s.agents[i]) <= Held(v, s.agents)
    {
      HeldUpdate(v, s.agents, i, s.agents[i].(pc := pc));
    }
  }

  /** Recording what was moved is a move to Unlocking as far as the semaphores are concerned. */
  lemma RecordEffect(s: Sys, i: nat, bs: seq<Byte>)
    requires Balance(s) && CanStep(s, i)
    ensures Queues(Record(s, i, bs)) && Requests(Record(s, i, bs).agents)
    ensures forall v :: Held(v, Record(s, i, bs).agents) == Held(v, s.agents) - Holds(v, s.agents[i])
                                                            + (if v == Lock then 1 else 0)
    ensures forall v :: Holds(v, s.agents[i]) <= Held(v, s.agents)
  {
    var a := s.agents[i].(pc := Unlocking, moved := bs);
    MoveQueues(s, i, a);
    DataQueues(s.(agents := s.agents[i := a]), Record(s, i, bs));
    forall v
      ensures Held(v, Record(s, i, bs).agents) == Held(v, s.agents) - Holds(v, s.agents[i]) + (if v == Lock then 1 else 0)
      ensures Holds(v, s.agents[i]) <= Held(v, s.agents)
    {
      HeldUpdate(v, s.agents, i, a);
    }
  }

  lemma UnlockKeeps(s: Sys, i: nat, pc: Pc)
    requires Balance(s) && CanStep(s, i)
    requires (s.agents[i].pc == Locked && pc == Want && Request(s.agents[i].role) > 0)
          || (s.agents[i].pc == Unlocking && pc == Done)
    ensures Balance(ReleaseOn(At(s, i, pc), Lock, 1))
  {
    hide Queues, Requests, Held, ReleaseOn;
    AtEffect(s, i, pc);
    var u := At(s, i, pc);
    ReleaseEffect(u, Lock, 1);
    var t := ReleaseOn(u, Lock, 1);
    assert SemOf(t, Lock) == t.lock && SemOf(t, Bytes) == t.bytes && SemOf(t, Space) == t.space;
    assert SemOf(u, Lock) == u.lock && SemOf(u, Bytes) == u.bytes && SemOf(u, Space) == u.space;
  }

  lemma EmptyRequestKeeps(s: Sys, i: nat)
    requires Balance(s) && CanStep(s, i) && s.agents[i].pc == Locked
    ensures Balance(At(s, i, Unlocking))
  {
    AtEffect(s, i, Unlocking);
    hide Queues, Requests, Held;
  }

  /** Taking units of `w` from the counter disturbs no queue. */
  lemma TakeQueues(s: Sys, w: Which, i: nat, n: nat)
    requires Queues(s) && SemOf(s, w).count >= n
    ensures Queues(WithSem(s, w, S.Acquired(SemOf(s, w), i, n)))
  {
    hide QueueOk;
    var t := WithSem(s, w, S.Acquired(SemOf(s, w), i, n));
    forall v ensures QueueOk(t.agents, SemOf(t, v), v) {
      assert QueueOk(s.agents, SemOf(s, v), v);
      if v == w {
        TakeUnits(s.agents, SemOf(s, w), w, i, n);
      }
    }
  }

  /** Queues do not depend on the data. */
  lemma DataQueues(s: Sys, t: Sys)
    requires Queues(s) && t.agents == s.agents && t.lock == s.lock && t.bytes == s.bytes && t.space == s.space
    ensures Queues(t)
  {
    forall v ensures QueueOk(t.agents, SemOf(t, v), v) {
      assert QueueOk(s.agents, SemOf(s, v), v);
      assert SemOf(t, v) == SemOf(s, v);
    }
  }

  /** The reader finds all the bytes it has tokens for, and everything stays balanced. */
  lemma ReadKeeps(s: Sys, i: nat)
    requires Balance(s) && CanStep(s, i) && s.agents[i].pc == Critical && s.agents[i].role.Reader?
    ensures ReadSection(s, i).Some? && Balance(ReadSection(s, i).value)
  {
    hide Queues, Held, ReleaseOn;
    assert Holds(Bytes, s.agents[i]) == 1;
    assert Request(s.agents[i].role) > 0;
    assert Holds(Bytes, s.agents[i]) <= Held(Bytes, s.agents) by { RecordEffect(s, i, []); }
    var n := Min(s.agents[i].role.size, 1 + s.bytes.count);
    RecordEffect(s, i, s.content[..n]);
    var u := Record(s, i, s.content[..n]);
    TakeQueues(u, Bytes, i, n - 1);
    var v := u.(bytes := S.Acquired(s.bytes, i, n - 1));
    var x := v.(content := s.content[n..], size := s.size - n, read := s.read + s.content[..n]);
    DataQueues(v, x);
    ReleaseEffect(x, Space, n);
    var t := ReleaseOn(x, Space, n);
    assert SemOf(t, Lock) == t.lock && SemOf(t, Bytes) == t.bytes && SemOf(t, Space) == t.space;
    assert SemOf(x, Lock) == x.lock && SemOf(x, Bytes) == x.bytes && SemOf(x, Space) == x.space;
    assert s.content == s.content[..n] + s.content[n..];
  }

  lemma WriteKeeps(s: Sys, i: nat)
    requires Balance(s) && CanStep(s, i) && s.agents[i].pc == Critical && s.agents[i].role.Writer?
    ensures WriteSection(s, i).Some? && Balance(WriteSection(s, i).value)
  {
    hide Queues, Held, ReleaseOn;
    assert Holds(Space, s.agents[i]) == 1;
    assert Request(s.agents[i].role) > 0;
    var data := s.agents[i].role.data;
    var n := Min(|data|, 1 + s.space.count);
    RecordEffect(s, i, data[..n]);
    var u := Record(s, i, data[..n]);
    TakeQueues(u, Space, i, n - 1);
    var v := u.(space := S.Acquired(s.space, i, n - 1));
    var x := v.(content := s.content + data[..n], size := s.size + n, written := s.written + data[..n]);
    DataQueues(v, x);
    ReleaseEffect(x, Bytes, n);
    var t := ReleaseOn(x, Bytes, n);
    assert SemOf(t, Lock) == t.lock && SemOf(t, Bytes) == t.bytes && SemOf(t, Space) == t.space;
    assert SemOf(x, Lock) == x.lock && SemOf(x, Bytes) == x.bytes && SemOf(x, Space) == x.space;
  }

  /** Every segment of every agent succeeds and keeps the semaphores and the data balanced. */
  lemma StepBalances(s: Sys, i: nat)
    requires Balance(s) && CanStep(s, i)
    ensures Step(s, i).Some? && Balance(Step(s, i).value)
  {
    hide Balance, AcquireOn, ReleaseOn, ReadSection, WriteSection;
    match s.agents[i].pc
    case Start => PlainAcquireKeeps(s, i);
    case Locked =>
      if Request(s.agents[i].role) == 0 {
        EmptyRequestKeeps(s, i);
      } else {
        UnlockKeeps(s, i, Want);
      }
    case Want => PlainAcquireKeeps(s, i);
    case Token => PlainAcquireKeeps(s, i);
    case Critical =>
      if s.agents[i].role.Reader? {
        ReadKeeps(s, i);
      } else {
        WriteKeeps(s, i);
      }
    case Unlocking => UnlockKeeps(s, i, Done);
  }

  // ----- what the calls moved -----

  /** The same calls, as far as their answers go. */
  ghost predicate SameAnswers(a: seq<Agent>, b: seq<Agent>) {
    |a| == |b| && forall i :: 0 <= i < |a| ==> SameAnswer(a[i], b[i])
  }

  predicate SameAnswer(a: Agent, b: Agent) {
    b.role == a.role && b.moved == a.moved && (Past(b) <==> Past(a))
  }

  lemma {:induction false} WakeAllSame(agents: seq<Agent>, pids: seq<nat>)
    ensures SameAnswers(agents, WakeAll(agents, pids))
    decreases |pids|
  {
    if pids != [] {
      var p := pids[0];
      var next := if p < |agents| then agents[p := Granted(agents[p])] else agents;
      WakeAllSame(next, pids[1..]);
    }
  }

  lemma {:induction false} GatherSame(a: seq<Agent>, b: seq<Agent>, order: seq<nat>, readers: bool)
    requires |a| == |b| && forall i :: i in order && i < |a| ==> b[i].role == a[i].role && b[i].moved == a[i].moved
    ensures Gather(a, order, readers) == Gather(b, order, readers)
  {
    if order != [] {
      var n := |order| - 1;
      GatherSame(a, b, order[..n], readers);
      assert order[n] in order;
    }
  }

  /** A segment that moves no data leaves the records alone. */
  lemma RecordsFrame(s: Sys, t: Sys)
    requires Records(s) && SameAnswers(s.agents, t.agents)
    requires t.order == s.order && t.read == s.read && t.written == s.written
    ensures Records(t)
  {
    hide Gather, Past;
    GatherSame(s.agents, t.agents, s.order, true);
    GatherSame(s.agents, t.agents, s.order, false);
    forall i | 0 <= i < |t.agents| ensures Answer(t.agents[i]) {
      assert Answer(s.agents[i]) && SameAnswer(s.agents[i], t.agents[i]);
    }
  }

  /** A critical section adds one answer at the end. */
  lemma RecordsGrow(s: Sys, t: Sys, i: nat, bs: seq<Byte>)
    requires Records(s) && CanStep(s, i) && s.agents[i].pc == Critical && Request(s.agents[i].role) > 0
    requires t.agents == Record(s, i, bs).agents && t.order == s.order + [i]
    requires 1 <= |bs| <= Request(s.agents[i].role) && (s.agents[i].role.Writer? ==> bs <= s.agents[i].role.data)
    requires t.read == s.read + (if s.agents[i].role.Reader? then bs else [])
    requires t.written == s.written + (if s.agents[i].role.Writer? then bs else [])
    ensures Records(t)
  {
    assert i !in s.order;
    assert t.order[..|s.order|] == s.order;
    GatherSame(s.agents, t.agents, s.order, true);
    GatherSame(s.agents, t.agents, s.order, false);
    hide Gather;
    GatherSnoc(t.agents, s.order, i, true);
    GatherSnoc(t.agents, s.order, i, false);
  }

  lemma GatherSnoc(agents: seq<Agent>, order: seq<nat>, i: nat, readers: bool)
    requires i < |agents|
    ensures Gather(agents, order + [i], readers) ==
      Gather(agents, order, readers) + (if agents[i].role.Reader? == readers then agents[i].moved else [])
  {
    assert (order + [i])[..|order|] == order;
  }

  lemma ReleaseRecords(s: Sys, w: Which, n: nat)
    requires Records(s)
    ensures Records(ReleaseOn(s, w, n))
  {
    hide Records, WakeAll;
    WakeAllSame(s.agents, Sch.Pids(S.Woken(SemOf(s, w), n)));
    RecordsFrame(s, ReleaseOn(s, w, n));
  }

  lemma SectionRecords(s: Sys, i: nat)
    requires Inv(s) && CanStep(s, i) && s.agents[i].pc == Critical && Step(s, i).Some?
    ensures Records(Step(s, i).value)
  {
    hide Records, ReleaseOn, Queues, Accounts, Fifo;
    var role := s.agents[i].role;
    if role.Reader? {
      var n := Min(role.size, 1 + s.bytes.count);
      var u := Record(s, i, s.content[..n]).(bytes := S.Acquired(s.bytes, i, n - 1), content := s.content[n..],
                                             size := s.size - n, read := s.read + s.content[..n]);
      assert s.written + [] == s.written;
      RecordsGrow(s, u, i, s.content[..n]);
      ReleaseRecords(u, Space, n);
    } else {
      var n := Min(|role.data|, 1 + s.space.count);
      var bs := role.data[..n];
      var u := Record(s, i, bs).(space := S.Acquired(s.space, i, n - 1), content := s.content + bs,
                                 size := s.size + n, written := s.written + bs);
      assert s.read + [] == s.read;
      RecordsGrow(s, u, i, bs);
      ReleaseRecords(u, Bytes, n);
    }
  }

  lemma StepRecords(s: Sys, i: nat)
    requires Inv(s) && CanStep(s, i) && Step(s, i).Some?
    ensures Records(Step(s, i).value)
  {
    hide Records, ReleaseOn, Balance, S.Acquired;
    var a := s.agents[i];
    match a.pc
    case Locked =>
      var u := At(s, i, if Request(a.role) == 0 then Unlocking else Want);
      RecordsFrame(s, u);
      ReleaseRecords(u, Lock, 1);
    case Unlocking =>
      RecordsFrame(s, At(s, i, Done));
      ReleaseRecords(At(s, i, Done), Lock, 1);
    case Critical => SectionRecords(s, i);
    case Start => RecordsFrame(s, AcquireOn(s, i));
    case Want => RecordsFrame(s, AcquireOn(s, i));
    case Token => RecordsFrame(s, AcquireOn(s, i));
  }

  /** Every segment of every agent succeeds and keeps the invariant. */
  lemma StepKeeps(s: Sys, i: nat)
    requires Inv(s) && CanStep(s, i)
    ensures Step(s, i).Some? && Inv(Step(s, i).value)
  {
    hide Balance, Records, Step;
    StepBalances(s, i);
    StepRecords(s, i);
  }

  // ----- every run -----

  function Play(s: Sys, schedule: seq<nat>): Option<Sys>
    decreases |schedule|
  {
    if schedule == [] then Some(s)
    else if !CanStep(s, schedule[0]) then None
    else
      match Step(s, schedule[0])
      case None => None
      case Some(t) => Play(t, schedule[1..])
  }

  /** The schedule only ever picks agents that are able to run. */
  ghost predicate Playable(s: Sys, schedule: seq<nat>)
    decreases |schedule|
  {
    schedule != [] ==>
      && CanStep(s, schedule[0])
      && (match Step(s, schedule[0]) case None => true case Some(t) => Playable(t, schedule[1..]))
  }

  lemma {:induction false} PlayKeeps(s: Sys, schedule: seq<nat>)
    requires Inv(s) && Playable(s, schedule)
    ensures Play(s, schedule).Some? && Inv(Play(s, schedule).value)
    decreases |schedule|
  {
    hide Inv, Step;
    if schedule != [] {
      StepKeeps(s, schedule[0]);
      PlayKeeps(Step(s, schedule[0]).value, schedule[1..]);
    }
  }

  lemma {:induction false} NothingHeld(w: Which, agents: seq<Agent>)
    requires forall i :: 0 <= i < |agents| ==> Holds(w, agents[i]) == 0
    ensures Held(w, agents) == 0
  {
    if agents != [] {
      NothingHeld(w, agents[..|agents| - 1]);
    }
  }

  lemma BeginInv(roles: seq<Role>)
    ensures Inv(Begin(roles))
  {
    var s := Begin(roles);
    NothingHeld(Lock, s.agents);
    NothingHeld(Bytes, s.agents);
    NothingHeld(Space, s.agents);
  }

  /** The pipe theorem.  For any readers and writers and any interleaving: no segment
      ever faults; what was read is a prefix of what was written, in the order of the
      critical sections; the rest is in the pipe, which never exceeds its capacity; node
      size, byte tokens and space tokens always balance; and everything read and written
      is what the calls moved, one after the other. */
  lemma EveryRunIsFifo(roles: seq<Role>, schedule: seq<nat>)
    requires Playable(Begin(roles), schedule)
    ensures Play(Begin(roles), schedule).Some?
    ensures var t := Play(Begin(roles), schedule).value;
      && t.read <= t.written && t.written == t.read + t.content
      && t.size == |t.content| <= PIPE_SIZE
      && t.size == t.bytes.count + Held(Bytes, t.agents)
      && t.size + t.space.count + Held(Space, t.agents) == PIPE_SIZE
      && t.lock.count + Held(Lock, t.agents) == 1
      && Records(t)
  {
    BeginInv(roles);
    PlayKeeps(Begin(roles), schedule);
  }

  lemma StepRoles(s: Sys, i: nat)
    requires CanStep(s, i) && Step(s, i).Some?
    ensures var t := Step(s, i).value;
      |t.agents| == |s.agents| && forall k :: 0 <= k < |s.agents| ==> t.agents[k].role == s.agents[k].role
  {
    hide WakeAll, S.Acquired, S.Released, S.Woken;
    forall agents, pids ensures SameAnswers(agents, WakeAll(agents, pids)) {
      WakeAllSame(agents, pids);
    }
  }

  lemma {:induction false} PlayRoles(s: Sys, schedule: seq<nat>)
    requires Play(s, schedule).Some?
    ensures var t := Play(s, schedule).value;
      |t.agents| == |s.agents| && forall k :: 0 <= k < |s.agents| ==> t.agents[k].role == s.agents[k].role
    decreases |schedule|
  {
    hide Step;
    if schedule != [] {
      StepRoles(s, schedule[0]);
      PlayRoles(Step(s, schedule[0]).value, schedule[1..]);
    }
  }

  /** Every call carries data: over every schedule, a call that has finished moved at least
      one byte and at most what it asked for, and one that asked for nothing moved nothing;
      a writer's bytes are the first of its data. */
  lemma EveryCallMoves(roles: seq<Role>, schedule: seq<nat>, i: nat)
    requires Playable(Begin(roles), schedule) && i < |roles|
    ensures Play(Begin(roles), schedule).Some?
    ensures var t := Play(Begin(roles), schedule).value;
      && |t.agents| == |roles| && t.agents[i].role == roles[i]
      && (t.agents[i].pc == Done ==>
            if Request(roles[i]) == 0 then t.agents[i].moved == []
            else i in t.order && 1 <= |t.agents[i].moved| <= Request(roles[i]))
      && (roles[i].Writer? ==> t.agents[i].moved <= roles[i].data)
  {
    hide Play, Playable, Balance, Gather;
    BeginInv(roles);
    PlayKeeps(Begin(roles), schedule);
    PlayRoles(Begin(roles), schedule);
    var t := Play(Begin(roles), schedule).value;
    assert Answer(t.agents[i]);
  }

  /** How much: in its critical section a reader takes what it asked for or all the bytes that
      other readers hold no token for, whichever is less, from the front of the pipe; a
      writer likewise with the room, at the back. */
  lemma CriticalMoves(s: Sys, i: nat)
    requires Inv(s) && CanStep(s, i) && s.agents[i].pc == Critical
    ensures Step(s, i).Some?
    ensures var a, t := s.agents[i], Step(s, i).value;
      && |t.agents| == |s.agents| && t.order == s.order + [i]
      && (a.role.Reader? ==>
            && |t.agents[i].moved| == Min(a.role.size, |s.content| - (Held(Bytes, s.agents) - 1))
            && s.content == t.agents[i].moved + t.content)
      && (a.role.Writer? ==>
            && |t.agents[i].moved| == Min(|a.role.data|, PIPE_SIZE - |s.content| - (Held(Space, s.agents) - 1))
            && t.content == s.content + t.agents[i].moved)
      && (forall k :: 0 <= k < |s.agents| && k != i ==> t.agents[k].moved == s.agents[k].moved)
  {
    hide Queues, Records, WakeAll, S.Acquired, S.Released, S.Woken, Held;
    StepKeeps(s, i);
    HeldUpdate(Bytes, s.agents, i, s.agents[i]);
    HeldUpdate(Space, s.agents, i, s.agents[i]);
    forall agents, pids ensures SameAnswers(agents, WakeAll(agents, pids)) {
      WakeAllSame(agents, pids);
    }
  }

  // ----- progress -----

  ghost predicate Unfinished(s: Sys, i: nat) {
    i < |s.agents| && s.agents[i].pc != Done
  }

  /** Nobody waits for anything while holding the node lock. */
  lemma NoHoldAndWait(s: Sys, i: nat)
    requires Inv(s) && i < |s.agents| && s.agents[i].blocked
    ensures Holds(Lock, s.agents[i]) == 0
  {
  }

  /** When nobody can run, everybody left waits for a token at the same end. */
  lemma StuckAtWant(s: Sys, i: nat)
    requires Inv(s) && Unfinished(s, i)
    requires forall k: nat :: !CanStep(s, k)
    ensures s.agents[i].blocked && s.agents[i].pc == Want
    ensures Held(Bytes, s.agents) == 0 && Held(Space, s.agents) == 0
  {
    forall k | 0 <= k < |s.agents| ensures s.agents[k].pc in {Start, Want, Token, Done} {
      assert !CanStep(s, k);
    }
    NothingHeld(Lock, s.agents);
    assert QueueOk(s.agents, SemOf(s, Lock), Lock);
    assert s.lock.waiting == [];
    forall k | 0 <= k < |s.agents| ensures s.agents[k].pc in {Want, Done} {
      assert !CanStep(s, k);
      assert k !in Sch.Pids(s.lock.waiting);
    }
    NothingHeld(Bytes, s.agents);
    NothingHeld(Space, s.agents);
    assert !CanStep(s, i);
  }

  lemma StuckReader(s: Sys, i: nat)
    requires Inv(s) && Unfinished(s, i) && (forall k: nat :: !CanStep(s, k))
    ensures s.agents[i].role.Reader? ==> s.size == 0
    ensures s.agents[i].role.Writer? ==> s.size == PIPE_SIZE
  {
    StuckAtWant(s, i);
    var w := Target(s.agents[i]);
    assert QueueOk(s.agents, SemOf(s, w), w);
    assert i in Sch.Pids(SemOf(s, w).waiting);
    assert SemOf(s, w).waiting != [];
  }

  /** Exactly how a pipe can come to rest: everyone finished, or only readers are left
      and the pipe is empty, or only writers are left and it is full. */
  lemma RestsOnlyWhenOneSided(s: Sys)
    requires Inv(s)
    ensures (forall k: nat :: !CanStep(s, k)) ==>
      || (forall i: nat :: !Unfinished(s, i))
      || (s.content == [] && forall i: nat :: Unfinished(s, i) ==> s.agents[i].role.Reader?)
      || (|s.content| == PIPE_SIZE && forall i: nat :: Unfinished(s, i) ==> s.agents[i].role.Writer?)
  {
    if forall k: nat :: !CanStep(s, k) {
      forall i: nat | Unfinished(s, i)
        ensures s.size == if s.agents[i].role.Reader? then 0 else PIPE_SIZE
      {
        StuckReader(s, i);
      }
      if i: nat :| Unfinished(s, i) {
        assert s.size == if s.agents[i].role.Reader? then 0 else PIPE_SIZE;
      }
    }
  }

  /** Progress: while a reader and a writer are unfinished, somebody can run, and does so
      without a fault. */
  lemma SomebodyCanRun(s: Sys, reader: nat, writer: nat) returns (k: nat)
    requires Inv(s)
    requires Unfinished(s, reader) && s.agents[reader].role.Reader?
    requires Unfinished(s, writer) && s.agents[writer].role.Writer?
    ensures CanStep(s, k) && Step(s, k).Some?
  {
    if forall k: nat :: !CanStep(s, k) {
      StuckReader(s, reader);
      StuckReader(s, writer);
    }
    k :| CanStep(s, k);
    StepKeeps(s, k);
  }

  // ----- every schedule ends -----

  /** Segments that a call still has to run; being woken is no segment of its own. */
  function Segments(a: Agent): nat {
    match a.pc
    case Start => if a.blocked then 5 else 6
    case Locked => 5
    case Want => if a.blocked then 3 else 4
    case Token => if a.blocked then 2 else 3
    case Critical => 2
    case Unlocking => 1
    case Done => 0
  }

  function Work(agents: seq<Agent>): nat {
    if agents == [] then 0 else Work(agents[..|agents| - 1]) + Segments(agents[|agents| - 1])
  }

  lemma {:induction false} WorkUpdate(agents: seq<Agent>, i: nat, a: Agent)
    requires i < |agents|
    ensures Work(agents[i := a]) == Work(agents) - Segments(agents[i]) + Segments(a)
  {
    var n := |agents| - 1;
    if i < n {
      WorkUpdate(agents[..n], i, a);
      assert agents[i := a][..n] == agents[..n][i := a];
    } else {
      assert agents[i := a][..n] == agents[..n];
    }
  }

  lemma {:induction false} WakeAllWork(agents: seq<Agent>, pids: seq<nat>)
    ensures Work(WakeAll(agents, pids)) <= Work(agents)
    decreases |pids|
  {
    hide Work;
    if pids != [] {
      var p := pids[0];
      if p < |agents| {
        WorkUpdate(agents, p, Granted(agents[p]));
        WakeAllWork(agents[p := Granted(agents[p])], pids[1..]);
      } else {
        WakeAllWork(agents, pids[1..]);
      }
    }
  }

  /** Every segment leaves less to do. */
  lemma StepWorks(s: Sys, i: nat)
    requires CanStep(s, i) && Step(s, i).Some?
    ensures Work(Step(s, i).value.agents) < Work(s.agents) && |Step(s, i).value.agents| == |s.agents|
  {
    hide Work, ReleaseOn, S.Acquired;
    var a := s.agents[i];
    match a.pc
    case Locked => AtWorks(s, i, if Request(a.role) == 0 then Unlocking else Want);
      ReleaseWorks(At(s, i, Want), Lock, 1);
    case Unlocking => AtWorks(s, i, Done);
      ReleaseWorks(At(s, i, Done), Lock, 1);
    case Critical => SectionWorks(s, i);
    case _ =>
      WorkUpdate(s.agents, i, Granted(a));
      WorkUpdate(s.agents, i, a.(blocked := true));
  }

  lemma AtWorks(s: Sys, i: nat, pc: Pc)
    requires CanStep(s, i) && Segments(s.agents[i].(pc := pc)) < Segments(s.agents[i])
    ensures Work(At(s, i, pc).agents) < Work(s.agents)
  {
    WorkUpdate(s.agents, i, s.agents[i].(pc := pc));
  }

  lemma ReleaseWorks(s: Sys, w: Which, n: nat)
    ensures Work(ReleaseOn(s, w, n).agents) <= Work(s.agents) && |ReleaseOn(s, w, n).agents| == |s.agents|
  {
    hide Work, WakeAll;
    WakeAllWork(s.agents, Sch.Pids(S.Woken(SemOf(s, w), n)));
  }

  lemma SectionWorks(s: Sys, i: nat)
    requires CanStep(s, i) && s.agents[i].pc == Critical && Step(s, i).Some?
    ensures Work(Step(s, i).value.agents) < Work(s.agents) && |Step(s, i).value.agents| == |s.agents|
  {
    hide Work, ReleaseOn, S.Acquired;
    var role := s.agents[i].role;
    if role.Reader? {
      var n := Min(role.size, 1 + s.bytes.count);
      WorkUpdate(s.agents, i, s.agents[i].(pc := Unlocking, moved := s.content[..n]));
      ReleaseWorks(Record(s, i, s.content[..n]).(bytes := S.Acquired(s.bytes, i, n - 1), content := s.content[n..],
                                        size := s.size - n, read := s.read + s.content[..n]), Space, n);
    } else {
      var n := Min(|role.data|, 1 + s.space.count);
      var bs := role.data[..n];
      WorkUpdate(s.agents, i, s.agents[i].(pc := Unlocking, moved := bs));
      ReleaseWorks(Record(s, i, bs).(space := S.Acquired(s.space, i, n - 1), content := s.content + bs,
                                        size := s.size + n, written := s.written + bs), Bytes, n);
    }
  }

  lemma {:induction false} PlayWorks(s: Sys, schedule: seq<nat>)
    requires Play(s, schedule).Some?
    ensures |schedule| + Work(Play(s, schedule).value.agents) <= Work(s.agents)
    decreases |schedule|
  {
    hide Work, Step;
    if schedule != [] {
      StepWorks(s, schedule[0]);
      PlayWorks(Step(s, schedule[0]).value, schedule[1..]);
    }
  }

  lemma {:induction false} BeginWork(agents: seq<Agent>)
    requires forall i :: 0 <= i < |agents| ==> Segments(agents[i]) == 6
    ensures Work(agents) == 6 * |agents|
  {
    if agents != [] {
      BeginWork(agents[..|agents| - 1]);
    }
  }

  /** So every schedule is finite, six segments for each call at most, and one that cannot go
      on leaves everyone finished, or only readers and an empty pipe, or only writers and a
      full one. */
  lemma EveryScheduleEnds(roles: seq<Role>, schedule: seq<nat>)
    requires Playable(Begin(roles), schedule)
    ensures |schedule| <= 6 * |roles|
    ensures Play(Begin(roles), schedule).Some?
    ensures var t := Play(Begin(roles), schedule).value;
      (forall k: nat :: !CanStep(t, k)) ==>
        || (forall i: nat :: !Unfinished(t, i))
        || (t.content == [] && forall i: nat :: Unfinished(t, i) ==> t.agents[i].role.Reader?)
        || (|t.content| == PIPE_SIZE && forall i: nat :: Unfinished(t, i) ==> t.agents[i].role.Writer?)
  {
    hide Inv, Play, Work, Playable;
    BeginInv(roles);
    BeginWork(Begin(roles).agents);
    PlayKeeps(Begin(roles), schedule);
    PlayWorks(Begin(roles), schedule);
    RestsOnlyWhenOneSided(Play(Begin(roles), schedule).value);
  }
}
