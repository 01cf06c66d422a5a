/** Counting semaphores with a FIFO queue of blocked processes (kernel/src/semaphore.c).

    `Sem` is the value of one semaphore; `Acquired`, `Released` give its value after
    one call. The class `Semaphore` performs the calls in place, with the draining
    loop of the source, and is proved to compute exactly these values.  The laws over
    whole histories (no lost wakeup, FIFO, conservation) are proved about the values. */
module Semaphores {

  const U32: nat := 0x1_0000_0000

  /** A blocked process and the amount it asked for (waiting_for_resource_count). */
  datatype Waiter = Waiter(pid: nat, need: nat)

  datatype Sem = Sem(count: nat, waiting: seq<Waiter>)

  /** After a completed operation nobody waits, or the head's request cannot be met. */
  ghost predicate Settled(s: Sem) {
    s.waiting != [] ==> s.count < s.waiting[0].need
  }

  function Acquired(s: Sem, pid: nat, n: nat): Sem {
    if s.count >= n then s.(count := s.count - n)
    else s.(waiting := s.waiting + [Waiter(pid, n)])
  }

  /** How many waiters the draining loop serves when it starts with `count`. */
  function Served(count: nat, waiting: seq<Waiter>): (k: nat)
    ensures k <= |waiting|
  {
    if waiting == [] || count < waiting[0].need then 0
    else 1 + Served(count - waiting[0].need, waiting[1..])
  }

  /** What the loop leaves of `count`. */
  function Left(count: nat, waiting: seq<Waiter>): nat {
    if waiting == [] || count < waiting[0].need then count
    else Left(count - waiting[0].need, waiting[1..])
  }

  /** The total of a list of requests. */
  function Needs(ws: seq<Waiter>): nat {
    if ws == [] then 0 else ws[0].need + Needs(ws[1..])
  }

  /** The loop serves a prefix, pays exactly for it, and cannot serve one more. */
  lemma {:induction false} DrainPaysForPrefix(count: nat, waiting: seq<Waiter>)
    ensures var k := Served(count, waiting);
      && Left(count, waiting) + Needs(waiting[..k]) == count
      && (k < |waiting| ==> Left(count, waiting) < waiting[k].need)
  {
    if waiting != [] && count >= waiting[0].need {
      DrainPaysForPrefix(count - waiting[0].need, waiting[1..]);
      var k := Served(count - waiting[0].need, waiting[1..]);
      assert waiting[..k + 1][1..] == waiting[1..][..k];
    }
  }

  /** The 32-bit counter after adding `n` (line 40): it wraps. */
  function Added(s: Sem, n: nat): nat {
    (s.count + n) % U32
  }

  lemma AddedSmall(s: Sem, n: nat)
    requires s.count + n < U32
    ensures Added(s, n) == s.count + n
  {
  }

  function Woken(s: Sem, n: nat): seq<Waiter> {
    s.waiting[..Served(Added(s, n), s.waiting)]
  }

  function Released(s: Sem, n: nat): Sem {
    Sem(Left(Added(s, n), s.waiting), s.waiting[Served(Added(s, n), s.waiting)..])
  }

  /** The wake-up set is the longest serviceable FIFO prefix: any prefix within the
      available amount is woken, and no other process is. */
  lemma {:induction false} ReleaseWakesLongestPrefix(s: Sem, n: nat, j: nat)
    requires j <= |s.waiting|
    ensures j <= |Woken(s, n)| <==> Needs(s.waiting[..j]) <= Added(s, n)
    ensures s.waiting == Woken(s, n) + Released(s, n).waiting
    ensures Settled(Released(s, n))
  {
    var w, k := s.waiting, Served(Added(s, n), s.waiting);
    DrainPaysForPrefix(Added(s, n), w);
    if k < |w| {
      assert w[..k + 1] == w[..k] + [w[k]];
      NeedsConcat(w[..k], [w[k]]);
    }
    if j <= k {
      NeedsMonotone(w, j, k);
    } else {
      NeedsMonotone(w, k + 1, j);
    }
  }

  lemma {:induction false} NeedsConcat(a: seq<Waiter>, b: seq<Waiter>)
    ensures Needs(a + b) == Needs(a) + Needs(b)
  {
    if a == [] {
      assert a + b == b;
    } else {
      NeedsConcat(a[1..], b);
      assert (a + b)[1..] == a[1..] + b;
    }
  }

  lemma {:induction false} NeedsMonotone(w: seq<Waiter>, i: nat, j: nat)
    requires i <= j <= |w|
    ensures Needs(w[..i]) <= Needs(w[..j])
  {
    assert w[..j] == w[..i] + w[i..j];
    NeedsConcat(w[..i], w[i..j]);
  }

  // ----- histories -----

  datatype Call = Acquire(pid: nat, n: nat) | Release(n: nat)

  function After(s: Sem, c: Call): Sem {
    match c
    case Acquire(pid, n) => Acquired(s, pid, n)
    case Release(n) => Released(s, n)
  }

  /** Totals of one history, counted from its calls: amounts handed out at once,
      requests that blocked (in order), requests served later (in order), amounts
      released, and how often the 32-bit counter wrapped. */
  datatype Ledger = Ledger(end: Sem, atOnce: nat, blocked: seq<Waiter>, served: seq<Waiter>, released: nat, wraps: nat)

  function Recorded(h: Ledger, c: Call): Ledger {
    match c
    case Acquire(pid, n) =>
      if h.end.count >= n then h.(end := After(h.end, c), atOnce := h.atOnce + n)
      else h.(end := After(h.end, c), blocked := h.blocked + [Waiter(pid, n)])
    case Release(n) =>
      h.(end := After(h.end, c), served := h.served + Woken(h.end, n), released := h.released + n,
         wraps := h.wraps + (h.end.count + n) / U32)
  }

  function History(s: Sem, calls: seq<Call>): Ledger {
    if calls == [] then Ledger(s, 0, [], [], 0, 0)
    else Recorded(History(s, calls[..|calls| - 1]), calls[|calls| - 1])
  }

  ghost predicate Balanced(h: Ledger, initial: nat) {
    && h.end.count + h.atOnce + Needs(h.served) + h.wraps * U32 == initial + h.released
    && h.end.count < U32
  }

  lemma RecordedBalances(h: Ledger, c: Call, initial: nat)
    requires Balanced(h, initial)
    ensures Balanced(Recorded(h, c), initial)
  {
    if c.Release? {
      NeedsConcat(h.served, Woken(h.end, c.n));
      DrainPaysForPrefix(Added(h.end, c.n), h.end.waiting);
      assert h.end.count + c.n == (h.end.count + c.n) / U32 * U32 + Added(h.end, c.n);
    }
  }

  /** Over every history of a fresh semaphore: no wakeup is lost, and blocked requests
      are served in the order they blocked, the unserved ones being the queue. */
  lemma {:induction false} HistoryIsFifo(initial: nat, calls: seq<Call>)
    ensures var h := History(Sem(initial, []), calls);
            Settled(h.end) && h.blocked == h.served + h.end.waiting
  {
    if calls != [] {
      var front, c := calls[..|calls| - 1], calls[|calls| - 1];
      HistoryIsFifo(initial, front);
      hide Served, Left;
      var h := History(Sem(initial, []), front);
      if c.Release? {
        ReleaseWakesLongestPrefix(h.end, c.n, 0);
        assert h.served + h.end.waiting == h.served + Woken(h.end, c.n) + After(h.end, c).waiting;
      }
    }
  }

  /** Conservation, for every history: what is in the counter and what was granted add
      up to the initial count and what was released, less 2^32 for each wrap. */
  lemma {:induction false} HistoryConserves(initial: nat, calls: seq<Call>)
    requires initial < U32
    ensures Balanced(History(Sem(initial, []), calls), initial)
  {
    if calls != [] {
      HistoryConserves(initial, calls[..|calls| - 1]);
      RecordedBalances(History(Sem(initial, []), calls[..|calls| - 1]), calls[|calls| - 1], initial);
    }
  }

  /** So nothing is lost or invented exactly in the histories where no release wraps. */
  lemma ConservedIffNoWrap(initial: nat, calls: seq<Call>)
    requires initial < U32
    ensures var h := History(Sem(initial, []), calls);
            h.end.count + h.atOnce + Needs(h.served) == initial + h.released <==> h.wraps == 0
  {
    HistoryConserves(initial, calls);
  }

  /** And some do: one release past the top of the counter loses 2^32. */
  lemma OneReleaseCanWrap()
    ensures History(Sem(U32 - 1, []), [Release(1)]).wraps == 1
  {
  }

  /** semaphore_t itself. */
  class Semaphore {
    var count: nat
    var waiting: seq<Waiter>

    function View(): Sem
      reads this
    {
      Sem(count, waiting)
    }

    constructor (initial: nat)
      requires initial < U32
      ensures View() == Sem(initial, [])
    {
      count := initial;
      waiting := [];
    }

    /** `granted` is false when the caller was queued and must give up the CPU. */
    method Acquire(pid: nat, n: nat) returns (granted: bool)
      modifies this
      ensures View() == Acquired(old(View()), pid, n)
      ensures granted <==> old(count) >= n
      ensures old(Settled(View())) ==> Settled(View())
    {
      if count >= n {
        count := count - n;
        granted := true;
      } else {
        waiting := waiting + [Waiter(pid, n)];
        granted := false;
      }
    }

    /** The draining loop: pops the head while its request fits. */
    method Release(n: nat) returns (woken: seq<Waiter>)
      modifies this
      ensures View() == Released(old(View()), n)
      ensures woken == Woken(old(View()), n)
      ensures Settled(View())
    {
      hide Added;
      ghost var before := View();
      ghost var start := Added(before, n);
      count := Added(Sem(count, waiting), n);
      woken := [];
      ghost var k := 0;
      ghost var all := before.waiting;
      while |waiting| > 0 && count >= waiting[0].need
        invariant k <= |all| && waiting == all[k..] && woken == all[..k]
        invariant Served(start, all) == k + Served(count, waiting)
        invariant Left(start, all) == Left(count, waiting)
        decreases |waiting|
      {
        assert all[..k + 1] == all[..k] + [all[k]] && all[k..][1..] == all[k + 1..];
        count := count - waiting[0].need;
        woken := woken + [waiting[0]];
        waiting := waiting[1..];
        k := k + 1;
      }
    }
  }
}
