/** The intrusive linked queue of processes (kernel/src/process/process_queue.c), link by
    link.  `items` is the sequence a queue stands for; the scheduler model works on such
    sequences. */
module ProcessQueues {
  import opened Common

  class Process {
    const id: int
    var sleepTicks: nat
    var queueNext: Process?

    constructor (id: int)
      ensures this.id == id
    {
      this.id := id;
      sleepTicks := 0;
      queueNext := null;
    }
  }

  /** process_sort_by_sleep_ticks */
  predicate Earlier(a: Process, b: Process)
    reads a, b
  {
    a.sleepTicks < b.sleepTicks
  }

  ghost predicate Sorted(q: seq<Process>)
    reads q
  {
    forall i, j :: 0 <= i < j < |q| ==> q[i].sleepTicks <= q[j].sleepTicks
  }

  class Queue {
    var top: Process?
    var bottom: Process?
    var size: nat
    ghost var items: seq<Process>

    /** The links spell `items`; an empty queue may keep a stale bottom, as after pop. */
    ghost predicate Valid()
      reads this, items
    {
      && NoDup(items)
      && size == |items|
      && (items == [] ==> top == null)
      && (items != [] ==> top == items[0] && bottom == items[|items| - 1])
      && (forall i :: 0 <= i < |items| - 1 ==> items[i].queueNext == items[i + 1])
      && (items != [] ==> items[|items| - 1].queueNext == null)
    }

    constructor ()
      ensures Valid() && items == []
    {
      top, bottom, size := null, null, 0;
      items := [];
    }

    method Push(proc: Process)
      requires Valid() && proc !in items
      modifies this, proc`queueNext, items`queueNext
      ensures Valid() && items == old(items) + [proc]
    {
      proc.queueNext := null;
      if top == null {
        top := proc;
      } else {
        bottom.queueNext := proc;
      }
      bottom := proc;
      size := size + 1;
      items := items + [proc];
    }

    /** Null on an empty queue; the popped process keeps its stale link. */
    method Pop() returns (head: Process?)
      requires Valid()
      modifies this
      ensures Valid()
      ensures old(items) == [] ==> head == null && items == []
      ensures old(items) != [] ==> head == old(items)[0] && items == old(items)[1..]
    {
      head := top;
      if head == null {
        return;
      }
      if head == bottom {
        top := null;
        assert |items| == 1;
      } else {
        top := top.queueNext;
      }
      size := size - 1;
      items := items[1..];
    }

    /** Inserts before the first process that is not strictly earlier; `at` is where. */
    method SortedPush(proc: Process) returns (ghost at: nat)
      requires Valid() && proc !in items
      modifies this, proc`queueNext, items`queueNext
      ensures Valid() && at <= |old(items)|
      ensures items == old(items)[..at] + [proc] + old(items)[at..]
      ensures forall i :: 0 <= i < at ==> Earlier(old(items)[i], proc)
      ensures at < |old(items)| ==> !Earlier(old(items)[at], proc)
    {
      if top == null || !Earlier(top, proc) {
        at := 0;
        PushFront(proc);
      } else {
        var prev;
        prev, at := LastEarlier(proc);
        InsertAfter(prev, proc, at);
      }
    }

    method PushFront(proc: Process)
      requires Valid() && proc !in items
      modifies this, proc`queueNext
      ensures Valid() && items == [proc] + old(items)
    {
      if top == null {
        proc.queueNext := null;
        top, bottom := proc, proc;
      } else {
        proc.queueNext := top;
        top := proc;
      }
      size := size + 1;
      items := [proc] + items;
    }

    method InsertAfter(prev: Process, proc: Process, ghost at: nat)
      requires Valid() && proc !in items
      requires 1 <= at <= |items| && prev == items[at - 1]
      modifies this, proc`queueNext, items`queueNext
      ensures Valid() && items == old(items)[..at] + [proc] + old(items)[at..]
    {
      Link(items, proc, at);
      assert prev.queueNext == if at < |items| then items[at] else null;
      if prev.queueNext == null {
        bottom := proc;
      }
      proc.queueNext := prev.queueNext;
      prev.queueNext := proc;
      size := size + 1;
      items := items[..at] + [proc] + items[at..];
    }

    /** The search loop: the last of the leading strictly earlier processes. */
    method LastEarlier(proc: Process) returns (prev: Process, ghost at: nat)
      requires Valid() && items != [] && Earlier(items[0], proc)
      ensures 1 <= at <= |items| && prev == items[at - 1]
      ensures prev.queueNext == (if at < |items| then items[at] else null)
      ensures forall i :: 0 <= i < at ==> Earlier(items[i], proc)
      ensures at < |items| ==> !Earlier(items[at], proc)
    {
      prev, at := top, 1;
      while prev.queueNext != null && Earlier(prev.queueNext, proc)
        invariant 1 <= at <= |items| && prev == items[at - 1]
        invariant forall i :: 0 <= i < at ==> Earlier(items[i], proc)
        decreases |items| - at
      {
        prev := prev.queueNext;
        at := at + 1;
      }
    }
  }

  lemma Link(q: seq<Process>, proc: Process, at: nat)
    requires at <= |q| && NoDup(q) && proc !in q
    ensures var r := q[..at] + [proc] + q[at..];
      && |r| == |q| + 1 && NoDup(r)
      && (forall i :: 0 <= i < |r| ==> r[i] == if i < at then q[i] else if i == at then proc else q[i - 1])
  {
  }

  /** A sorted queue stays sorted: the insertion point fixed by SortedPush is right. */
  lemma InsertionKeepsOrder(q: seq<Process>, proc: Process, at: nat)
    requires Sorted(q) && at <= |q|
    requires forall i :: 0 <= i < at ==> Earlier(q[i], proc)
    requires at < |q| ==> !Earlier(q[at], proc)
    ensures Sorted(q[..at] + [proc] + q[at..])
  {
  }
}
