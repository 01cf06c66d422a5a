/** The allocation-table code of fat32.c, rewriting entries and the fsinfo counters in
    place.  `chains` is the set of cluster chains the table stands for. */
module FatObject {
  import opened Common
  import opened FatChains

  const UNKNOWN: nat := 0xffffffff

  class FatTable {
    var fat: Fat
    var freeCount: nat     // fsinfo.free_cluster_count
    var hint: nat          // fsinfo.available_clusters_start
    ghost var chains: set<seq<nat>>

    /** The cached counter is what a full scan would find. */
    ghost predicate Valid()
      reads this
    {
      Rep(fat, chains) && hint >= 2 && freeCount == CountFree(fat, 2)
    }

    /** Mounting: where the volume's information sector does not know the count or the hint
        (0xffffffff), the count is taken by a full scan and the hint is the first cluster.
        What is recorded is believed: the table is in order exactly if that was. */
    constructor Mount(fat: Fat, storedCount: nat, storedStart: nat, ghost chains: set<seq<nat>>)
      requires Rep(fat, chains)
      ensures this.fat == fat && this.chains == chains
      ensures freeCount == if storedCount == UNKNOWN then CountFree(fat, 2) else storedCount
      ensures Valid() <==> (storedCount == UNKNOWN || storedCount == CountFree(fat, 2)) && storedStart >= 2
      ensures hint == if storedStart == UNKNOWN then 2 else storedStart
    {
      hide Rep;
      this.fat, this.chains := fat, chains;
      hint := if storedStart == UNKNOWN then 2 else storedStart;
      freeCount := storedCount;
      new;
      if storedCount == UNKNOWN {
        var n := CountFreeClusters();
        freeCount := n;
      }
    }

    /** count_free_cluster */
    method CountFreeClusters() returns (n: nat)
      ensures n == CountFree(fat, 2)
    {
      n := 0;
      var i := 2;
      while i < |fat|
        invariant i >= 2
        invariant n + CountFree(fat, i) == CountFree(fat, 2)
      {
        if fat[i] == FREE {
          n := n + 1;
        }
        i := i + 1;
      }
    }

    /** fat32_allocate_clusters.  The scan has no end test, so it stays inside the table
        exactly when n clusters are free at or after the hint. */
    method Allocate(n: nat) returns (start: nat)
      requires Valid() && CountFree(fat, hint) >= n
      modifies this
      ensures Valid()
      ensures n == 0 ==> start == 0 && fat == old(fat) && chains == old(chains) && hint == old(hint)
      ensures n > 0 ==>
        var t := Picked(old(fat), old(hint), n);
        && start == t[0] && hint == t[n - 1] && t !in old(chains)
        && chains == old(chains) + {t}
        && fat == Linked(old(fat), t)
      ensures freeCount == old(freeCount) - n
    {
      hide Rep, Links, Linked, Picked, CountFree, Scanned, NoDup;
      ghost var fat0, all := fat, Picked(fat, hint, n);
      ScanStart(fat, hint, n);
      var current;
      start, current := LinkFree(n, all);
      ScanFinish(fat0, all, all, current + 1, chains);
      if start == 0 {
        return;
      }
      fat := fat[current := EOC];
      hint := current;
      freeCount := freeCount - n;
      chains := chains + {all};
    }

    /** The scanning loop: n free clusters, each linked to the one after it. */
    method LinkFree(n: nat, ghost all: seq<nat>) returns (start: nat, current: int)
      requires Scanned(fat, all, [], hint, n) && Links(fat, []) == fat
      modifies `fat
      ensures current >= -1 && Scanned(old(fat), all, all, current + 1, 0)
      ensures InRange(old(fat), all) && |all| == n && fat == Links(old(fat), all)
      ensures if n == 0 then start == 0 else start == all[0] && current == all[n - 1]
    {
      hide Links, Scanned;
      ghost var fat0 := fat;
      ghost var t: seq<nat> := [];
      var left: nat, prev: nat := n, 0;
      start, current := 0, hint;
      while left > 0
        invariant current >= 0 && Scanned(fat0, all, t, current, left) && left + |t| == n
        invariant InRange(fat0, t) && fat == Links(fat0, t)
        invariant t == [] ==> start == 0
        invariant t != [] ==> start == t[0] && prev == t[|t| - 1]
        invariant left == 0 && n > 0 ==> current == prev + 1
        decreases |fat0| - current
      {
        ScanStep(fat0, all, t, current, left);
        if fat[current] == FREE {
          if start == 0 {
            start := current;
          } else {
            fat := fat[prev := current];
          }
          prev := current;
          left := left - 1;
          t := t + [current];
        }
        current := current + 1;
      }
      ScanDone(fat0, all, t, current);
      current := current - 1;
    }

    /** expand_cluster_chain, called with the last cluster of a chain. */
    method Expand(end: nat, ghost c: seq<nat>, n: nat) returns (start: nat)
      requires Valid() && CountFree(fat, hint) >= n
      requires c in chains && c != [] && end == c[|c| - 1]
      modifies this
      ensures Valid() && freeCount == old(freeCount) - n
      ensures n == 0 ==> start == 0 && fat == old(fat) && chains == old(chains)
      ensures n > 0 ==>
        var t := Picked(old(fat), old(hint), n);
        start == t[0] && chains == old(chains) - {c} + {c + t}
    {
      hide Rep, Links, Linked, Picked, CountFree, NoDup;
      ghost var before := chains;
      ghost var t := Picked(fat, hint, n);
      start := Allocate(n);
      if start == 0 {
        return;
      }
      ExpandRep(fat, before, c, t);
      assert before - {c} - {t} + {c + t} == before - {c} + {c + t};
      RepHas(fat, chains, c);
      LastIsMarked(fat, c);
      CountUpdate(fat, 2, end, start);
      fat := fat[end := start];
      chains := before - {c} + {c + t};
    }

    /** free_cluster_chain on the chain c, which starts at `start`. */
    method FreeClusters(start: nat, ghost c: seq<nat>)
      requires IsChain(fat, c) && start == c[0] && |fat| <= BAD && hint >= 2
      modifies `fat, `freeCount, `hint
      ensures fat == Cleared(old(fat), c)
      ensures freeCount == old(freeCount) + |c|
      ensures hint == if start < old(hint) then start else old(hint)
    {
      hide Cleared;
      ghost var fat0 := fat;
      var current, count := start, freeCount;
      ghost var j := 0;
      ClearedNone(fat0);
      while current < EOC && current != BAD
        invariant j <= |c| && fat == Cleared(fat0, c[..j])
        invariant j < |c| ==> current == c[j]
        invariant j == |c| ==> current >= EOC
        invariant count == freeCount + j
        invariant hint == old(hint) && freeCount == old(freeCount)
        decreases |c| - j
      {
        ClearedIs(fat0, c[..j]);
        assert c[j] !in c[..j];
        ChainEntries(fat0, c, j);
        ClearedSnoc(fat0, c, j);
        var next := fat[current];
        fat := fat[current := FREE];
        current := next;
        count := count + 1;
        j := j + 1;
      }
      assert c[..j] == c by { ChainSmall(fat0, c, j); }
      if start < hint {
        hint := start;
      }
      freeCount := count;
    }

    method Free(start: nat, ghost c: seq<nat>)
      requires Valid() && c in chains && c != [] && start == c[0]
      modifies this
      ensures Valid() && chains == old(chains) - {c}
      ensures freeCount == old(freeCount) + |c|
      ensures fat == Cleared(old(fat), c)
    {
      hide Rep, IsChain, Cleared;
      RepHas(fat, chains, c);
      FreeRep(fat, chains, c);
      ChainNotFree(fat, c);
      ClearedCount(fat, c);
      FreeClusters(start, c);
      chains := chains - {c};
    }

    /** cut_cluster_chain at position j of chain c. */
    method Cut(cluster: nat, ghost c: seq<nat>, ghost j: nat)
      requires Valid() && c in chains && j < |c| && cluster == c[j]
      modifies this
      ensures Valid() && chains == old(chains) - {c} + {c[..j + 1]}
      ensures freeCount == old(freeCount) + |c| - (j + 1)
    {
      hide Rep, Cleared, IsChain, CountFree, NoDup;
      RepHas(fat, chains, c);
      ChainEntries(fat, c, j);
      var next := fat[cluster];
      if next >= EOC {
        assert c[..j + 1] == c;
        assert chains - {c} + {c} == chains;
        return;
      }
      CutPlan(fat, chains, c, j);
      ghost var rest := c[j + 1..];
      FreeClusters(next, rest);
      fat := fat[cluster := EOC];
      chains := chains - {c} + {c[..j + 1]};
    }

    /** fat32_get_last_cluster_of_chain, from any cluster of chain c. */
    method GetLast(start: nat, ghost c: seq<nat>, ghost j: nat) returns (last: nat)
      requires Valid() && c in chains && j < |c| && start == c[j]
      ensures last == c[|c| - 1]
    {
      hide Rep;
      RepHas(fat, chains, c);
      last := start;
      ghost var i := j;
      ChainEntries(fat, c, i);
      var next := fat[last];
      while next < EOC && next != BAD
        invariant i < |c| && last == c[i] && next == fat[last]
        decreases |c| - i
      {
        ChainEntries(fat, c, i);
        last := next;
        i := i + 1;
        next := fat[last];
      }
      ChainEntries(fat, c, i);
    }
  }

  /** The allocating scan stands at `current`, has taken t and will take the rest of all. */
  ghost predicate Scanned(fat: Fat, all: seq<nat>, t: seq<nat>, current: nat, left: nat) {
    && current >= 2 && CountFree(fat, current) >= left && all == t + Taken(fat, current, left)
    && InRange(fat, t)
    && (forall i :: 0 <= i < |t| ==> fat[t[i]] == FREE && t[i] < current)
    && (forall i, j :: 0 <= i < j < |t| ==> t[i] < t[j])
  }

  /** The clusters an allocation takes: the first n free ones at or after the hint. */
  function Picked(fat: Fat, from: nat, n: nat): (t: seq<nat>)
    requires from >= 2 && CountFree(fat, from) >= n
    ensures |t| == n && InRange(fat, t)
  {
    Taken(fat, from, n)
  }

  lemma ScanStart(fat: Fat, hint: nat, n: nat)
    requires CountFree(fat, hint) >= n && hint >= 2
    ensures Scanned(fat, Picked(fat, hint, n), [], hint, n) && Links(fat, []) == fat
  {
  }

  lemma ScanHere(fat: Fat, all: seq<nat>, t: seq<nat>, current: nat, left: nat)
    requires Scanned(fat, all, t, current, left) && left > 0
    ensures 2 <= current < |fat| && InRange(fat, t) && NoDup(t) && current !in t
  {
  }

  lemma ScanTake(fat: Fat, all: seq<nat>, t: seq<nat>, current: nat, left: nat)
    requires Scanned(fat, all, t, current, left) && left > 0 && current < |fat| && fat[current] == FREE
    ensures Scanned(fat, all, t + [current], current + 1, left - 1)
  {
  }

  lemma ScanSkip(fat: Fat, all: seq<nat>, t: seq<nat>, current: nat, left: nat)
    requires Scanned(fat, all, t, current, left) && left > 0 && current < |fat| && fat[current] != FREE
    ensures Scanned(fat, all, t, current + 1, left)
  {
  }

  lemma ScanStep(fat: Fat, all: seq<nat>, t: seq<nat>, current: nat, left: nat)
    requires Scanned(fat, all, t, current, left) && left > 0
    ensures 2 <= current < |fat| && InRange(fat, t) && Links(fat, t)[current] == fat[current]
    ensures fat[current] != FREE ==> Scanned(fat, all, t, current + 1, left)
    ensures fat[current] == FREE ==>
      && Scanned(fat, all, t + [current], current + 1, left - 1)
      && InRange(fat, t + [current])
      && (t == [] || 2 <= t[|t| - 1] < |fat|) && (t != [] ==> t[0] >= 2)
      && Links(fat, t + [current]) == if t == [] then Links(fat, t) else Links(fat, t)[t[|t| - 1] := current]
  {
    hide CountFree, Taken, Links, Scanned;
    ScanHere(fat, all, t, current, left);
    LinksIs(fat, t);
    if fat[current] == FREE {
      ScanTake(fat, all, t, current, left);
      LinksSnoc(fat, t, current);
    } else {
      ScanSkip(fat, all, t, current, left);
    }
  }

  /** The scan took everything it was to take; marking the last cluster makes it a chain. */
  lemma ScanFinish(fat: Fat, all: seq<nat>, t: seq<nat>, current: nat, chains: set<seq<nat>>)
    requires Scanned(fat, all, t, current, 0) && Rep(fat, chains)
    ensures all == t && InRange(fat, t)
    ensures t == [] ==> Links(fat, t) == fat
    ensures t != [] ==>
      && 2 <= t[0] && t[|t| - 1] < |fat|
      && Linked(fat, t) == Links(fat, t)[t[|t| - 1] := EOC]
      && CountFree(Linked(fat, t), 2) == CountFree(fat, 2) - |t|
      && t !in chains && Rep(Linked(fat, t), chains + {t})
  {
    hide Rep, Links, Linked, CountFree, Scanned;
    ScanDone(fat, all, t, current);
    if t == [] {
      LinksNone(fat);
    } else {
      LinkedLast(fat, t);
      LinkedCount(fat, t);
      AllocateRep(fat, chains, t);
      assert t[0] in t;
    }
  }

  lemma ScanDone(fat: Fat, all: seq<nat>, t: seq<nat>, current: nat)
    requires Scanned(fat, all, t, current, 0)
    ensures all == t && InRange(fat, t) && NoDup(t)
    ensures forall i :: 0 <= i < |t| ==> fat[t[i]] == FREE
  {
  }

  lemma LinksSnoc(fat: Fat, t: seq<nat>, x: nat)
    requires InRange(fat, t) && 2 <= x < |fat|
    ensures InRange(fat, t + [x])
    ensures Links(fat, t + [x]) == if t == [] then fat else Links(fat, t)[t[|t| - 1] := x]
    ensures t == [] ==> Links(fat, t) == fat
  {
    RangeSnoc(fat, t, x);
    hide InRange;
    var u := t + [x];
    assert u[..|u| - 1] == t && u[|u| - 1] == x;
    if t != [] {
      assert u[|u| - 2] == t[|t| - 1];
    }
  }

  lemma RangeSnoc(fat: Fat, t: seq<nat>, x: nat)
    requires InRange(fat, t) && 2 <= x < |fat|
    ensures InRange(fat, t + [x]) && (t == [] || t[|t| - 1] < |fat|)
  {
  }

  lemma LinksNone(fat: Fat)
    ensures Links(fat, []) == fat
  {
  }

  lemma LinkedLast(fat: Fat, t: seq<nat>)
    requires InRange(fat, t) && t != []
    ensures Linked(fat, t) == Links(fat, t)[t[|t| - 1] := EOC]
  {
  }

  lemma LastIsMarked(fat: Fat, c: seq<nat>)
    requires IsChain(fat, c)
    ensures fat[c[|c| - 1]] != FREE
  {
  }

  lemma ClearedNone(fat: Fat)
    ensures Cleared(fat, []) == fat
  {
  }

  lemma ClearedSnoc(fat: Fat, c: seq<nat>, j: nat)
    requires InRange(fat, c) && j < |c|
    ensures Cleared(fat, c[..j + 1]) == Cleared(fat, c[..j])[c[j] := FREE]
  {
    assert c[..j + 1][..j] == c[..j];
  }

  lemma ChainSmall(fat: Fat, c: seq<nat>, j: nat)
    requires IsChain(fat, c) && |fat| <= BAD && j <= |c|
    requires j < |c| ==> c[j] >= EOC || c[j] == BAD
    ensures c[..j] == c
  {
  }

  lemma ChainNotFree(fat: Fat, c: seq<nat>)
    requires IsChain(fat, c) && |fat| <= BAD
    ensures NoDup(c) && InRange(fat, c)
    ensures forall i :: 0 <= i < |c| ==> fat[c[i]] != FREE
  {
    forall i: nat | i < |c| ensures fat[c[i]] != FREE {
      ChainEntries(fat, c, i);
    }
  }

  /** What freeing the rest of a chain and marking its new end does. */
  lemma CutPlan(fat: Fat, chains: set<seq<nat>>, c: seq<nat>, j: nat)
    requires Rep(fat, chains) && c in chains && j + 1 < |c|
    ensures var rest := c[j + 1..];
      && IsChain(fat, rest) && rest[0] == c[j + 1] && InRange(fat, rest) && c[j] < |fat| <= BAD
      && Rep(Cleared(fat, rest)[c[j] := EOC], chains - {c} + {c[..j + 1]})
      && CountFree(Cleared(fat, rest)[c[j] := EOC], 2) == CountFree(fat, 2) + |c| - (j + 1)
  {
    hide Rep, Cleared, IsChain, CountFree, NoDup;
    var rest := c[j + 1..];
    RepHas(fat, chains, c);
    CutRep(fat, chains, c, j);
    TailChain(fat, c, j + 1);
    ChainNotFree(fat, rest);
    ClearedCount(fat, rest);
    ClearedIs(fat, rest);
    CutApart(fat, c, j);
    ChainEntries(fat, c, j);
    CountUpdate(Cleared(fat, rest), 2, c[j], EOC);
  }

  lemma CutApart(fat: Fat, c: seq<nat>, j: nat)
    requires IsChain(fat, c) && j < |c|
    ensures c[j] !in c[j + 1..]
  {
  }

  lemma TailChain(fat: Fat, c: seq<nat>, j: nat)
    requires IsChain(fat, c) && j < |c|
    ensures IsChain(fat, c[j..]) && c[j..][0] == c[j]
  {
  }
}
