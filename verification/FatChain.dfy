/** The FAT32 allocation table as a set of disjoint cluster chains (kernel/src/filesystem/
    fat32.c, following "FAT Data Structure" of the Microsoft FAT32 specification): what
    linking and clearing entries does to the chains and to the number of free clusters. */
module FatChains {
  import opened Common

  const FREE: nat := 0
  const BAD: nat := 0x0ffffff7
  const EOC: nat := 0x0ffffff8

  /** The 28-bit entries, indexed by cluster; clusters are numbered from 2. */
  type Fat = seq<nat>

  ghost predicate InRange(fat: Fat, c: seq<nat>) {
    forall i :: 0 <= i < |c| ==> 2 <= c[i] < |fat|
  }

  /** Entry after entry, `c` leads to an end-of-chain mark without meeting a cluster twice. */
  ghost predicate IsChain(fat: Fat, c: seq<nat>) {
    && c != [] && NoDup(c) && InRange(fat, c)
    && (forall i, j :: 0 <= i < j < |c| && j == i + 1 ==> fat[c[i]] == c[j])
    && fat[c[|c| - 1]] >= EOC
  }

  ghost predicate Owned(chains: set<seq<nat>>, x: nat) {
    exists c :: c in chains && x in c
  }

  ghost predicate Disjoint(chains: set<seq<nat>>) {
    forall c, d, x :: c in chains && d in chains && x in c && x in d ==> c == d
  }

  /** The table is exactly these chains; every other cluster is free or marked bad. */
  ghost predicate Rep(fat: Fat, chains: set<seq<nat>>) {
    && |fat| <= BAD
    && (forall c :: c in chains ==> IsChain(fat, c))
    && Disjoint(chains)
    && (forall x :: 2 <= x < |fat| && !Owned(chains, x) ==> fat[x] == FREE || fat[x] == BAD)
  }

  // ----- counting free clusters -----

  /** Free clusters at or after `from`; from 2, the full scan of count_free_cluster. */
  function CountFree(fat: Fat, from: nat): (n: nat)
    decreases |fat| - from
  {
    if from >= |fat| then 0 else (if fat[from] == FREE then 1 else 0) + CountFree(fat, from + 1)
  }

  lemma {:induction false} CountUpdate(fat: Fat, from: nat, x: nat, v: nat)
    requires from <= x < |fat|
    ensures CountFree(fat[x := v], from) ==
      CountFree(fat, from) - (if fat[x] == FREE then 1 else 0) + (if v == FREE then 1 else 0)
    decreases |fat| - from
  {
    if from < x {
      CountUpdate(fat, from + 1, x, v);
    } else {
      CountAbove(fat, fat[x := v], x + 1);
    }
  }

  lemma {:induction false} CountAbove(fat: Fat, fat': Fat, from: nat)
    requires |fat| == |fat'| && forall x :: from <= x < |fat| ==> fat[x] == fat'[x]
    ensures CountFree(fat, from) == CountFree(fat', from)
    decreases |fat| - from
  {
    if from < |fat| {
      CountAbove(fat, fat', from + 1);
    }
  }

  // ----- allocation -----

  /** The first n free clusters at or after `from`, in order. */
  function Taken(fat: Fat, from: nat, n: nat): (t: seq<nat>)
    requires CountFree(fat, from) >= n
    ensures |t| == n
    ensures forall i :: 0 <= i < n ==> from <= t[i] < |fat| && fat[t[i]] == FREE
    ensures forall i, j :: 0 <= i < j < n ==> t[i] < t[j]
    decreases |fat| - from
  {
    if n == 0 then []
    else if fat[from] == FREE then [from] + Taken(fat, from + 1, n - 1)
    else Taken(fat, from + 1, n)
  }

  /** No free cluster between `from` and the last one taken is passed over. */
  lemma {:induction false} TakenIsFirst(fat: Fat, from: nat, n: nat, x: nat)
    requires CountFree(fat, from) >= n > 0
    requires from <= x <= Taken(fat, from, n)[n - 1] && fat[x] == FREE
    ensures x in Taken(fat, from, n)
    decreases |fat| - from
  {
    if fat[from] == FREE {
      if x != from {
        assert n > 1;
        TakenIsFirst(fat, from + 1, n - 1, x);
      }
    } else {
      TakenIsFirst(fat, from + 1, n, x);
    }
  }

  /** Each cluster of t points to the next; the last one is still unmarked. */
  function Links(fat: Fat, t: seq<nat>): (r: Fat)
    requires InRange(fat, t)
    ensures |r| == |fat|
  {
    if |t| <= 1 then fat
    else Links(fat, t[..|t| - 1])[t[|t| - 2] := t[|t| - 1]]
  }

  function Linked(fat: Fat, t: seq<nat>): (r: Fat)
    requires InRange(fat, t) && t != []
    ensures |r| == |fat|
  {
    Links(fat, t)[t[|t| - 1] := EOC]
  }

  lemma {:induction false} LinksIs(fat: Fat, t: seq<nat>)
    requires InRange(fat, t) && NoDup(t)
    ensures forall x :: 0 <= x < |fat| && x !in t ==> Links(fat, t)[x] == fat[x]
    ensures forall i, j :: 0 <= i < j < |t| && j == i + 1 ==> Links(fat, t)[t[i]] == t[j]
    ensures t != [] ==> Links(fat, t)[t[|t| - 1]] == fat[t[|t| - 1]]
  {
    if |t| > 1 {
      var n := |t| - 1;
      var s := t[..n];
      LinksIs(fat, s);
      var l := Links(fat, s);
      assert Links(fat, t) == l[t[n - 1] := t[n]];
      hide Links;
      assert t == s + [t[n]];
      assert t[n] !in s;
      forall i, j | 0 <= i < j < |t| && j == i + 1 ensures Links(fat, t)[t[i]] == t[j] {
        if j < n {
          assert s[i] == t[i] && s[j] == t[j] && t[i] != t[n - 1];
        }
      }
    }
  }

  lemma {:induction false} LinksCount(fat: Fat, t: seq<nat>)
    requires InRange(fat, t) && NoDup(t) && forall i :: 0 <= i < |t| ==> fat[t[i]] == FREE
    ensures CountFree(Links(fat, t), 2) == CountFree(fat, 2) - (if t == [] then 0 else |t| - 1)
  {
    if |t| > 1 {
      var s := t[..|t| - 1];
      LinksCount(fat, s);
      LinksIs(fat, s);
      CountUpdate(Links(fat, s), 2, t[|t| - 2], t[|t| - 1]);
    }
  }

  /** A freshly linked chain, and everything else as before. */
  lemma LinkedIs(fat: Fat, t: seq<nat>)
    requires InRange(fat, t) && NoDup(t) && t != []
    ensures IsChain(Linked(fat, t), t)
    ensures forall x :: 0 <= x < |fat| && x !in t ==> Linked(fat, t)[x] == fat[x]
  {
    LinksIs(fat, t);
    hide Links;
    forall i, j | 0 <= i < j < |t| && j == i + 1 ensures Linked(fat, t)[t[i]] == t[j] {
      assert t[i] != t[|t| - 1];
    }
  }

  lemma LinkedCount(fat: Fat, t: seq<nat>)
    requires InRange(fat, t) && NoDup(t) && t != [] && forall i :: 0 <= i < |t| ==> fat[t[i]] == FREE
    ensures CountFree(Linked(fat, t), 2) == CountFree(fat, 2) - |t|
  {
    LinksCount(fat, t);
    LinksIs(fat, t);
    CountUpdate(Links(fat, t), 2, t[|t| - 1], EOC);
  }

  // ----- freeing -----

  function Cleared(fat: Fat, c: seq<nat>): (r: Fat)
    requires InRange(fat, c)
    ensures |r| == |fat|
  {
    if c == [] then fat else Cleared(fat, c[..|c| - 1])[c[|c| - 1] := FREE]
  }

  lemma {:induction false} ClearedIs(fat: Fat, c: seq<nat>)
    requires InRange(fat, c)
    ensures forall x :: 0 <= x < |fat| ==> Cleared(fat, c)[x] == if x in c then FREE else fat[x]
  {
    if c != [] {
      var s := c[..|c| - 1];
      ClearedIs(fat, s);
      assert c == s + [c[|c| - 1]];
    }
  }

  lemma {:induction false} ClearedCount(fat: Fat, c: seq<nat>)
    requires InRange(fat, c) && NoDup(c) && forall i :: 0 <= i < |c| ==> fat[c[i]] != FREE
    ensures CountFree(Cleared(fat, c), 2) == CountFree(fat, 2) + |c|
  {
    if c != [] {
      var s := c[..|c| - 1];
      ClearedCount(fat, s);
      ClearedIs(fat, s);
      CountUpdate(Cleared(fat, s), 2, c[|c| - 1], FREE);
    }
  }

  /** A chain has no free entry and no bad one. */
  lemma ChainEntries(fat: Fat, c: seq<nat>, i: nat)
    requires IsChain(fat, c) && |fat| <= BAD && i < |c|
    ensures fat[c[i]] != FREE && fat[c[i]] != BAD
    ensures fat[c[i]] >= EOC <==> i == |c| - 1
    ensures i < |c| - 1 ==> fat[c[i]] == c[i + 1]
  {
    if i < |c| - 1 {
      assert 2 <= c[i + 1] < |fat|;
    }
  }

  // ----- what the operations do to the set of chains -----

  lemma OtherChain(fat: Fat, fat': Fat, c: seq<nat>)
    requires IsChain(fat, c) && |fat'| == |fat| && forall x :: x in c ==> 2 <= x < |fat| && fat'[x] == fat[x]
    ensures IsChain(fat', c)
  {
  }

  lemma ChainRange(fat: Fat, c: seq<nat>, x: nat)
    requires IsChain(fat, c) && |fat| <= BAD && x in c
    ensures 2 <= x < |fat| && fat[x] != FREE && fat[x] != BAD
  {
    var i :| 0 <= i < |c| && c[i] == x;
    ChainEntries(fat, c, i);
  }

  lemma OwnedBy(chains: set<seq<nat>>, c: seq<nat>, x: nat)
    requires c in chains && x in c
    ensures Owned(chains, x)
  {
  }

  lemma OwnedUnion(a: set<seq<nat>>, b: set<seq<nat>>, x: nat)
    ensures Owned(a + b, x) <==> Owned(a, x) || Owned(b, x)
  {
  }

  lemma OwnedOne(c: seq<nat>, x: nat)
    ensures Owned({c}, x) <==> x in c
  {
  }

  /** The chains in `gone` become the chains in `made`: their clusters are reused or freed,
      new ones come from the free clusters, and no other entry changes. */
  ghost predicate Rewrites(fat: Fat, fat': Fat, chains: set<seq<nat>>, gone: set<seq<nat>>, made: set<seq<nat>>) {
    && |fat'| == |fat| && gone <= chains
    && (forall c :: c in made ==> IsChain(fat', c)) && Disjoint(made)
    && (forall x :: 2 <= x < |fat| && !Owned(gone, x) && !Owned(made, x) ==> fat'[x] == fat[x])
    && (forall x :: 2 <= x < |fat| && Owned(gone, x) && !Owned(made, x) ==> fat'[x] == FREE)
    && (forall x :: Owned(made, x) ==> Owned(gone, x) || !Owned(chains, x))
  }

  /** A chain that is not involved keeps all its entries. */
  lemma Untouched(fat: Fat, fat': Fat, chains: set<seq<nat>>, gone: set<seq<nat>>, made: set<seq<nat>>, c: seq<nat>, x: nat)
    requires Rep(fat, chains) && Rewrites(fat, fat', chains, gone, made) && c in chains - gone && x in c
    ensures 2 <= x < |fat| && fat'[x] == fat[x] && !Owned(made, x)
  {
    ChainRange(fat, c, x);
    OwnedBy(chains, c, x);
  }

  lemma RewriteRep(fat: Fat, fat': Fat, chains: set<seq<nat>>, gone: set<seq<nat>>, made: set<seq<nat>>)
    requires Rep(fat, chains) && Rewrites(fat, fat', chains, gone, made)
    ensures Rep(fat', chains - gone + made)
  {
    hide IsChain, Owned;
    var chains' := chains - gone + made;
    forall c | c in chains' ensures IsChain(fat', c) {
      if c !in made {
        forall x | x in c ensures 2 <= x < |fat| && fat'[x] == fat[x] {
          Untouched(fat, fat', chains, gone, made, c, x);
        }
        OtherChain(fat, fat', c);
      }
    }
    RewriteDisjoint(fat, fat', chains, gone, made);
    forall x | 2 <= x < |fat| && !Owned(chains', x) ensures fat'[x] == FREE || fat'[x] == BAD {
      OwnedUnion(chains - gone, made, x);
      OwnedUnion(chains - gone, gone, x);
      assert chains - gone + gone == chains;
    }
  }

  lemma RewriteDisjoint(fat: Fat, fat': Fat, chains: set<seq<nat>>, gone: set<seq<nat>>, made: set<seq<nat>>)
    requires Rep(fat, chains) && Rewrites(fat, fat', chains, gone, made)
    ensures Disjoint(chains - gone + made)
  {
    hide IsChain, Owned;
    var chains' := chains - gone + made;
    forall c, d, x | c in chains' && d in chains' && x in c && x in d ensures c == d {
      if c in made && d !in made {
        OwnedBy(made, c, x);
        Untouched(fat, fat', chains, gone, made, d, x);
      } else if d in made && c !in made {
        OwnedBy(made, d, x);
        Untouched(fat, fat', chains, gone, made, c, x);
      }
    }
  }

  /** Allocation adds a chain of formerly free clusters. */
  lemma AllocateRep(fat: Fat, chains: set<seq<nat>>, t: seq<nat>)
    requires Rep(fat, chains) && t != [] && InRange(fat, t) && NoDup(t)
    requires forall i :: 0 <= i < |t| ==> fat[t[i]] == FREE
    ensures Rep(Linked(fat, t), chains + {t})
    ensures forall c, x :: c in chains && x in c ==> x !in t
  {
    hide Linked, IsChain, Owned;
    LinkedIs(fat, t);
    forall x ensures Owned({t}, x) <==> x in t {
      OwnedOne(t, x);
    }
    forall c, x | c in chains && x in c ensures x !in t {
      ChainRange(fat, c, x);
    }
    forall x | x in t ensures !Owned(chains, x) {
      FreeUnowned(fat, chains, x);
    }
    NothingOwned();
    RewriteRep(fat, Linked(fat, t), chains, {}, {t});
    assert chains - {} + {t} == chains + {t};
  }

  lemma NothingOwned()
    ensures forall x :: !Owned({}, x)
  {
  }

  lemma FreeUnowned(fat: Fat, chains: set<seq<nat>>, x: nat)
    requires Rep(fat, chains) && x < |fat| && fat[x] == FREE
    ensures !Owned(chains, x)
  {
    if Owned(chains, x) {
      var c :| c in chains && x in c;
      ChainRange(fat, c, x);
    }
  }

  /** Linking the end of one chain to the start of another joins them. */
  lemma JoinChains(fat: Fat, c: seq<nat>, t: seq<nat>)
    requires IsChain(fat, c) && IsChain(fat, t) && (forall x :: x in c ==> x !in t)
    ensures IsChain(fat[c[|c| - 1] := t[0]], c + t)
  {
    var fat', d := fat[c[|c| - 1] := t[0]], c + t;
    assert c[|c| - 1] in c;
    forall i, j | 0 <= i < j < |d| ensures d[i] != d[j] {
      if i < |c| <= j {
        assert c[i] in c && t[j - |c|] in t;
      }
    }
    forall i, j | 0 <= i < j < |d| && j == i + 1 ensures fat'[d[i]] == d[j] {
      if i >= |c| {
        assert t[i - |c|] in t;
      }
    }
    assert t[|t| - 1] in t;
  }

  /** Expansion: chain c grows by the freshly allocated chain t. */
  lemma ExpandRep(fat: Fat, chains: set<seq<nat>>, c: seq<nat>, t: seq<nat>)
    requires Rep(fat, chains + {t}) && c in chains && c != t
    ensures c != [] && t != [] && c[|c| - 1] < |fat|
    ensures Rep(fat[c[|c| - 1] := t[0]], chains - {c} - {t} + {c + t})
  {
    hide IsChain, Owned, Disjoint, Rep;
    var all := chains + {t};
    RepHas(fat, all, c);
    RepHas(fat, all, t);
    RepDisjoint(fat, all, c, t);
    JoinChains(fat, c, t);
    var last := c[|c| - 1];
    assert last in c;
    var gone, made := {c} + {t}, {c + t};
    OneDisjoint(c + t);
    forall x ensures (Owned(gone, x) <==> x in c || x in t) && (Owned(made, x) <==> x in c || x in t) {
      OwnedOne(c, x);
      OwnedOne(t, x);
      OwnedOne(c + t, x);
      OwnedUnion({c}, {t}, x);
    }
    RewriteRep(fat, fat[last := t[0]], all, gone, made);
    assert all - gone + made == chains - {c} - {t} + {c + t};
  }

  lemma RepHas(fat: Fat, chains: set<seq<nat>>, c: seq<nat>)
    requires Rep(fat, chains) && c in chains
    ensures IsChain(fat, c) && c != [] && 2 <= c[|c| - 1] < |fat| <= BAD && InRange(fat, c)
  {
  }

  lemma RepDisjoint(fat: Fat, chains: set<seq<nat>>, c: seq<nat>, d: seq<nat>)
    requires Rep(fat, chains) && c in chains && d in chains && c != d
    ensures forall x :: x in c ==> x !in d
  {
  }

  lemma OneDisjoint(c: seq<nat>)
    ensures Disjoint({c})
  {
  }

  /** Clearing a whole chain removes it and touches no other. */
  lemma FreeRep(fat: Fat, chains: set<seq<nat>>, c: seq<nat>)
    requires Rep(fat, chains) && c in chains
    ensures InRange(fat, c) && Rep(Cleared(fat, c), chains - {c})
  {
    assert IsChain(fat, c);
    ClearedIs(fat, c);
    hide Cleared, IsChain, Owned;
    forall x ensures Owned({c}, x) <==> x in c {
      OwnedOne(c, x);
    }
    NothingOwned();
    RewriteRep(fat, Cleared(fat, c), chains, {c}, {});
    assert chains - {c} + {} == chains - {c};
  }

  /** Cutting a chain after position j frees exactly the rest of it. */
  lemma CutRep(fat: Fat, chains: set<seq<nat>>, c: seq<nat>, j: nat)
    requires Rep(fat, chains) && c in chains && j + 1 < |c|
    ensures InRange(fat, c[j + 1..]) && c[j] < |fat|
    ensures Rep(Cleared(fat, c[j + 1..])[c[j] := EOC], chains - {c} + {c[..j + 1]})
  {
    hide IsChain, Owned, Disjoint, Rep, Cleared, Rewrites, NoDup;
    RepHas(fat, chains, c);
    var rest, kept := c[j + 1..], c[..j + 1];
    KeptChain(fat, c, j);
    CutParts(c, j);
    ClearedIs(fat, rest);
    OneDisjoint(kept);
    forall x ensures (Owned({c}, x) <==> x in c) && (Owned({kept}, x) <==> x in kept) {
      OwnedOne(c, x);
      OwnedOne(kept, x);
    }
    OneForOne(fat, Cleared(fat, rest)[c[j] := EOC], chains, c, kept);
    RewriteRep(fat, Cleared(fat, rest)[c[j] := EOC], chains, {c}, {kept});
  }

  lemma CutParts(c: seq<nat>, j: nat)
    requires j + 1 < |c|
    ensures c[j] in c[..j + 1] && forall x :: x in c <==> x in c[..j + 1] || x in c[j + 1..]
  {
    assert c == c[..j + 1] + c[j + 1..];
  }

  /** One chain rewritten to another over some of its clusters. */
  lemma OneForOne(fat: Fat, fat': Fat, chains: set<seq<nat>>, c: seq<nat>, d: seq<nat>)
    requires c in chains && |fat'| == |fat| && IsChain(fat', d) && Disjoint({d})
    requires forall x :: (Owned({c}, x) <==> x in c) && (Owned({d}, x) <==> x in d)
    requires forall x :: x in d ==> x in c
    requires forall x :: 2 <= x < |fat| && x !in c ==> fat'[x] == fat[x]
    requires forall x :: 2 <= x < |fat| && x in c && x !in d ==> fat'[x] == FREE
    ensures Rewrites(fat, fat', chains, {c}, {d})
  {
    hide IsChain, Owned, Disjoint;
  }

  lemma KeptChain(fat: Fat, c: seq<nat>, j: nat)
    requires IsChain(fat, c) && j + 1 < |c|
    ensures IsChain(Cleared(fat, c[j + 1..])[c[j] := EOC], c[..j + 1])
  {
    var rest, kept := c[j + 1..], c[..j + 1];
    ClearedIs(fat, rest);
    hide Cleared;
    forall i | 0 <= i < |kept| ensures kept[i] !in rest {
      assert kept[i] == c[i];
    }
  }

  // ----- the allocation hint -----

  /** Nothing is free below the hint, so the scan from the hint sees every free cluster. */
  ghost predicate HintGood(fat: Fat, hint: nat) {
    forall x :: 2 <= x < |fat| && fat[x] == FREE ==> x >= hint
  }

  /** A table without a used cluster has no chains, and the first cluster is a good hint. */
  lemma FreshVolume(fat: Fat)
    requires |fat| <= BAD && forall x :: 2 <= x < |fat| ==> fat[x] == FREE
    ensures Rep(fat, {}) && HintGood(fat, 2) && CountFree(fat, 2) == if |fat| <= 2 then 0 else |fat| - 2
  {
    CountAllFree(fat, 2);
  }

  lemma {:induction false} CountAllFree(fat: Fat, from: nat)
    requires forall x :: from <= x < |fat| ==> fat[x] == FREE
    ensures CountFree(fat, from) == if |fat| <= from then 0 else |fat| - from
    decreases |fat| - from
  {
    if from < |fat| {
      CountAllFree(fat, from + 1);
    }
  }

  /** With a good hint an allocation can be served exactly when the cached count says so. */
  lemma {:induction false} HintCounts(fat: Fat, from: nat, hint: nat)
    requires 2 <= from <= hint && HintGood(fat, hint)
    ensures CountFree(fat, from) == CountFree(fat, hint)
    decreases hint - from
  {
    if from < hint {
      HintCounts(fat, from + 1, hint);
      if hint > |fat| {
        assert CountFree(fat, hint) == 0;
      }
    }
  }

  /** Allocation moves the hint to the last cluster taken, and it stays good. */
  lemma AllocateKeepsHint(fat: Fat, hint: nat, n: nat)
    requires hint >= 2 && HintGood(fat, hint) && CountFree(fat, hint) >= n > 0
    ensures var t := Taken(fat, hint, n);
      InRange(fat, t) && HintGood(Linked(fat, t), t[n - 1])
  {
    hide CountFree, Taken, Linked;
    var t := Taken(fat, hint, n);
    LinkedIs(fat, t);
    forall x | 2 <= x < |fat| && Linked(fat, t)[x] == FREE ensures x >= t[n - 1] {
      if x in t {
        LinkedNotFree(fat, t, x);
      } else if x < t[n - 1] {
        TakenIsFirst(fat, hint, n, x);
      }
    }
  }

  lemma LinkedNotFree(fat: Fat, t: seq<nat>, x: nat)
    requires InRange(fat, t) && NoDup(t) && t != [] && x in t
    ensures Linked(fat, t)[x] != FREE
  {
    LinkedIs(fat, t);
    hide Linked;
    var i :| 0 <= i < |t| && t[i] == x;
    if i < |t| - 1 {
      assert Linked(fat, t)[t[i]] == t[i + 1];
    }
  }

  /** Freeing lowers the hint to the start of the chain only: it stays good exactly when no
      cluster of the chain lies below both. */
  lemma FreeKeepsHintIff(fat: Fat, hint: nat, c: seq<nat>)
    requires InRange(fat, c) && c != [] && HintGood(fat, hint)
    ensures var lower := if c[0] < hint then c[0] else hint;
      HintGood(Cleared(fat, c), lower) <==> forall i :: 0 <= i < |c| ==> c[i] >= lower
  {
    ClearedIs(fat, c);
    hide Cleared;
    var lower := if c[0] < hint then c[0] else hint;
    if HintGood(Cleared(fat, c), lower) {
      forall i | 0 <= i < |c| ensures c[i] >= lower {
        assert c[i] in c;
      }
    }
  }

  /** A chain that runs backwards loses clusters to the scan when it is freed. */
  lemma HintMissesFreed()
    ensures var fat, c := [EOC, EOC, EOC, 2], [3, 2];
      && IsChain(fat, c) && HintGood(fat, 4)
      && Cleared(fat, c) == [EOC, EOC, FREE, FREE] && !HintGood(Cleared(fat, c), 3)
  {
    var fat, c := [EOC, EOC, EOC, 2], [3, 2];
    ClearedIs(fat, c);
    assert Cleared(fat, c)[2] == FREE;
  }
}
