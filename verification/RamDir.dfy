/** A RAM-filesystem directory (kernel/src/filesystem/ramfs.c): a chain of blocks of 128
    slots, each slot a live entry, a hole (EMPTY_ENTRY) or the end marker (END_ENTRY).

    The chain is always the canonical layout of a `body`: the slots before the first end
    marker, the last of which is live.  What add and remove do to the chain is stated on
    bodies, and what they mean as operations on a set of named entries is proved here. */
module RamDirs {
  import opened Common

  const SLOTS: nat := 128
  const NAME_MAX: nat := 255

  datatype Node = Node(id: nat, name: string)

  datatype Slot = End | Empty | Entry(node: Node)

  /** create_new_node keeps at most 255 characters. */
  function Trunc(name: string): string {
    if |name| > NAME_MAX then name[..NAME_MAX] else name
  }

  ghost predicate NoEnd(body: seq<Slot>) {
    forall k :: 0 <= k < |body| ==> body[k] != End
  }

  /** A body: no end marker inside, and no hole before the end marker. */
  ghost predicate IsBody(body: seq<Slot>) {
    NoEnd(body) && (body != [] ==> body[|body| - 1].Entry?)
  }

  function Ends(n: nat): (r: seq<Slot>)
    ensures |r| == n && forall k :: 0 <= k < n ==> r[k] == End
  {
    seq(n, _ => End)
  }

  /** The first end marker always lies in the last block. */
  function Canon(body: seq<Slot>): seq<Slot> {
    body + Ends(SLOTS - |body| % SLOTS)
  }

  // ----- add and remove on bodies -----

  function FirstHole(body: seq<Slot>): (h: nat)
    ensures h <= |body|
    ensures h < |body| ==> body[h] == Empty
    ensures forall k :: 0 <= k < h ==> body[k] != Empty
  {
    if body == [] || body[0] == Empty then 0 else 1 + FirstHole(body[1..])
  }

  /** The first hole is reused; without one the body grows. */
  function Added(body: seq<Slot>, node: Node): seq<Slot> {
    var h := FirstHole(body);
    if h < |body| then body[h := Entry(node)] else body + [Entry(node)]
  }

  /** Drops the holes at the end. */
  function Strip(body: seq<Slot>): (r: seq<Slot>)
    ensures r <= body
    ensures r != [] ==> r[|r| - 1] != Empty
    ensures forall k :: |r| <= k < |body| ==> body[k] == Empty
  {
    if body != [] && body[|body| - 1] == Empty then Strip(body[..|body| - 1]) else body
  }

  function Removed(body: seq<Slot>, i: nat): seq<Slot>
    requires i < |body|
  {
    Strip(body[i := Empty])
  }

  // ----- the set of entries a body stands for -----

  predicate Has(body: seq<Slot>, n: Node) {
    Entry(n) in body
  }

  ghost predicate UniqueIds(body: seq<Slot>) {
    forall i, j :: 0 <= i < j < |body| && body[i].Entry? && body[j].Entry? ==> body[i].node.id != body[j].node.id
  }

  ghost predicate UniqueNames(body: seq<Slot>) {
    forall i, j :: 0 <= i < j < |body| && body[i].Entry? && body[j].Entry? ==> body[i].node.name != body[j].node.name
  }

  ghost predicate Named(body: seq<Slot>, name: string) {
    exists k :: 0 <= k < |body| && body[k].Entry? && body[k].node.name == name
  }

  /** Adding inserts one entry into the set. */
  lemma AddedIsInsert(body: seq<Slot>, node: Node)
    requires IsBody(body)
    ensures IsBody(Added(body, node))
    ensures forall n :: Has(Added(body, node), n) <==> Has(body, n) || n == node
  {
    var h, t := FirstHole(body), Added(body, node);
    forall n ensures Has(t, n) <==> Has(body, n) || n == node {
      assert t[h] == Entry(node);
      if Has(body, n) {
        var k :| 0 <= k < |body| && body[k] == Entry(n);
        assert t[k] == Entry(n);
      }
    }
  }

  /** Names stay unique exactly when the stored name is new. */
  lemma AddedUniqueIff(body: seq<Slot>, node: Node)
    requires UniqueNames(body)
    ensures UniqueNames(Added(body, node)) <==> !Named(body, node.name)
  {
    var h, t := FirstHole(body), Added(body, node);
    assert t[h] == Entry(node);
    if Named(body, node.name) {
      var k :| 0 <= k < |body| && body[k].Entry? && body[k].node.name == node.name;
      assert t[k] == body[k];
    }
  }

  lemma AddedUniqueIds(body: seq<Slot>, node: Node)
    requires UniqueIds(body) && (forall k :: 0 <= k < |body| && body[k].Entry? ==> body[k].node.id != node.id)
    ensures UniqueIds(Added(body, node))
  {
  }

  /** Removing deletes one entry from the set, whatever holes are dropped with it. */
  lemma RemovedIsDelete(body: seq<Slot>, i: nat)
    requires IsBody(body) && UniqueIds(body) && i < |body| && body[i].Entry?
    ensures IsBody(Removed(body, i)) && UniqueIds(Removed(body, i))
    ensures UniqueNames(body) ==> UniqueNames(Removed(body, i))
    ensures forall n :: Has(Removed(body, i), n) <==> Has(body, n) && n != body[i].node
  {
    var a, t := body[i := Empty], Removed(body, i);
    assert forall k :: 0 <= k < |t| ==> t[k] == a[k];
    forall n ensures Has(t, n) <==> Has(body, n) && n != body[i].node {
      if Has(body, n) && n != body[i].node {
        var k :| 0 <= k < |body| && body[k] == Entry(n);
        assert a[k] == Entry(n);
        assert t[k] == Entry(n);
      }
      if Has(t, n) {
        var k :| 0 <= k < |t| && t[k] == Entry(n);
        assert body[k] == Entry(n) && k != i;
      }
    }
  }

  // ----- every history refines a set of named entries -----

  datatype Call = Add(name: string, id: nat) | Remove(id: nat)

  /** The node that an add stores, its name cut to what fits. */
  function NodeOf(c: Call): Node
    requires c.Add?
  {
    Node(c.id, Trunc(c.name))
  }

  /** The slot holding the node `id`, or |body|. */
  function Find(body: seq<Slot>, id: nat): (i: nat)
    ensures i <= |body|
    ensures i < |body| ==> body[i].Entry? && body[i].node.id == id
    ensures forall k :: 0 <= k < i && body[k].Entry? ==> body[k].node.id != id
  {
    if body == [] then 0
    else if body[0].Entry? && body[0].node.id == id then 0
    else 1 + Find(body[1..], id)
  }

  /** On bodies: an existing name is refused, an unknown node is not found. */
  ghost function Do(body: seq<Slot>, c: Call): seq<Slot> {
    match c
    case Add(name, _) => if Named(body, name) then body else Added(body, NodeOf(c))
    case Remove(id) => if Find(body, id) == |body| then body else Removed(body, Find(body, id))
  }

  /** On sets of entries. */
  ghost function DoSet(entries: iset<Node>, c: Call): iset<Node> {
    match c
    case Add(name, _) => if exists n :: n in entries && n.name == name then entries else entries + iset{NodeOf(c)}
    case Remove(id) => iset n | n in entries && n.id != id
  }

  ghost function Entries(body: seq<Slot>): iset<Node> {
    iset n | Has(body, n)
  }

  ghost predicate Sound(body: seq<Slot>) {
    IsBody(body) && UniqueIds(body)
  }

  /** A new node has a fresh address. */
  ghost predicate FreshNode(body: seq<Slot>, c: Call) {
    c.Add? ==> forall k :: 0 <= k < |body| && body[k].Entry? ==> body[k].node.id != c.id
  }

  /** A name that is new as asked for and taken as stored. */
  ghost predicate Clashes(body: seq<Slot>, c: Call) {
    c.Add? && !Named(body, c.name) && Named(body, Trunc(c.name))
  }

  /** Every call, whatever the name, does to the entries what it does to a set of them; names
      stay unique exactly unless the cut name clashes, which a name of up to 255 characters
      never does.  The name of a new entry is the one asked for, cut after 255 characters. */
  lemma CallRefinesSet(body: seq<Slot>, c: Call)
    requires Sound(body) && FreshNode(body, c)
    ensures forall n :: n in Entries(Do(body, c)) && n !in Entries(body) ==>
              c.Add? && n.id == c.id && n.name == if |c.name| < 256 then c.name else c.name[..255]
    ensures Sound(Do(body, c))
    ensures Entries(Do(body, c)) == DoSet(Entries(body), c)
    ensures UniqueNames(body) ==> (UniqueNames(Do(body, c)) <==> !Clashes(body, c))
    ensures (c.Add? ==> |c.name| <= NAME_MAX) ==> !Clashes(body, c)
  {
    hide Sound, Added, Removed, UniqueNames, Entries, Named, Has;
    match c
    case Add(name, id) => AddRefinesSet(body, name, id);
    case Remove(id) => RemoveRefinesSet(body, id);
  }

  lemma AddRefinesSet(body: seq<Slot>, name: string, id: nat)
    requires Sound(body) && FreshNode(body, Add(name, id))
    ensures var c := Add(name, id);
      && Sound(Do(body, c)) && Entries(Do(body, c)) == DoSet(Entries(body), c)
      && (UniqueNames(body) ==> (UniqueNames(Do(body, c)) <==> !Clashes(body, c)))
      && (|name| <= NAME_MAX ==> !Clashes(body, c))
  {
    hide Added, UniqueNames;
    NamedIs(body, name);
    if !Named(body, name) {
      var node := NodeOf(Add(name, id));
      AddedIsInsert(body, node);
      AddedUniqueIds(body, node);
      if UniqueNames(body) {
        AddedUniqueIff(body, node);
      }
    }
  }

  lemma NamedIs(body: seq<Slot>, name: string)
    ensures Named(body, name) <==> exists n :: n in Entries(body) && n.name == name
  {
    if Named(body, name) {
      var k :| 0 <= k < |body| && body[k].Entry? && body[k].node.name == name;
      assert Has(body, body[k].node);
    }
  }

  lemma RemoveRefinesSet(body: seq<Slot>, id: nat)
    requires Sound(body)
    ensures Sound(Do(body, Remove(id))) && Entries(Do(body, Remove(id))) == DoSet(Entries(body), Remove(id))
    ensures UniqueNames(body) ==> UniqueNames(Do(body, Remove(id)))
  {
    hide Removed, UniqueNames;
    var i := Find(body, id);
    if i < |body| {
      RemovedIsDelete(body, i);
    }
    forall n | Has(body, n) && n.id == id ensures i < |body| && n == body[i].node {
      var k :| 0 <= k < |body| && body[k] == Entry(n);
    }
  }

  /** The calls of a history that found a fresh address for every new node. */
  ghost predicate Legal(body: seq<Slot>, calls: seq<Call>)
    decreases |calls|
  {
    calls != [] ==> FreshNode(body, calls[0]) && Legal(Do(body, calls[0]), calls[1..])
  }

  ghost function Run(body: seq<Slot>, calls: seq<Call>): seq<Slot>
    decreases |calls|
  {
    if calls == [] then body else Run(Do(body, calls[0]), calls[1..])
  }

  ghost function RunSet(entries: iset<Node>, calls: seq<Call>): iset<Node>
    decreases |calls|
  {
    if calls == [] then entries else RunSet(DoSet(entries, calls[0]), calls[1..])
  }

  /** The directory theorem: any history of adds and removes, with names of any length,
      behaves as the same history on a set of entries, and the chain keeps its shape
      throughout; with names of up to 255 characters they stay unique. */
  lemma {:induction false} HistoryRefinesSet(body: seq<Slot>, calls: seq<Call>)
    requires Sound(body) && Legal(body, calls)
    ensures Sound(Run(body, calls))
    ensures Entries(Run(body, calls)) == RunSet(Entries(body), calls)
    ensures UniqueNames(body) && (forall i :: 0 <= i < |calls| && calls[i].Add? ==> |calls[i].name| <= NAME_MAX) ==>
              UniqueNames(Run(body, calls))
    decreases |calls|
  {
    hide Sound, Do, DoSet, Entries, UniqueNames, Clashes;
    if calls != [] {
      CallRefinesSet(body, calls[0]);
      HistoryRefinesSet(Do(body, calls[0]), calls[1..]);
      assert forall i :: 0 <= i < |calls| - 1 ==> calls[1..][i] == calls[i + 1];
    }
  }

  /** A name of 256 or more characters is stored truncated and compared in full, so the
      same long name can be added twice. */
  lemma LongNamesBreakUniqueness(name: string)
    requires |name| > NAME_MAX
    ensures var node := Node(0, Trunc(name));
      var once := Added([], node);
      !Named(once, name) && !UniqueNames(Added(once, Node(1, Trunc(name))))
  {
    var once := [Entry(Node(0, Trunc(name)))];
    assert Added([], Node(0, Trunc(name))) == once;
    var twice := Added(once, Node(1, Trunc(name)));
    assert twice == once + [Entry(Node(1, Trunc(name)))];
    assert twice[0].node.name == twice[1].node.name;
  }

  // ----- iteration -----

  /** Live entries in slot order. */
  function Listing(body: seq<Slot>): seq<Node> {
    if body == [] then []
    else (if body[0].Entry? then [body[0].node] else []) + Listing(body[1..])
  }

  /** The first live slot at or after p. */
  function NextLive(body: seq<Slot>, p: nat): (q: nat)
    requires p <= |body|
    ensures p <= q <= |body|
    ensures q < |body| ==> body[q].Entry?
    ensures forall k :: p <= k < q ==> !body[k].Entry?
    decreases |body| - p
  {
    if p == |body| || body[p].Entry? then p else NextLive(body, p + 1)
  }

  /** What an iterator standing before slot p still yields. */
  function VisitFrom(body: seq<Slot>, p: nat): seq<Node>
    requires p <= |body|
    decreases |body| - p
  {
    var q := NextLive(body, p);
    if q == |body| then [] else [body[q].node] + VisitFrom(body, q + 1)
  }

  lemma {:induction false} VisitsRest(body: seq<Slot>, p: nat)
    requires p <= |body|
    ensures VisitFrom(body, p) == Listing(body[p..])
    decreases |body| - p
  {
    if p < |body| {
      VisitsRest(body, p + 1);
      assert body[p..][1..] == body[p + 1..];
      assert !body[p].Entry? ==> NextLive(body, p) == NextLive(body, p + 1);
    }
  }

  lemma {:induction false} ListingHas(body: seq<Slot>, n: Node)
    ensures n in Listing(body) <==> Has(body, n)
  {
    if body != [] {
      ListingHas(body[1..], n);
      assert body == [body[0]] + body[1..];
    }
  }

  lemma {:induction false} ListingOnce(body: seq<Slot>)
    requires UniqueIds(body)
    ensures NoDup(Listing(body))
  {
    if body != [] {
      var rest := body[1..];
      ListingOnce(rest);
      assert forall k :: 0 <= k < |rest| ==> rest[k] == body[k + 1];
      if body[0].Entry? {
        ListingHas(rest, body[0].node);
      }
    }
  }

  /** A fresh iterator visits each live entry exactly once and nothing else. */
  lemma FreshIteratorVisitsAll(body: seq<Slot>)
    requires UniqueIds(body)
    ensures NoDup(VisitFrom(body, 0))
    ensures forall n :: n in VisitFrom(body, 0) <==> Has(body, n)
  {
    VisitsRest(body, 0);
    assert body[0..] == body;
    ListingOnce(body);
    forall n ensures n in VisitFrom(body, 0) <==> Has(body, n) {
      ListingHas(body, n);
    }
  }

  // ----- the emptiness test before removing a directory -----

  predicate IsDot(s: Slot) {
    s.Entry? && (s.node.name == "." || s.node.name == "..")
  }

  /** What lines 533-549 report: some slot before the end is a hole or a real entry. */
  ghost predicate ReportsNotEmpty(body: seq<Slot>) {
    exists k :: 0 <= k < |body| && !IsDot(body[k])
  }

  ghost predicate HasRealEntry(body: seq<Slot>) {
    exists k :: 0 <= k < |body| && body[k].Entry? && !IsDot(body[k])
  }

  /** The test answers exactly, in any directory that has a real entry or no hole. */
  lemma EmptinessExactIff(body: seq<Slot>)
    requires IsBody(body)
    ensures (ReportsNotEmpty(body) <==> HasRealEntry(body)) <==> (HasRealEntry(body) || Empty !in body)
  {
  }

  /** As mkdir leaves it: the two dot entries in the first two slots, nowhere else. */
  ghost predicate DotsFirst(body: seq<Slot>) {
    |body| >= 2 && IsDot(body[0]) && IsDot(body[1]) && forall k :: 2 <= k < |body| ==> !IsDot(body[k])
  }

  /** In such a directory a hole is always followed by a real entry, so treating a hole as
      "not empty" is right. */
  lemma EmptinessExact(body: seq<Slot>)
    requires IsBody(body) && DotsFirst(body)
    ensures ReportsNotEmpty(body) <==> HasRealEntry(body)
  {
  }

  /** Adding other names and removing other entries keeps the dots first. */
  lemma DotsStayFirst(body: seq<Slot>, node: Node, i: nat)
    requires IsBody(body) && DotsFirst(body)
    ensures !IsDot(Entry(node)) ==> DotsFirst(Added(body, node))
    ensures 2 <= i < |body| && body[i].Entry? ==> DotsFirst(Removed(body, i))
  {
  }

  /** The directory that mkdir makes: "." and "..", stored as the nodes d and e. */
  ghost function Made(d: nat, e: nat): seq<Slot> {
    Do(Do([], Add(".", d)), Add("..", e))
  }

  /** The dots are the nodes d and e, and only they are dots. */
  ghost predicate Dotted(body: seq<Slot>, d: nat, e: nat) {
    && Sound(body) && DotsFirst(body)
    && body[0] == Entry(Node(d, ".")) && body[1] == Entry(Node(e, ".."))
  }

  lemma MadeDotted(d: nat, e: nat)
    requires d != e
    ensures Dotted(Made(d, e), d, e)
  {
    var one := [Entry(Node(d, "."))];
    assert !Named([], ".");
    assert Added([], Node(d, ".")) == one;
    assert !Named(one, "..");
    assert Added(one, Node(e, "..")) == one + [Entry(Node(e, ".."))];
  }

  lemma CallKeepsDots(body: seq<Slot>, c: Call, d: nat, e: nat)
    requires Dotted(body, d, e) && FreshNode(body, c) && c != Remove(d) && c != Remove(e)
    ensures Dotted(Do(body, c), d, e)
  {
    hide Added, Removed, Strip;
    CallRefinesSet(body, c);
    match c
    case Add(name, id) =>
      if !Named(body, name) {
        assert body[0].node.name != name && body[1].node.name != name;
        DotsStayFirst(body, NodeOf(c), 0);
        AddedKeepsEntries(body, NodeOf(c));
      }
    case Remove(id) =>
      var i := Find(body, id);
      if i < |body| {
        DotsStayFirst(body, Node(0, ""), i);
        RemovedKeepsFront(body, i);
      }
  }

  lemma AddedKeepsEntries(body: seq<Slot>, node: Node)
    ensures forall k :: 0 <= k < |body| && body[k].Entry? ==> k < |Added(body, node)| && Added(body, node)[k] == body[k]
  {
  }

  lemma RemovedKeepsFront(body: seq<Slot>, i: nat)
    requires i < |body|
    ensures forall k :: 0 <= k < i && k < |Removed(body, i)| ==> Removed(body, i)[k] == body[k]
  {
  }

  /** From mkdir on, over every history that removes neither dot, a directory is reported not
      empty exactly when it has a real entry. */
  lemma {:induction false} HistoryKeepsDots(body: seq<Slot>, calls: seq<Call>, d: nat, e: nat)
    requires Dotted(body, d, e) && Legal(body, calls) && Remove(d) !in calls && Remove(e) !in calls
    ensures Dotted(Run(body, calls), d, e)
    ensures ReportsNotEmpty(Run(body, calls)) <==> HasRealEntry(Run(body, calls))
    decreases |calls|
  {
    hide Do, Sound, DotsFirst, ReportsNotEmpty, HasRealEntry;
    if calls == [] {
      DottedExact(body, d, e);
    } else {
      CallKeepsDots(body, calls[0], d, e);
      HistoryKeepsDots(Do(body, calls[0]), calls[1..], d, e);
    }
  }

  lemma DottedExact(body: seq<Slot>, d: nat, e: nat)
    requires Dotted(body, d, e)
    ensures ReportsNotEmpty(body) <==> HasRealEntry(body)
  {
    hide DotsFirst, ReportsNotEmpty, HasRealEntry;
    EmptinessExact(body);
  }

  lemma MadeStaysExact(d: nat, e: nat, calls: seq<Call>)
    requires d != e && Legal(Made(d, e), calls) && Remove(d) !in calls && Remove(e) !in calls
    ensures var body := Run(Made(d, e), calls); DotsFirst(body) && (ReportsNotEmpty(body) <==> HasRealEntry(body))
  {
    hide Made, Legal, Run;
    MadeDotted(d, e);
    HistoryKeepsDots(Made(d, e), calls, d, e);
  }

  /** Removing "." itself would make an empty directory look full. */
  lemma RemovingDotBreaksTest()
    ensures var body := [Entry(Node(0, ".")), Entry(Node(1, ".."))];
      var t := Removed(body, 0);
      ReportsNotEmpty(t) && !HasRealEntry(t)
  {
    var a := [Empty, Entry(Node(1, ".."))];
    assert [Entry(Node(0, ".")), Entry(Node(1, ".."))][0 := Empty] == a;
    assert Strip(a) == a;
    assert !IsDot(a[0]) && IsDot(a[1]);
  }
}
