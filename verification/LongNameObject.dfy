/** The loops of fat32.c that write long-name entries and copy them back into a name buffer. */
module LongNameObject {
  import opened Common
  import opened LongNames

  /** One of the three copying loops of the writer: it stops after the terminator, and the
      rest of the entry keeps the zeros it was cleared to. */
  method WriteUnits(name: seq<Byte>, from: nat, n: nat) returns (us: seq<Unit>, ended: bool)
    requires from <= |name| && forall k :: 0 <= k < |name| ==> name[k] != 0
    ensures us == Units(name, from, n)
    ensures ended <==> |name| < from + n
  {
    us := seq<Unit>(n, _ => 0);
    ended := false;
    var j: nat := 0;
    while j < n
      invariant j <= n && |us| == n && !ended && from + j <= |name|
      invariant forall k :: 0 <= k < n ==> us[k] == if k < j then UnitAt(name, from + k) else 0
    {
      us := us[j := UnitAt(name, from + j)];
      if us[j] == 0 {
        assert from + j == |name|;
        return us, true;
      }
      j := j + 1;
    }
  }

  method WriteEntry(name: seq<Byte>, i: nat, count: nat) returns (e: LfnEntry)
    requires i > 0 && 13 * (i - 1) <= |name| && forall k :: 0 <= k < |name| ==> name[k] != 0
    ensures e == EntryOf(name, i, count)
  {
    hide UnitAt;
    var from := 13 * (i - 1);
    e := LfnEntry(i, seq<Unit>(5, _ => 0), seq<Unit>(6, _ => 0), seq<Unit>(2, _ => 0));
    if i == count {
      e := e.(order := e.order + 0x40);
    }
    ZerosAfter(name, from + 5, 6);
    ZerosAfter(name, from + 11, 2);
    var us, ended := WriteUnits(name, from, 5);
    e := e.(chars1 := us);
    if ended {
      return;
    }
    us, ended := WriteUnits(name, from + 5, 6);
    e := e.(chars2 := us);
    if ended {
      return;
    }
    us, ended := WriteUnits(name, from + 11, 2);
    e := e.(chars3 := us);
  }

  lemma ZerosAfter(name: seq<Byte>, from: nat, n: nat)
    ensures from > |name| ==> Units(name, from, n) == seq<Unit>(n, _ => 0)
  {
  }

  /** The loop over the entries of one name, last piece first. */
  method WriteEntries(name: seq<Byte>) returns (es: seq<LfnEntry>)
    requires forall k :: 0 <= k < |name| ==> name[k] != 0
    ensures es == Entries(name)
  {
    hide EntryOf;
    var count: nat := (|name| + 12) / 13;
    es := [];
    var i: nat := count;
    while i > 0
      invariant i <= count && Entries(name) == es + EntriesFrom(name, i, count)
    {
      var e := WriteEntry(name, i, count);
      es := es + [e];
      i := i - 1;
    }
  }

  /** The state that a directory reader keeps while it passes long-name entries. */
  class NameReader {
    const buffer: array<Byte>
    var length: nat
    var found: bool

    ghost predicate Valid() {
      buffer.Length == LIMIT
    }

    ghost function View(): Decoder
      reads this, buffer
    {
      Decoder(buffer[..], length, found)
    }

    constructor ()
      ensures Valid() && fresh(buffer) && !found
    {
      buffer := new Byte[LIMIT](_ => 0);
      length, found := 0, false;
    }

    /** One of the three loops of parse_lfn. */
    method CopyUnits(us: seq<Unit>, offset: nat) returns (n: nat, ended: bool)
      requires Valid()
      modifies buffer
      ensures n == Copied(us, offset) && (ended <==> n > 0 && us[n - 1] == 0)
      ensures buffer[..] == Pasted(old(buffer[..]), us, offset)
    {
      hide Low, Copied, Pasted;
      n, ended := 0, false;
      ghost var buf := buffer[..];
      assert us[0..] == us;
      while n < |us| && offset + n < LIMIT
        invariant n <= |us| && Copied(us, offset) == n + Copied(us[n..], offset + n)
        invariant forall k :: 0 <= k < n ==> us[k] != 0
        invariant forall k :: 0 <= k < LIMIT ==>
          buffer[k] == if offset <= k < offset + n then Low(us[k - offset]) else buf[k]
      {
        assert us[n..][0] == us[n] && us[n..][1..] == us[n + 1..];
        CopiedStep(us[n..], offset + n);
        buffer[offset + n] := Low(us[n]);
        n := n + 1;
        if us[n - 1] == 0 {
          PastedIs(buffer[..], buf, us, offset);
          return n, true;
        }
      }
      CopiedEnd(us[n..], offset + n);
      PastedIs(buffer[..], buf, us, offset);
    }

    /** parse_lfn: the three loops together copy the entry as one run. */
    method ParseEntry(e: LfnEntry, offset: nat) returns (n: nat)
      requires Valid() && Shaped(e)
      modifies buffer
      ensures n == Copied(All(e), offset) && buffer[..] == Pasted(old(buffer[..]), All(e), offset)
    {
      hide Copied, Pasted, Low;
      var a, b, c := e.chars1, e.chars2, e.chars3;
      ghost var buf := buffer[..];
      assert a + b + c == a + (b + c);
      SplitCopy(buf, a, b + c, offset);
      var n1, ended := CopyUnits(a, offset);
      if ended {
        return n1;
      }
      ghost var buf1 := buffer[..];
      SplitCopy(buf1, b, c, offset + n1);
      var n2: nat;
      n2, ended := CopyUnits(b, offset + n1);
      if ended {
        return n1 + n2;
      }
      var n3: nat;
      n3, ended := CopyUnits(c, offset + n1 + n2);
      n := n1 + n2 + n3;
    }

    /** process_lfn_entry */
    method ProcessEntry(e: LfnEntry)
      requires Valid() && Shaped(e) && Order(View(), e) > 0
      modifies this, buffer
      ensures View() == Process(old(View()), e)
    {
      hide Copied, Pasted, All;
      var order := e.order;
      var last := false;
      if !found {
        found := true;
        last := true;
        order := order % 0x40;
      }
      var offset := (order - 1) * 13;
      var n := ParseEntry(e, offset);
      if last {
        length := offset + n;
        if length >= LIMIT {
          length := LIMIT;
          buffer[LIMIT - 1] := 0;
        }
      }
    }

    /** The reader's loop over the long-name entries before a short one. */
    method ProcessEntries(es: seq<LfnEntry>)
      requires Valid() && Readable(es, found) && forall i :: 0 <= i < |es| ==> Shaped(es[i])
      modifies this, buffer
      ensures View() == ProcessAll(old(View()), es)
    {
      hide Process, Shaped;
      var i: nat := 0;
      while i < |es|
        invariant i <= |es| && Readable(es[i..], found)
        invariant ProcessAll(View(), es[i..]) == ProcessAll(old(View()), es)
      {
        ghost var before := View();
        ghost var rest := es[i..];
        assert rest[0] == es[i] && rest[1..] == es[i + 1..];
        ReadableNext(before, rest);
        ProcessEntry(es[i]);
        i := i + 1;
      }
    }
  }

  lemma CopiedStep(us: seq<Unit>, offset: nat)
    requires us != [] && offset < LIMIT
    ensures Copied(us, offset) == if us[0] == 0 then 1 else 1 + Copied(us[1..], offset + 1)
  {
  }

  lemma CopiedEnd(us: seq<Unit>, offset: nat)
    ensures us == [] || offset >= LIMIT ==> Copied(us, offset) == 0
  {
  }

  lemma PastedIs(r: seq<Byte>, buf: seq<Byte>, us: seq<Unit>, offset: nat)
    requires |r| == |buf| == LIMIT
    requires forall k :: 0 <= k < LIMIT ==>
      r[k] == if offset <= k < offset + Copied(us, offset) then Low(us[k - offset]) else buf[k]
    ensures r == Pasted(buf, us, offset)
  {
    hide Copied, Low;
  }

  lemma ReadableNext(d: Decoder, es: seq<LfnEntry>)
    requires |d.buf| == LIMIT && Readable(es, d.found) && es != []
    ensures Order(d, es[0]) > 0 && Process(d, es[0]).found && Readable(es[1..], true)
    ensures ProcessAll(d, es) == ProcessAll(Process(d, es[0]), es[1..])
  {
  }

  /** Copying a then b is copying a + b, unless a already held the terminator. */
  lemma {:induction false} CopiedConcat(a: seq<Unit>, b: seq<Unit>, offset: nat)
    ensures var n := Copied(a, offset);
      Copied(a + b, offset) == if n > 0 && a[n - 1] == 0 then n else n + Copied(b, offset + n)
    decreases a
  {
    if a == [] {
      assert a + b == b;
    } else if offset < LIMIT && a[0] != 0 {
      CopiedConcat(a[1..], b, offset + 1);
      assert (a + b)[1..] == a[1..] + b;
    }
  }

  lemma SplitCopy(buf: seq<Byte>, a: seq<Unit>, b: seq<Unit>, offset: nat)
    requires |buf| == LIMIT
    ensures var n := Copied(a, offset);
      if n > 0 && a[n - 1] == 0 then
        Copied(a + b, offset) == n && Pasted(buf, a + b, offset) == Pasted(buf, a, offset)
      else
        && Copied(a + b, offset) == n + Copied(b, offset + n)
        && Pasted(buf, a + b, offset) == Pasted(Pasted(buf, a, offset), b, offset + n)
  {
    hide Copied, Low;
    CopiedConcat(a, b, offset);
    CopiedIs(a, offset);
    assert forall k :: 0 <= k < |a| ==> (a + b)[k] == a[k];
  }
}
