/** FAT32 long names (kernel/src/filesystem/fat32.c; "FAT Long Directory Entries" of the
    Microsoft FAT32 specification): a name is cut into entries of 5 + 6 + 2 characters,
    written last piece first, and put together again by the directory reader. */
module LongNames {
  import opened Common

  const LIMIT: nat := 256      // FILENAME_LIMIT

  /** A 16-bit character of an entry. */
  type Unit = nat

  datatype LfnEntry = LfnEntry(order: nat, chars1: seq<Unit>, chars2: seq<Unit>, chars3: seq<Unit>)

  ghost predicate Shaped(e: LfnEntry) {
    |e.chars1| == 5 && |e.chars2| == 6 && |e.chars3| == 2
  }

  function All(e: LfnEntry): seq<Unit> {
    e.chars1 + e.chars2 + e.chars3
  }

  /** A signed char widened to 16 bits, and the cast back. */
  function Wide(c: Byte): (u: Unit)
    ensures Low(u) == c && (u == 0 <==> c == 0)
  {
    if c < 128 then c as nat else 0xff00 + c as nat
  }

  function Low(u: Unit): Byte {
    (u % 256) as Byte
  }

  // ----- writing -----

  /** The name as a C string, zero from its terminator on. */
  function UnitAt(name: seq<Byte>, k: nat): Unit {
    if k < |name| then Wide(name[k]) else 0
  }

  function Units(name: seq<Byte>, from: nat, n: nat): (us: seq<Unit>)
    ensures |us| == n && forall k :: 0 <= k < n ==> us[k] == UnitAt(name, from + k)
  {
    seq<Unit>(n, k requires 0 <= k < n => UnitAt(name, from + k))
  }

  function EntryCount(name: seq<Byte>): nat {
    (|name| + 12) / 13
  }

  /** Entry i of n, with 0x40 on the one written first. */
  function EntryOf(name: seq<Byte>, i: nat, n: nat): LfnEntry
    requires i > 0
  {
    var from := 13 * (i - 1);
    LfnEntry(if i == n then i + 0x40 else i, Units(name, from, 5), Units(name, from + 5, 6), Units(name, from + 11, 2))
  }

  /** Entries i, i - 1, ..., 1 of n. */
  function EntriesFrom(name: seq<Byte>, i: nat, n: nat): (es: seq<LfnEntry>)
    ensures |es| == i
  {
    if i == 0 then [] else [EntryOf(name, i, n)] + EntriesFrom(name, i - 1, n)
  }

  function Entries(name: seq<Byte>): seq<LfnEntry> {
    EntriesFrom(name, EntryCount(name), EntryCount(name))
  }

  /** What is written: entry k of a name, counted in the order of writing, is piece n - k of its
      n pieces; it carries that number, the first one with 0x40 added, and its 13 units hold
      the characters of the piece, widened with their sign, and zeros behind the name. */
  lemma WrittenAre(name: seq<Byte>, k: nat, j: nat)
    requires k < |Entries(name)| && j < 13
    ensures var n, e := (|name| + 12) / 13, Entries(name)[k];
      && |Entries(name)| == n
      && e.order == n - k + (if k == 0 then 0x40 else 0)
      && Shaped(e)
      && var p := 13 * (n - k - 1) + j;
         if p >= |name| then All(e)[j] == 0
         else All(e)[j] % 256 == name[p] as int && All(e)[j] / 256 == (if name[p] < 128 then 0 else 0xff)
  {
    var n := EntryCount(name);
    EntriesFromAt(name, n, n, k);
    AllIs(name, n - k, n);
    hide Entries, EntriesFrom;
    var us := Units(name, 13 * (n - k - 1), 13);
    assert us[j] == UnitAt(name, 13 * (n - k - 1) + j);
  }

  lemma {:induction false} EntriesFromAt(name: seq<Byte>, i: nat, n: nat, k: nat)
    requires k < i
    ensures EntriesFrom(name, i, n)[k] == EntryOf(name, i - k, n)
  {
    if k > 0 {
      EntriesFromAt(name, i - 1, n, k - 1);
    }
  }

  // ----- reading -----

  /** Characters parse_lfn copies: up to a zero, inclusive, or the end of the buffer. */
  function Copied(us: seq<Unit>, offset: nat): (n: nat)
    ensures n <= |us| && (offset < LIMIT ==> offset + n <= LIMIT) && (offset >= LIMIT ==> n == 0)
  {
    if us == [] || offset >= LIMIT then 0
    else if us[0] == 0 then 1
    else 1 + Copied(us[1..], offset + 1)
  }

  lemma {:induction false} CopiedIs(us: seq<Unit>, offset: nat)
    ensures var n := Copied(us, offset);
      && (forall k :: 0 <= k < n - 1 ==> us[k] != 0)
      && (n < |us| && offset + n < LIMIT ==> n > 0 && us[n - 1] == 0)
    decreases us
  {
    if us != [] && offset < LIMIT && us[0] != 0 {
      CopiedIs(us[1..], offset + 1);
    }
  }

  function Pasted(buf: seq<Byte>, us: seq<Unit>, offset: nat): (r: seq<Byte>)
    requires |buf| == LIMIT
    ensures |r| == LIMIT
  {
    var n := Copied(us, offset);
    seq(LIMIT, k requires 0 <= k < LIMIT => if offset <= k < offset + n then Low(us[k - offset]) else buf[k])
  }

  datatype Decoder = Decoder(buf: seq<Byte>, length: nat, found: bool)

  function Order(d: Decoder, e: LfnEntry): nat {
    if d.found then e.order else e.order % 0x40
  }

  /** process_lfn_entry */
  function Process(d: Decoder, e: LfnEntry): (d': Decoder)
    requires |d.buf| == LIMIT && Order(d, e) > 0
    ensures |d'.buf| == LIMIT
  {
    var offset := 13 * (Order(d, e) - 1);
    var buf := Pasted(d.buf, All(e), offset);
    var end := offset + Copied(All(e), offset);
    if d.found then d.(buf := buf)
    else if end >= LIMIT then Decoder(buf[LIMIT - 1 := 0], LIMIT, true)
    else Decoder(buf, end, true)
  }

  ghost predicate Readable(es: seq<LfnEntry>, found: bool) {
    forall i :: 0 <= i < |es| ==> (if i == 0 && !found then es[i].order % 0x40 else es[i].order) > 0
  }

  function ProcessAll(d: Decoder, es: seq<LfnEntry>): (d': Decoder)
    requires |d.buf| == LIMIT && Readable(es, d.found)
    ensures |d'.buf| == LIMIT
    decreases es
  {
    if es == [] then d else ProcessAll(Process(d, es[0]), es[1..])
  }

  // ----- round trip -----

  /** The buffer holds the name from position `from` on, and its terminator unless the name
      fills its last entry; all bytes after that are what was there before. */
  ghost predicate HasTail(d: Decoder, name: seq<Byte>, from: nat, before: seq<Byte>) {
    && |d.buf| == |before| == LIMIT && d.found && |name| <= 254
    && (forall k :: from <= k < |name| ==> d.buf[k] == name[k])
    && (d.buf[|name|] == if |name| % 13 == 0 then before[|name|] else 0)
    && (forall k :: |name| < k < LIMIT ==> d.buf[k] == before[k])
    && d.length == if |name| % 13 == 0 then |name| else |name| + 1
  }

  ghost predicate IsName(name: seq<Byte>) {
    1 <= |name| <= 254 && forall k :: 0 <= k < |name| ==> name[k] != 0
  }

  lemma AllIs(name: seq<Byte>, i: nat, n: nat)
    requires i > 0
    ensures All(EntryOf(name, i, n)) == Units(name, 13 * (i - 1), 13)
  {
  }

  /** The entry written first, with the end of the name. */
  lemma FirstEntry(d: Decoder, name: seq<Byte>)
    requires IsName(name) && |d.buf| == LIMIT && !d.found
    ensures var n := EntryCount(name);
      n > 0 && Order(d, EntryOf(name, n, n)) == n && HasTail(Process(d, EntryOf(name, n, n)), name, 13 * (n - 1), d.buf)
  {
    hide Copied, Units, Pasted, All, IsName;
    var n := EntryCount(name);
    FirstCopied(name);
    AllIs(name, n, n);
    FirstBuffer(d.buf, name);
  }

  lemma FirstBuffer(buf: seq<Byte>, name: seq<Byte>)
    requires IsName(name) && |buf| == LIMIT
    ensures var offset := 13 * (EntryCount(name) - 1);
      var r := Pasted(buf, Units(name, offset, 13), offset);
      && (forall k :: offset <= k < |name| ==> r[k] == name[k])
      && r[|name|] == (if |name| % 13 == 0 then buf[|name|] else 0)
      && (forall k :: |name| < k < LIMIT ==> r[k] == buf[k])
  {
    hide Copied, Wide;
    FirstCopied(name);
    var offset := 13 * (EntryCount(name) - 1);
    var us := Units(name, offset, 13);
    assert forall k :: 0 <= k < 13 && offset + k < |name| ==> Low(us[k]) == name[offset + k];
    var r := Pasted(buf, us, offset);
    assert forall k :: offset <= k < |name| ==> r[k] == Low(us[k - offset]);
    assert |name| % 13 != 0 ==> r[|name|] == Low(us[|name| - offset]);
  }

  lemma FirstCopied(name: seq<Byte>)
    requires IsName(name)
    ensures 1 <= |name| <= 254
    ensures var offset := 13 * (EntryCount(name) - 1);
      offset + Copied(Units(name, offset, 13), offset) == if |name| % 13 == 0 then |name| else |name| + 1
  {
    hide Copied, Wide;
    var n := EntryCount(name);
    var offset := 13 * (n - 1);
    var us := Units(name, offset, 13);
    var c := Copied(us, offset);
    CopiedIs(us, offset);
    if |name| % 13 == 0 {
      assert c == 13;
    } else {
      var z := |name| - offset;
      assert us[z] == 0;
      assert c == z + 1;
    }
  }

  /** Any earlier piece of the name is a full entry. */
  lemma FullEntry(d: Decoder, name: seq<Byte>, i: nat, before: seq<Byte>)
    requires IsName(name) && 0 < i < EntryCount(name) && HasTail(d, name, 13 * i, before)
    ensures Order(d, EntryOf(name, i, EntryCount(name))) == i
    ensures HasTail(Process(d, EntryOf(name, i, EntryCount(name))), name, 13 * (i - 1), before)
  {
    var n := EntryCount(name);
    var offset := 13 * (i - 1);
    AllIs(name, i, n);
    var us := Units(name, offset, 13);
    var c := Copied(us, offset);
    CopiedIs(us, offset);
    assert offset + 13 < |name|;
    assert c == 13;
  }

  lemma {:induction false} RestOfEntries(d: Decoder, name: seq<Byte>, i: nat, before: seq<Byte>)
    requires IsName(name) && i < EntryCount(name) && HasTail(d, name, 13 * i, before)
    ensures Readable(EntriesFrom(name, i, EntryCount(name)), true)
    ensures HasTail(ProcessAll(d, EntriesFrom(name, i, EntryCount(name))), name, 0, before)
    decreases i
  {
    hide Process, EntryOf, HasTail, EntryCount;
    var n := EntryCount(name);
    TailBuffer(d, name, 13 * i, before);
    if i > 0 {
      var e := EntryOf(name, i, n);
      EntryOrder(name, i, n);
      FullEntry(d, name, i, before);
      RestOfEntries(Process(d, e), name, i - 1, before);
      Unroll(d, e, EntriesFrom(name, i - 1, n));
    }
  }

  lemma TailBuffer(d: Decoder, name: seq<Byte>, from: nat, before: seq<Byte>)
    requires HasTail(d, name, from, before)
    ensures |d.buf| == LIMIT && d.found
  {
  }

  lemma EntryOrder(name: seq<Byte>, i: nat, n: nat)
    requires i > 0
    ensures EntryOf(name, i, n).order > 0
  {
  }

  lemma Unroll(d: Decoder, e: LfnEntry, es: seq<LfnEntry>)
    requires |d.buf| == LIMIT && Order(d, e) > 0 && Readable(es, true) && Process(d, e).found
    ensures Readable([e] + es, d.found) && ProcessAll(d, [e] + es) == ProcessAll(Process(d, e), es)
  {
  }

  /** What a directory reader returns: the buffer up to the length, then a terminator. */
  function Returned(d: Decoder): seq<Byte>
    requires d.length <= |d.buf|
  {
    d.buf[..d.length] + [0]
  }

  /** Every name of 1 to 254 characters comes back as it was written, terminated. */
  lemma RoundTrip(d: Decoder, name: seq<Byte>)
    requires IsName(name) && |d.buf| == LIMIT && !d.found
    ensures Readable(Entries(name), false)
    ensures var d' := ProcessAll(d, Entries(name));
      d'.found && d'.length < LIMIT && name + [0] <= Returned(d')
  {
    hide Process, EntryOf, HasTail;
    DecodesTail(d, name);
    NameReturned(ProcessAll(d, Entries(name)), name, d.buf);
  }

  lemma DecodesTail(d: Decoder, name: seq<Byte>)
    requires IsName(name) && |d.buf| == LIMIT && !d.found
    ensures Readable(Entries(name), false) && HasTail(ProcessAll(d, Entries(name)), name, 0, d.buf)
  {
    hide Process, EntryOf, HasTail;
    var n := EntryCount(name);
    FirstEntry(d, name);
    var e := EntryOf(name, n, n);
    TailBuffer(Process(d, e), name, 13 * (n - 1), d.buf);
    RestOfEntries(Process(d, e), name, n - 1, d.buf);
    Unroll(d, e, EntriesFrom(name, n - 1, n));
  }

  lemma NameReturned(d: Decoder, name: seq<Byte>, before: seq<Byte>)
    requires HasTail(d, name, 0, before)
    ensures d.found && d.length < LIMIT && name + [0] <= Returned(d)
  {
  }

  /** The whole buffer after a name was read: the name, its terminator unless the name fills
      its last entry, and what was there before. */
  lemma BufferAfterName(d: Decoder, name: seq<Byte>)
    requires IsName(name) && |d.buf| == LIMIT && !d.found
    ensures Readable(Entries(name), false)
    ensures var buf := ProcessAll(d, Entries(name)).buf;
      forall k :: 0 <= k < LIMIT ==>
        buf[k] == if k < |name| then name[k] else if k == |name| && |name| % 13 != 0 then 0 else d.buf[k]
  {
    hide ProcessAll, Entries;
    DecodesTail(d, name);
  }

  lemma {:induction false} LengthKept(d: Decoder, es: seq<LfnEntry>)
    requires |d.buf| == LIMIT && d.found && Readable(es, true)
    ensures ProcessAll(d, es).length == d.length
    decreases es
  {
    if es != [] {
      LengthKept(Process(d, es[0]), es[1..]);
    }
  }

  lemma {:induction false} EntriesReadable(name: seq<Byte>, i: nat, n: nat)
    ensures Readable(EntriesFrom(name, i, n), true)
  {
    if i > 0 {
      EntriesReadable(name, i - 1, n);
    }
  }

  /** The length that the entry written first gives, for any name of up to 255 characters. */
  lemma FirstLength(d: Decoder, name: seq<Byte>)
    requires 1 <= |name| <= 255 && (forall k :: 0 <= k < |name| ==> name[k] != 0) && |d.buf| == LIMIT && !d.found
    ensures var n := EntryCount(name);
      && n > 0 && Order(d, EntryOf(name, n, n)) == n && Process(d, EntryOf(name, n, n)).found
      && Process(d, EntryOf(name, n, n)).length == if |name| % 13 == 0 then |name| else |name| + 1
  {
    hide Copied, Wide, Pasted;
    var n := EntryCount(name);
    var offset := 13 * (n - 1);
    AllIs(name, n, n);
    var us := Units(name, offset, 13);
    var c := Copied(us, offset);
    CopiedIs(us, offset);
    if |name| % 13 == 0 {
      assert c == 13;
    } else {
      assert us[|name| - offset] == 0;
      assert c == |name| - offset + 1;
    }
  }

  /** The reader stores a terminator after the decoded length.  That stays inside the 256-byte
      name exactly for names of up to 254 characters. */
  lemma TerminatorFitsIff(d: Decoder, name: seq<Byte>)
    requires 1 <= |name| <= 255 && (forall k :: 0 <= k < |name| ==> name[k] != 0) && |d.buf| == LIMIT && !d.found
    ensures Readable(Entries(name), false)
    ensures ProcessAll(d, Entries(name)).length < LIMIT <==> |name| <= 254
  {
    hide Process, EntryOf;
    var n := EntryCount(name);
    var e := EntryOf(name, n, n);
    FirstLength(d, name);
    EntriesReadable(name, n - 1, n);
    Unroll(d, e, EntriesFrom(name, n - 1, n));
    LengthKept(Process(d, e), EntriesFrom(name, n - 1, n));
  }
}
