/** The search for an existing entry in fat32_add_entry (kernel/src/filesystem/fat32.c): every
    name of the directory is read into one buffer, which is compared as a C string with the
    name to add.  A long name that fills its last entry is not terminated there, so what
    earlier names left behind takes part in the comparison. */
module DuplicateTests {
  import opened Common
  import opened LongNames

  /** An entry of the directory, stored with long entries or as a short name. */
  datatype Listed = Long(name: seq<Byte>) | Short(name: seq<Byte>)

  ghost predicate IsListed(x: Listed) {
    IsName(x.name) && (x.Short? ==> |x.name| <= 12)
  }

  ghost predicate IsDirectory(dir: seq<Listed>) {
    forall i :: 0 <= i < |dir| ==> IsListed(dir[i])
  }

  /** Reading leaves the name without a terminator. */
  predicate Fills(x: Listed) {
    x.Long? && |x.name| % 13 == 0
  }

  // ----- the buffer -----

  /** process_lfn_entry over the entries of a long name, or process_sfn_entry. */
  ghost function ReadOne(buf: seq<Byte>, x: Listed): (r: seq<Byte>)
    requires |buf| == LIMIT && IsListed(x)
    ensures |r| == LIMIT
  {
    BufferAfterName(Decoder(buf, 0, false), x.name);
    if x.Long? then ProcessAll(Decoder(buf, 0, false), Entries(x.name)).buf
    else x.name + [0] + buf[|x.name| + 1..]
  }

  lemma ReadOneIs(buf: seq<Byte>, x: Listed)
    requires |buf| == LIMIT && IsListed(x)
    ensures forall k :: 0 <= k < LIMIT ==>
      ReadOne(buf, x)[k] == if k < |x.name| then x.name[k] else if k == |x.name| && !Fills(x) then 0 else buf[k]
  {
    hide ProcessAll, Entries;
    var d := Decoder(buf, 0, false);
    BufferAfterName(d, x.name);
    if x.Long? {
      assert ReadOne(buf, x) == ProcessAll(d, Entries(x.name)).buf;
    } else {
      ShortIs(buf, x.name);
      assert ReadOne(buf, x) == x.name + [0] + buf[|x.name| + 1..];
    }
  }

  lemma ShortIs(buf: seq<Byte>, name: seq<Byte>)
    requires |buf| == LIMIT && |name| < LIMIT
    ensures var r := name + [0] + buf[|name| + 1..];
      |r| == LIMIT && forall k :: 0 <= k < LIMIT ==>
        r[k] == if k < |name| then name[k] else if k == |name| then 0 else buf[k]
  {
    var n := |name|;
    assert forall k :: n < k < LIMIT ==> buf[n + 1..][k - n - 1] == buf[k];
  }

  ghost function ReadAll(buf: seq<Byte>, dir: seq<Listed>): (r: seq<Byte>)
    requires |buf| == LIMIT && IsDirectory(dir)
    ensures |r| == LIMIT
  {
    if dir == [] then buf else ReadOne(ReadAll(buf, dir[..|dir| - 1]), dir[|dir| - 1])
  }

  /** Byte k of the buffer in terms of the names read: the last one that reaches it decides. */
  function ByteAfter(buf: seq<Byte>, dir: seq<Listed>, k: nat): Byte
    requires k < |buf|
  {
    if dir == [] then buf[k]
    else
      var x := dir[|dir| - 1];
      if k < |x.name| then x.name[k]
      else if k == |x.name| && !Fills(x) then 0
      else ByteAfter(buf, dir[..|dir| - 1], k)
  }

  lemma {:induction false} ReadAllIs(buf: seq<Byte>, dir: seq<Listed>, k: nat)
    requires |buf| == LIMIT && IsDirectory(dir) && k < LIMIT
    ensures ReadAll(buf, dir)[k] == ByteAfter(buf, dir, k)
  {
    hide ReadOne;
    if dir != [] {
      var n := |dir| - 1;
      ReadAllIs(buf, dir[..n], k);
      ReadOneIs(ReadAll(buf, dir[..n]), dir[n]);
    }
  }

  // ----- the comparison -----

  function Upper(c: Byte): Byte {
    if 97 <= c <= 122 then c - 32 else c
  }

  /** Two bytes are alike exactly when they are equal or the two cases of one letter. */
  lemma UpperIff(a: Byte, b: Byte)
    ensures Upper(a) == Upper(b) <==>
      || a == b
      || ('a' as int <= a as int <= 'z' as int && b as int == a as int - 'a' as int + 'A' as int)
      || ('a' as int <= b as int <= 'z' as int && a as int == b as int - 'a' as int + 'A' as int)
  {
  }

  /** strcmp_case_insensitive gives 0, from position k of both strings on. */
  predicate Same(buf: seq<Byte>, str: seq<Byte>, k: nat)
    requires k < |str| <= |buf| && str[|str| - 1] == 0
    decreases |str| - k
  {
    if buf[k] != 0 && str[k] != 0 && Upper(buf[k]) == Upper(str[k]) then Same(buf, str, k + 1)
    else Upper(buf[k]) == Upper(str[k])
  }

  /** The same letters, small or capital. */
  ghost predicate Alike(a: seq<Byte>, b: seq<Byte>) {
    |a| == |b| && forall i :: 0 <= i < |a| ==> Upper(a[i]) == Upper(b[i])
  }

  /** It does exactly when the buffer begins with the name, letter case apart, and ends there. */
  lemma {:induction false} SameIff(buf: seq<Byte>, z: seq<Byte>, k: nat)
    requires k <= |z| < |buf| && forall i :: 0 <= i < |z| ==> z[i] != 0
    ensures Same(buf, z + [0], k) <==> Alike(buf[k..|z|], z[k..]) && buf[|z|] == 0
    decreases |z| - k
  {
    if k < |z| {
      SameIff(buf, z, k + 1);
      var a, b := buf[k..|z|], z[k..];
      assert a[1..] == buf[k + 1..|z|] && b[1..] == z[k + 1..];
      AlikeStep(a, b);
    }
  }

  lemma AlikeStep(a: seq<Byte>, b: seq<Byte>)
    requires |a| == |b| > 0
    ensures Alike(a, b) <==> Upper(a[0]) == Upper(b[0]) && Alike(a[1..], b[1..])
  {
    if Upper(a[0]) == Upper(b[0]) && Alike(a[1..], b[1..]) {
      forall i | 0 <= i < |a| ensures Upper(a[i]) == Upper(b[i]) {
        if i > 0 {
          assert a[1..][i - 1] == a[i] && b[1..][i - 1] == b[i];
        }
      }
    }
    if Alike(a, b) {
      assert forall i :: 0 <= i < |a| - 1 ==> a[1..][i] == a[i + 1] && b[1..][i] == b[i + 1];
    }
  }

  // ----- the search -----

  /** The comparison made after entry i was read says that z exists. */
  ghost predicate Hit(buf: seq<Byte>, dir: seq<Listed>, i: nat, z: seq<Byte>)
    requires |buf| == LIMIT && IsDirectory(dir) && i < |dir| && IsName(z)
  {
    Same(ReadAll(buf, dir[..i + 1]), z + [0], 0)
  }

  /** What the names themselves say about it: z is the name of entry i and is terminated, or
      the name of entry i is unterminated and what earlier names left behind it spells the
      rest of z. */
  ghost predicate Spells(buf: seq<Byte>, dir: seq<Listed>, i: nat, z: seq<Byte>)
    requires |buf| == LIMIT && i < |dir| && IsName(z)
  {
    var y, n := dir[i], |dir[i].name|;
    && |z| >= n && Alike(y.name, z[..n]) && (|z| > n ==> Fills(y))
    && (forall k :: n <= k < |z| ==> Upper(ByteAfter(buf, dir[..i], k)) == Upper(z[k]))
    && (Fills(y) ==> ByteAfter(buf, dir[..i], |z|) == 0)
  }

  /** The comparison is decided by the names read so far and the first content of the buffer. */
  lemma HitIff(buf: seq<Byte>, dir: seq<Listed>, i: nat, z: seq<Byte>)
    requires |buf| == LIMIT && IsDirectory(dir) && i < |dir| && IsName(z)
    ensures Hit(buf, dir, i, z) <==> Spells(buf, dir, i, z)
  {
    hide ReadAll, ByteAfter, Same, Upper;
    var r := ReadAll(buf, dir[..i + 1]);
    SameIff(r, z, 0);
    assert z[0..] == z;
    forall k: nat | k < LIMIT ensures r[k] == ByteOf(buf, dir, i, k) {
      ReadAllIs(buf, dir[..i + 1], k);
      ByteAfterStep(buf, dir, i, k);
    }
    CutAt(buf, dir, i, z, r);
  }

  /** Byte k of the buffer after entry i was read. */
  function ByteOf(buf: seq<Byte>, dir: seq<Listed>, i: nat, k: nat): Byte
    requires k < |buf| && i < |dir|
  {
    if k < |dir[i].name| then dir[i].name[k]
    else if k == |dir[i].name| && !Fills(dir[i]) then 0
    else ByteAfter(buf, dir[..i], k)
  }

  lemma ByteAfterStep(buf: seq<Byte>, dir: seq<Listed>, i: nat, k: nat)
    requires k < |buf| && i < |dir|
    ensures ByteAfter(buf, dir[..i + 1], k) == ByteOf(buf, dir, i, k)
  {
    assert dir[..i + 1][..i] == dir[..i];
  }

  lemma CutAt(buf: seq<Byte>, dir: seq<Listed>, i: nat, z: seq<Byte>, r: seq<Byte>)
    requires |buf| == |r| == LIMIT && IsDirectory(dir) && i < |dir| && IsName(z)
    requires forall k: nat :: k < LIMIT ==> r[k] == ByteOf(buf, dir, i, k)
    ensures Alike(r[0..|z|], z) && r[|z|] == 0 <==> Spells(buf, dir, i, z)
  {
    hide ByteAfter;
    var y := dir[i].name;
    var n := |y|;
    if |z| < n {
      assert r[|z|] == y[|z|];
    } else if |z| > n && !Fills(dir[i]) {
      assert r[n] == 0 && r[0..|z|][n] == r[n];
    } else {
      assert forall k :: 0 <= k < |z| ==> r[0..|z|][k] == r[k];
      assert forall k :: 0 <= k < n ==> z[..n][k] == z[k];
      if Spells(buf, dir, i, z) {
        forall k | 0 <= k < |z| ensures Upper(r[k]) == Upper(z[k]) {
          if k < n {
            assert Upper(y[k]) == Upper(z[..n][k]);
          }
        }
      }
      if Alike(r[0..|z|], z) {
        forall k | 0 <= k < |z| ensures Upper(r[k]) == Upper(z[k]) {
          assert Upper(r[0..|z|][k]) == Upper(z[k]);
        }
      }
    }
  }

  /** After a place where only unterminated names end, a zero is left exactly if the buffer
      began with one and no name read reaches further. */
  lemma {:induction false} ZeroLeftIff(buf: seq<Byte>, dir: seq<Listed>, n: nat)
    requires |buf| == LIMIT && IsDirectory(dir) && 0 < n < LIMIT && n % 13 == 0
    ensures ByteAfter(buf, dir, n) == 0 <==> buf[n] == 0 && forall j :: 0 <= j < |dir| ==> |dir[j].name| <= n
  {
    if dir != [] {
      var m := |dir| - 1;
      ZeroLeftIff(buf, dir[..m], n);
      assert IsListed(dir[m]);
      assert forall j :: 0 <= j < m ==> dir[..m][j] == dir[j];
    }
  }

  /** A name that is there is noticed at its own entry exactly when it is terminated, or no
      name before it is longer and the buffer began with a zero where it ends. */
  lemma DuplicateFoundIff(buf: seq<Byte>, dir: seq<Listed>, i: nat)
    requires |buf| == LIMIT && IsDirectory(dir) && i < |dir|
    ensures IsName(dir[i].name)
    ensures Hit(buf, dir, i, dir[i].name) <==>
      !Fills(dir[i]) || (buf[|dir[i].name|] == 0 && forall j :: 0 <= j < i ==> |dir[j].name| <= |dir[i].name|)
  {
    hide ByteAfter, Hit;
    var y := dir[i];
    assert IsListed(y);
    HitIff(buf, dir, i, y.name);
    assert y.name[..|y.name|] == y.name;
    if Fills(y) {
      ZeroLeftIff(buf, dir[..i], |y.name|);
      assert forall j :: 0 <= j < i ==> dir[..i][j] == dir[j];
    }
  }

  /** Behind a longer name an unterminated one is not noticed, whatever the buffer held. */
  lemma DuplicateMissed(buf: seq<Byte>, dir: seq<Listed>, j: nat, i: nat)
    requires |buf| == LIMIT && IsDirectory(dir) && j < i < |dir|
    requires Fills(dir[i]) && |dir[j].name| > |dir[i].name|
    ensures IsName(dir[i].name) && !Hit(buf, dir, i, dir[i].name)
  {
    hide Hit;
    DuplicateFoundIff(buf, dir, i);
  }

  /** And the other way round: with x and then the unterminated y in a directory, the name that
      begins with y and goes on as x does is refused, though it need not be there. */
  lemma FalseDuplicate(buf: seq<Byte>, x: Listed, y: Listed)
    requires |buf| == LIMIT && IsListed(x) && IsListed(y) && Fills(y) && !Fills(x) && |x.name| > |y.name|
    ensures var z := y.name + x.name[|y.name|..];
      && IsName(z) && Hit(buf, [x, y], 1, z)
      && (!Alike(x.name[..|y.name|], y.name) ==> !Alike(x.name, z) && !Alike(y.name, z))
  {
    hide Hit, Upper;
    var n := |y.name|;
    var z := y.name + x.name[n..];
    assert z[..n] == y.name;
    assert [x, y][..1] == [x];
    assert forall k :: n <= k <= |x.name| ==> ByteAfter(buf, [x], k) == if k < |x.name| then x.name[k] else 0;
    HitIff(buf, [x, y], 1, z);
    if Alike(x.name, z) {
      forall k | 0 <= k < n ensures Upper(x.name[..n][k]) == Upper(y.name[k]) {
        assert Upper(x.name[k]) == Upper(z[k]);
      }
    }
  }

  // ----- the whole search -----

  /** fat32_add_entry answers that z exists. */
  ghost predicate Refused(buf: seq<Byte>, dir: seq<Listed>, z: seq<Byte>)
    requires |buf| == LIMIT && IsDirectory(dir) && IsName(z)
  {
    exists i: nat :: i < |dir| && Hit(buf, dir, i, z)
  }

  ghost predicate Exists(dir: seq<Listed>, z: seq<Byte>) {
    exists i :: 0 <= i < |dir| && Alike(dir[i].name, z)
  }

  ghost predicate AnswersRight(dir: seq<Listed>)
    requires IsDirectory(dir)
  {
    forall buf, z :: |buf| == LIMIT && IsName(z) ==> (Refused(buf, dir, z) <==> Exists(dir, z))
  }

  /** A terminated entry is compared as it is. */
  lemma TerminatedHit(buf: seq<Byte>, dir: seq<Listed>, i: nat, z: seq<Byte>)
    requires |buf| == LIMIT && IsDirectory(dir) && i < |dir| && IsName(z) && !Fills(dir[i])
    ensures Hit(buf, dir, i, z) <==> Alike(dir[i].name, z)
  {
    hide Hit, ByteAfter, Upper;
    HitIff(buf, dir, i, z);
    if |z| == |dir[i].name| {
      assert z[..|z|] == z;
    }
  }

  /** A buffer without a zero where y would end hides y, whatever else is in the directory. */
  lemma HiddenName(buf: seq<Byte>, dir: seq<Listed>, i: nat, j: nat)
    requires |buf| == LIMIT && IsDirectory(dir) && i < |dir| && j < |dir| && Fills(dir[i]) && buf[|dir[i].name|] != 0
    ensures IsName(dir[i].name) && !Hit(buf, dir, j, dir[i].name)
  {
    hide Hit, ByteAfter;
    assert IsListed(dir[i]) && IsListed(dir[j]);
    var z := dir[i].name;
    HitIff(buf, dir, j, z);
    ZeroLeftIff(buf, dir[..j], |z|);
  }

  /** For every name to add and every content of the buffer, which is an uninitialised local,
      the search answers right exactly when no long name in the directory has a length that
      is a multiple of 13. */
  lemma AnswersRightIff(dir: seq<Listed>)
    requires IsDirectory(dir)
    ensures AnswersRight(dir) <==> forall i :: 0 <= i < |dir| ==> !Fills(dir[i])
  {
    hide Hit;
    if forall i :: 0 <= i < |dir| ==> !Fills(dir[i]) {
      forall buf, z | |buf| == LIMIT && IsName(z) ensures Refused(buf, dir, z) <==> Exists(dir, z) {
        forall i: nat | i < |dir| ensures Hit(buf, dir, i, z) <==> Alike(dir[i].name, z) {
          TerminatedHit(buf, dir, i, z);
        }
      }
    } else {
      var i :| 0 <= i < |dir| && Fills(dir[i]);
      var buf: seq<Byte> := seq(LIMIT, _ => 1);
      var z := dir[i].name;
      assert IsListed(dir[i]);
      forall j: nat | j < |dir| ensures !Hit(buf, dir, j, z) {
        HiddenName(buf, dir, i, j);
      }
      assert Alike(dir[i].name, z);
      assert Exists(dir, z) && !Refused(buf, dir, z);
    }
  }
}
