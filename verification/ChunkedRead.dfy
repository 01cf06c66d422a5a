/** Reading a file in pieces (kernel/src/filesystem/file_op.c and the read_file functions of
    ramfs.c and fat32.c): what successive reads return, and where in the block chain the
    lazily advanced cursor stands between them. */
module ChunkedReads {
  import opened Common

  // ----- what a reader sees -----

  datatype Reply = Data(bytes: seq<Byte>) | Eof

  function Min(a: nat, b: nat): nat { if a <= b then a else b }

  /** file_read on the whole content: end-of-file exactly at the end, otherwise a slice. */
  function ReplyAt(content: seq<Byte>, position: nat, n: nat): (r: Reply)
    requires position <= |content|
  {
    if position == |content| then Eof else Data(content[position..Min(position + n, |content|)])
  }

  function PositionAfter(content: seq<Byte>, position: nat, n: nat): (p: nat)
    requires position <= |content|
    ensures position <= p <= |content|
  {
    Min(position + n, |content|)
  }

  function Replies(content: seq<Byte>, position: nat, sizes: seq<nat>): (r: seq<Reply>)
    requires position <= |content|
    ensures |r| == |sizes|
    decreases sizes
  {
    if sizes == [] then []
    else [ReplyAt(content, position, sizes[0])] + Replies(content, PositionAfter(content, position, sizes[0]), sizes[1..])
  }

  lemma RepliesStep(content: seq<Byte>, position: nat, sizes: seq<nat>)
    requires position <= |content| && sizes != []
    ensures Replies(content, position, sizes) ==
      [ReplyAt(content, position, sizes[0])] + Replies(content, PositionAfter(content, position, sizes[0]), sizes[1..])
  {
  }

  /** Bytes of the stream inside the file are bytes of its content. */
  lemma Slice(stream: seq<Byte>, size: nat, from: nat, to: nat)
    requires from <= to <= size <= |stream|
    ensures stream[..size][from..to] == stream[from..to]
  {
  }

  function Sum(sizes: seq<nat>): nat {
    if sizes == [] then 0 else sizes[0] + Sum(sizes[1..])
  }

  function Joined(rs: seq<Reply>): seq<Byte> {
    if rs == [] then [] else (if rs[0].Data? then rs[0].bytes else []) + Joined(rs[1..])
  }

  /** Whatever sizes are asked for, the replies put together are a prefix of what is left of
      the file, as long as the sizes allow. */
  lemma {:induction false} RepliesJoin(content: seq<Byte>, position: nat, sizes: seq<nat>)
    requires position <= |content|
    ensures Joined(Replies(content, position, sizes)) == content[position..Min(position + Sum(sizes), |content|)]
    decreases sizes
  {
    if sizes != [] {
      var p := PositionAfter(content, position, sizes[0]);
      RepliesJoin(content, p, sizes[1..]);
      var rs := Replies(content, position, sizes);
      assert rs[1..] == Replies(content, p, sizes[1..]);
      var end := Min(position + Sum(sizes), |content|);
      assert content[position..end] == content[position..p] + content[p..end];
    }
  }

  /** Reply i is end-of-file exactly when the requests before it covered the file. */
  lemma {:induction false} EofExactly(content: seq<Byte>, position: nat, sizes: seq<nat>, i: nat)
    requires position <= |content| && i < |sizes|
    ensures Replies(content, position, sizes)[i].Eof? <==> position + Sum(sizes[..i]) >= |content|
    decreases sizes
  {
    if i > 0 {
      EofExactly(content, PositionAfter(content, position, sizes[0]), sizes[1..], i - 1);
      assert sizes[1..][..i - 1] == sizes[..i][1..];
    }
  }

  // ----- the cursor -----

  /** The offset of block i in a chain of blocks of b bytes. */
  function First(b: nat, i: nat): nat { b * i }

  lemma Next(b: nat, i: nat)
    ensures First(b, i + 1) == First(b, i) + b && First(b, 0) == 0
  {
  }

  lemma {:induction false} Later(b: nat, i: nat, j: nat)
    requires i < j
    ensures First(b, i) + b <= First(b, j)
    decreases j
  {
    hide First;
    Next(b, j - 1);
    if i < j - 1 {
      Later(b, i, j - 1);
    }
  }

  lemma Divides(b: nat, x: nat)
    requires b > 0
    ensures x == First(b, x / b) + x % b && x % b < b
  {
  }

  /** The block that holds byte x is the only one whose range contains it. */
  lemma InOneBlock(b: nat, i: nat, x: nat)
    requires b > 0
    ensures First(b, i) <= x < First(b, i) + b <==> i == x / b
  {
    hide First;
    Divides(b, x);
    var q := x / b;
    if i < q {
      Later(b, i, q);
    } else if q < i {
      Later(b, q, i);
    }
  }

  /** The cursor stands at the block of the last byte read, block 0 at the start. */
  ghost predicate Cursor(b: nat, i: nat, position: nat) {
    if position == 0 then i == 0 else First(b, i) < position <= First(b, i) + b
  }

  /** So the current block is ceil(position / b) - 1. */
  lemma CursorIs(b: nat, i: nat, position: nat)
    requires b > 0
    ensures Cursor(b, i, position) <==> i == if position == 0 then 0 else (position - 1) / b
  {
    hide First;
    if position > 0 {
      InOneBlock(b, i, position - 1);
    }
  }

  /** The offset handed to read_file: a whole block at a boundary that is not the start. */
  function Offset(b: nat, position: nat): nat
    requires b > 0
  {
    if position != 0 && position % b == 0 then b else position % b
  }

  lemma OffsetFromCursor(b: nat, i: nat, position: nat)
    requires b > 0 && Cursor(b, i, position)
    ensures First(b, i) + Offset(b, position) == position
  {
    hide First;
    Next(b, 0);
    Divides(b, position);
    var q, r := position / b, position % b;
    if position > 0 && r > 0 {
      InOneBlock(b, i, position - 1);
      InOneBlock(b, q, position - 1);
    } else if position > 0 {
      BoundaryBlock(b, q);
      InOneBlock(b, i, position - 1);
      InOneBlock(b, q - 1, position - 1);
    }
  }

  /** A boundary that is not the start ends a block. */
  lemma BoundaryBlock(b: nat, q: nat)
    requires First(b, q) > 0
    ensures q > 0 && First(b, q) == First(b, q - 1) + b
  {
    hide First;
    Next(b, 0);
    if q > 0 {
      Next(b, q - 1);
    }
  }

  /** Where read_file leaves the cursor after n bytes from absolute offset `start`. */
  ghost predicate Left(b: nat, i: nat, start: nat, n: nat) {
    if n == 0 then First(b, i) <= start < First(b, i) + b else First(b, i) < start + n <= First(b, i) + b
  }

  /** A read keeps the cursor right unless it asks for nothing at a block boundary. */
  lemma CursorKeptIff(b: nat, i: nat, position: nat, n: nat)
    requires b > 0 && Left(b, i, position, n)
    ensures Cursor(b, i, position + n) <==> n > 0 || position == 0 || position % b != 0
  {
    hide First;
    Next(b, 0);
    if n == 0 {
      InOneBlock(b, i, position);
      Divides(b, position);
      InOneBlock(b, 0, position);
    }
  }

  // ----- the chain as one stream -----

  /** Block i holds the b bytes of the stream from First(b, i) on. */
  ghost predicate Spread(stream: seq<Byte>, blocks: seq<seq<Byte>>, b: nat) {
    && b > 0 && |stream| == First(b, |blocks|)
    && (forall i: nat :: i < |blocks| ==> BlockAt(stream, blocks[i], b, First(b, i)))
  }

  ghost predicate BlockAt(stream: seq<Byte>, block: seq<Byte>, b: nat, base: nat) {
    |block| == b && base + b <= |stream| && block == stream[base..base + b]
  }

  /** The bytes from `start` on, n of them or up to the end of the chain. */
  function Extent(stream: seq<Byte>, start: nat, n: nat): seq<Byte> {
    if start >= |stream| then [] else stream[start..Min(start + n, |stream|)]
  }

  /** Part of a block is part of the stream. */
  lemma PartOf(stream: seq<Byte>, block: seq<Byte>, b: nat, base: nat, from: nat, c: nat)
    requires BlockAt(stream, block, b, base) && from + c <= b
    ensures base + from + c <= |stream| && |block| == b && block[from..from + c] == stream[base + from..base + from + c]
  {
    var part := block[from..from + c];
    forall k | 0 <= k < c ensures part[k] == stream[base + from..base + from + c][k] {
      assert part[k] == stream[base..base + b][from + k];
    }
  }

  /** Reading on inside a block extends what was read. */
  lemma ReadOn(stream: seq<Byte>, block: seq<Byte>, b: nat, base: nat, start: nat, from: nat, c: nat)
    requires BlockAt(stream, block, b, base) && start <= base + from && from + c <= b
    ensures base + from + c <= |stream| && |block| == b
    ensures stream[start..base + from] + block[from..from + c] == stream[start..base + from + c]
  {
    PartOf(stream, block, b, base, from, c);
    var at := base + from;
    assert stream[start..at] + stream[at..at + c] == stream[start..at + c];
  }

  lemma SpreadAt(stream: seq<Byte>, blocks: seq<seq<Byte>>, b: nat, i: nat)
    requires Spread(stream, blocks, b) && i < |blocks|
    ensures BlockAt(stream, blocks[i], b, First(b, i)) && |blocks[i]| == b && First(b, i) + b <= |stream|
  {
    hide First;
  }

  lemma SpreadLength(stream: seq<Byte>, blocks: seq<seq<Byte>>, b: nat)
    requires Spread(stream, blocks, b)
    ensures b > 0 && |stream| == First(b, |blocks|)
  {
    hide First;
  }

  // ----- what read_file promises -----

  /** n bytes from `start`, short only when the chain ends, and the cursor where it stopped. */
  ghost predicate ReadDone(stream: seq<Byte>, b: nat, i: nat, start: nat, n: nat, bytes: seq<Byte>, eof: bool) {
    && bytes == Extent(stream, start, n)
    && (eof <==> start >= |stream| || start + n > |stream|)
    && (!eof ==> Left(b, i, start, n))
  }

  lemma DoneIs(stream: seq<Byte>, b: nat, i: nat, start: nat, n: nat, bytes: seq<Byte>, eof: bool)
    requires ReadDone(stream, b, i, start, n, bytes, eof) && start < |stream| && start + n <= |stream|
    ensures !eof && bytes == stream[start..start + n] && Left(b, i, start, n)
  {
    hide First;
  }

  lemma NothingThere(stream: seq<Byte>, b: nat, i: nat, start: nat, n: nat)
    requires start >= |stream|
    ensures ReadDone(stream, b, i, start, n, [], true)
  {
    hide First;
  }

  /** A request that ends inside the current block. */
  lemma InNode(stream: seq<Byte>, block: seq<Byte>, b: nat, i: nat, off: nat, n: nat)
    requires BlockAt(stream, block, b, First(b, i)) && 0 < off < b && |block| == b
    ensures var start := First(b, i) + off;
      && start < |stream| && start + Min(n, b - off) <= |stream|
      && block[off..off + Min(n, b - off)] == stream[start..start + Min(n, b - off)]
      && (n <= b - off ==> ReadDone(stream, b, i, start, n, block[off..off + Min(n, b - off)], false))
  {
    hide First, BlockAt, ReadDone;
    var start := First(b, i) + off;
    PartOf(stream, block, b, First(b, i), off, Min(n, b - off));
    PartOf(stream, block, b, First(b, i), 0, b);
    if n <= b - off {
      WholeDone(stream, b, i, start, n);
    }
  }

  /** A request that runs over the end of the last block. */
  lemma LastNode(stream: seq<Byte>, blocks: seq<seq<Byte>>, b: nat, i: nat, off: nat, n: nat)
    requires Spread(stream, blocks, b) && i + 1 == |blocks| && 0 < off < b && n > b - off
    requires |blocks[i]| == b
    ensures ReadDone(stream, b, i, First(b, i) + off, n, blocks[i][off..off + Min(n, b - off)], true)
  {
    hide First, BlockAt, ReadDone, Spread;
    SpreadAt(stream, blocks, b, i);
    SpreadLength(stream, blocks, b);
    Next(b, i);
    InNode(stream, blocks[i], b, i, off, b - off);
    WholeShort(stream, b, i, First(b, i) + off, n);
  }

  lemma WholeDone(stream: seq<Byte>, b: nat, i: nat, start: nat, n: nat)
    requires start < |stream| && start + n <= |stream| && Left(b, i, start, n)
    ensures ReadDone(stream, b, i, start, n, stream[start..start + n], false)
  {
    hide First;
  }

  lemma WholeShort(stream: seq<Byte>, b: nat, i: nat, start: nat, n: nat)
    requires start + n > |stream| >= start
    ensures ReadDone(stream, b, i, start, n, stream[start..|stream|], true)
  {
    hide First;
  }

  /** The rest of a request, read from a block boundary. */
  lemma Continue(stream: seq<Byte>, b: nat, i: nat, start: nat, n: nat, first: nat, rest: seq<Byte>, eof: bool)
    requires start <= first <= start + n && (start < first ==> first < start + n) && first < |stream|
    requires ReadDone(stream, b, i, first, start + n - first, rest, eof)
    ensures ReadDone(stream, b, i, start, n, stream[start..first] + rest, eof)
  {
    hide First;
    assert Extent(stream, start, n) == stream[start..first] + Extent(stream, first, start + n - first);
  }
}
