/** The storage of a pipe: a chain of 512-byte blocks with a read offset in the first and
    a write offset in the last (the copying loops of ramfs_pipe_read/ramfs_pipe_write).
    The chain stands for the bytes between the two offsets. */
module PipeBuffers {
  import opened Common

  const BLOCK: nat := 512

  type Block = b: seq<Byte> | |b| == BLOCK witness seq(BLOCK, _ => 0 as Byte)

  function Flat(blocks: seq<Block>): (r: seq<Byte>)
    ensures |r| == BLOCK * |blocks|
  {
    if blocks == [] then [] else blocks[0] + Flat(blocks[1..])
  }

  ghost predicate InOrder(blocks: seq<Block>, head: nat, tail: nat) {
    blocks != [] && head <= BLOCK && tail <= BLOCK && head <= BLOCK * (|blocks| - 1) + tail
  }

  /** The bytes from `head` in the first block to `tail` in the last. */
  function Window(blocks: seq<Block>, head: nat, tail: nat): seq<Byte>
    requires InOrder(blocks, head, tail)
  {
    Flat(blocks)[head..BLOCK * (|blocks| - 1) + tail]
  }

  lemma {:induction false} FlatConcat(a: seq<Block>, b: seq<Block>)
    ensures Flat(a + b) == Flat(a) + Flat(b)
  {
    if a == [] {
      assert a + b == b;
    } else {
      FlatConcat(a[1..], b);
      assert (a + b)[1..] == a[1..] + b && (a + b)[0] == a[0];
      assert a[0] + (Flat(a[1..]) + Flat(b)) == a[0] + Flat(a[1..]) + Flat(b);
    }
  }

  lemma FlatOne(b: Block)
    ensures Flat([b]) == b
  {
  }

  lemma ReadChunk(blocks: seq<Block>, head: nat, tail: nat, c: nat)
    requires InOrder(blocks, head, tail) && head + c <= BLOCK && c <= |Window(blocks, head, tail)|
    ensures InOrder(blocks, head + c, tail)
    ensures Window(blocks, head, tail) == blocks[0][head..head + c] + Window(blocks, head + c, tail)
  {
  }

  lemma DropBlock(blocks: seq<Block>, tail: nat)
    requires |blocks| > 1 && tail <= BLOCK
    ensures Window(blocks, BLOCK, tail) == Window(blocks[1..], 0, tail)
  {
  }

  /** The last block with `bs` copied in at `tail`. */
  function Stored(b: Block, tail: nat, bs: seq<Byte>): Block
    requires tail + |bs| <= BLOCK
  {
    b[..tail] + bs + b[tail + |bs|..]
  }

  lemma WriteChunk(blocks: seq<Block>, head: nat, tail: nat, bs: seq<Byte>)
    requires InOrder(blocks, head, tail) && tail + |bs| <= BLOCK
    ensures var last := |blocks| - 1;
      var blocks' := blocks[last := Stored(blocks[last], tail, bs)];
      InOrder(blocks', head, tail + |bs|) && Window(blocks', head, tail + |bs|) == Window(blocks, head, tail) + bs
  {
    var last := |blocks| - 1;
    var front, b, b' := blocks[..last], blocks[last], Stored(blocks[last], tail, bs);
    assert blocks == front + [b] && blocks[last := b'] == front + [b'];
    FlatConcat(front, [b]);
    FlatConcat(front, [b']);
    FlatOne(b);
    FlatOne(b');
    hide Flat, Stored;
    StoredTail(Flat(front), b, tail, bs, head);
  }

  lemma StoredTail(front: seq<Byte>, b: Block, tail: nat, bs: seq<Byte>, head: nat)
    requires tail + |bs| <= BLOCK && head <= |front| + tail
    ensures (front + Stored(b, tail, bs))[head..|front| + tail + |bs|] == (front + b)[head..|front| + tail] + bs
  {
    var n := |front| + tail;
    var whole, stored := front + b, front + Stored(b, tail, bs);
    assert stored[..n + |bs|] == whole[..n] + bs;
    assert stored[head..n + |bs|] == stored[..n + |bs|][head..] && whole[head..n] == whole[..n][head..];
  }

  lemma AddBlock(blocks: seq<Block>, head: nat, extra: Block)
    requires InOrder(blocks, head, BLOCK)
    ensures InOrder(blocks + [extra], head, 0)
    ensures Window(blocks + [extra], head, 0) == Window(blocks, head, BLOCK)
  {
    FlatConcat(blocks, [extra]);
  }

  class PipeBuffer {
    var blocks: seq<Block>   // first_datanode .. last_datanode
    var head: nat
    var tail: nat

    /** The chain is never empty: the block being written is never freed. */
    ghost predicate Valid()
      reads this
    {
      InOrder(blocks, head, tail) && head < BLOCK && tail < BLOCK
    }

    ghost function Contents(): seq<Byte>
      requires Valid()
      reads this
    {
      Window(blocks, head, tail)
    }

    constructor (first: Block)
      ensures Valid() && Contents() == []
    {
      blocks := [first];
      head, tail := 0, 0;
    }

    /** Moves the first n bytes out, freeing blocks as they are used up: blocks go from the
        front only, and the last one stays. */
    method Read(n: nat) returns (out: seq<Byte>)
      requires Valid() && n <= |Contents()|
      modifies this
      ensures Valid() && out == old(Contents())[..n] && Contents() == old(Contents())[n..]
      ensures 0 < |blocks| <= |old(blocks)| && blocks == old(blocks)[|old(blocks)| - |blocks|..]
      ensures tail == old(tail)
    {
      hide Flat, Window;
      ghost var before := Contents();
      var remaining: nat := n;
      var offset: nat := head;
      out := [];
      while remaining > 0
        invariant InOrder(blocks, offset, tail) && offset < BLOCK && tail < BLOCK
        invariant out + Window(blocks, offset, tail) == before
        invariant |out| + remaining == n && tail == old(tail)
        invariant 0 < |blocks| <= |old(blocks)| && blocks == old(blocks)[|old(blocks)| - |blocks|..]
      {
        var chunk := if remaining < BLOCK - offset then remaining else BLOCK - offset;
        ReadChunk(blocks, offset, tail, chunk);
        out := out + blocks[0][offset..offset + chunk];
        remaining := remaining - chunk;
        offset := offset + chunk;
        if offset == BLOCK {
          if |blocks| > 1 {
            DropBlock(blocks, tail);
            blocks := blocks[1..];
          }
          offset := 0;
        }
      }
      head := offset;
    }

    /** Appends all of `bs`; a block that fills up is followed by a fresh one at once. */
    method Write(bs: seq<Byte>)
      requires Valid()
      modifies this
      ensures Valid() && Contents() == old(Contents()) + bs
    {
      hide Flat, Window, Stored;
      ghost var before := Contents();
      var rest := bs;
      var offset: nat := tail;
      ghost var done: seq<Byte> := [];
      while |rest| > 0
        invariant InOrder(blocks, head, offset) && offset < BLOCK && head < BLOCK
        invariant done + rest == bs
        invariant Window(blocks, head, offset) == before + done
      {
        var chunk := if |rest| < BLOCK - offset then |rest| else BLOCK - offset;
        var last := |blocks| - 1;
        WriteChunk(blocks, head, offset, rest[..chunk]);
        blocks := blocks[last := Stored(blocks[last], offset, rest[..chunk])];
        assert before + done + rest[..chunk] == before + (done + rest[..chunk]);
        assert done + rest == done + rest[..chunk] + rest[chunk..];
        done := done + rest[..chunk];
        rest := rest[chunk..];
        offset := offset + chunk;
        if offset == BLOCK {
          var extra := NewBlock();
          AddBlock(blocks, head, extra);
          blocks := blocks + [extra];
          offset := 0;
        }
      }
      tail := offset;
    }

    /** An allocated block; its bytes are whatever the heap held. */
    method NewBlock() returns (b: Block)
    {
      b :| true;
    }
  }
}
