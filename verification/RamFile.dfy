/** An open file of the RAM filesystem: a chain of 512-byte data nodes and a cursor that
    ramfs.c advances only when it needs the next node. */
module RamFiles {
  import opened Common
  import opened ChunkedReads

  const NODE: nat := 512

  class RamFile {
    const nodes: seq<seq<Byte>>     // the data-node chain
    const size: nat                 // node->size
    var current: nat                // file->ramfs.current_datanode
    var position: nat
    ghost const stream: seq<Byte>   // the chain read from end to end

    ghost predicate Stored()
      reads this
    {
      Spread(stream, nodes, NODE) && size <= |stream| && current < |nodes|
    }

    /** An empty file needs no chain. */
    ghost predicate Valid()
      reads this
    {
      position <= size <= |stream| && (size > 0 ==> Stored() && Cursor(NODE, current, position))
    }

    ghost function Content(): seq<Byte>
      requires size <= |stream|
    {
      stream[..size]
    }

    /** Opening puts the cursor at the start. */
    constructor (nodes: seq<seq<Byte>>, size: nat, ghost stream: seq<Byte>)
      requires size <= |stream| && (size > 0 ==> Spread(stream, nodes, NODE))
      ensures Valid() && position == 0 && this.nodes == nodes && this.size == size && this.stream == stream
    {
      this.nodes, this.size, this.stream := nodes, size, stream;
      current, position := 0, 0;
    }

    /** read_file: `offset` counts from the current node, and n bytes are wanted. */
    method ReadNodes(offset: nat, n: nat) returns (bytes: seq<Byte>, eof: bool)
      requires Stored()
      modifies `current
      ensures Stored()
      ensures ReadDone(stream, NODE, current, First(NODE, old(current)) + offset, n, bytes, eof)
    {
      hide First, BlockAt, Spread, ReadDone, Extent;
      ghost var start := First(NODE, current) + offset;
      var off := Skip(offset);
      if off >= NODE {
        NothingThere(stream, NODE, current, start, n);
        return [], true;
      }
      var left := n;
      bytes := [];
      SpreadAt(stream, nodes, NODE, current);
      if off > 0 {
        var part := NODE - off;
        InNode(stream, nodes[current], NODE, current, off, left);
        bytes := nodes[current][off..off + Min(left, part)];
        if left <= part {
          return bytes, false;
        }
        left := left - part;
        Next(NODE, current);
        if current + 1 == |nodes| {
          LastNode(stream, nodes, NODE, current, off, n);
          return bytes, true;
        }
        current := current + 1;
        SpreadAt(stream, nodes, NODE, current);
      }
      ghost var first := First(NODE, current);
      var rest, e := ReadWhole(left);
      assert bytes == stream[start..first];
      Continue(stream, NODE, current, start, n, first, rest, e);
      return bytes + rest, e;
    }

    /** The loop that brings the offset inside a node, if the chain is long enough. */
    method Skip(offset: nat) returns (off: nat)
      requires Stored()
      modifies `current
      ensures Stored() && First(NODE, current) + off == First(NODE, old(current)) + offset
      ensures off >= NODE ==> First(NODE, current) + NODE == |stream|
    {
      hide First, BlockAt, Spread;
      SpreadLength(stream, nodes, NODE);
      off := offset;
      while off >= NODE
        invariant Stored() && First(NODE, current) + off == First(NODE, old(current)) + offset
      {
        Next(NODE, current);
        if current + 1 == |nodes| {
          return;
        }
        current := current + 1;
        off := off - NODE;
      }
    }

    /** The loop over nodes read from their beginning. */
    method ReadWhole(n: nat) returns (bytes: seq<Byte>, eof: bool)
      requires Stored()
      modifies `current
      ensures Stored()
      ensures ReadDone(stream, NODE, current, First(NODE, old(current)), n, bytes, eof)
    {
      hide First, BlockAt, Spread, ReadDone;
      SpreadLength(stream, nodes, NODE);
      ghost var start := First(NODE, current);
      var left := n;
      bytes := [];
      SpreadAt(stream, nodes, NODE, current);
      while true
        invariant Stored() && start <= First(NODE, current) <= |stream| && bytes == stream[start..First(NODE, current)]
        invariant First(NODE, current) + left == start + n
        invariant left > 0 || First(NODE, current) == start
        decreases left
      {
        SpreadAt(stream, nodes, NODE, current);
        Next(NODE, current);
        var part := if left < NODE then left else NODE;
        ReadOn(stream, nodes[current], NODE, First(NODE, current), start, 0, part);
        bytes := bytes + nodes[current][0..part];
        left := left - part;
        if left == 0 {
          WholeDone(stream, NODE, current, start, n);
          return bytes, false;
        }
        if current + 1 == |nodes| {
          WholeShort(stream, NODE, current, start, n);
          return bytes, true;
        }
        current := current + 1;
      }
    }

    /** file_read over ramfs_file_read, wherever the cursor stands: the bytes that block and offset
        lead to. */
    method ReadAt(n: nat) returns (r: Reply)
      requires position < size && Stored()
      modifies `current, `position
      ensures Stored()
      ensures var start := First(NODE, old(current)) + Offset(NODE, old(position));
        var wanted := Min(n, size - old(position));
        start < |stream| && start + wanted <= |stream| ==>
          && r == Data(stream[start..start + wanted]) && position == old(position) + wanted
          && Left(NODE, current, start, wanted)
    {
      hide First, Spread, BlockAt, ReadDone, Left, Offset;
      var wanted := if position + n > size then size - position else n;
      ghost var start := First(NODE, current) + Offset(NODE, position);
      var bytes, eof := ReadNodes(Offset(NODE, position), wanted);
      if start < |stream| && start + wanted <= |stream| {
        DoneIs(stream, NODE, current, start, wanted, bytes, eof);
      }
      position := position + |bytes|;
      r := if eof then Eof else Data(bytes);
    }

    /** file_read with a cursor that is right: the slice at the position.  The cursor stays
        right exactly unless nothing is asked for at a node boundary inside the file. */
    method Read(n: nat) returns (r: Reply)
      requires Valid()
      modifies `current, `position
      ensures r == ReplyAt(Content(), old(position), n)
      ensures position == PositionAfter(Content(), old(position), n)
      ensures Valid() <==> n > 0 || old(position) == 0 || old(position) == size || old(position) % NODE != 0
      ensures old(position) < size ==> Stored() && Left(NODE, current, old(position), position - old(position))
    {
      hide First, Spread, BlockAt, Left, Cursor, Offset;
      if position == size {
        return Eof;
      }
      ghost var start := position;
      OffsetFromCursor(NODE, current, position);
      r := ReadAt(n);
      CursorKeptIff(NODE, current, start, position - start);
      Slice(stream, size, start, position);
    }
  }

  /** Any sequence of nonzero reads gives what the specification gives, piece by piece. */
  method ReadAll(file: RamFile, sizes: seq<nat>) returns (rs: seq<Reply>)
    requires file.Valid() && forall i :: 0 <= i < |sizes| ==> sizes[i] > 0
    modifies file
    ensures file.Valid() && rs == Replies(file.Content(), old(file.position), sizes)
    ensures Joined(rs) == file.Content()[old(file.position)..Min(old(file.position) + Sum(sizes), file.size)]
  {
    hide First, Replies, Joined, ReplyAt, PositionAfter, Sum, Min, Cursor, RamFile.Stored, Left;
    ghost var content, start := file.Content(), file.position;
    rs := [];
    var i: nat := 0;
    while i < |sizes|
      invariant i <= |sizes| && file.Valid() && file.position <= |content|
      invariant Replies(content, start, sizes) == rs + Replies(content, file.position, sizes[i..])
    {
      ghost var left := sizes[i..];
      assert left[0] == sizes[i] && left[1..] == sizes[i + 1..];
      RepliesStep(content, file.position, left);
      var r := file.Read(sizes[i]);
      rs := rs + [r];
      i := i + 1;
    }
    RepliesJoin(content, start, sizes);
  }

  /** After an empty read at a node boundary the next read skips a whole node. */
  method EmptyReadSkipsNode(a: seq<Byte>, b: seq<Byte>, c: seq<Byte>) returns (r: Reply)
    requires |a| == |b| == |c| == NODE && b != c
    ensures r == Data(c) && ReplyAt(a + b + c, NODE, NODE) == Data(b)
  {
    ghost var stream := a + b + c;
    SpreadThree(a, b, c);
    var file := new RamFile([a, b, c], 3 * NODE, stream);
    r := file.Read(NODE);
    r := file.Read(0);
    assert file.current == 1 && file.position == NODE;
    r := file.ReadAt(NODE);
    assert stream[2 * NODE..3 * NODE] == c && stream[NODE..2 * NODE] == b;
    assert stream[..3 * NODE] == stream;
  }

  lemma SpreadThree(a: seq<Byte>, b: seq<Byte>, c: seq<Byte>)
    requires |a| == |b| == |c| == NODE
    ensures Spread(a + b + c, [a, b, c], NODE)
  {
    var stream := a + b + c;
    assert stream[..NODE] == a && stream[NODE..2 * NODE] == b && stream[2 * NODE..3 * NODE] == c;
  }
}
