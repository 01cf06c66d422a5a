/** An open FAT32 file: the same lazy cursor over a cluster chain, found entry by entry in
    the allocation table, with a cluster size that depends on the volume. */
module FatFiles {
  import opened Common
  import opened FatChains
  import opened ChunkedReads

  class FatFile {
    const fat: Fat
    const disk: seq<seq<Byte>>      // the data area, cluster by cluster
    const clusterSize: nat          // bytes_per_sector * sectors_per_cluster
    const size: nat
    var current: nat                // file->fat32.current_cluster
    var position: nat
    ghost const chain: seq<nat>
    ghost const blocks: seq<seq<Byte>>
    ghost const stream: seq<Byte>
    ghost var index: nat            // where in the chain the current cluster is

    ghost predicate OnDisk() {
      && IsChain(fat, chain) && |fat| <= BAD && |disk| == |fat|
      && |blocks| == |chain| && (forall i :: 0 <= i < |chain| ==> blocks[i] == disk[chain[i]])
      && Spread(stream, blocks, clusterSize) && size <= |stream|
    }

    ghost predicate Stored()
      reads this
    {
      OnDisk() && index < |chain| && current == chain[index]
    }

    /** An empty file needs no chain. */
    ghost predicate Valid()
      reads this
    {
      && clusterSize > 0 && position <= size <= |stream|
      && (size > 0 ==> Stored() && Cursor(clusterSize, index, position))
    }

    ghost function Content(): seq<Byte>
      requires size <= |stream|
    {
      stream[..size]
    }

    constructor (fat: Fat, disk: seq<seq<Byte>>, clusterSize: nat, start: nat, size: nat,
                 ghost chain: seq<nat>, ghost blocks: seq<seq<Byte>>, ghost stream: seq<Byte>)
      requires clusterSize > 0 && size <= |stream|
      requires size > 0 ==> IsChain(fat, chain) && |fat| <= BAD && |disk| == |fat| && start == chain[0]
      requires size > 0 ==> |blocks| == |chain| && (forall i :: 0 <= i < |chain| ==> blocks[i] == disk[chain[i]])
      requires size > 0 ==> Spread(stream, blocks, clusterSize)
      ensures Valid() && position == 0 && this.size == size && this.stream == stream
    {
      hide First, Spread, IsChain;
      this.fat, this.disk, this.clusterSize, this.size := fat, disk, clusterSize, size;
      this.chain, this.blocks, this.stream := chain, blocks, stream;
      current, position, index := start, 0, 0;
      new;
      assert size > 0 ==> chain != [] by {
        if size > 0 { ChainNonempty(fat, chain); }
      }
    }

    /** The cluster under the cursor holds block `index` of the stream. */
    lemma Here()
      requires Stored()
      ensures current < |fat| == |disk| && |disk[current]| == clusterSize > 0
      ensures |stream| == First(clusterSize, |chain|) && First(clusterSize, index) + clusterSize <= |stream|
      ensures BlockAt(stream, disk[current], clusterSize, First(clusterSize, index))
      ensures fat[current] >= EOC <==> index + 1 == |chain|
      ensures index + 1 < |chain| ==> fat[current] == chain[index + 1]
    {
      hide First, BlockAt;
      ChainEntries(fat, chain, index);
      SpreadAt(stream, blocks, clusterSize, index);
    }

    /** The loop that brings the offset inside a cluster, if the chain is long enough. */
    method Skip(offset: nat) returns (off: nat)
      requires Stored()
      modifies `current, `index
      ensures Stored() && First(clusterSize, index) + off == First(clusterSize, old(index)) + offset
      ensures off >= clusterSize ==> First(clusterSize, index) + clusterSize == |stream|
    {
      hide First, OnDisk, BlockAt;
      off := offset;
      Here();
      while off >= clusterSize
        invariant Stored() && First(clusterSize, index) + off == First(clusterSize, old(index)) + offset
        decreases off
      {
        Here();
        Next(clusterSize, index);
        var val := fat[current];
        if val >= EOC {
          return;
        }
        current := val;
        index := index + 1;
        off := off - clusterSize;
      }
    }

    /** The loop over clusters read from their beginning. */
    method ReadWhole(n: nat) returns (bytes: seq<Byte>, eof: bool)
      requires Stored()
      modifies `current, `index
      ensures Stored()
      ensures ReadDone(stream, clusterSize, index, First(clusterSize, old(index)), n, bytes, eof)
    {
      hide First, OnDisk, BlockAt, ReadDone;
      ghost var start := First(clusterSize, index);
      var left := n;
      bytes := [];
      Here();
      while true
        invariant Stored() && start <= First(clusterSize, index) <= |stream|
        invariant bytes == stream[start..First(clusterSize, index)]
        invariant First(clusterSize, index) + left == start + n
        invariant left > 0 || First(clusterSize, index) == start
        decreases left
      {
        Here();
        Next(clusterSize, index);
        ReadOn(stream, disk[current], clusterSize, First(clusterSize, index), start, 0, Min(left, clusterSize));
        if left >= clusterSize {
          assert disk[current][0..clusterSize] == disk[current];
          bytes := bytes + disk[current];
        } else {
          bytes := bytes + disk[current][0..left];
          WholeDone(stream, clusterSize, index, start, n);
          return bytes, false;
        }
        left := left - clusterSize;
        if left == 0 {
          WholeDone(stream, clusterSize, index, start, n);
          return bytes, false;
        }
        var val := fat[current];
        if val >= EOC {
          WholeShort(stream, clusterSize, index, start, n);
          return bytes, true;
        }
        current := val;
        index := index + 1;
      }
    }

    /** read_file: `offset` counts from the current cluster, and n bytes are wanted. */
    method ReadClusters(offset: nat, n: nat) returns (bytes: seq<Byte>, eof: bool)
      requires Stored()
      modifies `current, `index
      ensures Stored()
      ensures ReadDone(stream, clusterSize, index, First(clusterSize, old(index)) + offset, n, bytes, eof)
    {
      hide First, OnDisk, BlockAt, ReadDone, Extent;
      ghost var start := First(clusterSize, index) + offset;
      var off := Skip(offset);
      if off >= clusterSize {
        NothingThere(stream, clusterSize, index, start, n);
        return [], true;
      }
      var left := n;
      bytes := [];
      Here();
      if off > 0 {
        var part := clusterSize - off;
        InNode(stream, disk[current], clusterSize, index, off, left);
        bytes := disk[current][off..off + Min(left, part)];
        if left <= part {
          return bytes, false;
        }
        left := left - part;
        Next(clusterSize, index);
        var val := fat[current];
        if val >= EOC {
          WholeShort(stream, clusterSize, index, start, n);
          return bytes, true;
        }
        current := val;
        index := index + 1;
        Here();
      }
      ghost var first := First(clusterSize, index);
      var rest, e := ReadWhole(left);
      assert bytes == stream[start..first];
      Continue(stream, clusterSize, index, start, n, first, rest, e);
      return bytes + rest, e;
    }

    /** file_read over fat32_file_read, wherever the cursor stands: the bytes that block and offset
        lead to. */
    method ReadAt(n: nat) returns (r: Reply)
      requires clusterSize > 0 && position < size && Stored()
      modifies `current, `position, `index
      ensures Stored()
      ensures var start := First(clusterSize, old(index)) + Offset(clusterSize, old(position));
        var wanted := Min(n, size - old(position));
        start < |stream| && start + wanted <= |stream| ==>
          && r == Data(stream[start..start + wanted]) && position == old(position) + wanted
          && Left(clusterSize, index, start, wanted)
    {
      hide First, OnDisk, BlockAt, ReadDone, Left, Offset;
      var wanted := if position + n > size then size - position else n;
      ghost var start := First(clusterSize, index) + Offset(clusterSize, position);
      var bytes, eof := ReadClusters(Offset(clusterSize, position), wanted);
      if start < |stream| && start + wanted <= |stream| {
        DoneIs(stream, clusterSize, index, start, wanted, bytes, eof);
      }
      position := position + |bytes|;
      r := if eof then Eof else Data(bytes);
    }

    /** file_read with a cursor that is right: the slice at the position.  The cursor stays
        right exactly unless nothing is asked for at a cluster boundary inside the file. */
    method Read(n: nat) returns (r: Reply)
      requires Valid()
      modifies `current, `position, `index
      ensures r == ReplyAt(Content(), old(position), n)
      ensures position == PositionAfter(Content(), old(position), n)
      ensures Valid() <==> n > 0 || old(position) == 0 || old(position) == size || old(position) % clusterSize != 0
      ensures old(position) < size ==> Stored() && Left(clusterSize, index, old(position), position - old(position))
    {
      hide First, OnDisk, BlockAt, Left, Cursor, Offset;
      if position == size {
        return Eof;
      }
      ghost var start := position;
      OffsetFromCursor(clusterSize, index, position);
      r := ReadAt(n);
      CursorKeptIff(clusterSize, index, start, position - start);
      Slice(stream, size, start, position);
    }
  }

  lemma ChainNonempty(fat: Fat, c: seq<nat>)
    requires IsChain(fat, c)
    ensures c != []
  {
  }

  /** Any sequence of nonzero reads gives what the specification gives, piece by piece. */
  method ReadAll(file: FatFile, sizes: seq<nat>) returns (rs: seq<Reply>)
    requires file.Valid() && forall i :: 0 <= i < |sizes| ==> sizes[i] > 0
    modifies file
    ensures file.Valid() && rs == Replies(file.Content(), old(file.position), sizes)
    ensures Joined(rs) == file.Content()[old(file.position)..Min(old(file.position) + Sum(sizes), file.size)]
  {
    hide First, Replies, Joined, ReplyAt, PositionAfter, Sum, Min, Cursor, FatFile.Stored, Left;
    ghost var content, start := file.Content(), file.position;
    rs := [];
    var i: nat := 0;
    while i < |sizes|
      invariant i <= |sizes| && file.Valid() && file.position <= |content|
      invariant Replies(content, start, sizes) == rs + Replies(content, file.position, sizes[i..])
    {
      ghost var left := sizes[i..];
      assert left[0] == sizes[i] && left[1..] == sizes[i + 1..];
      RepliesStep(content, file.position, left);
      var r := file.Read(sizes[i]);
      rs := rs + [r];
      i := i + 1;
    }
    RepliesJoin(content, start, sizes);
  }
}
