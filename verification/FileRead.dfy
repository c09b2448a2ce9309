/** file_read, and what it gives together with file_write. */
module FileReads {
  import opened Debug
  import opened Bytes
  import opened Ide
  import opened Inodes
  import opened Volumes
  import opened OpenInodes
  import opened FileData
  import opened Files
  import opened FileWrites

  const READ_LIMIT := 139 * 512

  /** How many bytes a call for `count` bytes transfers; 0 at the end of the file. */
  function Transfer(size: nat, pos: nat, count: nat): nat
    requires pos <= size
  {
    if pos + count > size then size - pos else count
  }

  /** all_blocks lists blocks `start` to `end` of the file. */
  ghost predicate Listed(all: seq<word>, node: Node, start: nat, end: nat) {
    |all| == MAX_BLOCKS && |node.slots| == SLOTS && end < MAX_BLOCKS
    && forall k :: start <= k <= end ==> all[k] == Block(node, k)
  }

  /** The three situations of collecting the addresses of blocks `start` to `end`. */
  method CollectForRead(part: Partition, inode: Inode, start: nat, end: nat, all: array<word>)
    requires part.Consistent() && Opened(part, inode) && part.TablesOnDisk({})
    requires start <= end < MAX_BLOCKS && all.Length == MAX_BLOCKS && (end >= 12 ==> inode.blocks[TABLE_SLOT] != 0)
    modifies all
    ensures Listed(all[..], part.nodes[inode.id], start, end)
  {
    if end < 12 {
      var k := start;
      while k <= end
        invariant start <= k <= end + 1
        invariant forall j :: start <= j < k ==> all[j] == inode.blocks[j]
      {
        all[k] := inode.blocks[k];
        k := k + 1;
      }
    } else if start < 12 {
      var k := start;
      while k < 12
        invariant start <= k <= 12
        invariant forall j :: start <= j < k ==> all[j] == inode.blocks[j]
      {
        all[k] := inode.blocks[k];
        k := k + 1;
      }
      LoadTable(part, inode, all);
    } else {
      LoadTable(part, inode, all);
    }
  }

  lemma ChunkRead(sectors: seq<Sector>, node: Node, c: seq<byte>, k: nat, off: nat, n: nat)
    requires Holds(sectors, node, c) && k < MAX_BLOCKS && Block(node, k) < |sectors|
    requires off + n <= 512 && 512 * k + off + n <= |c|
    ensures sectors[Block(node, k)][off..off + n] == c[512 * k + off..512 * k + off + n]
  {
    var chunk := sectors[Block(node, k)][off..off + n];
    forall i | 0 <= i < n ensures chunk[i] == c[512 * k + off + i] {
      assert BlockByte(sectors, node, k, off + i) == c[512 * k + (off + i)];
    }
  }

  lemma IdxOff(pos: nat)
    ensures pos == 512 * Idx(pos) + Off(pos)
  {
  }

  /** One chunk: the rest of the block the position is in, or what is left to read. */
  method ReadChunk(part: Partition, file: File, all: array<word>, left: nat,
                   ghost c: seq<byte>) returns (chunk: seq<byte>)
    requires file.inode.id in part.nodes && Holds(part.disk.sectors, part.nodes[file.inode.id], c)
    requires 0 < left && file.pos + left <= |c| && |part.disk.sectors| <= MAX_LBA + 1
    requires all.Length == MAX_BLOCKS && Idx(file.pos) < MAX_BLOCKS
    requires all[Idx(file.pos)] == Block(part.nodes[file.inode.id], Idx(file.pos)) < |part.disk.sectors|
    modifies file`pos
    ensures 0 < |chunk| <= left && file.pos == old(file.pos) + |chunk|
    ensures chunk == c[old(file.pos)..file.pos]
  {
    hide Idx, Off, Holds, Block;
    IdxOff(file.pos);
    var off := Off(file.pos);
    var n := ChunkSize(file.pos, left);
    var io := part.disk.ReadSector(all[Idx(file.pos)]);
    ChunkRead(part.disk.sectors, part.nodes[file.inode.id], c, Idx(file.pos), off, n);
    chunk := io[off..off + n];
    file.pos := file.pos + n;
  }

  /** The blocks that a stretch of bytes lies in are all there and all listed. */
  ghost predicate Readable(sectors: seq<Sector>, node: Node, all: seq<word>, c: seq<byte>, start: nat, end: nat) {
    && |node.slots| == SLOTS && |all| == MAX_BLOCKS && end <= |c| && Holds(sectors, node, c)
    && forall pos :: start <= pos < end ==>
         Idx(pos) < MAX_BLOCKS && all[Idx(pos)] == Block(node, Idx(pos)) < |sectors|
  }

  /** The chunk loop. */
  method ReadChunks(part: Partition, file: File, all: array<word>, n: nat, ghost c: seq<byte>) returns (buf: seq<byte>)
    requires file.inode.id in part.nodes && |part.disk.sectors| <= MAX_LBA + 1
    requires Readable(part.disk.sectors, part.nodes[file.inode.id], all[..], c, file.pos, file.pos + n)
    modifies file`pos
    ensures file.pos == old(file.pos) + n && buf == c[old(file.pos)..file.pos]
  {
    hide Idx, Holds, Block;
    buf := [];
    while |buf| < n
      invariant |buf| <= n && file.pos == old(file.pos) + |buf| && buf == c[old(file.pos)..file.pos]
    {
      ghost var before := file.pos;
      assert all[Idx(before)] == all[..][Idx(before)];
      var chunk := ReadChunk(part, file, all, n - |buf|, c);
      assert c[old(file.pos)..before] + c[before..file.pos] == c[old(file.pos)..file.pos];
      buf := buf + chunk;
    }
  }

  lemma ReadableStretch(part: Partition, inode: Inode, all: seq<word>, c: seq<byte>, start: nat, end: nat)
    requires part.Consistent() && inode.id in part.nodes && RegularFile(part.nodes[inode.id])
    requires Holds(part.disk.sectors, part.nodes[inode.id], c)
    requires start <= end <= |c| && Listed(all, part.nodes[inode.id], Idx(start), Idx(end))
    ensures Readable(part.disk.sectors, part.nodes[inode.id], all, c, start, end)
  {
    var node := part.nodes[inode.id];
    forall pos | start <= pos < end
      ensures Idx(pos) < MAX_BLOCKS && all[Idx(pos)] == Block(node, Idx(pos)) < |part.disk.sectors|
    {
      assert Idx(start) <= Idx(pos) <= Idx(end);
      assert Block(node, Idx(pos)) == Slot(part.nodes, inode.id, SlotOf(Idx(pos)));
    }
  }

  lemma TableThere(node: Node, end: nat)
    requires RegularFile(node) && end <= node.size && Idx(end) >= 12
    ensures node.slots[TABLE_SLOT] != 0
  {
  }

  /** The 32-bit arithmetic on positions, for a file within the size limit. */
  lemma ReadSize(size: nat, pos: nat, count: nat)
    requires size < 512 * MAX_BLOCKS && if pos <= size then pos + count < U32 else pos == U32 - 1
    ensures pos <= size ==> (Wrap(pos + count) > size <==> pos + count > size) && Wrap(size + U32 - pos) == size - pos
    ensures pos <= size ==> Wrap(pos + Transfer(size, pos, count)) == pos + Transfer(size, pos, count)
    ensures pos > size ==> Wrap(size + U32 - pos) != 0 && Idx(pos) >= 139
  {
  }

  /** The sum in the guard of file_read has 32 bits too: it sees what is too much if and only if the sum fits. */
  lemma GuardCutsCount(size: nat, pos: nat, count: nat)
    requires pos <= size < 512 * MAX_BLOCKS && count < U32
    ensures (Wrap(pos + count) > size <==> pos + count > size) <==> pos + count < U32
  {
  }

  lemma ReadLimit(pos: nat, n: nat)
    ensures Idx(pos) <= Idx(pos + n)
    ensures Idx(pos + n) < 139 <==> pos + n < READ_LIMIT
  {
  }

  lemma SizeBound(node: Node)
    requires RegularFile(node)
    ensures |node.slots| == SLOTS && node.size < 512 * MAX_BLOCKS
  {
  }

  /** Collecting and reading a stretch inside the file. */
  method ReadStretch(part: Partition, file: File, n: nat) returns (buf: seq<byte>)
    requires part.Valid() && Opened(part, file.inode) && RegularFile(part.nodes[file.inode.id])
    requires file.pos + n <= file.inode.size && Idx(file.pos + n) < MAX_BLOCKS
    modifies file`pos
    ensures file.pos == old(file.pos) + n
    ensures buf == Contents(part.disk.sectors, part.nodes[file.inode.id])[old(file.pos)..file.pos]
  {
    hide OwnersAgree, BitmapAgrees, IdsAgree, TablesIn, RecordsIn, RegularFile, Holds, Listed, Block, Idx;
    var inode := file.inode;
    var start, end := Idx(file.pos), Idx(file.pos + n);
    ReadLimit(file.pos, n);
    var all := new word[MAX_BLOCKS](_ => 0);
    OpenedRecord(part, inode);
    ghost var node := part.nodes[inode.id];
    SizeBound(node);
    if end >= 12 {
      TableThere(node, file.pos + n);
    }
    CollectForRead(part, inode, start, end, all);
    ghost var c := Contents(part.disk.sectors, node);
    ContentsHold(part.disk.sectors, node, c);
    ReadableStretch(part, inode, all[..], c, file.pos, file.pos + n);
    buf := ReadChunks(part, file, all, n, c);
  }

  /** file_read returns the bytes from the position on. It stops the kernel when the stretch reaches
      block 139, and when the position is the 2^32 - 1 that an empty write to an empty file leaves. */
  method Read(part: Partition, file: File, count: nat) returns (r: Run<int>, buf: seq<byte>)
    requires part.Valid() && Opened(part, file.inode) && RegularFile(part.nodes[file.inode.id])
    requires if file.pos <= file.inode.size then file.pos + count < U32 else file.pos == U32 - 1 && count < U32
    modifies file`pos
    ensures r == Done(-1) <==> old(file.pos) == file.inode.size && count > 0
    ensures r == Done(-1) ==> file.pos == old(file.pos) && buf == []
    ensures r == Halted <==>
      || old(file.pos) > file.inode.size
      || (r != Done(-1) && old(file.pos) + Transfer(file.inode.size, old(file.pos), count) >= READ_LIMIT)
    ensures r.Done? && r.value != -1 ==>
      && old(file.pos) <= file.inode.size && r.value == |buf| == Transfer(file.inode.size, old(file.pos), count)
      && file.pos == old(file.pos) + |buf|
      && buf == Contents(part.disk.sectors, part.nodes[file.inode.id])[old(file.pos)..file.pos]
  {
    hide Partition.Valid, RegularFile, Wrap, Idx, Contents;
    var inode := file.inode;
    SizeBound(part.nodes[inode.id]);
    ReadSize(inode.size, file.pos, count);
    var n: nat := count;
    if Wrap(file.pos + count) > inode.size {
      n := Wrap(inode.size + U32 - file.pos);
      if n == 0 {
        return Done(-1), [];
      }
    }
    var start, end := Idx(file.pos), Idx(Wrap(file.pos + n));
    if !(start < 139 && end < 139) {  // ASSERT
      ReadLimit(file.pos, n);
      return Halted, [];
    }
    ReadLimit(file.pos, n);
    buf := ReadStretch(part, file, n);
    r := Done(|buf|);
  }
}
