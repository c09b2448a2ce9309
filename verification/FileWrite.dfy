/** file_write, put together from the collecting phase and the chunk loop. */
module FileWrites {
  import opened Debug
  import opened Bytes
  import opened Bitmaps
  import opened Ide
  import opened Inodes
  import opened Volumes
  import opened OpenInodes
  import opened FileData
  import opened Files

  /** Kept, between the state before and now. */
  twostate predicate PartKept(part: Partition, id: nat)
    reads part, part.disk
  {
    Kept(old(part.nodes), old(part.owners), old(part.disk.sectors), part.nodes, part.owners, part.disk.sectors, id,
         part.inodeBitmapLba, part.dataStart)
  }

  lemma GrowingKeeps(nodes0: map<nat, Node>, owners0: map<nat, Owner>, s0: seq<Sector>,
                     nodes: map<nat, Node>, owners: map<nat, Owner>, s1: seq<Sector>, id: nat, has: nat, idx: nat,
                     from: nat, start: nat)
    requires Growing(nodes0, owners0, nodes, owners, id, has, idx) && Shape(nodes0[id], has)
    requires SameBut(s0, s1, from, nodes[id].slots[TABLE_SLOT]) && 0 < from <= start
    requires OwnersAgree(nodes, owners) && forall l :: l in owners ==> start <= l
    ensures Kept(nodes0, owners0, s0, nodes, owners, s1, id, from, start)
  {
    var t := Slot(nodes, id, TABLE_SLOT);
    assert t == nodes[id].slots[TABLE_SLOT];
    forall k | 0 <= k < MAX_BLOCKS && Block(nodes0[id], k) != 0 ensures Block(nodes[id], k) == Block(nodes0[id], k) {}
  }

  /** A file that was never written gets its first block, whatever the write is. */
  method FirstBlock(part: Partition, inode: Inode) returns (halted: bool)
    requires part.Consistent() && Opened(part, inode) && part.TablesOnDisk({}) && RegularFile(part.nodes[inode.id])
    modifies part`blockMap, part`nodes, part`owners, part.disk, inode`blocks
    ensures halted <==> old(inode.blocks[0]) == 0 && old(part.FreeBlocks()) == {}
    ensures !halted ==> part.Consistent() && Opened(part, inode) && part.TablesOnDisk({})
    ensures !halted ==> Shape(part.nodes[inode.id], Used(inode.size)) && PartKept(part, inode.id)
    ensures !halted ==> |part.FreeBlocks()| == |old(part.FreeBlocks())| - (if old(inode.blocks[0]) == 0 then 1 else 0)
  {
    hide OwnersAgree, BitmapAgrees, IdsAgree, TablesIn, FreeIn;
    ghost var nodes0, owners0, s0, id := part.nodes, part.owners, part.disk.sectors, inode.id;
    assert nodes0[id].slots[0] == Block(nodes0[id], 0);
    if inode.blocks[0] == 0 {
      var lba;
      halted, lba := part.AllocSynced(id, 0);
      if halted {
        return;
      }
      GrowOne(nodes0, owners0, nodes0, owners0, id, 0, 0, lba);
      inode.blocks := inode.blocks[0 := lba];
      FirstBlockDone(part, inode, nodes0, owners0, s0);
    }
    halted := false;
  }

  lemma FirstBlockDone(part: Partition, inode: Inode, nodes0: map<nat, Node>, owners0: map<nat, Owner>, s0: seq<Sector>)
    requires part.Consistent() && Opened(part, inode) && TablesIn(s0, nodes0, {})
    requires Growing(nodes0, owners0, part.nodes, part.owners, inode.id, 0, 1) && Shape(nodes0[inode.id], 0)
    requires part.nodes[inode.id].slots[TABLE_SLOT] == 0
    requires SameFrom(s0, part.disk.sectors, part.inodeBitmapLba)
    ensures Shape(part.nodes[inode.id], 1) && part.TablesOnDisk({})
    ensures Kept(nodes0, owners0, s0, part.nodes, part.owners, part.disk.sectors, inode.id, part.inodeBitmapLba,
                 part.dataStart)
  {
    hide BlocksSynced;
    GrownShape(nodes0, owners0, part.nodes, part.owners, inode.id, 0, 1);
    OtherTables(nodes0, owners0, part.nodes, part.owners, inode.id, 0, 1, s0, part.disk.sectors, part.inodeBitmapLba);
    EmptyTable(part.nodes[inode.id], 1);
    AllTables(part.disk.sectors, part.nodes, inode.id);
    GrowingKeeps(nodes0, owners0, s0, part.nodes, part.owners, part.disk.sectors, inode.id, 0, 1, part.inodeBitmapLba,
                 part.dataStart);
  }

  /** The choice between the situations. */
  method Collect(part: Partition, inode: Inode, has: nat, will: nat, all: array<word>) returns (halted: bool)
    requires part.Consistent() && Opened(part, inode) && part.TablesOnDisk({})
    requires 0 < has <= will <= MAX_BLOCKS && Shape(part.nodes[inode.id], has)
    requires all.Length == MAX_BLOCKS && forall k :: 0 <= k < MAX_BLOCKS ==> all[k] == 0
    modifies part`blockMap, part`nodes, part`owners, part.disk, inode`blocks, all
    ensures halted <==> |old(part.FreeBlocks())| < will - has + (if has <= 12 < will then 1 else 0)
    ensures !halted ==>
      |part.FreeBlocks()| == |old(part.FreeBlocks())| - (will - has + (if has <= 12 < will then 1 else 0))
    ensures !halted ==> Collected(part, inode, all, has, will)
  {
    hide OwnersAgree, BitmapAgrees, IdsAgree, TablesIn, Growing, Shape, Lists, SameBut;
    if will == has {
      CollectLast(part, inode, has, all);
      halted := false;
    } else if will <= 12 {
      halted := CollectDirect(part, inode, has, will, all);
    } else if has <= 12 {
      halted := CollectCrossing(part, inode, has, will, all);
    } else {
      halted := CollectIndirect(part, inode, has, will, all);
    }
  }

  /** The state of the chunk loop: what the blocks hold, and that only they have changed. */
  ghost predicate Writing(part: Partition, id: nat, size: nat, s0: seq<Sector>, c: seq<byte>)
    reads part, part.disk
  {
    && id in part.nodes && size < U32 && |c| == size
    && Holds(part.disk.sectors, part.nodes[id].(size := size), c)
    && OnlyDataOf(id, part.owners, s0, part.disk.sectors)
  }

  lemma ChunkWritten(part: Partition, id: nat, size: nat, s0: seq<Sector>, before: seq<Sector>, c: seq<byte>,
                     k: nat, sector: Sector, chunk: seq<byte>, will: nat)
    requires part.Consistent() && id in part.nodes && size < U32 && |c| == size && k == size / 512
    requires Holds(before, part.nodes[id].(size := size), c) && OnlyDataOf(id, part.owners, s0, before)
    requires k < will && Shape(part.nodes[id], will) && |before| == |part.disk.sectors|
    requires size % 512 + |chunk| <= 512
    requires Block(part.nodes[id], k) < |before| ==>
      sector[..size % 512] == before[Block(part.nodes[id], k)][..size % 512]
    requires sector[size % 512..size % 512 + |chunk|] == chunk
    requires Block(part.nodes[id], k) < |before| ==> part.disk.sectors == before[Block(part.nodes[id], k) := sector]
    ensures size + |chunk| < U32 && Writing(part, id, size + |chunk|, s0, c + chunk)
  {
    var node := part.nodes[id].(size := size);
    var l := Block(node, k);
    assert l == Slot(part.nodes, id, SlotOf(k)) && l in part.owners;
    forall j | 0 <= j < k ensures Block(node, j) != l {
      BlocksDistinct(part.nodes, part.owners, id, k, j);
    }
    AppendChunk(before, node, c, k, size % 512, sector, chunk);
    assert part.nodes[id].(size := size + |chunk|) == node.(size := |c + chunk|);
  }

  /** Where the byte after the last one goes: its block and its offset there. */
  function Idx(size: nat): nat {
    size / 512
  }

  function Off(size: nat): (off: nat)
    ensures off < 512
  {
    size % 512
  }

  /** One chunk: read the block if it may hold old bytes, put the new ones behind them, write it. */
  method WriteChunk(part: Partition, inode: Inode, all: array<word>, chunk: seq<byte>, first: bool,
                    ghost s0: seq<Sector>, ghost c: seq<byte>, ghost will: nat)
    requires part.Consistent() && inode.id in part.nodes && Writing(part, inode.id, inode.size, s0, c)
    requires 0 < |chunk| && Off(inode.size) + |chunk| <= 512 && (first || Off(inode.size) == 0)
    requires Idx(inode.size) < will && Shape(part.nodes[inode.id], will)
    requires all.Length == MAX_BLOCKS && all[Idx(inode.size)] == Block(part.nodes[inode.id], Idx(inode.size))
    modifies inode`size, part.disk
    ensures inode.size == old(inode.size) + |chunk|
    ensures part.Consistent() && Writing(part, inode.id, inode.size, s0, c + chunk)
  {
    hide BlocksSynced;
    ghost var before := part.disk.sectors;
    var k, off := Idx(inode.size), Off(inode.size);
    var lba := all[k];
    assert lba == Slot(part.nodes, inode.id, SlotOf(k)) && lba in part.owners;
    var io: Sector := seq(512, _ => 0);
    if first {
      io := part.disk.ReadSector(lba);
    }
    io := Spliced(io, off, chunk);
    WriteBlock(part, lba, io);
    ChunkWritten(part, inode.id, inode.size, s0, before, c, k, io, chunk, will);
    inode.size := inode.size + |chunk|;
  }

  lemma StartWriting(part: Partition, id: nat, c: seq<byte>)
    requires id in part.nodes && Holds(part.disk.sectors, part.nodes[id], c)
    ensures Writing(part, id, part.nodes[id].size, part.disk.sectors, c)
  {
    assert part.nodes[id].(size := part.nodes[id].size) == part.nodes[id];
  }

  /** Unsigned 32-bit arithmetic. */
  function Wrap(x: nat): word {
    x % U32
  }

  lemma WrapAdd(x: nat, n: nat)
    ensures Wrap(Wrap(x) + n) == Wrap(x + n)
  {
  }

  /** As much of what is left as fits into the block of the next byte. */
  function ChunkSize(size: nat, left: nat): (n: nat)
    ensures n <= left && Off(size) + n <= 512 && (left > 0 ==> n > 0)
    ensures n == left || Off(size + n) == 0
  {
    var room := 512 - size % 512;
    if left < room then left else room
  }

  lemma InRange(start: nat, size: nat, end: nat)
    requires start <= size <= end
    ensures Idx(start) <= Idx(size) < Used(end) && (end < 512 * MAX_BLOCKS ==> Used(end) <= MAX_BLOCKS)
  {
  }

  /** The chunk loop after `written` bytes: the blocks hold the old contents and those bytes. */
  ghost predicate Progress(part: Partition, file: File, all: array<word>, buf: seq<byte>, written: nat, size0: nat,
                           s0: seq<Sector>, c: seq<byte>)
    reads part, part.disk, file, file.inode, all
  {
    && written <= |buf| && file.inode.size == size0 + written && file.inode.id in part.nodes
    && file.pos == Wrap(size0 + U32 - 1 + written)
    && part.Consistent() && Writing(part, file.inode.id, file.inode.size, s0, c + buf[..written])
    && size0 + |buf| < 512 * MAX_BLOCKS && Shape(part.nodes[file.inode.id], Used(size0 + |buf|))
    && all.Length == MAX_BLOCKS && Lists(all[..], part.nodes[file.inode.id], Idx(size0))
  }

  method WriteNext(part: Partition, file: File, all: array<word>, buf: seq<byte>, written: nat, first: bool,
                   ghost size0: nat, ghost s0: seq<Sector>, ghost c: seq<byte>) returns (n: nat)
    requires Progress(part, file, all, buf, written, size0, s0, c) && written < |buf|
    requires first || Off(file.inode.size) == 0
    modifies file`pos, file.inode`size, part.disk
    ensures 0 < n && written + n <= |buf| && Progress(part, file, all, buf, written + n, size0, s0, c)
    ensures written + n == |buf| || Off(file.inode.size) == 0
  {
    hide Partition.Consistent, Holds, Writing, Shape, Wrap, ChunkSize, Used, Block, Off, Idx;
    var inode := file.inode;
    n := ChunkSize(inode.size, |buf| - written);
    var chunk := buf[written..written + n];
    assert c + buf[..written] + chunk == c + buf[..written + n];
    InRange(size0, inode.size, size0 + |buf|);
    assert all[Idx(inode.size)] == all[..][Idx(inode.size)];
    WriteChunk(part, inode, all, chunk, first, s0, c + buf[..written], Used(size0 + |buf|));
    WrapAdd(size0 + U32 - 1 + written, n);
    file.pos := Wrap(file.pos + n);
  }

  /** The chunk loop. */
  method WriteChunks(part: Partition, file: File, all: array<word>, buf: seq<byte>, ghost c: seq<byte>)
    requires part.Consistent() && Opened(part, file.inode)
    requires Holds(part.disk.sectors, part.nodes[file.inode.id], c)
    requires file.inode.size + |buf| < 512 * MAX_BLOCKS
    requires Shape(part.nodes[file.inode.id], Used(file.inode.size + |buf|))
    requires all.Length == MAX_BLOCKS && Lists(all[..], part.nodes[file.inode.id], Idx(file.inode.size))
    modifies file`pos, file.inode`size, part.disk
    ensures Progress(part, file, all, buf, |buf|, old(file.inode.size), old(part.disk.sectors), c)
  {
    ghost var s0, size0 := part.disk.sectors, file.inode.size;
    StartWriting(part, file.inode.id, c);
    file.pos := Wrap(file.inode.size + U32 - 1);
    var first, written := true, 0;
    assert c + buf[..0] == c;
    assert Progress(part, file, all, buf, 0, size0, s0, c);
    hide Progress, Off;
    while written < |buf|
      invariant written <= |buf| && Progress(part, file, all, buf, written, size0, s0, c)
      invariant first || Off(file.inode.size) == 0 || written == |buf|
    {
      var n := WriteNext(part, file, all, buf, written, first, size0, s0, c);
      first := false;
      written := written + n;
    }
  }

  /** Blocks the bitmap must still have for a write of `count` bytes. */
  function Needed(node: Node, count: nat): nat
    requires |node.slots| == SLOTS
  {
    var has, will := Used(node.size), Used(node.size + count);
    (if node.slots[0] == 0 then 1 else 0) + (will - has) + (if has <= 12 < will then 1 else 0)
  }

  lemma UsedBounds(size: nat, count: nat)
    ensures 0 < Used(size) <= Used(size + count) && Used(size) - 1 == Idx(size)
    ensures size + count < 512 * MAX_BLOCKS <==> Used(size + count) <= MAX_BLOCKS
  {
  }

  /** Checking the number of blocks and collecting them. */
  method CollectKept(part: Partition, inode: Inode, has: nat, will: nat, all: array<word>) returns (halted: bool)
    requires part.Consistent() && Opened(part, inode) && part.TablesOnDisk({}) && Shape(part.nodes[inode.id], has)
    requires 0 < has <= will && all.Length == MAX_BLOCKS && forall k :: 0 <= k < MAX_BLOCKS ==> all[k] == 0
    modifies part`blockMap, part`nodes, part`owners, part.disk, inode`blocks, all
    ensures halted <==> will > MAX_BLOCKS || |old(part.FreeBlocks())| < will - has + (if has <= 12 < will then 1 else 0)
    ensures !halted ==>
      |part.FreeBlocks()| == |old(part.FreeBlocks())| - (will - has + (if has <= 12 < will then 1 else 0))
    ensures !halted ==> part.Consistent() && Opened(part, inode) && part.TablesOnDisk({}) && PartKept(part, inode.id)
    ensures !halted ==> Shape(part.nodes[inode.id], will) && Lists(all[..], part.nodes[inode.id], has - 1)
  {
    hide OwnersAgree, BitmapAgrees, IdsAgree, TablesIn, Growing, Shape, Lists, SameBut, Kept, FreeIn;
    if will > MAX_BLOCKS {  // ASSERT
      return true;
    }
    ghost var nodes0, owners0, s0 := part.nodes, part.owners, part.disk.sectors;
    halted := Collect(part, inode, has, will, all);
    if !halted {
      OwnedBlocks(part);
      GrowingKeeps(nodes0, owners0, s0, part.nodes, part.owners, part.disk.sectors, inode.id, has, will,
                   part.inodeBitmapLba, part.dataStart);
    }
  }

  /** Everything file_write does before the first byte moves. */
  method Grow(part: Partition, inode: Inode, count: nat, all: array<word>) returns (halted: bool)
    requires part.Consistent() && Opened(part, inode) && part.TablesOnDisk({}) && RegularFile(part.nodes[inode.id])
    requires all.Length == MAX_BLOCKS && forall k :: 0 <= k < MAX_BLOCKS ==> all[k] == 0
    modifies part`blockMap, part`nodes, part`owners, part.disk, inode`blocks, all
    ensures halted <==>
      || inode.size + count >= 512 * MAX_BLOCKS
      || |old(part.FreeBlocks())| < Needed(old(part.nodes[inode.id]), count)
    ensures !halted ==> |part.FreeBlocks()| == |old(part.FreeBlocks())| - Needed(old(part.nodes[inode.id]), count)
    ensures !halted ==> part.Consistent() && Opened(part, inode) && part.TablesOnDisk({}) && PartKept(part, inode.id)
    ensures !halted ==> Shape(part.nodes[inode.id], Used(inode.size + count))
    ensures !halted ==> Lists(all[..], part.nodes[inode.id], Idx(inode.size))
  {
    hide Opened, Partition.Consistent, Partition.TablesOnDisk, Shape, Lists, SameBut, Kept, Used, Idx, RegularFile,
      FreeIn, Block;
    ghost var nodes0, owners0, s0 := part.nodes, part.owners, part.disk.sectors;
    UsedBounds(inode.size, count);
    OpenedIsAllocated(part, inode);
    halted := FirstBlock(part, inode);
    if halted {
      return;
    }
    OpenedIsAllocated(part, inode);
    ghost var nodes1, owners1, s1 := part.nodes, part.owners, part.disk.sectors;
    halted := CollectKept(part, inode, Used(inode.size), Used(inode.size + count), all);
    if !halted {
      KeptTwice(nodes0, owners0, s0, nodes1, owners1, s1, part.nodes, part.owners, part.disk.sectors, inode.id,
                part.inodeBitmapLba, part.dataStart);
    }
  }

  /** The chunk loop, with the size of the inode in step again. */
  method WriteData(part: Partition, file: File, all: array<word>, buf: seq<byte>, ghost c: seq<byte>)
    requires part.Consistent() && Opened(part, file.inode) && part.TablesOnDisk({})
    requires Holds(part.disk.sectors, part.nodes[file.inode.id], c)
    requires file.inode.size + |buf| < 512 * MAX_BLOCKS
    requires Shape(part.nodes[file.inode.id], Used(file.inode.size + |buf|))
    requires all.Length == MAX_BLOCKS && Lists(all[..], part.nodes[file.inode.id], Idx(file.inode.size))
    modifies file`pos, file.inode`size, part.disk, part`nodes
    ensures file.inode.size == old(file.inode.size) + |buf|
    ensures file.pos == Wrap(old(file.inode.size) + U32 - 1 + |buf|)
    ensures part.Consistent() && Opened(part, file.inode) && part.TablesOnDisk({})
    ensures part.nodes == WithSize(old(part.nodes), file.inode.id, file.inode.size)
    ensures OnlyDataOf(file.inode.id, part.owners, old(part.disk.sectors), part.disk.sectors)
    ensures Holds(part.disk.sectors, part.nodes[file.inode.id], c + buf)
    ensures Shape(part.nodes[file.inode.id], Used(file.inode.size))
  {
    hide Partition.Consistent, Lists, Holds, OnlyDataOf, Shape, Used, Idx, Wrap;
    ghost var id, nodes, s0 := file.inode.id, part.nodes, part.disk.sectors;
    WriteChunks(part, file, all, buf, c);
    assert buf[..|buf|] == buf;
    ghost var size := file.inode.size;
    part.Resize(id, size);
    DataWritten(nodes, part.owners, id, size, s0, part.disk.sectors, Used(size)) by {
      OpenedRecord(part, file.inode);
    }
  }

  lemma DataWritten(nodes: map<nat, Node>, owners: map<nat, Owner>, id: nat, size: word, s0: seq<Sector>,
                    s1: seq<Sector>, used: nat)
    requires id in nodes && OwnersAgree(WithSize(nodes, id, size), owners) && TablesIn(s0, nodes, {})
    requires OnlyDataOf(id, owners, s0, s1) && Shape(nodes[id], used)
    ensures TablesIn(s1, WithSize(nodes, id, size), {}) && Shape(WithSize(nodes, id, size)[id], used)
  {
    var after := WithSize(nodes, id, size);
    assert TablesIn(s0, after, {});
    TablesKept(id, after, owners, s0, s1, {});
    forall k | 0 <= k < MAX_BLOCKS ensures Block(after[id], k) == Block(nodes[id], k) {}
  }

  lemma WriteLeaves(nodes0: map<nat, Node>, owners0: map<nat, Owner>, s0: seq<Sector>, nodes1: map<nat, Node>,
                    owners1: map<nat, Owner>, s1: seq<Sector>, s2: seq<Sector>, id: nat, size: word,
                    from: nat, table: nat, start: nat)
    requires Kept(nodes0, owners0, s0, nodes1, owners1, s1, id, from, start) && OnlyDataOf(id, owners1, s1, s2)
    requires from <= table
    requires RecordsIn(s0, table, nodes0, {}) && table + TABLE_SECTORS <= start
    requires forall l :: l in owners1 ==> start <= l
    ensures RecordsIn(s2, table, WithSize(nodes1, id, size), {id})
    ensures Untouched(nodes0, owners0, s0, WithSize(nodes1, id, size), owners1, s2, id)
  {
    hide RecordsIn;
    forall l | table <= l < start && l < |s0| ensures s2[l] == s0[l] {
      assert s1[l] == s0[l];
    }
    RecordsFrame(s0, s2, table, nodes0, WithSize(nodes1, id, size), id, {});
    assert {} + {id} == {id};
  }

  /** The sector of the inode bitmap is in front of everything that a write touches. */
  lemma InodeMapKept(nodes0: map<nat, Node>, owners0: map<nat, Owner>, s0: seq<Sector>, nodes1: map<nat, Node>,
                     owners1: map<nat, Owner>, s1: seq<Sector>, s2: seq<Sector>, id: nat, lba: nat, start: nat)
    requires Kept(nodes0, owners0, s0, nodes1, owners1, s1, id, lba, start) && OnlyDataOf(id, owners1, s1, s2)
    requires lba < start && forall l :: l in owners1 ==> start <= l
    ensures |s2| == |s0| && (lba < |s0| ==> s2[lba] == s0[lba])
  {
  }

  lemma UntouchedFrame(nodes0: map<nat, Node>, owners0: map<nat, Owner>, s0: seq<Sector>, nodes: map<nat, Node>,
                       owners: map<nat, Owner>, s1: seq<Sector>, s2: seq<Sector>, id: nat, start: nat)
    requires Untouched(nodes0, owners0, s0, nodes, owners, s1, id) && SameFrom(s1, s2, start)
    requires forall l :: l in owners ==> start <= l
    ensures Untouched(nodes0, owners0, s0, nodes, owners, s2, id)
  {
  }

  /** Every other file reads as before. */
  lemma OthersReadTheSame(nodes0: map<nat, Node>, owners0: map<nat, Owner>, s0: seq<Sector>,
                          nodes: map<nat, Node>, owners: map<nat, Owner>, s1: seq<Sector>, id: nat, i: nat)
    requires Untouched(nodes0, owners0, s0, nodes, owners, s1, id) && OwnersAgree(nodes0, owners0)
    requires i in nodes0 && i != id && RegularFile(nodes0[i])
    ensures nodes[i] == nodes0[i] && Contents(s1, nodes[i]) == Contents(s0, nodes0[i])
  {
    OtherContents(nodes0, owners0, s0, s1, i);
  }

  lemma HoldsFrom(s0: seq<Sector>, s1: seq<Sector>, nodes: map<nat, Node>, owners: map<nat, Owner>, id: nat,
                  c: seq<byte>,
                  used: nat, start: nat)
    requires OwnersAgree(nodes, owners) && id in nodes && Holds(s0, nodes[id], c) && SameFrom(s0, s1, start)
    requires Shape(nodes[id], used) && nodes[id].size < 512 * used
    requires forall l :: l in owners ==> start <= l
    ensures Holds(s1, nodes[id], c)
  {
    forall k | 0 <= k < MAX_BLOCKS && 512 * k < |c|
      ensures Block(nodes[id], k) < |s0| ==> s1[Block(nodes[id], k)] == s0[Block(nodes[id], k)]
    {
      assert Block(nodes[id], k) == Slot(nodes, id, SlotOf(k));
    }
    HoldsFrame(s0, nodes[id], s1, nodes[id], c);
  }

  /** Where the last phase of file_write must get: the file is what it was with `buf` behind it. */
  ghost predicate Appended(part: Partition, file: File, size0: nat, c: seq<byte>, buf: seq<byte>)
    reads part, part.disk, file, file.inode
  {
    && part.Valid() && Opened(part, file.inode) && RegularFile(part.nodes[file.inode.id])
    && part.nodes[file.inode.id].slots[0] != 0
    && Contents(part.disk.sectors, part.nodes[file.inode.id]) == c + buf
    && file.pos == Wrap(size0 + U32 - 1 + |buf|)
  }

  lemma AppendDone(sectors: seq<Sector>, node: Node, c: seq<byte>)
    requires Holds(sectors, node, c) && Shape(node, Used(node.size)) && node.size < 512 * MAX_BLOCKS
    ensures RegularFile(node) && Contents(sectors, node) == c && node.slots[0] != 0
  {
    ContentsHold(sectors, node, c);
    assert node.slots[0] == Block(node, 0);
  }

  /** Chunk loop and inode_sync. */
  method WriteAndSync(part: Partition, file: File, all: array<word>, buf: seq<byte>, ghost c: seq<byte>,
                      ghost nodes0: map<nat, Node>, ghost owners0: map<nat, Owner>, ghost s0: seq<Sector>)
    requires part.Consistent() && Opened(part, file.inode) && part.TablesOnDisk({})
    requires Kept(nodes0, owners0, s0, part.nodes, part.owners, part.disk.sectors, file.inode.id, part.inodeBitmapLba,
                  part.dataStart)
    requires InodesSynced(s0, part.inodeBitmapLba, part.inodeMap)
    requires RecordsIn(s0, part.inodeTableLba, nodes0, {})
    requires Holds(part.disk.sectors, part.nodes[file.inode.id], c)
    requires file.inode.size + |buf| < 512 * MAX_BLOCKS
    requires Shape(part.nodes[file.inode.id], Used(file.inode.size + |buf|))
    requires all.Length == MAX_BLOCKS && Lists(all[..], part.nodes[file.inode.id], Idx(file.inode.size))
    modifies file`pos, file.inode`size, part.disk, part`nodes
    ensures Appended(part, file, old(file.inode.size), c, buf)
    ensures Untouched(nodes0, owners0, s0, part.nodes, part.owners, part.disk.sectors, file.inode.id)
  {
    hide OwnersAgree, BitmapAgrees, IdsAgree, TablesIn, RecordsIn, Kept, Holds, OnlyDataOf, Shape, Used, Idx, Wrap,
      Lists, Untouched, SameFrom, RegularFile, Contents, InodesSynced, BlocksSynced;
    ghost var id, nodes1, s1 := file.inode.id, part.nodes, part.disk.sectors;
    OpenedRecord(part, file.inode);
    WriteData(part, file, all, buf, c);
    ghost var s2 := part.disk.sectors;
    OpenedRecord(part, file.inode);
    OwnedBlocks(part);
    InodeMapKept(nodes0, owners0, s0, nodes1, part.owners, s1, s2, id, part.inodeBitmapLba, part.dataStart);
    InodesKept(part, s0);
    WriteLeaves(nodes0, owners0, s0, nodes1, part.owners, s1, s2, id, file.inode.size, part.inodeBitmapLba,
                part.inodeTableLba, part.dataStart);
    ghost var none: set<nat> := {};
    assert none + {file.inode.id as nat} == {file.inode.id as nat} && none - {file.inode.id as nat} == none;
    SyncInode(part, file.inode, none);
    UntouchedFrame(nodes0, owners0, s0, part.nodes, part.owners, s2, part.disk.sectors, id, part.dataStart);
    FullBlocks(file.inode.size);
    HoldsFrom(s2, part.disk.sectors, part.nodes, part.owners, id, c + buf, Used(file.inode.size), part.dataStart);
    AppendDone(part.disk.sectors, part.nodes[id], c + buf);
  }

  lemma FullBlocks(size: nat)
    ensures size < 512 * Used(size)
  {
  }

  /** The sum in the guard of file_write has 32 bits: it refuses what is too long if and only if the sum fits. */
  lemma GuardTellsSize(size: nat, count: nat)
    requires size <= 71680 && count < U32
    ensures (Wrap(size + count) > 71680 <==> size + count > 71680) <==> size + count < U32
  {
  }

  /** file_write. Either the file ends up with `buf` behind its old bytes and nothing else is touched,
      or the size limit refuses the call, or an ASSERT stops the kernel: with exactly 71680 bytes the
      guard lets the call through and the block count stops it. */
  method Write(part: Partition, file: File, buf: seq<byte>) returns (r: Run<int>)
    requires part.Valid() && Opened(part, file.inode) && RegularFile(part.nodes[file.inode.id])
    requires file.inode.size + |buf| < U32
    modifies part, part.disk, file`pos, file.inode`blocks, file.inode`size
    ensures r == Done(-1) <==> old(file.inode.size) + |buf| > 71680
    ensures r == Done(-1) ==> unchanged(part, part.disk, file, file.inode)
    ensures r == Halted <==>
      || old(file.inode.size) + |buf| == 71680
      || (old(file.inode.size) + |buf| < 71680 &&
          |old(part.FreeBlocks())| < Needed(old(part.nodes[file.inode.id]), |buf|))
    ensures r.Done? && r.value != -1 ==>
      && r.value == |buf|
      && |part.FreeBlocks()| == |old(part.FreeBlocks())| - Needed(old(part.nodes[file.inode.id]), |buf|)
      && Appended(part, file, old(file.inode.size), old(Contents(part.disk.sectors, part.nodes[file.inode.id])), buf)
      && Untouched(old(part.nodes), old(part.owners), old(part.disk.sectors),
                   part.nodes, part.owners, part.disk.sectors, file.inode.id)
  {
    hide OwnersAgree, BitmapAgrees, IdsAgree, TablesIn, RecordsIn, Kept, Holds, Shape, Used, Idx, Lists, Untouched,
      Appended, Needed, FreeIn, Contents;
    var inode := file.inode;
    ghost var nodes0, owners0, s0 := part.nodes, part.owners, part.disk.sectors;
    ghost var c := Contents(s0, nodes0[inode.id]);
    if Wrap(inode.size + |buf|) > 71680 {
      return Done(-1);
    }
    ContentsHold(s0, nodes0[inode.id], c);
    var all := new word[MAX_BLOCKS](_ => 0);
    var halted := Grow(part, inode, |buf|, all);
    if halted {
      return Halted;
    }
    KeptHolds(nodes0, owners0, s0, part.nodes, part.owners, part.disk.sectors, inode.id, part.inodeBitmapLba,
              part.dataStart, c);
    WriteAndSync(part, file, all, buf, c, nodes0, owners0, s0);
    r := Done(|buf|);
  }
}
