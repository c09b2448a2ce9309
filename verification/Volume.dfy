/** A mounted partition: the two bitmaps in memory, the sectors on the disk, and - as ghost state -
    the inode that owns each block. An inode has 141 slots: 12 direct blocks, the indirect table,
    and the 128 entries of that table. */
module Volumes {
  import opened Debug
  import opened Bytes
  import opened Bitmaps
  import opened Ide
  import opened BitSectors
  import opened Inodes

  const MAX_BLOCKS := 140
  const SLOTS := 141
  const TABLE_SLOT := 12

  /** The current persistent state of an allocated inode: its size and what its slots hold. */
  datatype Node = Node(size: word, slots: seq<word>)
  datatype Owner = Owner(id: nat, slot: nat)

  /** The slot that holds the address of block `k` of a file. */
  function SlotOf(k: nat): nat {
    if k < TABLE_SLOT then k else k + 1
  }

  function Cleared(n: nat): seq<word> {
    seq(n, _ => 0)
  }

  function Record(id: word, node: Node): Fields
    requires |node.slots| == SLOTS
  {
    Fields(id, node.size, node.slots[..13])
  }

  /** What slot `s` of inode `id` holds; 0 for an empty slot. */
  function Slot(nodes: map<nat, Node>, id: nat, s: nat): word {
    if id in nodes && s < |nodes[id].slots| then nodes[id].slots[s] else 0
  }

  /** The owner map is the inverse of the slots: every block in a slot has that slot as its owner
      and no other, and every owned block is where its owner says. */
  ghost predicate OwnersAgree(nodes: map<nat, Node>, owners: map<nat, Owner>) {
    && (forall id :: id in nodes ==> |nodes[id].slots| == SLOTS)
    && (forall l :: l in owners ==> l != 0 && Slot(nodes, owners[l].id, owners[l].slot) == l)
    && forall id, s :: Slot(nodes, id, s) != 0 ==>
         Slot(nodes, id, s) in owners && owners[Slot(nodes, id, s)] == Owner(id, s)
  }

  /** A bit is set exactly when its block is owned or does not exist. */
  ghost predicate BitmapAgrees(blockMap: seq<bool>, owners: map<nat, Owner>, start: nat, count: nat) {
    && count <= |blockMap|
    && (forall l :: l in owners ==> start <= l < start + count)
    && forall b :: 0 <= b < |blockMap| ==> (blockMap[b] <==> b >= count || start + b in owners)
  }

  /** An inode bit is set exactly when the inode is allocated. Ids stay below 256, where inode_sync
      is faithful. */
  ghost predicate IdsAgree(inodeMap: seq<bool>, ids: set<nat>) {
    && (forall i :: 0 <= i < |inodeMap| ==> (inodeMap[i] <==> i in ids))
    && forall id :: id in ids ==> id < 256
  }

  /** The inodes once slot `slot` of inode `id` holds `l`. */
  function WithSlot(nodes: map<nat, Node>, id: nat, slot: nat, l: word): (after: map<nat, Node>)
    requires id in nodes && slot < |nodes[id].slots|
    ensures after.Keys == nodes.Keys
    ensures forall i, s :: Slot(after, i, s) == if i == id && s == slot then l else Slot(nodes, i, s)
  {
    nodes[id := nodes[id].(slots := nodes[id].slots[slot := l])]
  }

  /** The inodes once inode `id` is `size` bytes long. */
  function WithSize(nodes: map<nat, Node>, id: nat, size: word): (after: map<nat, Node>)
    requires id in nodes
    ensures after.Keys == nodes.Keys
    ensures forall i, s :: Slot(after, i, s) == Slot(nodes, i, s)
  {
    nodes[id := nodes[id].(size := size)]
  }

  lemma ClearExists(blockMap: seq<bool>, owners: map<nat, Owner>, start: nat, count: nat, b: nat)
    requires BitmapAgrees(blockMap, owners, start, count) && b < |blockMap| && !blockMap[b]
    ensures b < count
  {
  }

  lemma ResizeAgrees(nodes: map<nat, Node>, owners: map<nat, Owner>, id: nat, size: word)
    requires OwnersAgree(nodes, owners) && id in nodes
    ensures OwnersAgree(WithSize(nodes, id, size), owners)
  {
  }

  lemma AttachAgrees(nodes: map<nat, Node>, owners: map<nat, Owner>, blockMap: seq<bool>, start: nat, count: nat,
                     id: nat, slot: nat, l: word)
    requires OwnersAgree(nodes, owners) && BitmapAgrees(blockMap, owners, start, count)
    requires id in nodes && slot < SLOTS && Slot(nodes, id, slot) == 0
    requires 0 < start <= l < start + |blockMap| && !blockMap[l - start]
    ensures l !in owners && l < start + count
    ensures OwnersAgree(WithSlot(nodes, id, slot, l), owners[l := Owner(id, slot)])
    ensures BitmapAgrees(blockMap[l - start := true], owners[l := Owner(id, slot)], start, count)
  {
  }

  lemma DetachAgrees(nodes: map<nat, Node>, owners: map<nat, Owner>, blockMap: seq<bool>, start: nat, count: nat,
                     l: nat)
    requires OwnersAgree(nodes, owners) && BitmapAgrees(blockMap, owners, start, count)
    requires l in owners
    ensures owners[l].id in nodes && owners[l].slot < SLOTS
    ensures OwnersAgree(WithSlot(nodes, owners[l].id, owners[l].slot, 0), owners - {l})
    ensures BitmapAgrees(blockMap[l - start := false], owners - {l}, start, count)
  {
  }

  /** Two disks agree from sector `from` on. */
  ghost predicate SameFrom(a: seq<Sector>, b: seq<Sector>, from: nat) {
    |a| == |b| && forall l :: from <= l < |a| ==> a[l] == b[l]
  }

  lemma SameFromThen(a: seq<Sector>, b: seq<Sector>, c: seq<Sector>, from: nat)
    requires SameFrom(a, b, from) && SameFrom(b, c, from)
    ensures SameFrom(a, c, from)
  {
  }

  /** Without a table the 128 entries are empty; with one, its sector holds them. */
  ghost predicate TableReadsBack(sectors: seq<Sector>, node: Node)
    requires |node.slots| == SLOTS
  {
    if node.slots[TABLE_SLOT] == 0 then
      node.slots[13..] == Cleared(128)
    else
      node.slots[TABLE_SLOT] < |sectors| && BytesToWords(sectors[node.slots[TABLE_SLOT]]) == node.slots[13..]
  }

  /** The indirect table of every inode but `stale` reads back from the disk. */
  ghost predicate TablesIn(sectors: seq<Sector>, nodes: map<nat, Node>, stale: set<nat>) {
    forall id :: id in nodes && id !in stale ==> |nodes[id].slots| == SLOTS && TableReadsBack(sectors, nodes[id])
  }

  /** The record of every inode but `stale` is in the inode table. */
  ghost predicate RecordsIn(sectors: seq<Sector>, table: nat, nodes: map<nat, Node>, stale: set<nat>) {
    forall id :: id in nodes && id !in stale ==>
      && |nodes[id].slots| == SLOTS && id < 256 && table + TABLE_SECTORS <= |sectors|
      && RecordAt(sectors, table, id) == Encode(Record(id, nodes[id]))
  }

  /** The block is an indirect table. Its bit is not synced on its own. */
  ghost predicate IsTable(owners: map<nat, Owner>, l: nat) {
    l in owners && owners[l].slot == TABLE_SLOT
  }

  /** Bit `b` of the block bitmap is on the disk as it is in memory, or stands for an indirect table. */
  ghost predicate BitSynced(sectors: seq<Sector>, lba: nat, blockMap: seq<bool>, owners: map<nat, Owner>, start: nat,
                            b: nat)
  {
    && b < |blockMap| && lba + b / BITS_PER_SECTOR < |sectors|
    && (BitAt(sectors, lba, b) == blockMap[b] || IsTable(owners, start + b))
  }

  ghost predicate BlocksSynced(sectors: seq<Sector>, lba: nat, blockMap: seq<bool>, owners: map<nat, Owner>,
                               start: nat)
  {
    forall b :: 0 <= b < |blockMap| ==> BitSynced(sectors, lba, blockMap, owners, start, b)
  }

  /** The inode bitmap is on the disk as it is in memory. */
  ghost predicate InodesSynced(sectors: seq<Sector>, lba: nat, inodeMap: seq<bool>) {
    lba < |sectors| && |inodeMap| == BITS_PER_SECTOR && Unpacked([sectors[lba]]) == inodeMap
  }

  /** Writes elsewhere leave the block bitmap on the disk alone. */
  lemma BitmapKept(s0: seq<Sector>, s1: seq<Sector>, lba: nat, n: nat, blockMap: seq<bool>, owners: map<nat, Owner>,
                   start: nat)
    requires BlocksSynced(s0, lba, blockMap, owners, start) && |blockMap| == BITS_PER_SECTOR * n
    requires |s1| == |s0| && forall l :: lba <= l < lba + n && l < |s0| ==> s1[l] == s0[l]
    ensures BlocksSynced(s1, lba, blockMap, owners, start)
  {
    hide BitOf;
    forall b: nat | b < |blockMap| ensures BitSynced(s1, lba, blockMap, owners, start, b) {
      assert BitSynced(s0, lba, blockMap, owners, start, b);
    }
  }

  /** The block bitmap on the disk, but for bit `bit` and its sector, which is then written. */
  lemma SectorSynced(s0: seq<Sector>, lba: nat, n: nat, blockMap0: seq<bool>, owners0: map<nat, Owner>,
                     blockMap: seq<bool>, owners: map<nat, Owner>, start: nat, bit: nat)
    requires BlocksSynced(s0, lba, blockMap0, owners0, start) && |blockMap| == |blockMap0| == BITS_PER_SECTOR * n
    requires bit < |blockMap| && lba + n <= |s0|
    requires forall b :: 0 <= b < |blockMap| && b != bit ==> blockMap[b] == blockMap0[b]
    requires forall l :: l != start + bit && IsTable(owners0, l) ==> IsTable(owners, l)
    ensures var k := bit / BITS_PER_SECTOR;
      && BITS_PER_SECTOR * k + BITS_PER_SECTOR <= |blockMap| && k < n
      && BlocksSynced(
        s0[lba + k := PackSector(blockMap[BITS_PER_SECTOR * k..BITS_PER_SECTOR * k + BITS_PER_SECTOR])],
        lba, blockMap, owners, start)
  {
    hide BitAt, PackSector, IsTable;
    var k := bit / BITS_PER_SECTOR;
    var piece := blockMap[BITS_PER_SECTOR * k..BITS_PER_SECTOR * k + BITS_PER_SECTOR];
    var s1 := s0[lba + k := PackSector(piece)];
    forall b: nat | b < |blockMap| ensures BitSynced(s1, lba, blockMap, owners, start, b) {
      assert b / BITS_PER_SECTOR < n;
      if b / BITS_PER_SECTOR == k {
        assert b == BITS_PER_SECTOR * k + b % BITS_PER_SECTOR;
        PackedAtBit(s1, lba, piece, b);
      } else {
        assert BitSynced(s0, lba, blockMap0, owners0, start, b);
        SameBit(s0, s1, lba, b);
      }
    }
  }

  lemma PackedAtBit(sectors: seq<Sector>, lba: nat, piece: seq<bool>, b: nat)
    requires lba + b / BITS_PER_SECTOR < |sectors| && |piece| == BITS_PER_SECTOR
    requires sectors[lba + b / BITS_PER_SECTOR] == PackSector(piece)
    ensures BitAt(sectors, lba, b) == piece[b % BITS_PER_SECTOR]
  {
    hide BitOf, PackSector;
    PackedByte(piece, b % BITS_PER_SECTOR);
    assert b % BITS_PER_SECTOR % 8 == b % 8;
  }

  lemma SameBit(s0: seq<Sector>, s1: seq<Sector>, lba: nat, b: nat)
    requires lba + b / BITS_PER_SECTOR < |s0| && |s1| == |s0|
    requires s1[lba + b / BITS_PER_SECTOR] == s0[lba + b / BITS_PER_SECTOR]
    ensures BitAt(s1, lba, b) == BitAt(s0, lba, b)
  {
    hide BitOf;
  }

  /** Setting the bit of a table changes nothing on the disk. */
  lemma TableSynced(s: seq<Sector>, lba: nat, blockMap0: seq<bool>, owners0: map<nat, Owner>, blockMap: seq<bool>,
                    owners: map<nat, Owner>, start: nat, bit: nat)
    requires BlocksSynced(s, lba, blockMap0, owners0, start) && |blockMap| == |blockMap0| && bit < |blockMap|
    requires forall b :: 0 <= b < |blockMap| && b != bit ==> blockMap[b] == blockMap0[b]
    requires IsTable(owners, start + bit)
    requires forall l :: l != start + bit && IsTable(owners0, l) ==> IsTable(owners, l)
    ensures BlocksSynced(s, lba, blockMap, owners, start)
  {
    hide BitAt, IsTable;
    forall b: nat | b < |blockMap| ensures BitSynced(s, lba, blockMap, owners, start, b) {
      assert BitSynced(s, lba, blockMap0, owners0, start, b);
    }
  }

  /** The bitmap that mount_partition reads is the one it keeps in memory. */
  lemma MountedSynced(sectors: seq<Sector>, lba: nat, n: nat, owners: map<nat, Owner>, start: nat)
    requires lba + n <= |sectors|
    ensures BlocksSynced(sectors, lba, Unpacked(sectors[lba..lba + n]), owners, start)
  {
    hide BitAt, Unpacked, IsTable;
    var bits := Unpacked(sectors[lba..lba + n]);
    forall b: nat | b < |bits| ensures BitSynced(sectors, lba, bits, owners, start, b) {
      UnpackedAt(sectors, lba, n, b);
    }
  }

  class Partition {
    const disk: Disk
    const super: Sector
    const blockBitmapLba: nat
    const inodeBitmapLba: nat
    const inodeTableLba: nat
    const dataStart: nat
    const blockCount: nat  // blocks the bitmap can hand out
    var blockMap: seq<bool>
    var inodeMap: seq<bool>
    ghost var nodes: map<nat, Node>
    ghost var owners: map<nat, Owner>

    /** mount_partition, given what it reads from the super block and the two bitmaps. */
    constructor (disk: Disk, super: Sector, blockBitmapLba: nat, inodeBitmapLba: nat, inodeTableLba: nat,
                 dataStart: nat, blockCount: nat, blockMap: seq<bool>, inodeMap: seq<bool>,
                 ghost nodes: map<nat, Node>, ghost owners: map<nat, Owner>)
      ensures this.disk == disk && this.super == super
      ensures this.blockBitmapLba == blockBitmapLba && this.inodeBitmapLba == inodeBitmapLba
      ensures this.inodeTableLba == inodeTableLba && this.dataStart == dataStart && this.blockCount == blockCount
      ensures this.blockMap == blockMap && this.inodeMap == inodeMap && this.nodes == nodes && this.owners == owners
    {
      this.disk := disk;
      this.super := super;
      this.blockBitmapLba := blockBitmapLba;
      this.inodeBitmapLba := inodeBitmapLba;
      this.inodeTableLba := inodeTableLba;
      this.dataStart := dataStart;
      this.blockCount := blockCount;
      this.blockMap := blockMap;
      this.inodeMap := inodeMap;
      this.nodes := nodes;
      this.owners := owners;
    }

    /** The super block's layout: the super block, the bitmaps, the inode table, the data area. */
    ghost predicate Geometry()
      reads this, disk
    {
      && 0 < blockBitmapLba <= inodeBitmapLba < inodeTableLba
      && inodeTableLba + TABLE_SECTORS <= dataStart
      && dataStart + blockCount <= |disk.sectors| <= MAX_LBA + 1
      && blockCount <= |blockMap| == BITS_PER_SECTOR * (inodeBitmapLba - blockBitmapLba)
      && |inodeMap| == BITS_PER_SECTOR
      && disk.sectors[blockBitmapLba - 1] == super
    }

    /** Bitmaps in memory, inodes and owners agree, and the root directory holds the first data block. */
    ghost predicate Agreed()
      reads this, disk
    {
      && Geometry()
      && OwnersAgree(nodes, owners)
      && BitmapAgrees(blockMap, owners, dataStart, blockCount)
      && IdsAgree(inodeMap, nodes.Keys)
      && 0 in nodes && Slot(nodes, 0, 0) == dataStart
    }

    /** And the block bitmap is on the disk, but for bits of indirect tables. */
    ghost predicate Consistent()
      reads this, disk
    {
      Agreed() && BlocksSynced(disk.sectors, blockBitmapLba, blockMap, owners, dataStart)
    }

    ghost predicate TablesOnDisk(stale: set<nat>)
      reads this, disk
    {
      TablesIn(disk.sectors, nodes, stale)
    }

    ghost predicate RecordsOnDisk(stale: set<nat>)
      reads this, disk
    {
      RecordsIn(disk.sectors, inodeTableLba, nodes, stale)
    }

    ghost predicate InodesOnDisk()
      reads this, disk
    {
      InodesSynced(disk.sectors, inodeBitmapLba, inodeMap)
    }

    ghost predicate Valid()
      reads this, disk
    {
      Consistent() && InodesOnDisk() && TablesOnDisk({}) && RecordsOnDisk({})
    }

    ghost function FreeBlocks(): set<nat>
      reads this
    {
      FreeIn(blockMap)
    }

    /** Setting the bit of a block that goes into a slot. */
    method TakeBlock(lba: word, ghost id: nat, ghost slot: nat)
      requires Agreed() && id in nodes && slot < SLOTS && Slot(nodes, id, slot) == 0
      requires dataStart <= lba < dataStart + |blockMap| && !blockMap[lba - dataStart]
      modifies this`blockMap, this`nodes, this`owners
      ensures Agreed() && lba !in old(owners) && lba < |disk.sectors|
      ensures blockMap == old(blockMap)[lba - dataStart := true]
      ensures nodes == WithSlot(old(nodes), id, slot, lba)
      ensures owners == old(owners)[lba := Owner(id, slot)]
    {
      AttachAgrees(nodes, owners, blockMap, dataStart, blockCount, id, slot, lba);
      blockMap := blockMap[lba - dataStart := true];
      nodes := WithSlot(nodes, id, slot, lba);
      owners := owners[lba := Owner(id, slot)];
    }

    /** block_bitmap_alloc, for slot `slot` of inode `id`. With no bit clear the scan's ASSERT stops
        the kernel. */
    method AllocBlock(ghost id: nat, ghost slot: nat) returns (halted: bool, lba: word)
      requires Agreed() && id in nodes && slot < SLOTS && Slot(nodes, id, slot) == 0
      modifies this`blockMap, this`nodes, this`owners
      ensures halted <==> old(FreeBlocks()) == {}
      ensures !halted ==> Agreed() && lba !in old(owners) && 0 < lba < |disk.sectors|
      ensures !halted && old(Consistent()) && slot == TABLE_SLOT ==> Consistent()
      ensures !halted ==> dataStart <= lba < dataStart + |blockMap| && |FreeBlocks()| == |old(FreeBlocks())| - 1
      ensures !halted ==> lba == dataStart + FirstClear(old(blockMap), 0)
      ensures !halted ==> blockMap == old(blockMap)[lba - dataStart := true] && !old(blockMap)[lba - dataStart]
      ensures !halted ==> nodes == WithSlot(old(nodes), id, slot, lba)
      ensures !halted ==> owners == old(owners)[lba := Owner(id, slot)]
    {
      hide BlocksSynced, OwnersAgree, BitmapAgrees, IdsAgree, FreeIn;
      var b := FirstClear(blockMap, 0);
      NothingFree(blockMap);
      if b == |blockMap| {
        return true, 0;
      }
      assert b < blockCount by { ClearExists(blockMap, owners, dataStart, blockCount, b); }
      TakeFree(blockMap, b);
      halted, lba := false, dataStart + b;
      TakeBlock(lba, id, slot);
      if old(Consistent()) && slot == TABLE_SLOT {
        TableSynced(disk.sectors, blockBitmapLba, old(blockMap), old(owners), blockMap, owners, dataStart, b);
      }
    }

    /** block_bitmap_alloc followed by the bitmap_sync that goes with it. */
    method AllocSynced(ghost id: nat, ghost slot: nat) returns (halted: bool, lba: word)
      requires Consistent() && id in nodes && slot < SLOTS && Slot(nodes, id, slot) == 0
      modifies this`blockMap, this`nodes, this`owners, disk
      ensures halted <==> old(FreeBlocks()) == {}
      ensures !halted ==> Consistent() && lba !in old(owners) && 0 < dataStart <= lba < |disk.sectors|
      ensures !halted ==> |FreeBlocks()| == |old(FreeBlocks())| - 1
      ensures !halted ==> nodes == WithSlot(old(nodes), id, slot, lba)
      ensures !halted ==> owners == old(owners)[lba := Owner(id, slot)]
      ensures SameFrom(old(disk.sectors), disk.sectors, inodeBitmapLba)
    {
      hide OwnersAgree, BlocksSynced, BitmapAgrees, IdsAgree, FreeIn, PackSector;
      ghost var s0, blockMap0, owners0 := disk.sectors, blockMap, owners;
      halted, lba := AllocBlock(id, slot);
      if !halted {
        SectorSynced(s0, blockBitmapLba, inodeBitmapLba - blockBitmapLba, blockMap0, owners0, blockMap, owners,
                     dataStart, lba - dataStart);
        SyncBlockMap(lba - dataStart);
      }
    }

    /** The inode's size as the chunk loop leaves it. */
    ghost method Resize(id: nat, size: word)
      requires Consistent() && id in nodes
      modifies this`nodes
      ensures Consistent() && nodes == WithSize(old(nodes), id, size)
    {
      hide BlocksSynced;
      ResizeAgrees(nodes, owners, id, size);
      nodes := WithSize(nodes, id, size);
    }

    /** Clearing the bit of a block that leaves its slot. */
    method FreeBlock(lba: nat)
      requires Agreed() && lba in owners && lba != dataStart
      modifies this`blockMap, this`nodes, this`owners
      ensures Agreed() && dataStart <= lba < dataStart + |blockMap|
      ensures blockMap == old(blockMap)[lba - dataStart := false]
      ensures owners == old(owners) - {lba}
      ensures old(owners[lba]).id in old(nodes) && old(owners[lba]).slot < SLOTS
      ensures nodes == WithSlot(old(nodes), old(owners[lba]).id, old(owners[lba]).slot, 0)
    {
      DetachAgrees(nodes, owners, blockMap, dataStart, blockCount, lba);
      blockMap := blockMap[lba - dataStart := false];
      nodes := WithSlot(nodes, owners[lba].id, owners[lba].slot, 0);
      owners := owners - {lba};
    }

    /** bitmap_sync for the block bitmap. */
    method SyncBlockMap(bit: nat)
      requires Geometry() && bit < |blockMap|
      modifies disk
      ensures SameFrom(old(disk.sectors), disk.sectors, inodeBitmapLba)
      ensures var sector := bit / BITS_PER_SECTOR;
        disk.sectors == old(disk.sectors)[blockBitmapLba + sector :=
          PackSector(blockMap[BITS_PER_SECTOR * sector..BITS_PER_SECTOR * sector + BITS_PER_SECTOR])]
    {
      var sector := bit / BITS_PER_SECTOR;
      disk.WriteSector(blockBitmapLba + sector,
                       PackSector(blockMap[BITS_PER_SECTOR * sector..BITS_PER_SECTOR * sector + BITS_PER_SECTOR]));
    }

    /** Clearing the bit of a block that leaves its slot, and the bitmap_sync that goes with it. */
    method FreeSynced(lba: nat)
      requires Consistent() && lba in owners && lba != dataStart
      modifies this`blockMap, this`nodes, this`owners, disk
      ensures Consistent() && dataStart <= lba < dataStart + |blockMap|
      ensures blockMap == old(blockMap)[lba - dataStart := false]
      ensures owners == old(owners) - {lba}
      ensures old(owners[lba]).id in old(nodes) && old(owners[lba]).slot < SLOTS
      ensures nodes == WithSlot(old(nodes), old(owners[lba]).id, old(owners[lba]).slot, 0)
      ensures SameFrom(old(disk.sectors), disk.sectors, inodeBitmapLba)
    {
      hide OwnersAgree, BlocksSynced;
      ghost var s0, blockMap0, owners0 := disk.sectors, blockMap, owners;
      FreeBlock(lba);
      SectorSynced(s0, blockBitmapLba, inodeBitmapLba - blockBitmapLba, blockMap0, owners0, blockMap, owners, dataStart,
                   lba - dataStart);
      SyncBlockMap(lba - dataStart);
    }

    /** bitmap_sync for the inode bitmap, which fills one sector. */
    method SyncInodeMap(bit: nat)
      requires Geometry() && bit < |inodeMap|
      modifies disk
      ensures old(Consistent()) ==> Consistent()
      ensures SameFrom(old(disk.sectors), disk.sectors, inodeTableLba)
      ensures InodesOnDisk()
    {
      hide PackSector, BlocksSynced, OwnersAgree, BitmapAgrees, IdsAgree;
      ghost var s0 := disk.sectors;
      PackedReads(inodeMap);
      assert bit / BITS_PER_SECTOR == 0;
      disk.WriteSector(inodeBitmapLba + bit / BITS_PER_SECTOR, PackSector(inodeMap));
      if old(Consistent()) {
        BitmapKept(s0, disk.sectors, blockBitmapLba, inodeBitmapLba - blockBitmapLba, blockMap, owners, dataStart);
      }
    }
  }
}
