/** fs/c14a_fs.c: what filesys_init and mount_partition find of a partition that was in use. */
module Remounts {
  import opened Bytes
  import opened Bitmaps
  import opened Ide
  import opened BitSectors
  import opened Inodes
  import opened Volumes
  import opened OpenInodes
  import opened Caches
  import opened DirData
  import opened Trees
  import opened DiskTrees
  import opened Formats
  import opened FirstMounts

  /** The bits of all indirect tables have reached the disk. */
  ghost predicate TablesSaved(sectors: seq<Sector>, lba: nat, bits: nat, owners: map<nat, Owner>, start: nat) {
    forall b: nat :: b < bits && IsTable(owners, start + b) ==>
      lba + b / BITS_PER_SECTOR < |sectors| && BitAt(sectors, lba, b)
  }

  ghost predicate AllSaved(part: Partition)
    reads part, part.disk
  {
    TablesSaved(part.disk.sectors, part.blockBitmapLba, |part.blockMap|, part.owners, part.dataStart)
  }

  /** The bitmap that a mount reads is the one in memory but for the bits of indirect tables, and agrees with
      the owners only if those are saved too. */
  lemma MountReads(s: seq<Sector>, lba: nat, n: nat, blockMap: seq<bool>, owners: map<nat, Owner>, start: nat,
                   count: nat)
    requires BlocksSynced(s, lba, blockMap, owners, start) && BitmapAgrees(blockMap, owners, start, count)
    requires |blockMap| == BITS_PER_SECTOR * n && lba + n <= |s|
    ensures var bits := Unpacked(s[lba..lba + n]);
      && |bits| == |blockMap|
      && (forall b :: 0 <= b < |bits| ==> bits[b] == blockMap[b] || IsTable(owners, start + b))
      && (TablesSaved(s, lba, |blockMap|, owners, start) ==> bits == blockMap)
      && (BitmapAgrees(bits, owners, start, count) ==> TablesSaved(s, lba, |blockMap|, owners, start))
  {
    hide BitAt, Unpacked;
    var bits := Unpacked(s[lba..lba + n]);
    forall b: nat | b < |bits|
      ensures lba + b / BITS_PER_SECTOR < |s| && bits[b] == BitAt(s, lba, b)
      ensures BitSynced(s, lba, blockMap, owners, start, b)
    {
      UnpackedAt(s, lba, n, b);
      assert BitSynced(s, lba, blockMap, owners, start, b);
    }
  }

  /** filesys_init and mount_partition with a partition that was in use: it is not formatted again, and the
      mount finds the bitmaps as they were in memory, but for the bits of indirect tables, which nothing
      syncs on their own. All is as it was if and only if those bits are on the disk. */
  method Remount(disk: Disk, start: nat, sectors: nat, rest: seq<byte>, ghost part: Partition)
    returns (halted: bool, again: Partition)
    requires part.disk == disk && part.Valid() && Described(part, start, sectors)
    requires start + sectors <= |disk.sectors| && |rest| == 460
    modifies disk
    ensures !halted && disk.sectors == old(disk.sectors)
    ensures fresh(again) && again.disk == disk && Described(again, start, sectors)
    ensures again.dataStart == part.dataStart && again.nodes == part.nodes && again.owners == part.owners
    ensures again.inodeMap == part.inodeMap && |again.blockMap| == |part.blockMap|
    ensures forall b :: 0 <= b < |again.blockMap| ==>
      again.blockMap[b] == part.blockMap[b] || IsTable(part.owners, part.dataStart + b)
    ensures again.Valid() <==> old(AllSaved(part))
    ensures old(AllSaved(part)) ==> again.blockMap == part.blockMap
  {
    hide OwnersAgree, BitmapAgrees, IdsAgree, TablesIn, RecordsIn, BlocksSynced, TablesSaved, Unpacked, WordAt,
      HasFileSystem, BitLen, Formatted, Formats.Usable;
    halted := FindOrFormat(disk, start, sectors, rest);
    again := MountPartition(disk, start, part.nodes, part.owners);
    var n := again.inodeBitmapLba - again.blockBitmapLba;
    MountReads(disk.sectors, part.blockBitmapLba, n, part.blockMap, part.owners, part.dataStart, part.blockCount);
    MountedSynced(disk.sectors, part.blockBitmapLba, n, part.owners, part.dataStart);
    assert disk.sectors[part.inodeBitmapLba..part.inodeBitmapLba + 1] == [disk.sectors[part.inodeBitmapLba]];
  }

  lemma NoTables(part: Partition)
    requires part.Valid() && forall id :: id in part.nodes ==> Slot(part.nodes, id, TABLE_SLOT) == 0
    ensures AllSaved(part)
  {
    forall l | l in part.owners ensures !IsTable(part.owners, l) {}
  }

  /** The same with the root opened: the whole tree is there again, and only the root is open. */
  method Restart(disk: Disk, start: nat, sectors: nat, rest: seq<byte>, ghost part: Partition, ghost cache0: Cache,
                 ghost root0: Inode, ghost dirs: Listings, ghost depth: map<nat, nat>)
    returns (again: Partition, cache: Cache, root: Inode)
    requires part.disk == disk && InUse(part, cache0, root0, dirs, depth) && Described(part, start, sectors)
    requires AllSaved(part) && start + sectors <= |disk.sectors| && |rest| == 460
    modifies disk
    ensures disk.sectors == old(disk.sectors) && fresh(again) && again.disk == disk
    ensures again.nodes == part.nodes && again.owners == part.owners
    ensures again.inodeMap == part.inodeMap && again.blockMap == part.blockMap
    ensures InUse(again, cache, root, dirs, depth) && cache.list == [root] && cache.opens == map[0 := 1]
  {
    hide Partition.Valid, Described, AllSaved, TreeInOrder, AllDisplayed, Cache.Tracks, OpenedIn, IsTable;
    RootThere(part);
    var halted;
    halted, again := Remount(disk, start, sectors, rest, part);
    cache := new Cache();
    NothingOpen(cache, again.nodes);
    root := cache.Open(again, 0, {});
  }

  lemma RootThere(part: Partition)
    requires part.Valid()
    ensures 0 in part.nodes
  {
  }

  lemma ClearOnDisk(s: seq<Sector>, lba: nat, blockMap: seq<bool>, owners: map<nat, Owner>, start: nat, count: nat,
                    b: nat)
    requires BlocksSynced(s, lba, blockMap, owners, start) && BitmapAgrees(blockMap, owners, start, count)
    requires b < |blockMap| && !blockMap[b]
    ensures lba + b / BITS_PER_SECTOR < |s| && !BitAt(s, lba, b)
  {
    hide BitAt;
    assert BitSynced(s, lba, blockMap, owners, start, b);
  }

  /** Writing the sector of bit `c` carries bit `b` along exactly when it is in there. */
  lemma CarriedAlong(s: seq<Sector>, lba: nat, blockMap: seq<bool>, n: nat, b: nat, c: nat)
    requires |blockMap| == BITS_PER_SECTOR * n && lba + n <= |s| && b < |blockMap| && c < |blockMap|
    requires !BitAt(s, lba, b) && blockMap[b]
    ensures var k := c / BITS_PER_SECTOR;
      && k < n && BITS_PER_SECTOR * k + BITS_PER_SECTOR <= |blockMap|
      && (BitAt(s[lba + k := PackSector(blockMap[BITS_PER_SECTOR * k..BITS_PER_SECTOR * k + BITS_PER_SECTOR])], lba, b)
          <==> b / BITS_PER_SECTOR == k)
  {
    hide BitAt, PackSector;
    var k := c / BITS_PER_SECTOR;
    assert k < n;
    var piece := blockMap[BITS_PER_SECTOR * k..BITS_PER_SECTOR * k + BITS_PER_SECTOR];
    var s1 := s[lba + k := PackSector(piece)];
    if b / BITS_PER_SECTOR == k {
      assert b == BITS_PER_SECTOR * k + b % BITS_PER_SECTOR;
      PackedAtBit(s1, lba, piece, b);
    } else {
      SameBit(s, s1, lba, b);
    }
  }

  lemma StillClear(blockMap: seq<bool>, b: nat)
    requires b < |blockMap| && b == FirstClear(blockMap, 0)
    ensures FirstClear(blockMap[b := true], 0) > b
  {
  }

  /** The block of an indirect table and the block after it. */
  method TwoBlocks(part: Partition, ghost id: nat) returns (halted: bool, table: word, block: word)
    requires part.Agreed() && id in part.nodes
    requires Slot(part.nodes, id, TABLE_SLOT) == 0 && Slot(part.nodes, id, TABLE_SLOT + 1) == 0
    modifies part`blockMap, part`nodes, part`owners
    ensures halted <==> |old(part.FreeBlocks())| < 2
    ensures !halted ==>
      && part.Geometry() && |part.blockMap| == |old(part.blockMap)|
      && part.dataStart <= table < part.dataStart + |part.blockMap|
      && part.dataStart <= block < part.dataStart + |part.blockMap|
    ensures !halted ==> var b := table - part.dataStart;
      && b == FirstClear(old(part.blockMap), 0) && !old(part.blockMap)[b] && part.blockMap[b]
      && block - part.dataStart == FirstClear(old(part.blockMap)[b := true], 0)
  {
    hide OwnersAgree, BitmapAgrees, IdsAgree, FreeIn, FirstClear, BlocksSynced;
    NothingFree(part.blockMap);
    halted, table := part.AllocBlock(id, TABLE_SLOT);
    if halted {
      return true, 0, 0;
    }
    halted, block := part.AllocBlock(id, TABLE_SLOT + 1);
  }

  /** Why the condition: the indirect table gets its block without a bitmap_sync, and the block that comes next
      syncs only its own sector. The table's bit reaches the disk exactly when the next block's bit is in the
      same sector of the bitmap. */
  method TableThenBlock(part: Partition, ghost id: nat) returns (halted: bool, table: word, block: word)
    requires part.Consistent() && id in part.nodes
    requires Slot(part.nodes, id, TABLE_SLOT) == 0 && Slot(part.nodes, id, TABLE_SLOT + 1) == 0
    modifies part`blockMap, part`nodes, part`owners, part.disk
    ensures halted <==> |old(part.FreeBlocks())| < 2
    ensures !halted ==> part.dataStart <= table < block < part.dataStart + |part.blockMap|
    ensures !halted ==>
      var b, c := table - part.dataStart, block - part.dataStart;
      && b == FirstClear(old(part.blockMap), 0) && c == FirstClear(old(part.blockMap)[b := true], 0)
      && part.blockBitmapLba + b / BITS_PER_SECTOR < |part.disk.sectors| && part.blockMap[b]
      && (BitAt(part.disk.sectors, part.blockBitmapLba, b) <==> b / BITS_PER_SECTOR == c / BITS_PER_SECTOR)
  {
    hide OwnersAgree, BitmapAgrees, IdsAgree, BlocksSynced, BitAt, PackSector, FreeIn, FirstClear, Slot;
    ghost var s0, map0, owners0 := part.disk.sectors, part.blockMap, part.owners;
    halted, table, block := TwoBlocks(part, id);
    if !halted {
      ghost var b := table - part.dataStart;
      ClearOnDisk(s0, part.blockBitmapLba, map0, owners0, part.dataStart, part.blockCount, b);
      StillClear(map0, b);
      CarriedAlong(s0, part.blockBitmapLba, part.blockMap, part.inodeBitmapLba - part.blockBitmapLba, b,
                   block - part.dataStart);
      part.SyncBlockMap(block - part.dataStart);
    }
  }
}
