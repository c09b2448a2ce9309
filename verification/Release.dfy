/** fs/c14c_inode.c: inode_release gives every block of an inode back, and then the inode itself. */
module Release {
  import opened Debug
  import opened Bytes
  import opened Bitmaps
  import opened Ide
  import opened BitSectors
  import opened Inodes
  import opened Volumes
  import opened OpenInodes
  import opened FileData
  import opened Files
  import opened Caches

  /** Inode `id` has given back its table and its first `k` blocks; nothing else has moved. */
  ghost predicate Freed(nodes0: map<nat, Node>, owners0: map<nat, Owner>, nodes: map<nat, Node>,
                        owners: map<nat, Owner>,
                        id: nat, k: nat) {
    && id in nodes0 && nodes.Keys == nodes0.Keys && |nodes0[id].slots| == |nodes[id].slots| == SLOTS
    && (forall i :: i in nodes && i != id ==> nodes[i] == nodes0[i])
    && nodes[id].slots[TABLE_SLOT] == 0
    && (forall j :: 0 <= j < MAX_BLOCKS ==> Block(nodes[id], j) == if j < k then 0 else Block(nodes0[id], j))
    && (forall l :: l in owners ==> l in owners0 && owners[l] == owners0[l])
    && forall l :: l in owners0 && owners0[l].id != id ==> l in owners
  }

  lemma FreeOne(nodes0: map<nat, Node>, owners0: map<nat, Owner>, nodes: map<nat, Node>, owners: map<nat, Owner>,
                id: nat, k: nat)
    requires Freed(nodes0, owners0, nodes, owners, id, k) && k < MAX_BLOCKS && OwnersAgree(nodes, owners)
    requires Block(nodes[id], k) != 0
    ensures Block(nodes[id], k) in owners && owners[Block(nodes[id], k)] == Owner(id, SlotOf(k))
    ensures Freed(nodes0, owners0, WithSlot(nodes, id, SlotOf(k), 0), owners - {Block(nodes[id], k) as nat}, id, k + 1)
  {
    assert Block(nodes[id], k) == Slot(nodes, id, SlotOf(k));
    var after := WithSlot(nodes, id, SlotOf(k), 0);
    forall j | 0 <= j < MAX_BLOCKS ensures Block(after[id], j) == if j == k then 0 else Block(nodes[id], j) {}
  }

  lemma FreeTable(nodes: map<nat, Node>, owners: map<nat, Owner>, id: nat)
    requires OwnersAgree(nodes, owners) && id in nodes && nodes[id].slots[TABLE_SLOT] != 0
    ensures var t := nodes[id].slots[TABLE_SLOT];
      && t in owners && owners[t] == Owner(id, TABLE_SLOT)
      && Freed(nodes, owners, WithSlot(nodes, id, TABLE_SLOT, 0), owners - {t as nat}, id, 0)
  {
    assert nodes[id].slots[TABLE_SLOT] == Slot(nodes, id, TABLE_SLOT);
    var after := WithSlot(nodes, id, TABLE_SLOT, 0);
    forall j | 0 <= j < MAX_BLOCKS ensures Block(after[id], j) == Block(nodes[id], j) {}
  }

  lemma NothingFreed(nodes: map<nat, Node>, owners: map<nat, Owner>, id: nat)
    requires OwnersAgree(nodes, owners) && id in nodes && nodes[id].slots[TABLE_SLOT] == 0
    ensures Freed(nodes, owners, nodes, owners, id, 0)
  {
  }

  /** The root directory's first block belongs to nobody else. */
  lemma NotRootBlock(nodes: map<nat, Node>, owners: map<nat, Owner>, start: nat, l: nat, id: nat, s: nat)
    requires OwnersAgree(nodes, owners) && Slot(nodes, 0, 0) == start != 0 && l in owners && owners[l] == Owner(id, s)
    requires id != 0
    ensures l != start
  {
    assert owners[start] == Owner(0, 0);
  }

  /** Giving back one block of an inode. */
  method FreeOwned(part: Partition, lba: nat, ghost id: nat)
    requires part.Consistent() && lba in part.owners && part.owners[lba].id == id != 0
    modifies part`blockMap, part`nodes, part`owners, part.disk
    ensures part.Consistent() && part.owners == old(part.owners) - {lba}
    ensures id in old(part.nodes) && old(part.owners)[lba].slot < SLOTS
    ensures part.nodes == WithSlot(old(part.nodes), id, old(part.owners)[lba].slot, 0)
    ensures SameFrom(old(part.disk.sectors), part.disk.sectors, part.inodeBitmapLba)
  {
    NotRootBlock(part.nodes, part.owners, part.dataStart, lba, id, part.owners[lba].slot);
    hide OwnersAgree, BitmapAgrees, IdsAgree;
    part.FreeSynced(lba);
  }

  /** all_blocks as inode_release collects it: everything the inode's slots hold. */
  method CollectAll(part: Partition, inode: Inode) returns (all: array<word>, count: nat)
    requires part.Consistent() && Opened(part, inode) && part.TablesOnDisk({})
    ensures fresh(all) && all.Length == MAX_BLOCKS && count <= MAX_BLOCKS
    ensures forall j :: 0 <= j < count ==> all[j] == Block(part.nodes[inode.id], j)
    ensures forall j :: count <= j < MAX_BLOCKS ==> Block(part.nodes[inode.id], j) == 0
  {
    hide OwnersAgree, BitmapAgrees, IdsAgree;
    ghost var node := part.nodes[inode.id];
    all := new word[MAX_BLOCKS](_ => 0);
    forall j | 0 <= j < 12 {
      all[j] := inode.blocks[j];
    }
    if inode.blocks[TABLE_SLOT] != 0 {
      LoadTable(part, inode, all);
      count := MAX_BLOCKS;
      forall j | 12 <= j < MAX_BLOCKS ensures all[j] == Block(node, j) {
        assert all[..][j] == Block(node, j);
      }
    } else {
      count := 12;
      assert TableReadsBack(part.disk.sectors, node);
      forall j | 12 <= j < MAX_BLOCKS ensures Block(node, j) == 0 {
        assert node.slots[13..][j - 12] == 0;
      }
    }
  }

  /** The loop over all_blocks. */
  method FreeBlocksOf(part: Partition, all: array<word>, count: nat, ghost id: nat,
                      ghost nodes0: map<nat, Node>, ghost owners0: map<nat, Owner>, ghost s0: seq<Sector>)
    requires part.Consistent() && Freed(nodes0, owners0, part.nodes, part.owners, id, 0) && id != 0
    requires all.Length == MAX_BLOCKS && count <= MAX_BLOCKS && SameFrom(s0, part.disk.sectors, part.inodeBitmapLba)
    requires forall j :: 0 <= j < count ==> all[j] == Block(nodes0[id], j)
    requires forall j :: count <= j < MAX_BLOCKS ==> Block(nodes0[id], j) == 0
    modifies part`blockMap, part`nodes, part`owners, part.disk
    ensures part.Consistent() && Freed(nodes0, owners0, part.nodes, part.owners, id, MAX_BLOCKS)
    ensures SameFrom(s0, part.disk.sectors, part.inodeBitmapLba)
  {
    hide OwnersAgree, BitmapAgrees, IdsAgree, Freed;
    var k := 0;
    while k < count
      invariant k <= count && part.Consistent() && Freed(nodes0, owners0, part.nodes, part.owners, id, k)
      invariant SameFrom(s0, part.disk.sectors, part.inodeBitmapLba)
    {
      FreedAt(nodes0, owners0, part.nodes, part.owners, id, k);
      if all[k] != 0 {
        FreeOne(nodes0, owners0, part.nodes, part.owners, id, k);
        FreeOwned(part, all[k], id);
      }
      k := k + 1;
    }
    FreedRest(nodes0, owners0, part.nodes, part.owners, id, count);
  }

  lemma FreedAt(nodes0: map<nat, Node>, owners0: map<nat, Owner>, nodes: map<nat, Node>, owners: map<nat, Owner>,
                id: nat, k: nat)
    requires Freed(nodes0, owners0, nodes, owners, id, k) && k < MAX_BLOCKS
    ensures id in nodes && |nodes[id].slots| == SLOTS && Block(nodes[id], k) == Block(nodes0[id], k)
    ensures Block(nodes0[id], k) == 0 ==> Freed(nodes0, owners0, nodes, owners, id, k + 1)
  {
  }

  lemma FreedRest(nodes0: map<nat, Node>, owners0: map<nat, Owner>, nodes: map<nat, Node>, owners: map<nat, Owner>,
                  id: nat, k: nat)
    requires Freed(nodes0, owners0, nodes, owners, id, k) && k <= MAX_BLOCKS
    requires forall j :: k <= j < MAX_BLOCKS ==> Block(nodes0[id], j) == 0
    ensures Freed(nodes0, owners0, nodes, owners, id, MAX_BLOCKS)
  {
  }

  /** An inode that owns nothing any more can go. */
  lemma NodeGone(nodes0: map<nat, Node>, owners0: map<nat, Owner>, nodes: map<nat, Node>, owners: map<nat, Owner>,
                 id: nat)
    requires OwnersAgree(nodes, owners) && Freed(nodes0, owners0, nodes, owners, id, MAX_BLOCKS)
    ensures OwnersAgree(nodes - {id}, owners) && nodes - {id} == nodes0 - {id}
    ensures forall l :: l in owners ==> owners[l].id != id
  {
    forall s: nat ensures Slot(nodes, id, s) == 0 {
      if s < TABLE_SLOT {
        assert Block(nodes[id], s) == 0;
      } else if TABLE_SLOT < s < SLOTS {
        assert Block(nodes[id], s - 1) == 0;
      }
    }
    forall l | l in owners ensures owners[l].id != id {
      assert Slot(nodes, owners[l].id, owners[l].slot) == l != 0;
    }
    forall i, s ensures Slot(nodes - {id}, i, s) == Slot(nodes, i, s) {}
  }

  lemma IdGone(inodeMap: seq<bool>, ids: set<nat>, id: nat)
    requires IdsAgree(inodeMap, ids) && id < |inodeMap|
    ensures IdsAgree(inodeMap[id := false], ids - {id})
  {
  }

  /** The inode's number is free again. */
  method FreeInode(part: Partition, id: nat, ghost nodes0: map<nat, Node>, ghost owners0: map<nat, Owner>)
    requires part.Consistent() && Freed(nodes0, owners0, part.nodes, part.owners, id, MAX_BLOCKS)
    requires 0 < id < |part.inodeMap|
    modifies part`inodeMap, part`nodes, part.disk
    ensures part.Consistent() && part.nodes == nodes0 - {id} && part.inodeMap == old(part.inodeMap)[id := false]
    ensures part.InodesOnDisk()
    ensures SameFrom(old(part.disk.sectors), part.disk.sectors, part.inodeTableLba)
  {
    NodeGone(nodes0, owners0, part.nodes, part.owners, id);
    IdGone(part.inodeMap, part.nodes.Keys, id);
    hide OwnersAgree, BitmapAgrees, IdsAgree;
    assert (part.nodes - {id}).Keys == part.nodes.Keys - {id};
    assert Slot(part.nodes - {id}, 0, 0) == Slot(part.nodes, 0, 0);
    part.inodeMap := part.inodeMap[id := false];
    part.nodes := part.nodes - {id};
    part.SyncInodeMap(id);
  }

  /** Without inode `id`, the others' tables and records are where they were. */
  lemma OthersOnDisk(s0: seq<Sector>, s1: seq<Sector>, table: nat, nodes: map<nat, Node>, owners: map<nat, Owner>,
                     id: nat)
    requires OwnersAgree(nodes, owners) && TablesIn(s0, nodes, {}) && RecordsIn(s0, table, nodes, {})
    requires SameFrom(s0, s1, table)
    requires forall l :: l in owners ==> table <= l
    ensures TablesIn(s1, nodes - {id}, {}) && RecordsIn(s1, table, nodes - {id}, {})
  {
    TablesFrame(s0, s1, nodes, owners, table, {});
    RecordsFrame(s0, s1, table, nodes, nodes, id, {});
  }

  /** inode_delete clears the record. */
  lemma RecordCleared(s0: seq<Sector>, s1: seq<Sector>, table: nat, start: nat, nodes: map<nat, Node>,
                      owners: map<nat, Owner>, id: nat)
    requires OwnersAgree(nodes, owners) && TablesIn(s0, nodes, {}) && RecordsIn(s0, table, nodes, {}) && id !in nodes
    requires id < 256
    requires table + TABLE_SECTORS <= start <= |s0| && |s1| == |s0| && forall l :: l in owners ==> start <= l
    requires OnlyRecordChanged(s0, s1, table, id, seq(76, _ => 0))
    ensures TablesIn(s1, nodes, {}) && RecordsIn(s1, table, nodes, {}) && SameFrom(s0, s1, start)
  {
    TablesFrame(s0, s1, nodes, owners, start, {});
    forall i | i in nodes
      ensures |nodes[i].slots| == SLOTS && i < 256 && RecordAt(s1, table, i) == Encode(Record(i, nodes[i]))
    {
      TableAfterSync(s0, s1, table, id, seq(76, _ => 0), i);
    }
  }

  /** Giving the blocks back. */
  method ReleaseBlocks(part: Partition, inode: Inode)
    requires part.Valid() && Opened(part, inode) && inode.id != 0
    modifies part`blockMap, part`nodes, part`owners, part.disk
    ensures part.Consistent() && Freed(old(part.nodes), old(part.owners), part.nodes, part.owners, inode.id, MAX_BLOCKS)
    ensures SameFrom(old(part.disk.sectors), part.disk.sectors, part.inodeTableLba)
  {
    hide BitmapAgrees, IdsAgree, TablesIn, RecordsIn, Freed;
    ghost var nodes0, owners0, s0, id := part.nodes, part.owners, part.disk.sectors, inode.id;
    var all, count := CollectAll(part, inode);
    var t := inode.blocks[TABLE_SLOT];
    assert t == nodes0[id].slots[TABLE_SLOT];
    if t != 0 {
      FreeTable(nodes0, owners0, id);
      hide OwnersAgree;
      FreeOwned(part, t, id);
    } else {
      NothingFreed(nodes0, owners0, id);
    }
    hide OwnersAgree;
    FreeBlocksOf(part, all, count, id, nodes0, owners0, s0);
  }

  /** The record of the inode is all zero. */
  ghost predicate RecordGone(part: Partition, id: nat)
    reads part, part.disk
  {
    Reaches(part.disk.sectors, part.inodeTableLba, id) &&
    forall k: nat :: k < 76 ==> RecordByte(part.disk.sectors, part.inodeTableLba, id, k) == 0
  }

  lemma RecordZero(s0: seq<Sector>, s1: seq<Sector>, table: nat, id: nat)
    requires table + TABLE_SECTORS <= |s0| && |s1| == |s0| && id < 256
    requires OnlyRecordChanged(s0, s1, table, id, seq(76, _ => 0))
    ensures forall k: nat :: k < 76 ==> RecordByte(s1, table, id, k) == 0
  {
    TableAfterSync(s0, s1, table, id, seq(76, _ => 0), id);
    forall k: nat | k < 76 ensures RecordByte(s1, table, id, k) == RecordAt(s1, table, id)[k] {}
  }

  /** What inode_release does between its inode_open and its inode_close. */
  method ReleaseOpened(part: Partition, inode: Inode)
    requires part.Valid() && Opened(part, inode) && inode.id != 0
    modifies part`blockMap, part`inodeMap, part`nodes, part`owners, part.disk
    ensures part.Valid() && part.nodes == old(part.nodes) - {inode.id as nat}
    ensures SameFrom(old(part.disk.sectors), part.disk.sectors, part.dataStart)
    ensures OthersKept(old(part.nodes), old(part.disk.sectors), part.nodes, part.disk.sectors, {inode.id as nat})
    ensures RecordGone(part, inode.id)
  {
    hide OwnersAgree, BitmapAgrees, IdsAgree, TablesIn, RecordsIn, OnlyRecordChanged, Freed, BlocksSynced,
      InodesSynced;
    ghost var nodes0, owners0, s0, id := part.nodes, part.owners, part.disk.sectors, inode.id;
    OpenedRecord(part, inode);
    TableBelow(part);
    ReleaseBlocks(part, inode);
    FreeInode(part, inode.id, nodes0, owners0);
    ghost var s1 := part.disk.sectors;
    OthersOnDisk(s0, s1, part.inodeTableLba, nodes0, owners0, id);
    PutRecord(part.disk, part.inodeTableLba, inode.id, seq(76, _ => 0));
    FrontKept(s1, part.disk.sectors, part.inodeTableLba, id, seq(76, _ => 0));
    MapsKept(part, s1);
    RecordZero(s1, part.disk.sectors, part.inodeTableLba, id);
    TableBelow(part);
    RecordCleared(s1, part.disk.sectors, part.inodeTableLba, part.dataStart, part.nodes, part.owners, id);
    KeptData(nodes0, owners0, s0, part.nodes, part.disk.sectors, part.dataStart, {id});
  }

  /** inode_release. The open-inode list is right afterwards exactly when nobody had the inode open;
      else it goes on listing an inode that does not exist. */
  method InodeRelease(part: Partition, cache: Cache, id: nat)
    requires part.Valid() && cache.Valid(part) && id in part.nodes && id != 0
    modifies part`blockMap, part`inodeMap, part`nodes, part`owners, part.disk, cache, cache.list`openCount
    ensures part.Valid() && part.nodes == old(part.nodes) - {id}
    ensures SameFrom(old(part.disk.sectors), part.disk.sectors, part.dataStart)
    ensures OthersKept(old(part.nodes), old(part.disk.sectors), part.nodes, part.disk.sectors, {id})
    ensures RecordGone(part, id)
    ensures cache.ValidBut(part, {id}) && cache.opens == old(cache.opens)
    ensures cache.Valid(part) <==> id !in old(cache.opens)
    ensures cache.list == old(cache.list)
  {
    hide Partition.Consistent, TablesIn, RecordsIn, Counted, Distinct, OpenedIn, Ids, Counts, OthersKept, SameFrom,
      Opening;
    ghost var opens0, nodes0, list0 := cache.opens, part.nodes, cache.list;
    cache.Positive(nodes0, {}, id);
    var inode := cache.Open(part, id, {});
    ReleaseOpened(part, inode);
    cache.Forgets(nodes0, id);
    cache.Reclose(part, inode, opens0, list0, {id});
    cache.ValidIffClosed(part, id);
  }

  lemma TableBelow(part: Partition)
    requires part.Consistent()
    ensures OwnersAgree(part.nodes, part.owners)
    ensures part.inodeTableLba + TABLE_SECTORS <= part.dataStart <= |part.disk.sectors| <= MAX_LBA + 1
    ensures forall l :: l in part.owners ==> part.dataStart <= l
    ensures |part.inodeMap| == BITS_PER_SECTOR
  {
  }
}
