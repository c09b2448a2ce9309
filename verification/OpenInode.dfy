/** Inodes that are open: what they show of the volume, and writing them back to the inode table. */
module OpenInodes {
  import opened Bytes
  import opened Ide
  import opened BitSectors
  import opened Inodes
  import opened Volumes

  /** The inode in memory shows the current fields of its inode. */
  ghost predicate OpenedIn(nodes: map<nat, Node>, inode: Inode)
    reads inode`id, inode`size, inode`blocks
  {
    && inode.id in nodes && |nodes[inode.id].slots| == SLOTS
    && inode.size == nodes[inode.id].size && inode.blocks == nodes[inode.id].slots[..13]
  }

  ghost predicate Opened(part: Partition, inode: Inode)
    reads part, inode`id, inode`size, inode`blocks
  {
    OpenedIn(part.nodes, inode)
  }

  lemma OpenedIsAllocated(part: Partition, inode: Inode)
    requires Opened(part, inode)
    ensures inode.id in part.nodes && |part.nodes[inode.id].slots| == SLOTS && part.nodes[inode.id].size == inode.size
    ensures |inode.blocks| == 13 && inode.blocks[0] == part.nodes[inode.id].slots[0]
  {
  }

  lemma OwnedBlocks(part: Partition)
    requires part.Consistent()
    ensures forall l :: l in part.owners ==> part.dataStart <= l
    ensures 0 < part.inodeBitmapLba < part.inodeTableLba <= part.dataStart
  {
  }

  /** No record but that of `id` is touched when the sectors of the inode table keep their bytes. */
  lemma RecordsFrame(s0: seq<Sector>, s1: seq<Sector>, table: nat, nodes0: map<nat, Node>, nodes1: map<nat, Node>,
                     id: nat,
                     stale: set<nat>)
    requires RecordsIn(s0, table, nodes0, stale) && nodes1.Keys == nodes0.Keys && |s1| == |s0|
    requires forall i :: i in nodes0 && i != id ==> nodes1[i] == nodes0[i]
    requires forall l :: table <= l < table + TABLE_SECTORS && l < |s0| ==> s1[l] == s0[l]
    ensures RecordsIn(s1, table, nodes1, stale + {id})
  {
    forall i | i in nodes1 && i != id && i !in stale
      ensures RecordAt(s1, table, i) == Encode(Record(i, nodes1[i]))
    {
      assert RecordAt(s0, table, i) == Encode(Record(i, nodes0[i]));
      forall k: nat | k < 76 ensures RecordByte(s1, table, i, k) == RecordByte(s0, table, i, k) {}
    }
  }

  lemma RecordsSynced(s0: seq<Sector>, s1: seq<Sector>, table: nat, nodes: map<nat, Node>, id: nat, stale: set<nat>)
    requires RecordsIn(s0, table, nodes, stale + {id}) && id in nodes && id < 256 && |nodes[id].slots| == SLOTS
    requires table + TABLE_SECTORS <= |s0| && |s1| == |s0|
    requires OnlyRecordChanged(s0, s1, table, id, Encode(Record(id, nodes[id])))
    ensures RecordsIn(s1, table, nodes, stale - {id})
  {
    forall i | i in nodes && i !in stale - {id}
      ensures |nodes[i].slots| == SLOTS && i < 256 && RecordAt(s1, table, i) == Encode(Record(i, nodes[i]))
    {
      TableAfterSync(s0, s1, table, id, Encode(Record(id, nodes[id])), i);
    }
  }

  lemma TablesFrame(s0: seq<Sector>, s1: seq<Sector>, nodes: map<nat, Node>, owners: map<nat, Owner>, start: nat,
                    stale: set<nat>)
    requires TablesIn(s0, nodes, stale) && OwnersAgree(nodes, owners) && SameFrom(s0, s1, start)
    requires forall l :: l in owners ==> start <= l
    ensures TablesIn(s1, nodes, stale)
  {
    forall i | i in nodes && i !in stale ensures TableReadsBack(s1, nodes[i]) {
      assert Slot(nodes, i, TABLE_SLOT) == nodes[i].slots[TABLE_SLOT];
    }
  }

  lemma SyncedAgain(s0: seq<Sector>, s1: seq<Sector>, table: nat, start: nat, nodes: map<nat, Node>,
                    owners: map<nat, Owner>,
                    id: nat, stale: set<nat>)
    requires RecordsIn(s0, table, nodes, stale + {id}) && id in nodes && id < 256 && |nodes[id].slots| == SLOTS
    requires TablesIn(s0, nodes, {}) && OwnersAgree(nodes, owners) && forall l :: l in owners ==> start <= l
    requires table + TABLE_SECTORS <= start <= |s0| && |s1| == |s0|
    requires OnlyRecordChanged(s0, s1, table, id, Encode(Record(id, nodes[id])))
    ensures RecordsIn(s1, table, nodes, stale - {id}) && TablesIn(s1, nodes, {}) && SameFrom(s0, s1, start)
  {
    hide OwnersAgree, TablesIn, RecordsIn, Encode, Record, Slot;
    RecordsSynced(s0, s1, table, nodes, id, stale);
    TablesFrame(s0, s1, nodes, owners, start, {});
  }

  lemma OpenedRecord(part: Partition, inode: Inode)
    requires part.Consistent() && Opened(part, inode)
    ensures inode.id < 256 && inode.id in part.nodes && |part.nodes[inode.id].slots| == SLOTS && |inode.blocks| == 13
    ensures Record(inode.id, part.nodes[inode.id]) == inode.Persistent()
    ensures OwnersAgree(part.nodes, part.owners) && forall l :: l in part.owners ==> part.dataStart <= l
    ensures part.inodeTableLba + TABLE_SECTORS <= part.dataStart <= |part.disk.sectors| <= MAX_LBA + 1
  {
  }

  lemma FrontKept(s0: seq<Sector>, s1: seq<Sector>, table: nat, id: nat, record: seq<byte>)
    requires table + TABLE_SECTORS <= |s0| && |s1| == |s0| && id < 256 && |record| == 76
    requires OnlyRecordChanged(s0, s1, table, id, record)
    ensures forall l :: 0 <= l < table ==> s1[l] == s0[l]
  {
  }

  /** The bitmaps on the disk when nothing in front of the inode table was written. */
  lemma MapsKept(part: Partition, s0: seq<Sector>)
    requires part.Agreed() && |part.disk.sectors| == |s0|
    requires forall l :: 0 <= l < part.inodeTableLba && l < |s0| ==> part.disk.sectors[l] == s0[l]
    ensures BlocksSynced(s0, part.blockBitmapLba, part.blockMap, part.owners, part.dataStart) ==> part.Consistent()
    ensures InodesSynced(s0, part.inodeBitmapLba, part.inodeMap) ==> part.InodesOnDisk()
  {
    hide OwnersAgree, BitmapAgrees, IdsAgree, BlocksSynced, Unpacked;
    if BlocksSynced(s0, part.blockBitmapLba, part.blockMap, part.owners, part.dataStart) {
      BitmapKept(s0, part.disk.sectors, part.blockBitmapLba, part.inodeBitmapLba - part.blockBitmapLba, part.blockMap,
                 part.owners, part.dataStart);
    }
  }

  lemma InodesKept(part: Partition, s0: seq<Sector>)
    requires InodesSynced(s0, part.inodeBitmapLba, part.inodeMap) && |part.disk.sectors| == |s0|
    requires part.inodeBitmapLba < |s0| ==> part.disk.sectors[part.inodeBitmapLba] == s0[part.inodeBitmapLba]
    ensures part.InodesOnDisk()
  {
  }

  /** Writing a sector of the data area. */
  method WriteBlock(part: Partition, lba: word, sector: Sector)
    requires part.Consistent() && part.dataStart <= lba < |part.disk.sectors|
    modifies part.disk
    ensures part.Consistent() && part.disk.sectors == old(part.disk.sectors)[lba := sector]
    ensures old(part.InodesOnDisk()) ==> part.InodesOnDisk()
  {
    hide OwnersAgree, BitmapAgrees, IdsAgree, BlocksSynced, InodesSynced;
    ghost var s0 := part.disk.sectors;
    part.disk.WriteSector(lba, sector);
    MapsKept(part, s0);
  }

  /** inode_sync of an open inode makes the disk agree with that inode again. */
  method SyncInode(part: Partition, inode: Inode, ghost stale: set<nat>)
    requires part.Consistent() && Opened(part, inode) && part.TablesOnDisk({}) && part.RecordsOnDisk(stale + {inode.id})
    modifies part.disk
    ensures part.Consistent() && part.TablesOnDisk({}) && part.RecordsOnDisk(stale - {inode.id})
    ensures SameFrom(old(part.disk.sectors), part.disk.sectors, part.dataStart)
    ensures old(part.InodesOnDisk()) ==> part.InodesOnDisk()
  {
    hide OwnersAgree, BitmapAgrees, IdsAgree, TablesIn, RecordsIn, OnlyRecordChanged, Encode, Record, Opened,
      SameFrom, BlocksSynced, InodesSynced;
    ghost var s0 := part.disk.sectors;
    OpenedRecord(part, inode);
    Sync(part.disk, part.inodeTableLba, inode);
    SyncedAgain(s0, part.disk.sectors, part.inodeTableLba, part.dataStart, part.nodes, part.owners, inode.id, stale);
    FrontKept(s0, part.disk.sectors, part.inodeTableLba, inode.id, Encode(inode.Persistent()));
    MapsKept(part, s0);
  }
}
