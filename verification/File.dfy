/** fs/c14c_file.c: file_write and file_read. */
module Files {
  import opened Debug
  import opened Bytes
  import opened Bitmaps
  import opened Ide
  import opened Inodes
  import opened Volumes
  import opened OpenInodes
  import opened FileData

  class File {
    var inode: Inode
    var pos: word

    constructor (inode: Inode)
      ensures this.inode == inode && pos == 0
    {
      this.inode := inode;
      pos := 0;
    }
  }

  /** all_blocks lists the blocks of the file from block `from` on. */
  ghost predicate Lists(all: seq<word>, node: Node, from: nat) {
    |all| == MAX_BLOCKS && |node.slots| == SLOTS && forall k :: from <= k < MAX_BLOCKS ==> all[k] == Block(node, k)
  }

  lemma GrownShape(nodes0: map<nat, Node>, owners0: map<nat, Owner>, nodes: map<nat, Node>, owners: map<nat, Owner>,
                   id: nat, has: nat, will: nat)
    requires Growing(nodes0, owners0, nodes, owners, id, has, will) && Shape(nodes0[id], has)
    requires nodes[id].slots[TABLE_SLOT] != 0 <==> will > TABLE_SLOT
    ensures Shape(nodes[id], will)
  {
    forall k | 0 <= k < MAX_BLOCKS ensures Block(nodes[id], k) != 0 <==> k < will {
      assert Block(nodes0[id], k) != 0 <==> k < has;
    }
  }

  /** The tables of all inodes but `id` survive its growing. */
  lemma OtherTables(nodes0: map<nat, Node>, owners0: map<nat, Owner>, nodes: map<nat, Node>, owners: map<nat, Owner>,
                    id: nat, has: nat, idx: nat, s0: seq<Sector>, s1: seq<Sector>, from: nat)
    requires Growing(nodes0, owners0, nodes, owners, id, has, idx) && OwnersAgree(nodes, owners)
    requires TablesIn(s0, nodes0, {}) && SameBut(s0, s1, from, nodes[id].slots[TABLE_SLOT])
    requires forall l :: l in owners ==> from <= l
    ensures TablesIn(s1, nodes, {id})
  {
    forall i | i in nodes && i != id ensures TableReadsBack(s1, nodes[i]) {
      var t := Slot(nodes, i, TABLE_SLOT);
      assert Slot(nodes, id, TABLE_SLOT) == nodes[id].slots[TABLE_SLOT];
      if t != 0 { assert owners[t] == Owner(i, TABLE_SLOT); }
    }
  }

  lemma AllTables(sectors: seq<Sector>, nodes: map<nat, Node>, id: nat)
    requires TablesIn(sectors, nodes, {id})
    requires id in nodes ==> |nodes[id].slots| == SLOTS && TableReadsBack(sectors, nodes[id])
    ensures TablesIn(sectors, nodes, {})
  {
  }

  /** What every way of collecting block addresses must establish: the file has `will` blocks, they
      are listed, everything else is as before. */
  twostate predicate Collected(part: Partition, inode: Inode, all: array<word>, has: nat, will: nat)
    requires 0 < has
    reads part, part.disk, inode, all
  {
    && part.Consistent() && Opened(part, inode) && inode.id == old(inode.id)
    && Growing(old(part.nodes), old(part.owners), part.nodes, part.owners, inode.id, has, will)
    && Shape(part.nodes[inode.id], will)
    && all.Length == MAX_BLOCKS && Lists(all[..], part.nodes[inode.id], has - 1)
    && SameBut(old(part.disk.sectors), part.disk.sectors, part.inodeBitmapLba, part.nodes[inode.id].slots[TABLE_SLOT])
    && part.TablesOnDisk({})
  }

  /** Reading the indirect table behind the 12 direct entries of all_blocks. */
  method LoadTable(part: Partition, inode: Inode, all: array<word>)
    requires part.Consistent() && Opened(part, inode) && part.TablesOnDisk({})
    requires inode.blocks[TABLE_SLOT] != 0 && all.Length == MAX_BLOCKS
    modifies all
    ensures Lists(all[..], part.nodes[inode.id], TABLE_SLOT)
    ensures forall k :: 0 <= k < TABLE_SLOT ==> all[k] == old(all[k])
  {
    ghost var node := part.nodes[inode.id];
    assert TableReadsBack(part.disk.sectors, node);
    var table := part.disk.ReadSector(inode.blocks[TABLE_SLOT]);
    var words := BytesToWords(table);
    forall j | 0 <= j < 128 {
      all[TABLE_SLOT + j] := words[j];
    }
    forall k | TABLE_SLOT <= k < MAX_BLOCKS ensures all[k] == Block(node, k) {
      assert words[k - TABLE_SLOT] == node.slots[13..][k - TABLE_SLOT];
    }
  }

  lemma StoredTable(s0: seq<Sector>, nodes: map<nat, Node>, owners: map<nat, Owner>, id: nat, words: seq<word>)
    requires OwnersAgree(nodes, owners) && TablesIn(s0, nodes, {id})
    requires id in nodes && |words| == 128 && words == nodes[id].slots[13..]
    requires 0 < nodes[id].slots[TABLE_SLOT] < |s0|
    ensures TablesIn(s0[nodes[id].slots[TABLE_SLOT] := WordsToBytes(words)], nodes, {})
  {
    WordsRoundTrip(words);
    assert nodes[id].slots[TABLE_SLOT] == Slot(nodes, id, TABLE_SLOT);
    forall i | i in nodes && i != id
      ensures nodes[i].slots[TABLE_SLOT] != 0 ==> nodes[i].slots[TABLE_SLOT] != nodes[id].slots[TABLE_SLOT]
    {
      assert nodes[i].slots[TABLE_SLOT] == Slot(nodes, i, TABLE_SLOT);
    }
  }

  lemma TableThere(part: Partition, inode: Inode)
    requires part.Agreed() && Opened(part, inode) && inode.blocks[TABLE_SLOT] != 0
    ensures inode.id in part.nodes && |part.nodes[inode.id].slots| == SLOTS && OwnersAgree(part.nodes, part.owners)
    ensures inode.blocks[TABLE_SLOT] == part.nodes[inode.id].slots[TABLE_SLOT]
    ensures part.inodeTableLba < part.dataStart <= inode.blocks[TABLE_SLOT] < |part.disk.sectors| <= MAX_LBA + 1
  {
    assert inode.blocks[TABLE_SLOT] == Slot(part.nodes, inode.id, TABLE_SLOT);
  }

  /** Writing the 128 entries back as the table's sector. */
  method StoreTable(part: Partition, inode: Inode, all: array<word>)
    requires part.Consistent() && Opened(part, inode) && part.TablesOnDisk({inode.id})
    requires inode.blocks[TABLE_SLOT] != 0
    requires all.Length == MAX_BLOCKS && Lists(all[..], part.nodes[inode.id], TABLE_SLOT)
    modifies part.disk
    ensures SameBut(old(part.disk.sectors), part.disk.sectors, 0, inode.blocks[TABLE_SLOT])
    ensures part.TablesOnDisk({}) && part.Consistent()
  {
    hide BlocksSynced, OwnersAgree, BitmapAgrees, IdsAgree, TablesIn;
    ghost var s0 := part.disk.sectors;
    TableThere(part, inode);
    ghost var node := part.nodes[inode.id];
    var t := inode.blocks[TABLE_SLOT];
    var words := all[TABLE_SLOT..];
    forall j | 0 <= j < 128 ensures words[j] == node.slots[13..][j] {
      assert all[..][TABLE_SLOT + j] == Block(node, TABLE_SLOT + j);
    }
    StoredTable(part.disk.sectors, part.nodes, part.owners, inode.id, words);
    part.disk.WriteSector(t, WordsToBytes(words));
    MapsKept(part, s0);
  }

  /** No block is added: the last one, or the table, is all the write needs. */
  method CollectLast(part: Partition, inode: Inode, has: nat, all: array<word>)
    requires part.Consistent() && Opened(part, inode) && part.TablesOnDisk({})
    requires 0 < has && Shape(part.nodes[inode.id], has)
    requires all.Length == MAX_BLOCKS && forall k :: 0 <= k < MAX_BLOCKS ==> all[k] == 0
    modifies all
    ensures Collected(part, inode, all, has, has)
  {
    if has <= 12 {
      all[has - 1] := inode.blocks[has - 1];
    } else {
      LoadTable(part, inode, all);
    }
  }

  /** The state of an allocation loop before block `idx`; the indirect table, when there is one, is
      still to be written. */
  ghost predicate Filling(part: Partition, inode: Inode, all: array<word>, nodes0: map<nat, Node>,
                          owners0: map<nat, Owner>,
                          s0: seq<Sector>, has: nat, idx: nat)
    requires 0 < has
    reads part, part.disk, inode, all
  {
    && part.Consistent() && Opened(part, inode)
    && Growing(nodes0, owners0, part.nodes, part.owners, inode.id, has, idx)
    && Shape(nodes0[inode.id], has)
    && all.Length == MAX_BLOCKS && Lists(all[..], part.nodes[inode.id], if has <= 12 then has - 1 else TABLE_SLOT)
    && SameFrom(s0, part.disk.sectors, part.inodeBitmapLba)
  }

  /** One round of an allocation loop: a direct block goes into the inode as well as into
      all_blocks, an indirect one only into all_blocks. */
  method AddBlock(part: Partition, inode: Inode, all: array<word>, idx: nat,
                  ghost nodes0: map<nat, Node>, ghost owners0: map<nat, Owner>, ghost s0: seq<Sector>, ghost has: nat)
    returns (halted: bool)
    requires 0 < has <= idx < MAX_BLOCKS && Filling(part, inode, all, nodes0, owners0, s0, has, idx)
    modifies part`blockMap, part`nodes, part`owners, part.disk, inode`blocks, all
    ensures halted <==> old(part.FreeBlocks()) == {}
    ensures !halted ==> Filling(part, inode, all, nodes0, owners0, s0, has, idx + 1)
    ensures !halted ==> |inode.blocks| == 13 && inode.blocks[TABLE_SLOT] == old(inode.blocks[TABLE_SLOT])
    ensures !halted ==> |part.FreeBlocks()| == |old(part.FreeBlocks())| - 1
  {
    hide OwnersAgree, BitmapAgrees, IdsAgree, FreeIn, SameFrom, Partition.Geometry;
    ghost var nodes, owners, id, s1 := part.nodes, part.owners, inode.id, part.disk.sectors;
    assert Slot(nodes, id, SlotOf(idx)) == Block(nodes[id], idx) == Block(nodes0[id], idx);
    var lba;
    halted, lba := part.AllocSynced(id, SlotOf(idx));
    if halted {
      return;
    }
    SameFromThen(s0, s1, part.disk.sectors, part.inodeBitmapLba);
    GrowOne(nodes0, owners0, nodes, owners, id, has, idx, lba);
    all[idx] := lba;
    if idx < 12 {
      inode.blocks := inode.blocks[idx := lba];
    }
  }

  /** The allocation loop of the three situations. */
  method AddBlocks(part: Partition, inode: Inode, all: array<word>, will: nat,
                   ghost nodes0: map<nat, Node>, ghost owners0: map<nat, Owner>, ghost s0: seq<Sector>, has: nat)
    returns (halted: bool)
    requires 0 < has <= will <= MAX_BLOCKS && Filling(part, inode, all, nodes0, owners0, s0, has, has)
    requires |inode.blocks| == 13
    modifies part`blockMap, part`nodes, part`owners, part.disk, inode`blocks, all
    ensures halted <==> |old(part.FreeBlocks())| < will - has
    ensures !halted ==> |part.FreeBlocks()| == |old(part.FreeBlocks())| - (will - has)
    ensures !halted ==> Filling(part, inode, all, nodes0, owners0, s0, has, will)
    ensures !halted ==> |inode.blocks| == 13 && inode.blocks[TABLE_SLOT] == old(inode.blocks[TABLE_SLOT])
  {
    hide Filling;
    var idx := has;
    while idx < will
      invariant has <= idx <= will
      invariant Filling(part, inode, all, nodes0, owners0, s0, has, idx)
      invariant |inode.blocks| == 13 && inode.blocks[TABLE_SLOT] == old(inode.blocks[TABLE_SLOT])
      invariant |part.FreeBlocks()| == |old(part.FreeBlocks())| - (idx - has)
    {
      halted := AddBlock(part, inode, all, idx, nodes0, owners0, s0, has);
      if halted {
        return;
      }
      idx := idx + 1;
    }
    halted := false;
  }

  lemma FilledUp(part: Partition, inode: Inode, all: array<word>, nodes0: map<nat, Node>, owners0: map<nat, Owner>,
                 s0: seq<Sector>, has: nat, will: nat)
    requires 0 < has && Filling(part, inode, all, nodes0, owners0, s0, has, will) && TablesIn(s0, nodes0, {})
    requires inode.blocks[TABLE_SLOT] != 0 <==> will > TABLE_SLOT
    ensures Shape(part.nodes[inode.id], will)
    ensures part.TablesOnDisk({inode.id})
    ensures will <= TABLE_SLOT ==> part.TablesOnDisk({})
  {
    GrownShape(nodes0, owners0, part.nodes, part.owners, inode.id, has, will);
    OtherTables(nodes0, owners0, part.nodes, part.owners, inode.id, has, will, s0, part.disk.sectors,
                part.inodeTableLba);
    if will <= TABLE_SLOT {
      EmptyTable(part.nodes[inode.id], will);
      AllTables(part.disk.sectors, part.nodes, inode.id);
    }
  }

  lemma EmptyTable(node: Node, will: nat)
    requires Shape(node, will) && will <= TABLE_SLOT
    ensures node.slots[TABLE_SLOT] == 0 && node.slots[13..] == Cleared(128)
  {
    forall j | 0 <= j < 128 ensures node.slots[13..][j] == 0 {
      assert Block(node, 12 + j) == 0;
    }
  }

  /** Situation 1: the direct blocks suffice. */
  method CollectDirect(part: Partition, inode: Inode, has: nat, will: nat, all: array<word>) returns (halted: bool)
    requires part.Consistent() && Opened(part, inode) && part.TablesOnDisk({})
    requires 0 < has < will <= 12 && Shape(part.nodes[inode.id], has)
    requires all.Length == MAX_BLOCKS && forall k :: 0 <= k < MAX_BLOCKS ==> all[k] == 0
    modifies part`blockMap, part`nodes, part`owners, part.disk, inode`blocks, all
    ensures halted <==> |old(part.FreeBlocks())| < will - has
    ensures !halted ==> |part.FreeBlocks()| == |old(part.FreeBlocks())| - (will - has)
    ensures !halted ==> Collected(part, inode, all, has, will)
  {
    hide OwnersAgree, BitmapAgrees, TablesIn;
    ghost var nodes0, owners0, s0 := part.nodes, part.owners, part.disk.sectors;
    all[has - 1] := inode.blocks[has - 1];
    halted := AddBlocks(part, inode, all, will, nodes0, owners0, s0, has);
    if !halted {
      FilledUp(part, inode, all, nodes0, owners0, s0, has, will);
    }
  }

  /** Situation 2: the direct blocks run out; the table is allocated first and written last. */
  method CollectCrossing(part: Partition, inode: Inode, has: nat, will: nat, all: array<word>) returns (halted: bool)
    requires part.Consistent() && Opened(part, inode) && part.TablesOnDisk({})
    requires 0 < has <= 12 < will <= MAX_BLOCKS && Shape(part.nodes[inode.id], has)
    requires all.Length == MAX_BLOCKS && forall k :: 0 <= k < MAX_BLOCKS ==> all[k] == 0
    modifies part`blockMap, part`nodes, part`owners, part.disk, inode`blocks, all
    ensures halted <==> |old(part.FreeBlocks())| < 1 + will - has
    ensures !halted ==> |part.FreeBlocks()| == |old(part.FreeBlocks())| - (1 + will - has)
    ensures !halted ==> Collected(part, inode, all, has, will)
  {
    hide OwnersAgree, BitmapAgrees, TablesIn, FreeIn, BlocksSynced, IdsAgree, Partition.Agreed;
    ghost var nodes0, owners0, s0 := part.nodes, part.owners, part.disk.sectors;
    all[has - 1] := inode.blocks[has - 1];
    var lba;
    halted, lba := part.AllocBlock(inode.id, TABLE_SLOT);
    if halted {
      return;
    }
    GrowTable(nodes0, owners0, nodes0, owners0, inode.id, has, has, lba);
    inode.blocks := inode.blocks[TABLE_SLOT := lba];
    halted := AddBlocks(part, inode, all, will, nodes0, owners0, s0, has);
    if !halted {
      FilledUp(part, inode, all, nodes0, owners0, s0, has, will);
      StoreTable(part, inode, all);
    }
  }

  /** Situation 3: the file already uses its table. */
  method CollectIndirect(part: Partition, inode: Inode, has: nat, will: nat, all: array<word>) returns (halted: bool)
    requires part.Consistent() && Opened(part, inode) && part.TablesOnDisk({})
    requires 12 < has < will <= MAX_BLOCKS && Shape(part.nodes[inode.id], has)
    requires all.Length == MAX_BLOCKS && forall k :: 0 <= k < MAX_BLOCKS ==> all[k] == 0
    modifies part`blockMap, part`nodes, part`owners, part.disk, inode`blocks, all
    ensures halted <==> |old(part.FreeBlocks())| < will - has
    ensures !halted ==> |part.FreeBlocks()| == |old(part.FreeBlocks())| - (will - has)
    ensures !halted ==> Collected(part, inode, all, has, will)
  {
    hide OwnersAgree, BitmapAgrees, TablesIn;
    ghost var nodes0, owners0, s0 := part.nodes, part.owners, part.disk.sectors;
    LoadTable(part, inode, all);
    halted := AddBlocks(part, inode, all, will, nodes0, owners0, s0, has);
    if !halted {
      FilledUp(part, inode, all, nodes0, owners0, s0, has, will);
      StoreTable(part, inode, all);
    }
  }
}
