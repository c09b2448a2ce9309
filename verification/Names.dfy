/** fs/c14c_file.c and fs/c14a_fs.c: creating and removing files and directories. */
module Names {
  import opened Debug
  import opened Bytes
  import opened Bitmaps
  import opened Ide
  import opened Inodes
  import opened Volumes
  import opened OpenInodes
  import opened FileData
  import opened Files
  import opened DirData
  import opened Dirs
  import opened Release
  import opened Caches

  /** An inode as inode_init leaves it. */
  function EmptyNode(): Node {
    Node(0, Cleared(SLOTS))
  }

  /** Some inode number below 256 is free. */
  ghost predicate IdLeft(inodeMap: seq<bool>) {
    exists i :: 0 <= i < 256 && i < |inodeMap| && !inodeMap[i]
  }

  lemma IdTaken(inodeMap: seq<bool>, ids: set<nat>, id: nat)
    requires IdsAgree(inodeMap, ids) && id < |inodeMap| && !inodeMap[id] && id < 256
    ensures id !in ids && IdsAgree(inodeMap[id := true], ids + {id})
  {
  }

  /** A new inode owns nothing and has no table. */
  lemma NodeNew(sectors: seq<Sector>, table: nat, nodes: map<nat, Node>, owners: map<nat, Owner>, id: nat)
    requires OwnersAgree(nodes, owners) && TablesIn(sectors, nodes, {}) && RecordsIn(sectors, table, nodes, {})
    requires id !in nodes
    ensures OwnersAgree(nodes[id := EmptyNode()], owners) && TablesIn(sectors, nodes[id := EmptyNode()], {})
    ensures RecordsIn(sectors, table, nodes[id := EmptyNode()], {id})
  {
    var after := nodes[id := EmptyNode()];
    assert EmptyNode().slots[13..] == Cleared(128);
    forall i, s ensures Slot(after, i, s) == Slot(nodes, i, s) {}
  }

  lemma IdLeftFirst(inodeMap: seq<bool>)
    ensures IdLeft(inodeMap) <==> FirstClear(inodeMap, 0) < |inodeMap| && FirstClear(inodeMap, 0) < 256
  {
    if IdLeft(inodeMap) {
      var i :| 0 <= i < 256 && i < |inodeMap| && !inodeMap[i];
      assert FirstClear(inodeMap, 0) <= i;
    }
  }

  /** inode_bitmap_alloc and inode_init. With no bit clear the scan's ASSERT stops the kernel. A number that
      inode_sync cannot write leaves the model's invariant. */
  method AllocInode(part: Partition) returns (halted: bool, id: nat)
    requires part.Valid()
    modifies part`inodeMap, part`nodes
    ensures id == FirstClear(old(part.inodeMap), 0) && (halted <==> id == |old(part.inodeMap)|)
    ensures halted ==> unchanged(part)
    ensures !halted ==> part.inodeMap == old(part.inodeMap)[id := true]
    ensures !halted ==> part.nodes == old(part.nodes)[id := EmptyNode()]
    ensures !halted && id < 256 ==>
      part.Consistent() && part.TablesOnDisk({}) && part.RecordsOnDisk({id}) && id !in old(part.nodes)
    ensures IdLeft(old(part.inodeMap)) <==> !halted && id < 256
  {
    hide OwnersAgree, BitmapAgrees, IdsAgree, TablesIn, RecordsIn, EmptyNode, IdLeft;
    IdLeftFirst(part.inodeMap);
    id := FirstClear(part.inodeMap, 0);
    halted := id == |part.inodeMap|;
    if halted {
      return;
    }
    if id < 256 {
      IdTaken(part.inodeMap, part.nodes.Keys, id);
      NodeNew(part.disk.sectors, part.inodeTableLba, part.nodes, part.owners, id);
      assert (part.nodes[id := EmptyNode()]).Keys == part.nodes.Keys + {id};
      RootIsIn(part, id);
    }
    part.inodeMap := part.inodeMap[id := true];
    part.nodes := part.nodes[id := EmptyNode()];
  }

  lemma RootIsIn(part: Partition, id: nat)
    requires part.Consistent() && id !in part.nodes
    ensures id != 0 && Slot(part.nodes[id := EmptyNode()], 0, 0) == Slot(part.nodes, 0, 0)
  {
  }

  /** The directory's inodes are allocated, so a new inode number is new to it. */
  ghost predicate Allocated(nodes: map<nat, Node>, entries: Entries) {
    forall p :: p in entries ==> entries[p].id in nodes
  }

  /** A directory whose open inode is at hand, in order by itself. */
  ghost predicate InPlace(part: Partition, dir: Inode, entries: Entries, parent: word)
    reads part, part.disk, dir`id, dir`size, dir`blocks
  {
    Showing(part, dir, entries) && DirOk(part.nodes[dir.id], entries, dir.id, parent)
  }

  lemma InPlaceParts(part: Partition, dir: Inode, entries: Entries, parent: word)
    requires InPlace(part, dir, entries, parent)
    ensures dir.id in part.nodes && Showing(part, dir, entries) && DirOk(part.nodes[dir.id], entries, dir.id, parent)
  {
    hide Partition.Consistent, Shows, DirOk;
  }

  /** A directory in order whose open inode is at hand. */
  ghost predicate DirReady(part: Partition, dir: Inode, entries: Entries, parent: word)
    reads part, part.disk, dir`id, dir`size, dir`blocks
  {
    && Showing(part, dir, entries) && DirOk(part.nodes[dir.id], entries, dir.id, parent)
    && Allocated(part.nodes, entries)
  }

  /** Directory `d` has one entry more, at `p`, perhaps in a new block. */
  ghost predicate DirPlus(nodes0: map<nat, Node>, nodes: map<nat, Node>, d: nat, p: (nat, nat)) {
    && d in nodes0 && d in nodes && p.0 < 12 && |nodes0[d].slots| == |nodes[d].slots| == SLOTS
    && nodes[d].size == nodes0[d].size + ENTRY && Block(nodes[d], p.0) != 0
    && nodes[d].slots == (if Block(nodes0[d], p.0) != 0 then nodes0[d].slots
                          else nodes0[d].slots[p.0 := Block(nodes[d], p.0)])
  }

  /** What file_create and sys_mkdir leave besides the new inode `id`. */
  ghost predicate Created(part: Partition, dir: Inode, nodes0: map<nat, Node>, s0: seq<Sector>, entries: Entries,
                          parent: word,
                          p: (nat, nat), e: Entry)
    reads part, part.disk, dir`id, dir`size, dir`blocks
  {
    && part.Valid() && p !in entries && DirReady(part, dir, entries[p := e], parent)
    && e.id as nat !in nodes0 && part.nodes.Keys == nodes0.Keys + {e.id as nat}
    && DirPlus(nodes0, part.nodes, dir.id, p)
    && OthersKept(nodes0, s0, part.nodes, part.disk.sectors, {dir.id as nat})
  }

  /** An entry more in a directory leaves everybody else's sectors alone. */
  lemma AddedKeeps(part: Partition, dir: Inode, nodes0: map<nat, Node>, owners0: map<nat, Owner>, s0: seq<Sector>,
                   entries: Entries, p: (nat, nat), e: Entry, stale: set<nat>)
    requires Added(part, dir, nodes0, owners0, s0, entries, p, e, stale) && OwnersAgree(nodes0, owners0)
    requires forall l :: l in owners0 ==> part.inodeBitmapLba <= l
    ensures OthersKept(nodes0, s0, part.nodes, part.disk.sectors, {dir.id as nat})
  {
    hide Showing, TablesIn, RecordsIn, Shows;
    var lba := Block(part.nodes[dir.id], p.0);
    if Block(nodes0[dir.id], p.0) != 0 {
      assert Slot(nodes0, dir.id, p.0) == lba;
    }
    KeptBut(nodes0, owners0, s0, part.nodes, part.disk.sectors, part.inodeBitmapLba, lba, dir.id);
  }

  lemma DirStaysReady(part: Partition, dir: Inode, nodes0: map<nat, Node>, entries: Entries, parent: word,
                      p: (nat, nat), e: Entry,
                      owners0: map<nat, Owner>, s0: seq<Sector>, stale: set<nat>)
    requires Added(part, dir, nodes0, owners0, s0, entries, p, e, stale) && dir.id in nodes0
    requires DirOk(nodes0[dir.id], entries, dir.id, parent)
    requires forall q :: q in entries ==> entries[q].id in nodes0 && entries[q].id != e.id
    requires ValidName(e.name) && !HasName(entries, e.name) && e.kind != 0 && e.id in nodes0
    ensures DirReady(part, dir, entries[p := e], parent) && DirPlus(nodes0, part.nodes, dir.id, p)
  {
    hide ValidName, HasName, Unique, NoEmptyBlock, ShowsBlock, Partition.Consistent, TablesIn, RecordsIn;
    assert p in entries[p := e];
    EntryAdded(nodes0[dir.id], entries, dir.id, parent, p, e, part.nodes[dir.id]);
  }

  lemma ValidIsWritable(name: seq<byte>, id: word, kind: word)
    requires ValidName(name) && kind != 0
    ensures Writable(Entry(name, id, kind))
  {
    EntryRoundTrip(Entry(name, id, kind));
  }

  /** The directory's inode, the new inode and the inode bitmap go to the disk. */
  method SyncCreated(part: Partition, dir: Inode, inode: Inode, ghost entries: Entries)
    requires Showing(part, dir, entries) && part.TablesOnDisk({}) && Opened(part, inode) && inode.id != dir.id
    requires part.RecordsOnDisk({inode.id as nat, dir.id as nat})
    modifies part.disk
    ensures part.Valid() && Showing(part, dir, entries)
    ensures SameFrom(old(part.disk.sectors), part.disk.sectors, part.dataStart)
  {
    hide Partition.Consistent, OwnersAgree, TablesIn, RecordsIn, Opened, Shows, ShowsBlock;
    ghost var s0, none: set<nat> := part.disk.sectors, {};
    OpenedRecord(part, dir);
    OpenedRecord(part, inode);
    assert {inode.id as nat, dir.id as nat} == {inode.id as nat} + {dir.id as nat};
    SyncInode(part, dir, {inode.id as nat});
    assert {inode.id as nat} - {dir.id as nat} == none + {inode.id as nat};
    SyncInode(part, inode, none);
    assert none - {inode.id as nat} == none;
    IdInMap(part, inode.id);
    OpenedRecord(part, inode);
    ghost var s1 := part.disk.sectors;
    TableBeforeData(part);
    DirBlocksFrame(s0, s1, part.nodes, part.owners, dir.id, entries, part.dataStart);
    part.SyncInodeMap(inode.id);
    BitmapWritten(s1, part.disk.sectors, part.inodeTableLba, part.nodes, part.owners, dir.id, entries);
  }

  /** Writing a bitmap sector changes nothing that is read through an inode. */
  lemma BitmapWritten(s0: seq<Sector>, s1: seq<Sector>, table: nat, nodes: map<nat, Node>, owners: map<nat, Owner>,
                      d: nat, entries: Entries)
    requires OwnersAgree(nodes, owners) && SameFrom(s0, s1, table) && forall l :: l in owners ==> table <= l
    requires TablesIn(s0, nodes, {}) && RecordsIn(s0, table, nodes, {}) && d in nodes && Shows(s0, nodes[d], entries)
    ensures TablesIn(s1, nodes, {}) && RecordsIn(s1, table, nodes, {}) && Shows(s1, nodes[d], entries)
  {
    hide Shows;
    TablesFrame(s0, s1, nodes, owners, table, {});
    DirBlocksFrame(s0, s1, nodes, owners, d, entries, table);
    forall i | i in nodes ensures RecordAt(s1, table, i) == Encode(Record(i, nodes[i])) {
      assert RecordAt(s0, table, i) == Encode(Record(i, nodes[i]));
      forall k: nat | k < 76 ensures RecordByte(s1, table, i, k) == RecordByte(s0, table, i, k) {}
    }
  }

  lemma IdInMap(part: Partition, id: nat)
    requires part.Consistent() && id < 256
    ensures part.Geometry() && id < |part.inodeMap|
  {
  }

  /** The entry and the inodes of a new file, up to the push. */
  method EnterFile(part: Partition, dir: Inode, inode: Inode, name: seq<byte>, ghost entries: Entries,
                   ghost parent: word)
    returns (halted: bool, ghost p: (nat, nat))
    requires part.Consistent() && part.TablesOnDisk({}) && part.RecordsOnDisk({inode.id as nat}) && Opened(part, inode)
    requires Showing(part, dir, entries) && inode.id != dir.id && DirOk(part.nodes[dir.id], entries, dir.id, parent)
    requires forall q :: q in entries ==> entries[q].id in part.nodes && entries[q].id != inode.id
    requires ValidName(name) && !HasName(entries, name) && HasRoom(entries)
    modifies part.disk, part`nodes, part`owners, part`blockMap, dir`size, dir`blocks
    ensures dir.id in old(part.nodes) && |old(part.nodes)[dir.id].slots| == SLOTS
    ensures halted <==> old(part.FreeBlocks()) == {} && NeedsBlock(old(part.nodes)[dir.id], entries)
    ensures !halted ==> |part.FreeBlocks()| == |old(part.FreeBlocks())| - Extra(old(part.nodes)[dir.id], entries)
    ensures !halted ==> part.Valid() && p !in entries
    ensures !halted ==> DirReady(part, dir, entries[p := Entry(name, inode.id, REGULAR)], parent)
    ensures !halted ==> part.nodes.Keys == old(part.nodes).Keys && DirPlus(old(part.nodes), part.nodes, dir.id, p)
    ensures !halted ==>
      OthersKept(old(part.nodes), old(part.disk.sectors), part.nodes, part.disk.sectors, {dir.id as nat})
    ensures !halted ==> Opened(part, inode) && part.nodes[inode.id] == old(part.nodes)[inode.id]
  {
    hide Partition.Consistent, OwnersAgree, TablesIn, RecordsIn, ValidName, HasName, HasRoom, Shows, Added, DirOk,
      FreeIn, Writable, NeedsBlock, OthersKept;
    var e := Entry(name, inode.id, REGULAR);
    ValidIsWritable(name, inode.id, REGULAR);
    DirFits(part.nodes[dir.id], entries, dir, parent);
    OpenedRecord(part, dir);
    TableBeforeData(part);
    ghost var nodes0, owners0, s0 := part.nodes, part.owners, part.disk.sectors;
    halted, p := SyncDirEntry(part, dir, e, entries, {inode.id as nat});
    if halted {
      return;
    }
    ghost var nodes1, s1 := part.nodes, part.disk.sectors;
    AddedKeeps(part, dir, nodes0, owners0, s0, entries, p, e, {inode.id as nat});
    DirStaysReady(part, dir, nodes0, entries, parent, p, e, owners0, s0, {inode.id as nat});
    AddedLeaves(part, dir, nodes0, owners0, s0, entries, p, e, {inode.id as nat});
    assert {inode.id as nat} + {dir.id as nat} == {inode.id as nat, dir.id as nat};
    SyncCreated(part, dir, inode, entries[p := e]);
    SyncedKept(part, nodes0, s0, s1, dir.id);
  }

  lemma SyncedKept(part: Partition, nodes0: map<nat, Node>, s0: seq<Sector>, s1: seq<Sector>, d: nat)
    requires part.Consistent() && SameFrom(s1, part.disk.sectors, part.dataStart)
    requires OthersKept(nodes0, s0, part.nodes, s1, {d})
    ensures OthersKept(nodes0, s0, part.nodes, part.disk.sectors, {d})
  {
    hide OthersKept;
    var none: set<nat> := {};
    KeptData(part.nodes, part.owners, s1, part.nodes, part.disk.sectors, part.dataStart, none);
    KeptThen(nodes0, s0, part.nodes, s1, part.nodes, part.disk.sectors, {d}, none);
    assert {d} + none == {d};
  }

  lemma KeptNew(nodes0: map<nat, Node>, nodes1: map<nat, Node>, s0: seq<Sector>, nodes2: map<nat, Node>,
                s1: seq<Sector>, id: nat, d: nat)
    requires id !in nodes0 && nodes1 == nodes0[id := EmptyNode()] && OthersKept(nodes1, s0, nodes2, s1, {d})
    ensures OthersKept(nodes0, s0, nodes2, s1, {d})
  {
    forall i, s | i != d && Slot(nodes0, i, s) != 0 && Slot(nodes0, i, s) < |s0|
      ensures s1[Slot(nodes0, i, s)] == s0[Slot(nodes0, i, s)]
    {
      assert Slot(nodes1, i, s) == Slot(nodes0, i, s);
    }
  }

  lemma PlusFromNew(nodes0: map<nat, Node>, nodes1: map<nat, Node>, nodes2: map<nat, Node>, id: nat, d: nat,
                    p: (nat, nat))
    requires id !in nodes0 && d in nodes0 && nodes1 == nodes0[id := EmptyNode()] && DirPlus(nodes1, nodes2, d, p)
    ensures DirPlus(nodes0, nodes2, d, p)
  {
  }

  /** file_create up to the push. */
  method CreateUnlisted(part: Partition, dir: Inode, name: seq<byte>, ghost entries: Entries, ghost parent: word)
    returns (halted: bool, file: File, ghost p: (nat, nat))
    requires part.Valid() && DirReady(part, dir, entries, parent) && ValidName(name) && !HasName(entries, name)
    requires HasRoom(entries) && IdLeft(part.inodeMap)
    modifies part, part.disk, dir`size, dir`blocks
    ensures dir.id in old(part.nodes) && |old(part.nodes)[dir.id].slots| == SLOTS
    ensures halted <==> old(part.FreeBlocks()) == {} && NeedsBlock(old(part.nodes)[dir.id], entries)
    ensures !halted ==> |part.FreeBlocks()| == |old(part.FreeBlocks())| - Extra(old(part.nodes)[dir.id], entries)
    ensures fresh(file) && fresh(file.inode) && file.pos == 0
    ensures file.inode.id as nat == FirstClear(old(part.inodeMap), 0)
    ensures !halted ==>
      Created(part, dir, old(part.nodes), old(part.disk.sectors), entries, parent, p,
              Entry(name, file.inode.id, REGULAR))
    ensures !halted ==> Opened(part, file.inode) && part.nodes[file.inode.id] == EmptyNode()
  {
    hide Partition.Consistent, OwnersAgree, TablesIn, RecordsIn, ValidName, HasName, HasRoom, Shows, DirOk, DirPlus,
      EmptyNode, FreeIn, NeedsBlock, OthersKept;
    ghost var nodes0, s0 := part.nodes, part.disk.sectors;
    OpenedRecord(part, dir);
    var none, id := AllocInode(part);
    var inode := new Inode(id);
    file := new File(inode);
    NewIsOpen(part, inode);
    ghost var nodes1 := part.nodes;
    halted, p := EnterFile(part, dir, inode, name, entries, parent);
    if !halted {
      KeptNew(nodes0, nodes1, s0, part.nodes, part.disk.sectors, id, dir.id);
      PlusFromNew(nodes0, nodes1, part.nodes, id, dir.id, p);
    }
  }

  lemma CreatedKeeps(part: Partition, dir: Inode, nodes0: map<nat, Node>, s0: seq<Sector>, entries: Entries,
                     parent: word,
                     p: (nat, nat), e: Entry)
    requires Created(part, dir, nodes0, s0, entries, parent, p, e)
    ensures e.id as nat !in nodes0 && OpenedIn(part.nodes, dir)
    ensures forall i :: i in nodes0 && i != dir.id ==> i in part.nodes && part.nodes[i] == nodes0[i]
  {
    hide Partition.Consistent, TablesIn, RecordsIn, DirOk, Shows;
  }

  /** file_create: a new inode, an entry for it in the directory, everything on the disk, and the inode at
      the front of the open-inode list. */
  method FileCreate(part: Partition, cache: Cache, dir: Inode, name: seq<byte>, ghost entries: Entries,
                    ghost parent: word)
    returns (halted: bool, file: File, ghost p: (nat, nat))
    requires part.Valid() && cache.Valid(part) && dir in cache.list
    requires DirReady(part, dir, entries, parent) && ValidName(name) && !HasName(entries, name)
    requires HasRoom(entries) && IdLeft(part.inodeMap)
    modifies part, part.disk, dir`size, dir`blocks, cache
    ensures dir.id in old(part.nodes) && |old(part.nodes)[dir.id].slots| == SLOTS
    ensures halted <==> old(part.FreeBlocks()) == {} && NeedsBlock(old(part.nodes)[dir.id], entries)
    ensures !halted ==> |part.FreeBlocks()| == |old(part.FreeBlocks())| - Extra(old(part.nodes)[dir.id], entries)
    ensures fresh(file) && fresh(file.inode) && file.pos == 0
    ensures file.inode.id as nat == FirstClear(old(part.inodeMap), 0)
    ensures !halted ==>
      Created(part, dir, old(part.nodes), old(part.disk.sectors), entries, parent, p,
              Entry(name, file.inode.id, REGULAR))
    ensures !halted ==> Opened(part, file.inode) && part.nodes[file.inode.id] == EmptyNode()
    ensures !halted ==> cache.Valid(part) && cache.opens == Opening(old(cache.opens), file.inode.id)
    ensures !halted ==> cache.list == [file.inode] + old(cache.list)
  {
    hide Partition.Valid, ValidName, HasName, HasRoom, FreeIn, NeedsBlock, Distinct, Counted, Ids, Counts, Opening,
      OpenedIn, Created, EmptyNode, DirReady, Extra;
    ghost var nodes0, s0, ids, counts := part.nodes, part.disk.sectors, Ids(cache.list), Counts(cache.list);
    halted, file, p := CreateUnlisted(part, dir, name, entries, parent);
    if halted {
      return;
    }
    CreatedKeeps(part, dir, nodes0, s0, entries, parent, p, Entry(name, file.inode.id, REGULAR));
    cache.Follows(nodes0, part.nodes, dir, ids, counts, {});
    NumberUnlisted(cache, nodes0, file.inode.id, dir);
    file.inode.openCount := 1;
    cache.Push(part, file.inode, {});
  }

  lemma NumberUnlisted(cache: Cache, nodes0: map<nat, Node>, id: nat, dir: Inode)
    requires id !in nodes0 && dir.id in nodes0
    requires forall x :: x in cache.list && x != dir ==> OpenedIn(nodes0, x)
    ensures forall j :: 0 <= j < |cache.list| ==> cache.list[j].id != id
  {
    forall j | 0 <= j < |cache.list| ensures cache.list[j].id != id {
      assert cache.list[j] in cache.list;
    }
  }

  lemma OthersSame(nodes0: map<nat, Node>, s0: seq<Sector>, nodes: map<nat, Node>, s1: seq<Sector>, d: nat)
    requires OthersKept(nodes0, s0, nodes, s1, {d})
    ensures forall i :: i in nodes0 && i != d ==> i in nodes && nodes[i] == nodes0[i]
  {
  }

  lemma AddedLeaves(part: Partition, dir: Inode, nodes0: map<nat, Node>, owners0: map<nat, Owner>, s0: seq<Sector>,
                    entries: Entries, p: (nat, nat), e: Entry, stale: set<nat>)
    requires Added(part, dir, nodes0, owners0, s0, entries, p, e, stale)
    ensures part.TablesOnDisk({}) && part.RecordsOnDisk(stale + {dir.id as nat}) && p !in entries
    ensures part.nodes.Keys == nodes0.Keys && forall i :: i in nodes0 && i != dir.id ==> part.nodes[i] == nodes0[i]
  {
    hide TablesIn, RecordsIn, Shows, Partition.Consistent;
  }

  lemma NewIsOpen(part: Partition, inode: Inode)
    requires inode.id in part.nodes && part.nodes[inode.id] == EmptyNode() && inode.size == 0
    requires inode.blocks == seq(13, _ => 0)
    ensures Opened(part, inode)
  {
    assert EmptyNode().slots[..13] == inode.blocks;
  }

  lemma DirFits(node: Node, entries: Entries, dir: Inode, parent: word)
    requires DirOk(node, entries, dir.id, parent) && dir.size == node.size
    ensures dir.size + ENTRY < U32 && dir.size % ENTRY == 0
  {
    FewEntries(node, entries, dir.id, parent);
  }

  /** After the entry at `p` is gone, the directory is in order again. */
  lemma DirWithout(nodes0: map<nat, Node>, owners0: map<nat, Owner>, nodes: map<nat, Node>, owners: map<nat, Owner>,
                   id: word, entries: Entries, parent: word, p: (nat, nat))
    requires Without(nodes0, owners0, nodes, owners, id, entries, p) && DirOk(nodes0[id], entries, id, parent)
    requires p in entries && !Dot(p)
    ensures DirOk(nodes[id], entries - {p}, id, parent)
    ensures nodes.Keys == nodes0.Keys && forall i :: i in nodes0 && i != id ==> nodes[i] == nodes0[i]
  {
    hide ValidName, Unique, NoEmptyBlock;
    assert Block(nodes0[id], p.0) != 0 by { InExistingBlock(nodes0[id], entries, p); }
    EntryRemoved(nodes0[id], entries, id, parent, p, nodes[id]);
  }

  lemma InExistingBlock(node: Node, entries: Entries, p: (nat, nat))
    requires |node.slots| == SLOTS && Unique(node, entries) && p in entries
    ensures p.0 < 12 && p.1 < PER_SECTOR && Block(node, p.0) != 0
  {
  }

  /** The other entries do not mention inode `ino`. */
  lemma StillAllocated(nodes: map<nat, Node>, node: Node, entries: Entries, id: word, parent: word, p: (nat, nat),
                       ino: word)
    requires Allocated(nodes, entries) && DirOk(node, entries, id, parent) && Target(entries, p, ino) && ino != id
    requires ino != parent
    ensures Allocated(nodes - {ino as nat}, entries - {p})
  {
    hide ValidName;
  }

  /** Directory `d` has lost the entry at `p`, and inode `ino` is gone. */
  ghost predicate NodesMinus(nodes0: map<nat, Node>, nodes: map<nat, Node>, d: nat, entries: Entries, p: (nat, nat),
                             ino: nat) {
    && d in nodes0 && d in nodes && nodes.Keys == nodes0.Keys - {ino}
    && (forall i :: i in nodes0 && i != d && i != ino ==> nodes[i] == nodes0[i])
    && |nodes0[d].slots| == SLOTS && p.0 < 12 && nodes0[d].size == nodes[d].size + ENTRY
    && nodes[d].slots == if Alone(entries, p) then nodes0[d].slots[p.0 := 0] else nodes0[d].slots
  }

  /** What sys_unlink and sys_rmdir leave. */
  ghost predicate Deleted(part: Partition, dir: Inode, nodes0: map<nat, Node>, s0: seq<Sector>, entries: Entries,
                          parent: word,
                          p: (nat, nat), ino: word)
    reads part, part.disk, dir`id, dir`size, dir`blocks
  {
    && part.Valid() && Target(entries, p, ino) && DirReady(part, dir, entries - {p}, parent)
    && NodesMinus(nodes0, part.nodes, dir.id, entries, p, ino)
    && OthersKept(nodes0, s0, part.nodes, part.disk.sectors, {dir.id as nat, ino as nat})
  }

  lemma RemovedKeeps(part: Partition, dir: Inode, nodes0: map<nat, Node>, owners0: map<nat, Owner>, s0: seq<Sector>,
                     entries: Entries, p: (nat, nat))
    requires Removed(part, dir, nodes0, owners0, s0, entries, p) && OwnersAgree(nodes0, owners0)
    requires forall l :: l in owners0 ==> part.dataStart <= l
    ensures OthersKept(nodes0, s0, part.nodes, part.disk.sectors, {dir.id as nat})
  {
    hide Showing, TablesIn, RecordsIn, Shows, Alone;
    var lba := Block(nodes0[dir.id], p.0);
    assert Slot(nodes0, dir.id, p.0) == lba;
    KeptBut(nodes0, owners0, s0, part.nodes, part.disk.sectors, part.dataStart, lba, dir.id);
  }

  /** delete_dir_entry, with what it leaves of the directory and of everybody else. */
  method DeleteEntry(part: Partition, dir: Inode, ino: word, ghost entries: Entries, ghost parent: word)
    returns (ghost found: bool, ghost p: (nat, nat))
    requires part.Valid() && DirReady(part, dir, entries, parent)
    modifies part.disk, part`nodes, part`owners, part`blockMap, dir`size, dir`blocks
    ensures found <==> Mentions(entries, ino)
    ensures !found ==> unchanged(part, part.disk, dir)
    ensures found ==> part.Valid() && Target(entries, p, ino) && Showing(part, dir, entries - {p})
    ensures found ==> Without(old(part.nodes), old(part.owners), part.nodes, part.owners, dir.id, entries, p)
    ensures found ==> DirOk(part.nodes[dir.id], entries - {p}, dir.id, parent)
    ensures found ==> part.nodes.Keys == old(part.nodes).Keys
    ensures found ==>
      OthersKept(old(part.nodes), old(part.disk.sectors), part.nodes, part.disk.sectors, {dir.id as nat})
  {
    hide Partition.Consistent, OwnersAgree, TablesIn, RecordsIn, ValidName, Shows, DirOk, Alone, FreeIn, OthersKept,
      Without;
    ghost var nodes0, owners0, s0 := part.nodes, part.owners, part.disk.sectors;
    DirFitsExactly(part.nodes[dir.id], entries, dir, parent);
    OpenedRecord(part, dir);
    var halted, f;
    halted, f, p := DeleteDirEntry(part, dir, ino, entries);
    found := f;
    if found {
      RemovedKeeps(part, dir, nodes0, owners0, s0, entries, p);
      DirWithout(nodes0, owners0, part.nodes, part.owners, dir.id, entries, parent, p);
    }
  }

  /** The end of sys_unlink and dir_remove: the entry goes, then the inode with all its blocks. Whether there
      was an entry is not looked at. */
  method RemoveEntryAndInode(part: Partition, cache: Cache, dir: Inode, ino: word, ghost entries: Entries,
                             ghost parent: word)
    returns (ghost found: bool, ghost p: (nat, nat))
    requires part.Valid() && cache.Valid(part) && dir in cache.list && DirReady(part, dir, entries, parent)
    requires ino != 0 && ino as nat in part.nodes
    requires Mentions(entries, ino) ==> ino != dir.id && ino != parent
    modifies part, part.disk, dir`size, dir`blocks, cache, cache.list`openCount
    ensures found <==> Mentions(entries, ino)
    ensures found ==> Deleted(part, dir, old(part.nodes), old(part.disk.sectors), entries, parent, p, ino)
    ensures !found ==> part.Valid() && part.nodes == old(part.nodes) - {ino as nat}
    ensures !found ==> OthersKept(old(part.nodes), old(part.disk.sectors), part.nodes, part.disk.sectors, {ino as nat})
    ensures cache.ValidBut(part, {ino as nat}) && cache.opens == old(cache.opens)
    ensures cache.Valid(part) <==> ino as nat !in old(cache.opens)
    ensures cache.list == old(cache.list)
  {
    hide Partition.Valid, Showing, DirOk, DirReady, Deleted, Target, Without, OthersKept, Distinct, Counted, Ids,
      Counts, SameFrom, OpenedIn;
    ghost var nodes0, owners0, s0, ids, counts :=
      part.nodes, part.owners, part.disk.sectors, Ids(cache.list), Counts(cache.list);
    ReadyParts(part, dir, entries, parent);
    found, p := DeleteEntry(part, dir, ino, entries, parent);
    ghost var nodes1, owners1, s1 := part.nodes, part.owners, part.disk.sectors;
    if found {
      ShowingParts(part, dir, entries - {p});
      OthersSame(nodes0, s0, nodes1, s1, dir.id);
      cache.Follows(nodes0, nodes1, dir, ids, counts, {});
    }
    InodeRelease(part, cache, ino);
    if found {
      EntryAndInodeGone(part, dir, nodes0, owners0, s0, nodes1, owners1, s1, entries, parent, p, ino);
    }
  }

  lemma ReadyParts(part: Partition, dir: Inode, entries: Entries, parent: word)
    requires DirReady(part, dir, entries, parent)
    ensures OpenedIn(part.nodes, dir) && dir.id in part.nodes && DirOk(part.nodes[dir.id], entries, dir.id, parent)
    ensures Allocated(part.nodes, entries) && |part.nodes[dir.id].slots| == SLOTS
  {
    hide Partition.Consistent, DirOk, Shows;
  }

  lemma ShowingParts(part: Partition, dir: Inode, entries: Entries)
    requires Showing(part, dir, entries)
    ensures OpenedIn(part.nodes, dir) && dir.id in part.nodes && Shows(part.disk.sectors, part.nodes[dir.id], entries)
  {
    hide Partition.Consistent, Shows;
  }

  lemma EntryAndInodeGone(part: Partition, dir: Inode, nodes0: map<nat, Node>, owners0: map<nat, Owner>,
                          s0: seq<Sector>,
                          nodes1: map<nat, Node>, owners1: map<nat, Owner>, s1: seq<Sector>, entries: Entries,
                          parent: word,
                          p: (nat, nat), ino: word)
    requires part.Valid() && part.nodes == nodes1 - {ino as nat} && dir.id != ino && ino != parent
    requires Target(entries, p, ino)
    requires OthersKept(nodes0, s0, nodes1, s1, {dir.id as nat})
    requires OthersKept(nodes1, s1, part.nodes, part.disk.sectors, {ino as nat})
    requires Without(nodes0, owners0, nodes1, owners1, dir.id, entries, p) && OpenedIn(nodes1, dir)
    requires Shows(s1, nodes1[dir.id], entries - {p}) && DirOk(nodes1[dir.id], entries - {p}, dir.id, parent)
    requires Allocated(nodes0, entries) && DirOk(nodes0[dir.id], entries, dir.id, parent) && nodes1.Keys == nodes0.Keys
    ensures Deleted(part, dir, nodes0, s0, entries, parent, p, ino)
  {
    hide Partition.Consistent, TablesIn, RecordsIn, ValidName, Shows, DirOk, Alone, OthersKept;
    KeptShows(nodes1, s1, part.nodes, part.disk.sectors, {ino as nat}, dir.id, entries - {p});
    StillAllocated(nodes0, nodes0[dir.id], entries, dir.id, parent, p, ino);
    KeptThen(nodes0, s0, nodes1, s1, part.nodes, part.disk.sectors, {dir.id as nat}, {ino as nat});
    assert {dir.id as nat} + {ino as nat} == {dir.id as nat, ino as nat};
    assert OthersKept(nodes0, s0, part.nodes, part.disk.sectors, {dir.id as nat, ino as nat});
    OthersSame(nodes0, s0, nodes1, s1, dir.id);
  }

  lemma DirFitsExactly(node: Node, entries: Entries, dir: Inode, parent: word)
    requires DirOk(node, entries, dir.id, parent) && dir.size == node.size
    ensures dir.size == ENTRY * |entries| && Ordered(entries)
  {
    OkIsOrdered(node, entries, dir.id, parent);
  }
}