/** fs/c14a_fs.c: sys_mkdir and sys_rmdir, once the path has been searched. */
module MakeDirs {
  import opened Debug
  import opened Bytes
  import opened Bitmaps
  import opened Ide
  import opened Inodes
  import opened Volumes
  import opened OpenInodes
  import opened FileData
  import opened DirData
  import opened Paths
  import opened Dirs
  import opened Caches
  import opened Names
  import opened RoundTrips

  /** What a new directory shows. */
  function DotEntries(id: word, parent: word): Entries {
    map[(0, 0) := Entry(DOT, id, DIRECTORY), (0, 1) := Entry(DOTDOT, parent, DIRECTORY)]
  }

  function DotSector(id: word, parent: word): Sector {
    PutRaw(PutRaw(BlankSector(), 0, EncodeEntry(Entry(DOT, id, DIRECTORY))),
           1, EncodeEntry(Entry(DOTDOT, parent, DIRECTORY)))
  }

  lemma DotBlock(id: word, parent: word)
    ensures ShowsBlock(DotSector(id, parent), DotEntries(id, parent), 0)
  {
    hide RawAt, PutRaw, DecodeEntry, EncodeEntry;
    var dot, dotdot := Entry(DOT, id, DIRECTORY), Entry(DOTDOT, parent, DIRECTORY);
    EntryRoundTrip(dot);
    EntryRoundTrip(dotdot);
    BlankBlock(map[], 0);
    BlockPut(BlankSector(), map[], 0, 0, EncodeEntry(dot), map[(0, 0) := dot]);
    BlockPut(PutRaw(BlankSector(), 0, EncodeEntry(dot)), map[(0, 0) := dot], 0, 1, EncodeEntry(dotdot),
             DotEntries(id, parent));
  }

  /** The inode of a new directory: one block, two entries. */
  function DirNode(lba: word): Node {
    EmptyNode().(size := 2 * ENTRY, slots := EmptyNode().slots[0 := lba])
  }

  lemma DirNodeShows(sectors: seq<Sector>, lba: word, id: word, parent: word)
    requires 0 < lba < |sectors| && sectors[lba] == DotSector(id, parent)
    ensures Shows(sectors, DirNode(lba), DotEntries(id, parent))
  {
    hide DotSector, ShowsBlock;
    DotBlock(id, parent);
    forall k | 0 <= k < 12 ensures Block(DirNode(lba), k) == if k == 0 then lba else 0 {}
  }

  lemma DirNodeOk(lba: word, id: word, parent: word)
    requires 0 < lba
    ensures DirOk(DirNode(lba), DotEntries(id, parent), id, parent)
  {
    forall k | 0 <= k < 12 ensures Block(DirNode(lba), k) == if k == 0 then lba else 0 {}
    hide Block;
    var e := DotEntries(id, parent);
    DotKeys(id, parent);
    assert |e| == |e.Keys| == 2;
  }

  lemma SlotSized(nodes: map<nat, Node>, id: nat, lba: word)
    requires id in nodes && nodes[id] == EmptyNode()
    ensures WithSize(WithSlot(nodes, id, 0, lba), id, 2 * ENTRY) == nodes[id := DirNode(lba)]
  {
  }

  lemma FirstBlockWritten(s0: seq<Sector>, s1: seq<Sector>, table: nat, start: nat, nodes0: map<nat, Node>,
                          nodes: map<nat, Node>,
                          owners: map<nat, Owner>, id: nat, lba: word)
    requires OwnersAgree(nodes, owners) && TablesIn(s0, nodes0, {}) && RecordsIn(s0, table, nodes0, {id})
    requires id in nodes0 && nodes0[id] == EmptyNode() && lba != 0 && nodes == nodes0[id := DirNode(lba)]
    requires SameBut(s0, s1, table, lba) && table + TABLE_SECTORS <= start && forall l :: l in owners ==> start <= l
    ensures TablesIn(s1, nodes, {}) && RecordsIn(s1, table, nodes, {id})
  {
    assert DirNode(lba).slots[13..] == EmptyNode().slots[13..];
    assert Block(DirNode(lba), 0) == lba;
    TablesDirect(s0, nodes0, id, 0, lba, 2 * ENTRY);
    SlotSized(nodes0, id, lba);
    DataBlockWritten(s0, s1, table, start, nodes0, nodes, owners, id, 0, {id}) by {
      assert forall i :: i in nodes0 && i != id ==> nodes[i] == nodes0[i];
    }
    assert {id} + {id} == {id};
  }

  /** The block with `.` and `..`. */
  method MakeDirNode(part: Partition, id: word, parent: word) returns (halted: bool, inode: Inode)
    requires part.Consistent() && part.TablesOnDisk({}) && part.RecordsOnDisk({id as nat})
    requires id as nat in part.nodes && part.nodes[id] == EmptyNode()
    modifies part.disk, part`nodes, part`owners, part`blockMap
    ensures fresh(inode) && inode.id == id && (halted <==> old(part.FreeBlocks()) == {})
    ensures !halted ==> |part.FreeBlocks()| == |old(part.FreeBlocks())| - 1
    ensures !halted ==> Showing(part, inode, DotEntries(id, parent)) && part.TablesOnDisk({})
    ensures !halted ==> part.RecordsOnDisk({id as nat})
    ensures !halted ==> |inode.blocks| == 13 && inode.blocks[0] !in old(part.owners)
    ensures !halted ==> part.nodes == old(part.nodes)[id as nat := DirNode(inode.blocks[0])]
    ensures !halted ==> SameBut(old(part.disk.sectors), part.disk.sectors, part.inodeBitmapLba, inode.blocks[0])
    ensures !halted ==> inode.blocks[0] != 0
  {
    hide Partition.Consistent, OwnersAgree, TablesIn, RecordsIn, Shows, DotSector, DotEntries, EmptyNode, DirNode,
      FreeIn;
    ghost var nodes0, owners0, s0 := part.nodes, part.owners, part.disk.sectors;
    inode := new Inode(id);
    NewIsOpen(part, inode);
    var lba;
    halted, lba := NewBlock(part, inode, 0);
    if halted {
      return;
    }
    OpenedRecord(part, inode);
    SlotSized(nodes0, id, lba);
    StoreBlock(part, inode, lba, DotSector(id, parent), 2 * ENTRY);
    OpenedRecord(part, inode);
    OwnedBlocks(part);
    FirstBlockWritten(s0, part.disk.sectors, part.inodeTableLba, part.dataStart, nodes0, part.nodes, part.owners, id,
                      lba);
    DirNodeShows(part.disk.sectors, lba, id, parent);
  }

  /** A directory shows the same when the only data block that changed is not one of its own. */
  lemma ShowsApart(s0: seq<Sector>, s1: seq<Sector>, nodes: map<nat, Node>, owners: map<nat, Owner>, d: nat,
                   entries: Entries, from: nat, l: nat)
    requires OwnersAgree(nodes, owners) && d in nodes && Shows(s0, nodes[d], entries) && SameBut(s0, s1, from, l)
    requires (forall x :: x in owners ==> from <= x) && (l in owners ==> owners[l].id != d)
    ensures Shows(s1, nodes[d], entries)
  {
    hide ShowsBlock;
    forall j | 0 <= j < 12 ensures Block(nodes[d], j) == Slot(nodes, d, j) {}
    ShowsFrame(s0, s1, nodes[d], entries);
  }

  lemma EntryBlockOwner(nodes: map<nat, Node>, owners: map<nat, Owner>, d: nat, k: nat)
    requires OwnersAgree(nodes, owners) && d in nodes && k < 12 && Block(nodes[d], k) != 0
    ensures Block(nodes[d], k) in owners && owners[Block(nodes[d], k)] == Owner(d, k)
  {
    assert Block(nodes[d], k) == Slot(nodes, d, k);
  }

  /** The new directory is not touched by the entry that its parent gets. */
  lemma ChildStays(part: Partition, dir: Inode, child: Inode, nodes0: map<nat, Node>, owners0: map<nat, Owner>,
                   s0: seq<Sector>,
                   entries: Entries, p: (nat, nat), e: Entry, stale: set<nat>, dots: Entries)
    requires Added(part, dir, nodes0, owners0, s0, entries, p, e, stale) && child.id in nodes0 && child.id != dir.id
    requires Shows(s0, nodes0[child.id], dots) && child.size == nodes0[child.id].size
    requires |nodes0[child.id].slots| == SLOTS && child.blocks == nodes0[child.id].slots[..13]
    ensures Showing(part, child, dots)
  {
    hide Shows, TablesIn, RecordsIn, Partition.Consistent, OwnersAgree;
    AddedLeaves(part, dir, nodes0, owners0, s0, entries, p, e, stale);
    OpenedRecord(part, dir);
    TableBeforeData(part);
    assert Block(part.nodes[dir.id], p.0) != 0 by {
      ShownBlock(part.disk.sectors, part.nodes[dir.id], entries[p := e], p);
    }
    EntryBlockOwner(part.nodes, part.owners, dir.id, p.0);
    ShowsApart(s0, part.disk.sectors, part.nodes, part.owners, child.id, dots, part.inodeTableLba,
               Block(part.nodes[dir.id], p.0));
  }

  lemma ShownBlock(sectors: seq<Sector>, node: Node, entries: Entries, p: (nat, nat))
    requires Shows(sectors, node, entries) && p in entries
    ensures p.0 < 12 && Block(node, p.0) != 0
  {
  }

  /** The entry in the parent, and both inodes to the disk. */
  method EnterChild(part: Partition, dir: Inode, child: Inode, e: Entry, ghost entries: Entries, ghost parent: word,
                    ghost dots: Entries)
    returns (halted: bool, ghost p: (nat, nat))
    requires Showing(part, dir, entries) && Showing(part, child, dots) && child != dir && child.id != dir.id
    requires part.TablesOnDisk({}) && part.RecordsOnDisk({child.id as nat})
    requires DirOk(part.nodes[dir.id], entries, dir.id, parent) && ValidName(e.name) && !HasName(entries, e.name)
    requires HasRoom(entries)
    requires e.kind != 0 && e.id == child.id
    requires forall q :: q in entries ==> entries[q].id in part.nodes && entries[q].id != e.id
    modifies part.disk, part`nodes, part`owners, part`blockMap, dir`size, dir`blocks
    ensures dir.id in old(part.nodes) && |old(part.nodes)[dir.id].slots| == SLOTS
    ensures halted <==> old(part.FreeBlocks()) == {} && NeedsBlock(old(part.nodes)[dir.id], entries)
    ensures !halted ==> |part.FreeBlocks()| == |old(part.FreeBlocks())| - Extra(old(part.nodes)[dir.id], entries)
    ensures !halted ==> p !in entries && part.Valid() && DirReady(part, dir, entries[p := e], parent)
    ensures !halted ==> DirPlus(old(part.nodes), part.nodes, dir.id, p)
    ensures !halted ==>
      OthersKept(old(part.nodes), old(part.disk.sectors), part.nodes, part.disk.sectors, {dir.id as nat})
    ensures !halted ==> part.nodes.Keys == old(part.nodes).Keys
    ensures !halted ==> forall i :: i in part.nodes && i != dir.id ==> part.nodes[i] == old(part.nodes)[i]
    ensures !halted ==> Showing(part, child, dots)
  {
    hide Partition.Consistent, OwnersAgree, TablesIn, RecordsIn, ValidName, HasName, HasRoom, Shows, Added, DirOk,
      FreeIn, Writable, NeedsBlock, OthersKept;
    ghost var nodes0, owners0, s0 := part.nodes, part.owners, part.disk.sectors;
    ValidIsWritable(e.name, e.id, e.kind);
    DirFits(nodes0[dir.id], entries, dir, parent);
    OpenedRecord(part, dir);
    TableBeforeData(part);
    halted, p := SyncDirEntry(part, dir, e, entries, {child.id as nat});
    if halted {
      return;
    }
    AddedKeeps(part, dir, nodes0, owners0, s0, entries, p, e, {child.id as nat});
    DirStaysReady(part, dir, nodes0, entries, parent, p, e, owners0, s0, {child.id as nat});
    AddedLeaves(part, dir, nodes0, owners0, s0, entries, p, e, {child.id as nat});
    ChildStays(part, dir, child, nodes0, owners0, s0, entries, p, e, {child.id as nat}, dots);
    assert {child.id as nat} + {dir.id as nat} == {child.id as nat, dir.id as nat};
    ghost var s1 := part.disk.sectors;
    SyncCreated(part, dir, child, entries[p := e]);
    SyncedKept(part, nodes0, s0, s1, dir.id);
    OpenedRecord(part, child);
    DirBlocksFrame(s1, part.disk.sectors, part.nodes, part.owners, child.id, dots, part.dataStart);
  }

  lemma NewDirKept(nodes0: map<nat, Node>, nodes1: map<nat, Node>, s0: seq<Sector>, nodes2: map<nat, Node>,
                   owners2: map<nat, Owner>,
                   s2: seq<Sector>, nodes3: map<nat, Node>, s3: seq<Sector>, table: nat, id: nat, d: nat, lba: word)
    requires id !in nodes0 && nodes1 == nodes0[id := EmptyNode()] && nodes2 == nodes1[id := DirNode(lba)]
    requires OwnersAgree(nodes0, owners2) && SameBut(s0, s2, table, lba) && (forall l :: l in owners2 ==> table <= l)
    requires lba !in owners2
    requires OthersKept(nodes2, s2, nodes3, s3, {d})
    ensures OthersKept(nodes0, s0, nodes3, s3, {d})
  {
    hide OthersKept, EmptyNode, DirNode;
    KeptBut(nodes0, owners2, s0, nodes2, s2, table, lba, id);
    KeptThen(nodes0, s0, nodes2, s2, nodes3, s3, {id}, {d});
    KeptOld(nodes0, s0, nodes3, s3, {id} + {d}, {d});
  }

  /** sys_mkdir up to the bookkeeping of open inodes. */
  method MakeDirUnlisted(part: Partition, dir: Inode, name: seq<byte>, ghost entries: Entries, ghost parent: word)
    returns (halted: bool, child: Inode, ghost p: (nat, nat))
    requires part.Valid() && DirReady(part, dir, entries, parent) && ValidName(name) && !HasName(entries, name)
    requires HasRoom(entries) && IdLeft(part.inodeMap)
    modifies part, part.disk, dir`size, dir`blocks
    ensures dir.id in old(part.nodes) && |old(part.nodes)[dir.id].slots| == SLOTS
    ensures halted <==> |old(part.FreeBlocks())| < 1 + Extra(old(part.nodes)[dir.id], entries)
    ensures !halted ==> |part.FreeBlocks()| == |old(part.FreeBlocks())| - 1 - Extra(old(part.nodes)[dir.id], entries)
    ensures fresh(child) && child.id as nat == FirstClear(old(part.inodeMap), 0)
    ensures !halted ==>
      Created(part, dir, old(part.nodes), old(part.disk.sectors), entries, parent, p, Entry(name, child.id, DIRECTORY))
    ensures !halted ==> InPlace(part, child, DotEntries(child.id, dir.id), dir.id)
  {
    hide Partition.Consistent, OwnersAgree, TablesIn, RecordsIn, ValidName, HasName, HasRoom, Shows, DirOk, EmptyNode,
      FreeIn, DotEntries, DirNode, DirPlus, OthersKept, NeedsBlock;
    ghost var nodes0, owners0, s0 := part.nodes, part.owners, part.disk.sectors;
    OpenedRecord(part, dir);
    TableBeforeData(part);
    var none, id := AllocInode(part);
    ghost var nodes1 := part.nodes;
    halted, child := MakeDirNode(part, id, dir.id);
    p := (0, 0);
    if halted {
      return;
    }
    ghost var nodes2, s2, lba := part.nodes, part.disk.sectors, child.blocks[0];
    ShowsApart(s0, s2, nodes0, owners0, dir.id, entries, part.inodeTableLba, lba);
    DirNodeOk(lba, id, dir.id);
    halted, p := EnterChild(part, dir, child, Entry(name, id, DIRECTORY), entries, parent, DotEntries(id, dir.id));
    if !halted {
      NewDirKept(nodes0, nodes1, s0, nodes2, owners0, s2, part.nodes, part.disk.sectors, part.inodeTableLba, id, dir.id,
                 lba);
      PlusTwice(nodes0, nodes2, part.nodes, id, dir.id, p);
    }
  }

  lemma PlusTwice(nodes0: map<nat, Node>, nodes1: map<nat, Node>, nodes2: map<nat, Node>, id: nat, d: nat,
                  p: (nat, nat))
    requires id !in nodes0 && d in nodes0 && d in nodes1 && nodes1[d] == nodes0[d] && DirPlus(nodes1, nodes2, d, p)
    ensures DirPlus(nodes0, nodes2, d, p)
  {
  }

  /** sys_mkdir, when the path search has found the parent and no entry of that name. The new inode is not in
      the open-inode list. */
  method MakeDir(part: Partition, cache: Cache, dir: Inode, name: seq<byte>, ghost entries: Entries, ghost parent: word)
    returns (halted: bool, child: Inode, ghost p: (nat, nat))
    requires part.Valid() && cache.Valid(part) && dir in cache.list
    requires DirReady(part, dir, entries, parent) && ValidName(name) && !HasName(entries, name)
    requires HasRoom(entries) && IdLeft(part.inodeMap)
    modifies part, part.disk, dir`size, dir`blocks
    ensures dir.id in old(part.nodes) && |old(part.nodes)[dir.id].slots| == SLOTS
    ensures halted <==> |old(part.FreeBlocks())| < 1 + Extra(old(part.nodes)[dir.id], entries)
    ensures !halted ==> |part.FreeBlocks()| == |old(part.FreeBlocks())| - 1 - Extra(old(part.nodes)[dir.id], entries)
    ensures fresh(child) && child.id as nat == FirstClear(old(part.inodeMap), 0)
    ensures !halted ==>
      Created(part, dir, old(part.nodes), old(part.disk.sectors), entries, parent, p, Entry(name, child.id, DIRECTORY))
    ensures !halted ==> InPlace(part, child, DotEntries(child.id, dir.id), dir.id)
    ensures !halted ==> cache.Valid(part)
  {
    hide Partition.Valid, ValidName, HasName, HasRoom, FreeIn, NeedsBlock, Distinct, Counted, Ids, Counts, OpenedIn,
      Created, DirOk, DirReady, Extra, Showing, DotEntries;
    ghost var nodes0, s0, ids, counts := part.nodes, part.disk.sectors, Ids(cache.list), Counts(cache.list);
    halted, child, p := MakeDirUnlisted(part, dir, name, entries, parent);
    if !halted {
      CreatedKeeps(part, dir, nodes0, s0, entries, parent, p, Entry(name, child.id, DIRECTORY));
      cache.Follows(nodes0, part.nodes, dir, ids, counts, {});
    }
  }

  /** dir_is_empty */
  method IsEmpty(dir: Inode) returns (r: bool)
    ensures r <==> dir.size == 2 * ENTRY
  {
    r := dir.size == 2 * ENTRY;
  }

  /** An empty directory has its first block only. */
  lemma EmptyDirBlocks(part: Partition, child: Inode, entries: Entries, parent: word)
    requires Showing(part, child, entries) && DirOk(part.nodes[child.id], entries, child.id, parent)
    ensures |child.blocks| == 13 && (child.size == 2 * ENTRY <==> entries.Keys == {(0, 0), (0, 1)})
    ensures child.size == 2 * ENTRY ==> forall k :: 1 <= k < 13 ==> child.blocks[k] == 0
  {
    hide Partition.Consistent, DirOk;
    EmptyBySize(part.nodes[child.id], entries, child.id, parent);
    forall k | 1 <= k < 13 && child.size == 2 * ENTRY ensures child.blocks[k] == 0 {
      assert k < 12 ==> child.blocks[k] == Block(part.nodes[child.id], k);
    }
  }

  /** The ASSERTs of dir_remove: no block but the first, and no table. */
  method HasMoreBlocks(child: Inode) returns (r: bool)
    requires |child.blocks| == 13
    ensures r <==> exists k :: 1 <= k < 13 && child.blocks[k] != 0
  {
    var k := 1;
    while k < 13
      invariant 1 <= k <= 13 && forall j :: 1 <= j < k ==> child.blocks[j] == 0
    {
      if child.blocks[k] != 0 {
        return true;
      }
      k := k + 1;
    }
    r := false;
  }

  /** sys_rmdir once both directories are open: only one whose size counts two entries goes. Whether `dir`
      lists the child is not looked at. */
  method RemoveDir(part: Partition, cache: Cache, dir: Inode, child: Inode, ghost entries: Entries, ghost parent: word)
    returns (halted: bool, r: int, ghost found: bool, ghost p: (nat, nat))
    requires part.Valid() && cache.Valid(part) && dir in cache.list && DirReady(part, dir, entries, parent)
    requires child.id as nat in part.nodes && child.id != 0 && |child.blocks| == 13
    requires child.size == 2 * ENTRY ==> forall k :: 1 <= k < 13 ==> child.blocks[k] == 0
    requires Mentions(entries, child.id) ==> child.id != dir.id && child.id != parent
    modifies part, part.disk, dir`size, dir`blocks, cache, cache.list`openCount
    ensures !halted && r == if old(child.size) == 2 * ENTRY then 0 else -1
    ensures r == -1 ==> unchanged(part, part.disk, dir, cache) && cache.Valid(part)
    ensures r == 0 ==> (found <==> Mentions(entries, child.id))
    ensures r == 0 && found ==>
      Deleted(part, dir, old(part.nodes), old(part.disk.sectors), entries, parent, p, child.id)
    ensures r == 0 && !found ==> part.Valid() && part.nodes == old(part.nodes) - {child.id as nat}
    ensures r == 0 && !found ==>
      OthersKept(old(part.nodes), old(part.disk.sectors), part.nodes, part.disk.sectors, {child.id as nat})
    ensures r == 0 ==> cache.ValidBut(part, {child.id as nat})
    ensures cache.opens == old(cache.opens) && cache.list == old(cache.list)
  {
    hide *;
    p, found := (0, 0), false;
    var empty := IsEmpty(child);
    if !empty {
      return false, -1, found, p;
    }
    halted := HasMoreBlocks(child);
    if halted {
      return true, -1, found, p;
    }
    found, p := RemoveEntryAndInode(part, cache, dir, child.id, entries, parent);
    r := 0;
  }

  lemma ListsIt(entries: Entries, p: (nat, nat), ino: word)
    requires Target(entries, p, ino)
    ensures Mentions(entries, ino)
  {
  }

  /** Whichever inode is at hand, the directory is the same. */
  lemma SameInPlace(part: Partition, a: Inode, b: Inode, entries: Entries, parent: word)
    requires InPlace(part, a, entries, parent) && b.id == a.id && Opened(part, b)
    ensures InPlace(part, b, entries, parent)
  {
    hide Partition.Consistent, Shows, DirOk;
  }

  lemma DotKeys(id: word, parent: word)
    ensures DotEntries(id, parent).Keys == {(0, 0), (0, 1)}
  {
  }

  lemma DeletedNodes(part: Partition, dir: Inode, nodes0: map<nat, Node>, s0: seq<Sector>, entries: Entries,
                     parent: word,
                     p: (nat, nat), ino: word)
    requires Deleted(part, dir, nodes0, s0, entries, parent, p, ino)
    ensures part.nodes.Keys == nodes0.Keys - {ino as nat} && part.Valid()
  {
    hide Partition.Valid, DirReady, OthersKept;
  }

  lemma ChildAtHand(part: Partition, made: Inode, child: Inode, entries: Entries, parent: word)
    requires InPlace(part, made, entries, parent) && child.id == made.id && Opened(part, child)
    ensures InPlace(part, child, entries, parent) && |child.blocks| == 13
    ensures child.size == 2 * ENTRY <==> entries.Keys == {(0, 0), (0, 1)}
    ensures child.size == 2 * ENTRY ==> forall k :: 1 <= k < 13 ==> child.blocks[k] == 0
  {
    hide Partition.Consistent, DirOk, Shows;
    SameInPlace(part, made, child, entries, parent);
    EmptyDirBlocks(part, child, entries, parent);
  }

  /** Removing a directory that is empty and that nobody has open. */
  method RemoveEmpty(part: Partition, cache: Cache, dir: Inode, made: Inode, ghost entries: Entries, ghost parent: word,
                     ghost p: (nat, nat))
    returns (r: int, ghost q: (nat, nat))
    requires part.Valid() && cache.Valid(part) && dir in cache.list && DirReady(part, dir, entries, parent)
    requires InPlace(part, made, DotEntries(made.id, dir.id), dir.id) && Target(entries, p, made.id)
    requires made.id != 0 && made.id != dir.id && made.id != parent && made.id as nat !in cache.opens
    modifies part, part.disk, dir`size, dir`blocks, cache, cache.list`openCount
    ensures r == 0 && Deleted(part, dir, old(part.nodes), old(part.disk.sectors), entries, parent, q, made.id)
    ensures cache.Valid(part) && cache.opens == old(cache.opens) && cache.list == old(cache.list)
  {
    hide Partition.Valid, Showing, DirOk, InPlace, DirReady, Distinct, Counted, Ids, Counts, OpenedIn, Target,
      Deleted, OthersKept, Opening, Closing, DotEntries;
    ghost var opens0, list0, nodes0, s0, id := cache.opens, cache.list, part.nodes, part.disk.sectors, made.id;
    ListsIt(entries, p, id);
    DotKeys(id, dir.id);
    InPlaceParts(part, made, DotEntries(id, dir.id), dir.id);
    var child := cache.Open(part, made.id, {});
    ChildAtHand(part, made, child, DotEntries(id, dir.id), dir.id);
    var halted;
    ghost var found;
    halted, r, found, q := RemoveDir(part, cache, dir, child, entries, parent);
    cache.Reclose(part, child, opens0, list0, {id as nat});
    DeletedNodes(part, dir, nodes0, s0, entries, parent, q, id);
    cache.ValidIffClosed(part, id);
  }

  /** Making a directory and removing it restores both bitmaps, the owners and the inodes, and touches
      nobody else. */
  method MakeThenRemoveDir(part: Partition, cache: Cache, dir: Inode, name: seq<byte>, ghost entries: Entries,
                           ghost parent: word)
    returns (halted: bool)
    requires part.Valid() && cache.Valid(part) && dir in cache.list
    requires DirReady(part, dir, entries, parent) && ValidName(name) && !HasName(entries, name)
    requires HasRoom(entries) && IdLeft(part.inodeMap) && parent as nat in part.nodes
    modifies part, part.disk, dir`size, dir`blocks, cache, cache.list`openCount
    ensures dir.id in old(part.nodes) && |old(part.nodes)[dir.id].slots| == SLOTS
    ensures halted <==> |old(part.FreeBlocks())| < 1 + Extra(old(part.nodes)[dir.id], entries)
    ensures !halted ==> part.Valid() && DirReady(part, dir, entries, parent)
    ensures !halted ==> part.blockMap == old(part.blockMap) && part.inodeMap == old(part.inodeMap)
    ensures !halted ==> part.nodes == old(part.nodes) && part.owners == old(part.owners)
    ensures !halted ==>
      OthersKept(old(part.nodes), old(part.disk.sectors), part.nodes, part.disk.sectors, {dir.id as nat})
    ensures !halted ==> cache.Valid(part) && cache.opens == old(cache.opens) && cache.list == old(cache.list)
  {
    hide *;
    ghost var nodes0, owners0, s0, blocks0, ids0 :=
      part.nodes, part.owners, part.disk.sectors, part.blockMap, part.inodeMap;
    ghost var opens0, list0 := cache.opens, cache.list;
    StateParts(part);
    ReadyParts(part, dir, entries, parent);
    cache.OpenExists(part);
    var made;
    ghost var p;
    halted, made, p := MakeDir(part, cache, dir, name, entries, parent);
    if halted {
      return;
    }
    ghost var id, e, nodes1, s1 := made.id, Entry(name, made.id, DIRECTORY), part.nodes, part.disk.sectors;
    CreatedParts(part, dir, nodes0, s0, entries, parent, p, e);
    ReadyParts(part, dir, entries[p := e], parent);
    NewTarget(nodes0[dir.id], entries, dir.id, parent, p, e);
    ListsIt(entries[p := e], p, id);
    DotKeys(id, dir.id);
    var r;
    ghost var q;
    r, q := RemoveEmpty(part, cache, dir, made, entries[p := e], parent, p);
    KeptSame(nodes1, s1, {id as nat});
    DeletedIsValid(part, dir, nodes1, s1, entries[p := e], parent, q, id);
    StateParts(part);
    UnlinkUndoes(part, dir, nodes0, owners0, s0, blocks0, ids0, nodes1, s1, nodes1, s1, entries, parent, p, q, e);
  }
}
