/** What is created and removed again leaves no trace in the bitmaps. */
module RoundTrips {
  import opened Debug
  import opened Bytes
  import opened Bitmaps
  import opened Ide
  import opened BitSectors
  import opened Inodes
  import opened Volumes
  import opened OpenInodes
  import opened FileData
  import opened Files
  import opened FileWrites
  import opened DirData
  import opened Dirs
  import opened Caches
  import opened Names

  /** The owner map follows from the inodes. */
  lemma OwnersDetermined(nodes: map<nat, Node>, a: map<nat, Owner>, b: map<nat, Owner>)
    requires OwnersAgree(nodes, a) && OwnersAgree(nodes, b)
    ensures a == b
  {
    forall l | l in a ensures l in b && b[l] == a[l] {
      assert Slot(nodes, a[l].id, a[l].slot) == l;
    }
    forall l | l in b ensures l in a {
      assert Slot(nodes, b[l].id, b[l].slot) == l;
    }
  }

  /** Both bitmaps follow from the inodes. */
  lemma MapsDetermined(nodes: map<nat, Node>, ownersA: map<nat, Owner>, ownersB: map<nat, Owner>, blocksA: seq<bool>,
                       blocksB: seq<bool>,
                       idsA: seq<bool>, idsB: seq<bool>, start: nat, count: nat)
    requires OwnersAgree(nodes, ownersA) && OwnersAgree(nodes, ownersB) && |blocksA| == |blocksB| && |idsA| == |idsB|
    requires BitmapAgrees(blocksA, ownersA, start, count) && BitmapAgrees(blocksB, ownersB, start, count)
    requires IdsAgree(idsA, nodes.Keys) && IdsAgree(idsB, nodes.Keys)
    ensures blocksA == blocksB && idsA == idsB && ownersA == ownersB
  {
    OwnersDetermined(nodes, ownersA, ownersB);
    forall b | 0 <= b < |blocksA| ensures blocksA[b] == blocksB[b] {
      assert blocksA[b] <==> b >= count || start + b in ownersA;
    }
  }

  /** The entry is alone in its block exactly when the block was new. */
  lemma AloneIffNew(node: Node, entries: Entries, id: word, parent: word, p: (nat, nat), e: Entry)
    requires DirOk(node, entries, id, parent) && p !in entries && p.0 < 12
    ensures Alone(entries[p := e], p) <==> Block(node, p.0) == 0
  {
    hide ValidName;
    var more := entries[p := e];
    if Block(node, p.0) == 0 {
      assert (0, 0) in entries;
      assert forall q :: q in entries ==> Block(node, q.0) != 0;
    } else if p.0 != 0 {
      assert InBlock(entries, p.0);
      var q :| q in entries && q.0 == p.0;
      assert q in more && q != p;
    }
  }

  /** Adding an entry and removing it again gives the directory its inode back as it was. */
  lemma PlusThenMinus(nodes0: map<nat, Node>, nodes1: map<nat, Node>, nodes2: map<nat, Node>, nodes3: map<nat, Node>,
                      d: word, id: nat, entries: Entries, parent: word, p: (nat, nat), e: Entry)
    requires DirPlus(nodes0, nodes1, d, p) && nodes1.Keys == nodes0.Keys + {id} && id !in nodes0
    requires forall i :: i in nodes0 && i != d ==> nodes1[i] == nodes0[i]
    requires nodes2.Keys == nodes1.Keys && forall i :: i in nodes1 && i != id ==> nodes2[i] == nodes1[i]
    requires NodesMinus(nodes2, nodes3, d, entries[p := e], p, id)
    requires DirOk(nodes0[d], entries, d, parent) && p !in entries
    ensures nodes3 == nodes0
  {
    AloneIffNew(nodes0[d], entries, d, parent, p, e);
    hide DirOk, Alone;
    assert nodes3.Keys == nodes0.Keys;
    assert nodes3[d].slots == nodes0[d].slots;
    assert nodes3[d] == nodes0[d];
    forall i | i in nodes0 ensures nodes3[i] == nodes0[i] {}
  }

  lemma EmptyNeeds(n: nat)
    ensures |EmptyNode().slots| == SLOTS && EmptyNode().size == 0 && Needed(EmptyNode(), n) > 0
  {
  }

  lemma EmptyIsRegular()
    ensures RegularFile(EmptyNode())
  {
    forall k | 0 <= k < MAX_BLOCKS ensures Block(EmptyNode(), k) == 0 {}
  }

  /** Writing a file leaves a directory what it shows. */
  lemma DirUntouched(nodes0: map<nat, Node>, owners0: map<nat, Owner>, s0: seq<Sector>, nodes: map<nat, Node>,
                     owners: map<nat, Owner>,
                     s1: seq<Sector>, id: nat, d: nat, entries: Entries)
    requires Untouched(nodes0, owners0, s0, nodes, owners, s1, id) && OwnersAgree(nodes0, owners0)
    requires d in nodes0 && d != id && Shows(s0, nodes0[d], entries)
    ensures nodes[d] == nodes0[d] && Shows(s1, nodes[d], entries)
  {
    hide ShowsBlock;
    forall j | 0 <= j < 12 ensures Block(nodes0[d], j) == Slot(nodes0, d, j) {}
    ShowsFrame(s0, s1, nodes0[d], entries);
  }

  lemma AllocatedStill(nodes0: map<nat, Node>, nodes: map<nat, Node>, entries: Entries)
    requires Allocated(nodes0, entries) && nodes.Keys == nodes0.Keys
    ensures Allocated(nodes, entries)
  {
  }

  /** One write to a new file; the directory it is in stays ready. */
  method WriteOnce(part: Partition, cache: Cache, dir: Inode, file: File, buf: seq<byte>, ghost entries: Entries,
                   ghost parent: word)
    returns (halted: bool)
    requires part.Valid() && DirReady(part, dir, entries, parent) && Opened(part, file.inode)
    requires RegularFile(part.nodes[file.inode.id])
    requires file.inode.size + |buf| < U32 && dir != file.inode && dir.id != file.inode.id && cache.Valid(part)
    requires file.inode in cache.list
    modifies part, part.disk, file`pos, file.inode`blocks, file.inode`size
    ensures halted <==>
      var size := old(file.inode.size) + |buf|;
      size == 71680 || (size < 71680 && |old(part.FreeBlocks())| < Needed(old(part.nodes[file.inode.id]), |buf|))
    ensures !halted ==> part.Valid() && DirReady(part, dir, entries, parent) && part.nodes.Keys == old(part.nodes).Keys
    ensures !halted ==>
      OthersKept(old(part.nodes), old(part.disk.sectors), part.nodes, part.disk.sectors, {file.inode.id as nat})
    ensures !halted ==> cache.Valid(part)
  {
    hide OwnersAgree, BitmapAgrees, IdsAgree, TablesIn, RecordsIn, RegularFile, Shows, DirOk, Allocated, Contents,
      Needed, FreeIn, OthersKept, Distinct, Counted, Ids, Counts;
    ghost var nodes0, owners0, s0, ids, counts :=
      part.nodes, part.owners, part.disk.sectors, Ids(cache.list), Counts(cache.list);
    var r := Write(part, file, buf);
    if r == Halted {
      return true;
    }
    halted := false;
    if r != Done(-1) {
      DirUntouched(nodes0, owners0, s0, part.nodes, part.owners, part.disk.sectors, file.inode.id, dir.id, entries);
      AllocatedStill(nodes0, part.nodes, entries);
      KeptUntouched(nodes0, owners0, s0, part.nodes, part.owners, part.disk.sectors, file.inode.id);
      cache.Follows(nodes0, part.nodes, file.inode, ids, counts, {});
    } else {
      KeptSame(nodes0, s0, {file.inode.id as nat});
    }
  }

  lemma KeptSame(nodes: map<nat, Node>, s: seq<Sector>, ids: set<nat>)
    ensures OthersKept(nodes, s, nodes, s, ids)
  {
  }

  /** When creating and writing a new file stops. */
  ghost predicate TooMuch(free: nat, extra: nat, count: nat) {
    free < extra || count == 71680 || (count < 71680 && free < extra + Needed(EmptyNode(), count))
  }

  lemma TooMuchByParts(free: nat, extra: nat, count: nat)
    requires extra <= 1
    ensures free == 0 && extra == 1 ==> TooMuch(free, extra, count)
    ensures free >= extra ==>
      (TooMuch(free, extra, count) <==> count == 71680 || (count < 71680 && free - extra < Needed(EmptyNode(), count)))
  {
  }

  /** Creating a file, writing to it and closing it. */
  method CreateAndWrite(part: Partition, cache: Cache, dir: Inode, name: seq<byte>, buf: seq<byte>,
                        ghost entries: Entries,
                        ghost parent: word)
    returns (halted: bool, id: word, ghost p: (nat, nat), ghost nodes1: map<nat, Node>, ghost s1: seq<Sector>)
    requires part.Valid() && cache.Valid(part) && dir in cache.list
    requires DirReady(part, dir, entries, parent) && ValidName(name) && !HasName(entries, name)
    requires HasRoom(entries) && IdLeft(part.inodeMap) && |buf| < U32
    modifies part, part.disk, dir`size, dir`blocks, cache
    ensures dir.id in old(part.nodes) && |old(part.nodes)[dir.id].slots| == SLOTS
    ensures halted <==> TooMuch(|old(part.FreeBlocks())|, Extra(old(part.nodes)[dir.id], entries), |buf|)
    ensures !halted ==> part.Valid() && cache.Valid(part) && cache.opens == old(cache.opens)
    ensures !halted ==> id as nat !in cache.opens
    ensures !halted ==> cache.list == old(cache.list)
    ensures !halted ==> p !in entries && id != dir.id && id as nat !in old(part.nodes)
    ensures !halted ==> DirReady(part, dir, entries[p := Entry(name, id, REGULAR)], parent)
    ensures !halted ==> DirPlus(old(part.nodes), nodes1, dir.id, p) && nodes1.Keys == old(part.nodes).Keys + {id as nat}
    ensures !halted ==> OthersKept(old(part.nodes), old(part.disk.sectors), nodes1, s1, {dir.id as nat})
    ensures !halted ==> OthersKept(nodes1, s1, part.nodes, part.disk.sectors, {id as nat})
    ensures !halted ==> part.nodes.Keys == nodes1.Keys
  {
    hide Partition.Valid, ValidName, HasName, HasRoom, DirOk, FreeIn, EmptyNode, RegularFile, Needed, NeedsBlock,
      OthersKept, Created, Distinct, Counted, Ids, Counts, Opening, Closing, OpenedIn, DirReady, Showing, DirPlus,
      TooMuch;
    ghost var nodes0, s0, opens0, list0 := part.nodes, part.disk.sectors, cache.opens, cache.list;
    ghost var free, extra := |part.FreeBlocks()|, 0;
    ReadyParts(part, dir, entries, parent);
    extra := Extra(nodes0[dir.id], entries);
    TooMuchByParts(free, extra, |buf|);
    EmptyNeeds(|buf|);
    cache.OpenExists(part);
    var file;
    halted, file, p := FileCreate(part, cache, dir, name, entries, parent);
    id, nodes1, s1 := file.inode.id, part.nodes, part.disk.sectors;
    if halted {
      return;
    }
    CreatedParts(part, dir, nodes0, s0, entries, parent, p, Entry(name, id, REGULAR));
    EmptyIsRegular();
    OpenedIsAllocated(part, file.inode);
    halted := WriteOnce(part, cache, dir, file, buf, entries[p := Entry(name, id, REGULAR)], parent);
    if !halted {
      cache.Reclose(part, file.inode, opens0, list0, {});  // file_close
    }
  }

  /** Creating a file, writing whatever to it, closing and removing it restores both bitmaps, the owners and
      the inodes, whether or not the directory needed a new block for the entry, and touches nobody else. */
  method CreateWriteUnlink(part: Partition, cache: Cache, dir: Inode, name: seq<byte>, buf: seq<byte>,
                           ghost entries: Entries,
                           ghost parent: word)
    returns (halted: bool)
    requires part.Valid() && cache.Valid(part) && dir in cache.list
    requires DirReady(part, dir, entries, parent) && ValidName(name) && !HasName(entries, name)
    requires HasRoom(entries) && IdLeft(part.inodeMap) && |buf| < U32 && parent as nat in part.nodes
    modifies part, part.disk, dir`size, dir`blocks, cache, cache.list`openCount
    ensures dir.id in old(part.nodes) && |old(part.nodes)[dir.id].slots| == SLOTS
    ensures halted <==> TooMuch(|old(part.FreeBlocks())|, Extra(old(part.nodes)[dir.id], entries), |buf|)
    ensures !halted ==> part.Valid() && DirReady(part, dir, entries, parent)
    ensures !halted ==> part.blockMap == old(part.blockMap) && part.inodeMap == old(part.inodeMap)
    ensures !halted ==> part.nodes == old(part.nodes) && part.owners == old(part.owners)
    ensures !halted ==>
      OthersKept(old(part.nodes), old(part.disk.sectors), part.nodes, part.disk.sectors, {dir.id as nat})
    ensures !halted ==> cache.Valid(part) && cache.opens == old(cache.opens)
  {
    hide Partition.Valid, ValidName, HasName, HasRoom, DirOk, FreeIn, EmptyNode, RegularFile, Needed, NeedsBlock,
      OthersKept, Created, Deleted, Distinct, Counted, Ids, Counts, Opening, Closing, OpenedIn, DirReady, Showing,
      Target, DirPlus, NodesMinus, TooMuch;
    ghost var nodes0, owners0, s0, blocks0, ids0 :=
      part.nodes, part.owners, part.disk.sectors, part.blockMap, part.inodeMap;
    StateParts(part);
    ReadyParts(part, dir, entries, parent);
    var id;
    ghost var p, nodes1, s1;
    halted, id, p, nodes1, s1 := CreateAndWrite(part, cache, dir, name, buf, entries, parent);
    if halted {
      return;
    }
    ghost var e, nodes2, s2 := Entry(name, id, REGULAR), part.nodes, part.disk.sectors;
    ReadyParts(part, dir, entries[p := e], parent);
    NewTarget(nodes0[dir.id], entries, dir.id, parent, p, e);
    ghost var found, q := RemoveEntryAndInode(part, cache, dir, id, entries[p := e], parent);
    DeletedIsValid(part, dir, nodes2, s2, entries[p := e], parent, q, id);
    StateParts(part);
    UnlinkUndoes(part, dir, nodes0, owners0, s0, blocks0, ids0, nodes1, s1, nodes2, s2, entries, parent, p, q, e);
  }

  lemma CreatedParts(part: Partition, dir: Inode, nodes0: map<nat, Node>, s0: seq<Sector>, entries: Entries,
                     parent: word,
                     p: (nat, nat), e: Entry)
    requires Created(part, dir, nodes0, s0, entries, parent, p, e)
    ensures part.Valid() && p !in entries && DirReady(part, dir, entries[p := e], parent) && e.id as nat !in nodes0
    ensures dir.id in nodes0 && dir.id != e.id && DirPlus(nodes0, part.nodes, dir.id, p)
    ensures part.nodes.Keys == nodes0.Keys + {e.id as nat}
    ensures OthersKept(nodes0, s0, part.nodes, part.disk.sectors, {dir.id as nat})
  {
    hide Partition.Valid, DirReady, OthersKept;
  }

  lemma DeletedIsValid(part: Partition, dir: Inode, nodes0: map<nat, Node>, s0: seq<Sector>, entries: Entries,
                       parent: word,
                       p: (nat, nat), ino: word)
    requires Deleted(part, dir, nodes0, s0, entries, parent, p, ino)
    ensures part.Valid()
  {
    hide Partition.Valid, DirReady, OthersKept;
  }

  lemma UnlinkUndoes(part: Partition, dir: Inode, nodes0: map<nat, Node>, owners0: map<nat, Owner>, s0: seq<Sector>,
                     blocks0: seq<bool>, ids0: seq<bool>, nodes1: map<nat, Node>, s1: seq<Sector>,
                     nodes2: map<nat, Node>,
                     s2: seq<Sector>, entries: Entries, parent: word, p: (nat, nat), q: (nat, nat), e: Entry)
    requires OwnersAgree(nodes0, owners0) && BitmapAgrees(blocks0, owners0, part.dataStart, part.blockCount)
    requires IdsAgree(ids0, nodes0.Keys) && |blocks0| == |part.blockMap| && |ids0| == |part.inodeMap|
    requires DirPlus(nodes0, nodes1, dir.id, p) && nodes1.Keys == nodes0.Keys + {e.id as nat} && e.id as nat !in nodes0
    requires OthersKept(nodes0, s0, nodes1, s1, {dir.id as nat}) && OthersKept(nodes1, s1, nodes2, s2, {e.id as nat})
    requires nodes2.Keys == nodes1.Keys && dir.id != e.id && p !in entries
    requires DirOk(nodes0[dir.id], entries, dir.id, parent)
    requires dir.id in nodes2 && DirOk(nodes2[dir.id], entries[p := e], dir.id, parent)
    requires Deleted(part, dir, nodes2, s2, entries[p := e], parent, q, e.id)
    ensures DirReady(part, dir, entries, parent) && part.nodes == nodes0 && part.owners == owners0
    ensures part.blockMap == blocks0 && part.inodeMap == ids0
    ensures OthersKept(nodes0, s0, part.nodes, part.disk.sectors, {dir.id as nat})
  {
    hide Partition.Valid, OwnersAgree, BitmapAgrees, IdsAgree, DirOk, OthersKept, DirReady, NodesMinus, DirPlus;
    NewTarget(nodes0[dir.id], entries, dir.id, parent, p, e);
    TargetUnique(nodes2[dir.id], entries[p := e], dir.id, parent, p, q, e.id);
    assert entries[p := e] - {p} == entries;
    OthersSame(nodes0, s0, nodes1, s1, dir.id);
    OthersSame(nodes1, s1, nodes2, s2, e.id);
    PlusThenMinus(nodes0, nodes1, nodes2, part.nodes, dir.id, e.id, entries, parent, p, e);
    StateParts(part);
    MapsDetermined(nodes0, owners0, part.owners, blocks0, part.blockMap, ids0, part.inodeMap, part.dataStart,
                   part.blockCount);
    KeptThen(nodes0, s0, nodes1, s1, nodes2, s2, {dir.id as nat}, {e.id as nat});
    KeptThen(nodes0, s0, nodes2, s2, part.nodes, part.disk.sectors, {dir.id as nat} + {e.id as nat},
             {dir.id as nat, e.id as nat});
    KeptOld(nodes0, s0, part.nodes, part.disk.sectors, {dir.id as nat} + {e.id as nat} + {dir.id as nat, e.id as nat},
            {dir.id as nat});
  }

  lemma TargetUnique(node: Node, entries: Entries, id: word, parent: word, p: (nat, nat), q: (nat, nat), ino: word)
    requires DirOk(node, entries, id, parent) && Target(entries, p, ino) && Target(entries, q, ino)
    ensures p == q
  {
  }

  lemma StateParts(part: Partition)
    requires part.Valid()
    ensures OwnersAgree(part.nodes, part.owners)
    ensures BitmapAgrees(part.blockMap, part.owners, part.dataStart, part.blockCount)
    ensures IdsAgree(part.inodeMap, part.nodes.Keys) && |part.inodeMap| == BITS_PER_SECTOR && 0 in part.nodes
    ensures |part.blockMap| == BITS_PER_SECTOR * (part.inodeBitmapLba - part.blockBitmapLba)
  {
  }

  /** The new entry is an entry of the new inode. */
  lemma NewTarget(node: Node, entries: Entries, id: word, parent: word, p: (nat, nat), e: Entry)
    requires DirOk(node, entries, id, parent) && p !in entries
    ensures Target(entries[p := e], p, e.id)
  {
  }
}
