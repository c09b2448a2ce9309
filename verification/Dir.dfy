/** fs/c14c_dir.c: looking up, adding, deleting and listing the entries of a directory that stays
    within its 12 direct blocks. */
module Dirs {
  import opened Debug
  import opened Bytes
  import opened Bitmaps
  import opened Ide
  import opened Inodes
  import opened Volumes
  import opened OpenInodes
  import opened FileData
  import opened DirData
  import opened Paths

  /** The open inode of a directory, with the entries its blocks show. */
  ghost predicate Showing(part: Partition, inode: Inode, entries: Entries)
    reads part, part.disk, inode`id, inode`size, inode`blocks
  {
    part.Consistent() && Opened(part, inode) && Shows(part.disk.sectors, part.nodes[inode.id], entries)
  }

  /** all_blocks of a directory without an indirect table. */
  function AllBlocks(blocks: seq<word>): (all: seq<word>)
    requires |blocks| == 13
    ensures |all| == MAX_BLOCKS
  {
    blocks[..12] + Cleared(128)
  }

  lemma BlockShown(part: Partition, inode: Inode, entries: Entries, k: nat)
    requires Showing(part, inode, entries) && k < MAX_BLOCKS
    ensures |inode.blocks| == 13 && |part.disk.sectors| <= MAX_LBA + 1
    ensures k < 12 ==> AllBlocks(inode.blocks)[k] == Block(part.nodes[inode.id], k)
    ensures k >= 12 ==> AllBlocks(inode.blocks)[k] == 0
    ensures AllBlocks(inode.blocks)[k] != 0 ==>
      && AllBlocks(inode.blocks)[k] < |part.disk.sectors|
      && ShowsBlock(part.disk.sectors[AllBlocks(inode.blocks)[k]], entries, k)
    ensures AllBlocks(inode.blocks)[k] == 0 ==> forall p :: p in entries ==> p.0 != k
  {
    hide ShowsBlock, OwnersAgree, BitmapAgrees, IdsAgree;
  }

  /** No entry with this name in front of position (k, i). */
  ghost predicate NotBefore(entries: Entries, name: seq<byte>, k: nat, i: nat) {
    forall p :: p in entries && (p.0 < k || (p.0 == k && p.1 < i)) ==> entries[p].name != name
  }

  /** The inner loop of search_dir_entry. */
  method SearchBlock(buf: Sector, name: seq<byte>, k: nat, ghost entries: Entries) returns (found: bool, e: Entry)
    requires ShowsBlock(buf, entries, k) && name != [] && NotBefore(entries, name, k, 0)
    requires forall p :: p in entries ==> p.1 < PER_SECTOR
    ensures found ==> e.name == name && exists p :: p in entries && entries[p] == e
    ensures !found ==> NotBefore(entries, name, k + 1, 0)
  {
    hide RawAt, DecodeEntry;
    var i := 0;
    while i < PER_SECTOR
      invariant i <= PER_SECTOR && NotBefore(entries, name, k, i)
    {
      e := DecodeEntry(RawAt(buf, i));
      assert ShowsAt(RawAt(buf, i), entries, k, i);
      if e.name == name {
        assert (k, i) in entries && entries[(k, i)] == e;
        return true, e;
      }
      i := i + 1;
    }
    found, e := false, Entry([], 0, 0);
  }

  /** search_dir_entry: looks the name up in the map that the directory shows. */
  method SearchDirEntry(part: Partition, inode: Inode, name: seq<byte>,
                        ghost entries: Entries) returns (found: bool, e: Entry)
    requires Showing(part, inode, entries) && name != []
    ensures found <==> HasName(entries, name)
    ensures found ==> e.name == name && exists p :: p in entries && entries[p] == e
  {
    hide ShowsBlock, AllBlocks;
    assert forall p :: p in entries ==> p.1 < PER_SECTOR && p.0 < MAX_BLOCKS;
    BlockShown(part, inode, entries, 0);
    hide Showing;
    var all := AllBlocks(inode.blocks);
    var k := 0;
    while k < MAX_BLOCKS
      invariant k <= MAX_BLOCKS && NotBefore(entries, name, k, 0)
    {
      BlockShown(part, inode, entries, k);
      if all[k] != 0 {
        var buf := part.disk.ReadSector(all[k]);
        found, e := SearchBlock(buf, name, k, entries);
        if found {
          return;
        }
      }
      k := k + 1;
    }
    found, e := false, Entry([], 0, 0);
  }

  /** An entry the code reads back as it was written. */
  predicate Writable(e: Entry) {
    e.kind != 0 && |e.name| <= 16 && DecodeEntry(EncodeEntry(e)) == e
  }

  /** What sync_dir_entry leaves: one entry more, at an unused place, in a block of the directory that
      may be new. */
  ghost predicate Added(part: Partition, inode: Inode, nodes0: map<nat, Node>, owners0: map<nat, Owner>,
                        s0: seq<Sector>,
                        entries: Entries, p: (nat, nat), e: Entry, stale: set<nat>)
    reads part, part.disk, inode`id, inode`size, inode`blocks
  {
    && Showing(part, inode, entries[p := e]) && part.TablesOnDisk({}) && part.RecordsOnDisk(stale + {inode.id})
    && p !in entries && p.0 < 12 && p.1 < PER_SECTOR
    && inode.id in nodes0 && |nodes0[inode.id].slots| == SLOTS && nodes0[inode.id].size + ENTRY < U32
    && var lba := Block(part.nodes[inode.id], p.0);
      && SameBut(s0, part.disk.sectors, part.inodeBitmapLba, lba)
      && if Block(nodes0[inode.id], p.0) != 0 then
           part.nodes == WithSize(nodes0, inode.id, nodes0[inode.id].size + ENTRY) && part.owners == owners0
         else
           && lba !in owners0 && part.owners == owners0[lba := Owner(inode.id, p.0)] && p.1 == 0
           && part.nodes == WithSize(WithSlot(nodes0, inode.id, p.0, lba), inode.id, nodes0[inode.id].size + ENTRY)
  }

  /** Writing a data block of `id` spoils no table and no other record. */
  lemma DataBlockWritten(s0: seq<Sector>, s1: seq<Sector>, table: nat, start: nat, nodes0: map<nat, Node>,
                         nodes: map<nat, Node>,
                         owners: map<nat, Owner>, id: nat, k: nat, stale: set<nat>)
    requires OwnersAgree(nodes, owners) && TablesIn(s0, nodes, {}) && RecordsIn(s0, table, nodes0, stale)
    requires id in nodes && k < 12 && |nodes[id].slots| == SLOTS && Block(nodes[id], k) != 0
    requires SameBut(s0, s1, table, Block(nodes[id], k)) && table + TABLE_SECTORS <= start
    requires forall l :: l in owners ==> start <= l
    requires nodes.Keys == nodes0.Keys && forall i :: i in nodes0 && i != id ==> nodes[i] == nodes0[i]
    ensures TablesIn(s1, nodes, {}) && RecordsIn(s1, table, nodes, stale + {id})
  {
    var b := Block(nodes[id], k);
    assert b == Slot(nodes, id, k) && owners[b] == Owner(id, k);
    RecordsFrame(s0, s1, table, nodes0, nodes, id, stale);
    forall i | i in nodes ensures TableReadsBack(s1, nodes[i]) {
      var t := Slot(nodes, i, TABLE_SLOT);
      if t != 0 { assert owners[t] == Owner(i, TABLE_SLOT); }
    }
  }

  /** Changing the size or a direct slot of an inode leaves the tables as they are. */
  lemma TablesDirect(sectors: seq<Sector>, nodes: map<nat, Node>, id: nat, k: nat, l: word, size: word)
    requires TablesIn(sectors, nodes, {}) && id in nodes && k < 12 && |nodes[id].slots| == SLOTS
    ensures TablesIn(sectors, WithSize(nodes, id, size), {})
    ensures TablesIn(sectors, WithSize(WithSlot(nodes, id, k, l), id, size), {})
  {
    var n := nodes[id].slots[k := l];
    assert n[13..] == nodes[id].slots[13..];
  }

  lemma BlockInData(part: Partition, inode: Inode, k: nat)
    requires part.Consistent() && Opened(part, inode) && k < 12 && |inode.blocks| == 13 && inode.blocks[k] != 0
    ensures part.dataStart <= inode.blocks[k]
  {
    hide BlocksSynced;
    assert inode.blocks[k] == Slot(part.nodes, inode.id, k);
  }

  lemma EntryPut(sectors: seq<Sector>, nodes: map<nat, Node>, owners: map<nat, Owner>, id: nat, size: word,
                 entries: Entries,
                 k: nat, i: nat, e: Entry)
    requires OwnersAgree(nodes, owners) && id in nodes && Shows(sectors, nodes[id], entries) && Writable(e)
    requires k < 12 && i < PER_SECTOR && Block(nodes[id], k) != 0
    ensures var b := Block(nodes[id], k);
      && b < |sectors|
      && Shows(sectors[b := PutRaw(sectors[b], i, EncodeEntry(e))], WithSize(nodes, id, size)[id], entries[(k, i) := e])
  {
    hide RawAt, PutRaw, EncodeEntry, DecodeEntry, ShowsBlock;
    var b := Block(nodes[id], k);
    OwnedSeparate(nodes, owners, id);
    ShowsPut(sectors, nodes[id], entries, k, i, EncodeEntry(e), entries[(k, i) := e]);
    SizeDoesNotShow(sectors[b := PutRaw(sectors[b], i, EncodeEntry(e))], nodes[id], entries[(k, i) := e], size);
  }

  /** Writing a block of the directory and giving the inode its new size. */
  method StoreBlock(part: Partition, inode: Inode, lba: word, sector: Sector, size: word)
    requires part.Consistent() && Opened(part, inode) && part.dataStart <= lba < |part.disk.sectors|
    modifies part.disk, part`nodes, inode`size
    ensures part.Consistent() && Opened(part, inode) && inode.size == size
    ensures part.disk.sectors == old(part.disk.sectors)[lba := sector]
    ensures part.nodes == WithSize(old(part.nodes), inode.id, size)
  {
    hide OwnersAgree, BitmapAgrees, IdsAgree, BlocksSynced, InodesSynced;
    WriteBlock(part, lba, sector);
    inode.size := size;
    part.Resize(inode.id, size);
  }

  /** An unused entry of a block takes the new one. */
  method FillEntry(part: Partition, inode: Inode, k: nat, i: nat, buf: Sector, e: Entry, ghost entries: Entries,
                   ghost stale: set<nat>)
    requires Showing(part, inode, entries) && part.TablesOnDisk({}) && part.RecordsOnDisk(stale) && Writable(e)
    requires k < 12 && i < PER_SECTOR && (k, i) !in entries && inode.size + ENTRY < U32
    requires |inode.blocks| == 13 && inode.blocks[k] != 0
    requires inode.blocks[k] < |part.disk.sectors| && buf == part.disk.sectors[inode.blocks[k]]
    modifies part.disk, part`nodes, inode`size
    ensures Added(part, inode, old(part.nodes), part.owners, old(part.disk.sectors), entries, (k, i), e, stale)
    ensures inode.size == old(inode.size) + ENTRY
  {
    hide Partition.Consistent, OwnersAgree, TablesIn, RecordsIn, Shows, PutRaw, EncodeEntry, DecodeEntry;
    ghost var nodes0, s0, size := part.nodes, part.disk.sectors, inode.size + ENTRY;
    OpenedRecord(part, inode);
    EntryPut(s0, nodes0, part.owners, inode.id, size, entries, k, i, e);
    TablesDirect(s0, nodes0, inode.id, k, 0, size);
    BlockInData(part, inode, k);
    StoreBlock(part, inode, inode.blocks[k], PutRaw(buf, i, EncodeEntry(e)), inode.size + ENTRY);
    assert Block(part.nodes[inode.id], k) == Block(nodes0[inode.id], k);
    OpenedRecord(part, inode);
    DataBlockWritten(s0, part.disk.sectors, part.inodeTableLba, part.dataStart, nodes0, part.nodes, part.owners,
                     inode.id, k, stale);
  }

  lemma EntryGrown(s0: seq<Sector>, s1: seq<Sector>, nodes: map<nat, Node>, owners: map<nat, Owner>, id: nat,
                   size: word,
                   entries: Entries, k: nat, lba: word, e: Entry, from: nat)
    requires OwnersAgree(nodes, owners) && id in nodes && Shows(s0, nodes[id], entries) && Writable(e)
    requires k < 12 && Slot(nodes, id, k) == 0 && 0 < lba < |s0| && lba !in owners
    requires SameFrom(s0, s1, from) && forall l :: l in owners ==> from <= l
    ensures |nodes[id].slots| == SLOTS
    ensures Shows(s1[lba := PutRaw(BlankSector(), 0, EncodeEntry(e))],
                  WithSize(WithSlot(nodes, id, k, lba), id, size)[id],
                  entries[(k, 0) := e])
  {
    hide RawAt, PutRaw, EncodeEntry, DecodeEntry, ShowsBlock;
    forall j | 0 <= j < 12 ensures Block(nodes[id], j) == Slot(nodes, id, j) {}
    ShowsFrame(s0, s1, nodes[id], entries);
    ShowsGrow(s1, nodes[id], entries, k, lba, e);
    SizeDoesNotShow(s1[lba := PutRaw(BlankSector(), 0, EncodeEntry(e))], WithSlot(nodes, id, k, lba)[id],
                    entries[(k, 0) := e], size);
  }

  lemma NoEntriesYet(sectors: seq<Sector>, node: Node, entries: Entries, k: nat, i: nat)
    requires Shows(sectors, node, entries) && k < 12 && Block(node, k) == 0
    ensures (k, i) !in entries
  {
    if (k, i) in entries { assert false; }
  }

  /** Allocating direct block `k`. */
  method NewBlock(part: Partition, inode: Inode, k: nat) returns (halted: bool, lba: word)
    requires part.Consistent() && Opened(part, inode) && k < 12 && |inode.blocks| == 13 && inode.blocks[k] == 0
    modifies part.disk, part`nodes, part`owners, part`blockMap, inode`blocks
    ensures halted <==> old(part.FreeBlocks()) == {}
    ensures !halted ==> part.Consistent() && Opened(part, inode) && lba !in old(part.owners)
    ensures !halted ==> 0 < part.dataStart <= lba < |part.disk.sectors|
    ensures !halted ==> part.nodes == WithSlot(old(part.nodes), inode.id, k, lba)
    ensures !halted ==> part.owners == old(part.owners)[lba := Owner(inode.id, k)]
    ensures !halted ==> SameFrom(old(part.disk.sectors), part.disk.sectors, part.inodeBitmapLba)
    ensures !halted ==> |part.FreeBlocks()| == |old(part.FreeBlocks())| - 1
  {
    hide OwnersAgree, BitmapAgrees, IdsAgree, FreeIn;
    assert Slot(part.nodes, inode.id, k) == inode.blocks[k];
    halted, lba := part.AllocSynced(inode.id, k);
    if !halted {
      inode.blocks := inode.blocks[k := lba];
    }
  }

  /** A missing block is allocated and starts with the new entry. */
  method GrowEntry(part: Partition, inode: Inode, k: nat, e: Entry, ghost entries: Entries,
                   ghost stale: set<nat>) returns (halted: bool)
    requires Showing(part, inode, entries) && part.TablesOnDisk({}) && part.RecordsOnDisk(stale) && Writable(e)
    requires k < 12 && inode.size + ENTRY < U32 && |inode.blocks| == 13 && inode.blocks[k] == 0
    modifies part.disk, part`nodes, part`owners, part`blockMap, inode`size, inode`blocks
    ensures halted <==> old(part.FreeBlocks()) == {}
    ensures !halted ==>
      Added(part, inode, old(part.nodes), old(part.owners), old(part.disk.sectors), entries, (k, 0), e, stale)
    ensures !halted ==> inode.size == old(inode.size) + ENTRY && |part.FreeBlocks()| == |old(part.FreeBlocks())| - 1
  {
    hide Partition.Consistent, OwnersAgree, TablesIn, RecordsIn, Shows, PutRaw, EncodeEntry, DecodeEntry, FreeIn;
    ghost var nodes0, owners0, s0, size := part.nodes, part.owners, part.disk.sectors, inode.size + ENTRY;
    OpenedRecord(part, inode);
    var lba;
    halted, lba := NewBlock(part, inode, k);
    if halted {
      return;
    }
    ghost var s1 := part.disk.sectors;
    NoEntriesYet(s0, nodes0[inode.id], entries, k, 0);
    TableBeforeData(part);
    EntryGrown(s0, s1, nodes0, owners0, inode.id, size, entries, k, lba, e, part.inodeBitmapLba);
    TablesDirect(s0, nodes0, inode.id, k, lba, size);
    StoreBlock(part, inode, lba, PutRaw(BlankSector(), 0, EncodeEntry(e)), inode.size + ENTRY);
    OpenedRecord(part, inode);
    DataBlockWritten(s0, part.disk.sectors, part.inodeTableLba, part.dataStart, nodes0, part.nodes, part.owners,
                     inode.id, k, stale);
  }

  lemma TableBeforeData(part: Partition)
    requires part.Consistent()
    ensures part.inodeBitmapLba < part.inodeTableLba <= part.dataStart
    ensures forall l :: l in part.owners ==> part.dataStart <= l
  {
  }

  /** Some place in the 12 direct blocks is unused. */
  ghost predicate HasRoom(entries: Entries) {
    exists p: (nat, nat) :: p.0 < 12 && p.1 < PER_SECTOR && p !in entries
  }

  /** The inner loop of sync_dir_entry: the first unused entry of a block, or 21. */
  method FirstUnused(buf: Sector, k: nat, ghost entries: Entries) returns (i: nat)
    requires ShowsBlock(buf, entries, k)
    ensures i <= PER_SECTOR && (i < PER_SECTOR ==> (k, i) !in entries) && forall j :: 0 <= j < i ==> (k, j) in entries
  {
    hide RawAt;
    i := 0;
    while i < PER_SECTOR
      invariant i <= PER_SECTOR && forall j :: 0 <= j < i ==> (k, j) in entries
    {
      assert ShowsAt(RawAt(buf, i), entries, k, i);
      if DecodeEntry(RawAt(buf, i)).kind == 0 {
        return;
      }
      i := i + 1;
    }
  }

  /** Every place in front of block `k` is used. */
  ghost predicate FullBefore(entries: Entries, k: nat) {
    forall p: (nat, nat) :: p.0 < k && p.1 < PER_SECTOR ==> p in entries
  }

  /** Every place in front of `p` is used. */
  ghost predicate FirstPlace(entries: Entries, p: (nat, nat)) {
    forall q: (nat, nat) :: q.1 < PER_SECTOR && (q.0 < p.0 || (q.0 == p.0 && q.1 < p.1)) ==> q in entries
  }

  /** The first unused place is in a block that is missing. */
  ghost predicate NeedsBlock(node: Node, entries: Entries)
    requires |node.slots| == SLOTS
  {
    forall p: (nat, nat) :: p !in entries && p.0 < 12 && p.1 < PER_SECTOR && FirstPlace(entries, p) ==>
      Block(node, p.0) == 0
  }

  lemma FirstPlaceDecides(node: Node, entries: Entries, p: (nat, nat))
    requires |node.slots| == SLOTS && p !in entries && p.0 < 12 && p.1 < PER_SECTOR && FirstPlace(entries, p)
    ensures NeedsBlock(node, entries) <==> Block(node, p.0) == 0
  {
    forall q: (nat, nat) | q !in entries && q.0 < 12 && q.1 < PER_SECTOR && FirstPlace(entries, q) ensures q == p {}
  }

  /** Blocks a new entry takes. */
  ghost function Extra(node: Node, entries: Entries): nat
    requires |node.slots| == SLOTS
  {
    if NeedsBlock(node, entries) then 1 else 0
  }

  /** The search of sync_dir_entry: the first block that is missing or has an unused entry. */
  method FindPlace(part: Partition, inode: Inode, ghost entries: Entries) returns (k: nat, i: nat, buf: Sector)
    requires Showing(part, inode, entries) && HasRoom(entries)
    ensures k < 12 && i < PER_SECTOR && (k, i) !in entries && FirstPlace(entries, (k, i)) && |inode.blocks| == 13
    ensures inode.id in part.nodes && |part.nodes[inode.id].slots| == SLOTS
    ensures NeedsBlock(part.nodes[inode.id], entries) <==> inode.blocks[k] == 0
    ensures inode.blocks[k] != 0 ==> inode.blocks[k] < |part.disk.sectors| && buf == part.disk.sectors[inode.blocks[k]]
    ensures inode.blocks[k] == 0 ==> i == 0
  {
    hide Showing, ShowsBlock, AllBlocks, NeedsBlock, FirstPlace;
    k, i, buf := ScanPlaces(part, inode, entries);
    FirstPlaceSays(part, inode, entries, (k, i));
  }

  lemma FirstPlaceSays(part: Partition, inode: Inode, entries: Entries, p: (nat, nat))
    requires Showing(part, inode, entries) && p !in entries && p.0 < 12 && p.1 < PER_SECTOR && FirstPlace(entries, p)
    ensures inode.id in part.nodes && |part.nodes[inode.id].slots| == SLOTS && |inode.blocks| == 13
    ensures NeedsBlock(part.nodes[inode.id], entries) <==> inode.blocks[p.0] == 0
  {
    hide NeedsBlock, FirstPlace, Shows, Partition.Consistent;
    FirstPlaceDecides(part.nodes[inode.id], entries, p);
  }

  method ScanPlaces(part: Partition, inode: Inode, ghost entries: Entries) returns (k: nat, i: nat, buf: Sector)
    requires Showing(part, inode, entries) && HasRoom(entries)
    ensures k < 12 && i < PER_SECTOR && (k, i) !in entries && FirstPlace(entries, (k, i)) && |inode.blocks| == 13
    ensures inode.blocks[k] != 0 ==> inode.blocks[k] < |part.disk.sectors| && buf == part.disk.sectors[inode.blocks[k]]
    ensures inode.blocks[k] == 0 ==> i == 0
  {
    hide Showing, ShowsBlock, AllBlocks;
    BlockShown(part, inode, entries, 0);
    var all := AllBlocks(inode.blocks);
    buf := BlankSector();
    k, i := 0, 0;
    while k < MAX_BLOCKS
      invariant k < 12 && i == 0 && FullBefore(entries, k)
    {
      BlockShown(part, inode, entries, k);
      DirectBlock(inode.blocks, k);
      if all[k] == 0 {
        return;
      }
      buf := part.disk.ReadSector(all[k]);
      i := FirstUnused(buf, k, entries);
      if i < PER_SECTOR {
        return;
      }
      k, i := k + 1, 0;
    }
  }

  /** sync_dir_entry: the entry goes to the first unused place, or into a new block. */
  method SyncDirEntry(part: Partition, inode: Inode, e: Entry, ghost entries: Entries, ghost stale: set<nat>)
    returns (halted: bool, ghost p: (nat, nat))
    requires Showing(part, inode, entries) && part.TablesOnDisk({}) && part.RecordsOnDisk(stale) && Writable(e)
    requires inode.size + ENTRY < U32 && inode.size % ENTRY == 0 && HasRoom(entries)
    modifies part.disk, part`nodes, part`owners, part`blockMap, inode`size, inode`blocks
    ensures inode.id in old(part.nodes) && |old(part.nodes)[inode.id].slots| == SLOTS
    ensures halted <==> old(part.FreeBlocks()) == {} && NeedsBlock(old(part.nodes)[inode.id], entries)
    ensures !halted ==>
      Added(part, inode, old(part.nodes), old(part.owners), old(part.disk.sectors), entries, p, e, stale)
    ensures !halted ==> p !in entries && FirstPlace(entries, p) && inode.size == old(inode.size) + ENTRY
    ensures !halted ==> |part.FreeBlocks()| == |old(part.FreeBlocks())| - Extra(old(part.nodes)[inode.id], entries)
  {
    hide Showing, Writable, Added, FreeIn, FirstPlace, NeedsBlock;
    p := (0, 0);
    if inode.size % ENTRY != 0 {  // ASSERT
      return true, p;
    }
    var k, i, buf := FindPlace(part, inode, entries);
    p := (k, i);
    if inode.blocks[k] == 0 {
      halted := GrowEntry(part, inode, k, e, entries, stale);
    } else {
      FillEntry(part, inode, k, i, buf, e, entries, stale);
      halted := false;
    }
  }

  lemma DirectBlock(blocks: seq<word>, k: nat)
    requires |blocks| == 13 && k < 12
    ensures AllBlocks(blocks)[k] == blocks[k]
  {
  }

  /** `.` and `..` are where they belong and nowhere else, and inode numbers are unique. */
  ghost predicate Ordered(entries: Entries) {
    && (forall p :: p in entries ==>
          (entries[p].name == DOT <==> p == (0, 0)) && (entries[p].name == DOTDOT <==> p == (0, 1)))
    && (0, 0) in entries && (0, 1) in entries
    && forall p, q :: p in entries && q in entries && !Dot(p) && !Dot(q) && entries[p].id == entries[q].id ==> p == q
  }

  lemma OkIsOrdered(node: Node, entries: Entries, id: word, parent: word)
    requires DirOk(node, entries, id, parent)
    ensures Ordered(entries)
  {
  }

  /** The entry of inode `ino`. */
  predicate Target(entries: Entries, p: (nat, nat), ino: word) {
    p in entries && !Dot(p) && entries[p].id == ino
  }

  /** Some entry but the dots names inode `ino`. */
  ghost predicate Mentions(entries: Entries, ino: word) {
    exists q :: Target(entries, q, ino)
  }

  /** Live entries, other than the dots, among the first `n` of block `k`. */
  function Count(entries: Entries, k: nat, n: nat): nat {
    if n == 0 then 0 else Count(entries, k, n - 1) + if (k, n - 1) in entries && !Dot((k, n - 1)) then 1 else 0
  }

  lemma CountOne(entries: Entries, k: nat, n: nat, i: nat)
    requires i < n && (k, i) in entries && !Dot((k, i))
    ensures Count(entries, k, n) >= 1
    ensures Count(entries, k, n) == 1 <==> forall j :: 0 <= j < n && (k, j) in entries && !Dot((k, j)) ==> j == i
  {
    if i == n - 1 {
      CountNone(entries, k, n - 1);
    } else {
      CountOne(entries, k, n - 1, i);
    }
  }

  lemma CountNone(entries: Entries, k: nat, n: nat)
    ensures Count(entries, k, n) == 0 <==> forall j :: 0 <= j < n && (k, j) in entries ==> Dot((k, j))
  {
  }

  /** The inner loop of delete_dir_entry: which entry is meant (21: none), how many there are, and
      whether this is the first block of the directory. */
  method ScanBlock(buf: Sector, k: nat, ino: word, ghost entries: Entries)
    returns (halted: bool, found: nat, count: nat, first: bool)
    requires ShowsBlock(buf, entries, k) && Ordered(entries)
    ensures !halted && count == Count(entries, k, PER_SECTOR) && (first <==> k == 0)
    ensures found <= PER_SECTOR && (found < PER_SECTOR ==> Target(entries, (k, found), ino))
    ensures found == PER_SECTOR ==> forall j :: 0 <= j < PER_SECTOR ==> !Target(entries, (k, j), ino)
  {
    hide RawAt, DecodeEntry;
    found, count, first := PER_SECTOR, 0, false;
    var i := 0;
    while i < PER_SECTOR
      invariant i <= PER_SECTOR && count == Count(entries, k, i) && (first <==> k == 0 && i > 0)
      invariant found == PER_SECTOR || (found < i && Target(entries, (k, found), ino))
      invariant found == PER_SECTOR ==> forall j :: 0 <= j < i ==> !Target(entries, (k, j), ino)
    {
      var e := DecodeEntry(RawAt(buf, i));
      assert ShowsAt(RawAt(buf, i), entries, k, i);
      if e.kind != 0 {
        if e.name == DOT {
          first := true;
        } else if e.name != DOTDOT {
          count := count + 1;
          if e.id == ino {
            if found != PER_SECTOR {  // ASSERT
              return true, found, count, first;
            }
            found := i;
          }
        }
      }
      i := i + 1;
    }
    halted := false;
  }

  /** The outer loop of delete_dir_entry, up to the block of the entry; block 140 means there is none. */
  method FindTarget(part: Partition, inode: Inode, ino: word, ghost entries: Entries)
    returns (halted: bool, k: nat, i: nat, count: nat, first: bool, buf: Sector)
    requires Showing(part, inode, entries) && Ordered(entries)
    ensures !halted && |inode.blocks| == 13
    ensures k == MAX_BLOCKS ==> forall p :: !Target(entries, p, ino)
    ensures k != MAX_BLOCKS ==> k < 12 && i < PER_SECTOR && Target(entries, (k, i), ino) && (first <==> k == 0)
    ensures k != MAX_BLOCKS ==> count == Count(entries, k, PER_SECTOR)
    ensures k != MAX_BLOCKS ==> 0 < inode.blocks[k] < |part.disk.sectors| && buf == part.disk.sectors[inode.blocks[k]]
  {
    EntriesInBlocks(part, inode, entries);
    hide Showing, ShowsBlock, AllBlocks, Ordered;
    BlockShown(part, inode, entries, 0);
    var all := AllBlocks(inode.blocks);
    buf, count, first, halted := BlankSector(), 0, false, false;
    k, i := 0, PER_SECTOR;
    while k < MAX_BLOCKS
      invariant k <= MAX_BLOCKS && !halted
      invariant forall p: (nat, nat) :: p.0 < k ==> !Target(entries, p, ino)
    {
      BlockShown(part, inode, entries, k);
      if all[k] != 0 {
        buf := part.disk.ReadSector(all[k]);
        halted, i, count, first := ScanBlock(buf, k, ino, entries);
        if halted {
          return;
        }
        if i < PER_SECTOR {
          DirectBlock(inode.blocks, k);
          return;
        }
      }
      k := k + 1;
    }
  }

  lemma EntriesInBlocks(part: Partition, inode: Inode, entries: Entries)
    requires Showing(part, inode, entries)
    ensures forall p :: p in entries ==> p.0 < 12 && p.1 < PER_SECTOR
  {
  }

  /** Whether the entry at `p` is alone in a block that is not the first. */
  ghost predicate Alone(entries: Entries, p: (nat, nat)) {
    p.0 != 0 && forall q :: q in entries && q.0 == p.0 ==> q == p
  }

  lemma CountSaysAlone(entries: Entries, p: (nat, nat))
    requires p in entries && !Dot(p) && forall q :: q in entries ==> q.1 < PER_SECTOR
    ensures Count(entries, p.0, PER_SECTOR) >= 1
    ensures Count(entries, p.0, PER_SECTOR) == 1 && p.0 != 0 <==> Alone(entries, p)
  {
    CountOne(entries, p.0, PER_SECTOR, p.1);
    if Count(entries, p.0, PER_SECTOR) == 1 && p.0 != 0 {
      forall q | q in entries && q.0 == p.0 ensures q == p {
        assert q == (p.0, q.1);
      }
    }
  }

  /** The inodes and owners after the entry at `p` of directory `id` is gone. */
  ghost predicate Without(nodes0: map<nat, Node>, owners0: map<nat, Owner>, nodes: map<nat, Node>,
                          owners: map<nat, Owner>,
                          id: nat, entries: Entries, p: (nat, nat))
  {
    && id in nodes0 && |nodes0[id].slots| == SLOTS && p.0 < 12 && nodes0[id].size >= ENTRY
    && if Alone(entries, p) then
         && nodes == WithSize(WithSlot(nodes0, id, p.0, 0), id, nodes0[id].size - ENTRY)
         && owners == owners0 - {Block(nodes0[id], p.0) as nat}
       else nodes == WithSize(nodes0, id, nodes0[id].size - ENTRY) && owners == owners0
  }

  /** What delete_dir_entry leaves. */
  ghost predicate Removed(part: Partition, inode: Inode, nodes0: map<nat, Node>, owners0: map<nat, Owner>,
                          s0: seq<Sector>,
                          entries: Entries, p: (nat, nat))
    reads part, part.disk, inode`id, inode`size, inode`blocks
  {
    && part.Valid() && Showing(part, inode, entries - {p})
    && Without(nodes0, owners0, part.nodes, part.owners, inode.id, entries, p)
    && SameBut(s0, part.disk.sectors, part.dataStart, Block(nodes0[inode.id], p.0))
  }

  lemma EntryErased(sectors: seq<Sector>, nodes: map<nat, Node>, owners: map<nat, Owner>, id: nat, entries: Entries,
                    k: nat, i: nat)
    requires OwnersAgree(nodes, owners) && id in nodes && Shows(sectors, nodes[id], entries)
    requires k < 12 && i < PER_SECTOR && Block(nodes[id], k) != 0
    ensures Block(nodes[id], k) < |sectors|
    ensures var b := Block(nodes[id], k);
      Shows(sectors[b := PutRaw(sectors[b], i, Zeros(ENTRY))], nodes[id], entries - {(k, i)})
  {
    hide RawAt, PutRaw, ShowsBlock;
    OwnedSeparate(nodes, owners, id);
    BlankEntries(i);
    ShowsPut(sectors, nodes[id], entries, k, i, Zeros(ENTRY), entries - {(k, i)});
  }

  /** Clearing an entry inside a block that stays. */
  method EraseEntry(part: Partition, inode: Inode, k: nat, i: nat, buf: Sector, ghost entries: Entries)
    requires Showing(part, inode, entries) && part.TablesOnDisk({}) && part.RecordsOnDisk({})
    requires k < 12 && i < PER_SECTOR && |inode.blocks| == 13 && inode.blocks[k] != 0
    requires inode.blocks[k] < |part.disk.sectors| && buf == part.disk.sectors[inode.blocks[k]]
    modifies part.disk
    ensures Showing(part, inode, entries - {(k, i)}) && part.TablesOnDisk({}) && part.RecordsOnDisk({inode.id})
    ensures SameBut(old(part.disk.sectors), part.disk.sectors, 0, inode.blocks[k])
    ensures old(part.InodesOnDisk()) ==> part.InodesOnDisk()
  {
    hide OwnersAgree, BitmapAgrees, IdsAgree, TablesIn, RecordsIn, Shows, PutRaw, BlocksSynced, InodesSynced;
    ghost var s0 := part.disk.sectors;
    OpenedRecord(part, inode);
    EntryErased(s0, part.nodes, part.owners, inode.id, entries, k, i);
    BlockInData(part, inode, k);
    WriteBlock(part, inode.blocks[k], PutRaw(buf, i, Zeros(ENTRY)));
    DataBlockWritten(s0, part.disk.sectors, part.inodeTableLba, part.dataStart, part.nodes, part.nodes, part.owners,
                     inode.id, k, {});
    assert {} + {inode.id as nat} == {inode.id as nat};
  }

  lemma BlockDropped(s0: seq<Sector>, s1: seq<Sector>, nodes: map<nat, Node>, owners: map<nat, Owner>, id: nat,
                     entries: Entries,
                     p: (nat, nat), from: nat)
    requires OwnersAgree(nodes, owners) && id in nodes && Shows(s0, nodes[id], entries) && p.0 < 12 && Alone(entries, p)
    requires TablesIn(s0, nodes, {}) && SameFrom(s0, s1, from) && forall l :: l in owners ==> from <= l
    ensures |nodes[id].slots| == SLOTS && Shows(s1, WithSlot(nodes, id, p.0, 0)[id], entries - {p})
    ensures TablesIn(s1, WithSlot(nodes, id, p.0, 0), {})
  {
    hide ShowsBlock;
    forall j | 0 <= j < 12 ensures Block(nodes[id], j) == Slot(nodes, id, j) {}
    ShowsFrame(s0, s1, nodes[id], entries);
    ShowsShrink(s1, nodes[id], entries, p.0, entries - {p});
    TablesFrame(s0, s1, nodes, owners, from, {});
    TablesDirect(s1, nodes, id, p.0, 0, nodes[id].size);
    assert WithSize(WithSlot(nodes, id, p.0, 0), id, nodes[id].size) == WithSlot(nodes, id, p.0, 0);
  }

  /** Giving back the block of an entry that is alone in it. */
  method DropBlock(part: Partition, inode: Inode, k: nat, ghost i: nat, ghost entries: Entries)
    requires Showing(part, inode, entries) && part.TablesOnDisk({}) && part.RecordsOnDisk({})
    requires 1 <= k < 12 && |inode.blocks| == 13 && inode.blocks[k] != 0 && Alone(entries, (k, i))
    modifies part.disk, part`nodes, part`owners, part`blockMap, inode`blocks
    ensures Showing(part, inode, entries - {(k, i)}) && part.TablesOnDisk({}) && part.RecordsOnDisk({inode.id})
    ensures part.nodes == WithSlot(old(part.nodes), inode.id, k, 0)
    ensures part.owners == old(part.owners) - {old(inode.blocks[k]) as nat}
    ensures SameFrom(old(part.disk.sectors), part.disk.sectors, part.inodeBitmapLba)
    ensures old(part.InodesOnDisk()) ==> part.InodesOnDisk()
  {
    hide BitmapAgrees, IdsAgree, TablesIn, RecordsIn, Shows, Alone, BlocksSynced, InodesSynced;
    ghost var nodes0, owners0, s0 := part.nodes, part.owners, part.disk.sectors;
    var lba := inode.blocks[k];
    assert lba == Slot(nodes0, inode.id, k) && owners0[lba] == Owner(inode.id, k);
    assert lba != part.dataStart by { assert owners0[part.dataStart] == Owner(0, 0); }
    hide OwnersAgree;
    OpenedRecord(part, inode);
    TableBeforeData(part);
    part.FreeSynced(lba);
    if InodesSynced(s0, part.inodeBitmapLba, part.inodeMap) {
      InodesKept(part, s0);
    }
    inode.blocks := inode.blocks[k := 0];
    BlockDropped(s0, part.disk.sectors, nodes0, owners0, inode.id, entries, (k, i), part.inodeBitmapLba);
    RecordsFrame(s0, part.disk.sectors, part.inodeTableLba, nodes0, part.nodes, inode.id, {});
    assert {} + {inode.id as nat} == {inode.id as nat};
  }

  /** The end of delete_dir_entry: one entry less, and the inode goes to the disk. */
  method CountDown(part: Partition, inode: Inode, ghost entries: Entries)
    requires Showing(part, inode, entries) && part.TablesOnDisk({}) && part.RecordsOnDisk({inode.id})
    requires part.InodesOnDisk() && inode.size >= ENTRY
    modifies part.disk, part`nodes, inode`size
    ensures part.Valid() && Showing(part, inode, entries)
    ensures part.nodes == WithSize(old(part.nodes), inode.id, inode.size)
    ensures inode.size == old(inode.size) - ENTRY && SameFrom(old(part.disk.sectors), part.disk.sectors, part.dataStart)
  {
    hide Partition.Consistent, OwnersAgree, TablesIn, RecordsIn, Shows, InodesSynced;
    ghost var nodes0, s0, id := part.nodes, part.disk.sectors, inode.id;
    OpenedRecord(part, inode);
    TablesDirect(s0, nodes0, id, 0, 0, inode.size - ENTRY);
    inode.size := inode.size - ENTRY;
    part.Resize(id, inode.size);
    RecordsResized(s0, part.inodeTableLba, nodes0, id, inode.size);
    ghost var none: set<nat> := {};
    assert none + {inode.id as nat} == {inode.id as nat} && none - {inode.id as nat} == none;
    SyncInode(part, inode, none);
    SizeDoesNotShow(s0, nodes0[id], entries, inode.size);
    OpenedRecord(part, inode);
    DirBlocksFrame(s0, part.disk.sectors, part.nodes, part.owners, id, entries, part.dataStart);
  }

  lemma RecordsResized(sectors: seq<Sector>, table: nat, nodes: map<nat, Node>, id: nat, size: word)
    requires RecordsIn(sectors, table, nodes, {id}) && id in nodes
    ensures RecordsIn(sectors, table, WithSize(nodes, id, size), {id})
  {
  }

  lemma DirBlocksFrame(s0: seq<Sector>, s1: seq<Sector>, nodes: map<nat, Node>, owners: map<nat, Owner>, id: nat,
                       entries: Entries, from: nat)
    requires OwnersAgree(nodes, owners) && id in nodes && Shows(s0, nodes[id], entries) && SameFrom(s0, s1, from)
    requires forall l :: l in owners ==> from <= l
    ensures Shows(s1, nodes[id], entries)
  {
    hide ShowsBlock;
    forall j | 0 <= j < 12 ensures Block(nodes[id], j) == Slot(nodes, id, j) {}
    ShowsFrame(s0, s1, nodes[id], entries);
  }

  /** delete_dir_entry: the entry of inode `ino` goes, with its block when it was alone there. */
  method DeleteDirEntry(part: Partition, inode: Inode, ino: word,
                        ghost entries: Entries) returns (halted: bool, found: bool, ghost p: (nat, nat))
    requires part.Valid() && Showing(part, inode, entries) && Ordered(entries) && inode.size >= ENTRY * |entries|
    modifies part.disk, part`nodes, part`owners, part`blockMap, inode`size, inode`blocks
    ensures !halted && (found <==> Mentions(entries, ino))
    ensures !found ==> unchanged(part, part.disk, inode)
    ensures found ==> Target(entries, p, ino)
    ensures found ==> Removed(part, inode, old(part.nodes), old(part.owners), old(part.disk.sectors), entries, p)
  {
    hide Partition.Consistent, TablesIn, RecordsIn, Shows, Ordered, Alone, InodesSynced;
    ghost var nodes0, owners0, s0 := part.nodes, part.owners, part.disk.sectors;
    p := (0, 0);
    var k, i, count, first, buf;
    halted, k, i, count, first, buf := FindTarget(part, inode, ino, entries);
    if k == MAX_BLOCKS {
      return false, false, p;
    }
    p, found := (k, i), true;
    EntriesInBlocks(part, inode, entries);
    TableBeforeData(part);
    CountSaysAlone(entries, p);
    ghost var lba := inode.blocks[k];
    assert lba == Block(nodes0[inode.id], k);
    if count == 1 && !first {
      DropBlock(part, inode, k, i, entries);
    } else {
      EraseEntry(part, inode, k, i, buf, entries);
    }
    CountDown(part, inode, entries - {p});
  }
}
