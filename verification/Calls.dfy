/** fs/c14a_fs.c: the calls that change the tree of directories, as steps of the tree a partition shows. */
module Calls {
  import opened Debug
  import opened Bytes
  import opened Bitmaps
  import opened Ide
  import opened Inodes
  import opened Volumes
  import opened OpenInodes
  import opened FileData
  import opened Files
  import opened DirData
  import opened Dirs
  import opened Caches
  import opened Names
  import opened NameMaps
  import opened RoundTrips
  import opened MakeDirs
  import opened Paths
  import opened Trees
  import opened TreeSteps
  import opened DiskTrees

  /** Directories that a call left alone show what they showed. */
  lemma StillDisplayed(s0: seq<Sector>, nodes0: map<nat, Node>, s1: seq<Sector>, nodes1: map<nat, Node>, dirs: Listings,
                       ids: set<nat>,
                       d: nat)
    requires AllDisplayed(s0, nodes0, dirs) && OthersKept(nodes0, s0, nodes1, s1, ids) && d in dirs && d !in ids
    ensures d in nodes0 && Displays(s1, nodes1, d, dirs[d]) && nodes1[d] == nodes0[d]
  {
    hide Shows, DirOk, OthersKept;
    assert Displays(s0, nodes0, d, dirs[d]);
    KeptShows(nodes0, s0, nodes1, s1, ids, d, dirs[d]);
  }

  lemma OneDisplayed(s0: seq<Sector>, nodes0: map<nat, Node>, s1: seq<Sector>, nodes1: map<nat, Node>, dirs: Listings,
                     d: nat, entries: Entries)
    requires AllDisplayed(s0, nodes0, dirs) && OthersKept(nodes0, s0, nodes1, s1, {d})
    requires Displays(s1, nodes1, d, entries)
    ensures AllDisplayed(s1, nodes1, dirs[d := entries])
  {
    hide Displays, OthersKept;
    var after := dirs[d := entries];
    forall x | x in after ensures Displays(s1, nodes1, x, after[x]) {
      if x != d {
        StillDisplayed(s0, nodes0, s1, nodes1, dirs, {d}, x);
      }
    }
  }

  lemma SoleAdded(nodes: map<nat, Node>, dirs: Listings, d: nat, p: (nat, nat), e: Entry)
    requires AllAllocated(nodes, dirs) && SoleEntries(dirs) && d in dirs && e.id as nat !in nodes && p !in dirs[d]
    ensures SoleEntries(dirs[d := dirs[d][p := e]])
  {
    var after: Listings := dirs[d := dirs[d][p := e]];
    forall x: nat, y: nat, q: (nat, nat), r: (nat, nat) ensures OneOrOther(after, x, q, y, r) {
      assert OneOrOther(dirs, x, q, y, r);
      if x in dirs && y in dirs && q in after[x] && r in after[y] {
        OldOrNew(nodes, dirs, d, p, e, x, q);
        OldOrNew(nodes, dirs, d, p, e, y, r);
      }
    }
  }

  /** An entry after the addition is the new one, or an old one of an allocated inode. */
  lemma OldOrNew(nodes: map<nat, Node>, dirs: Listings, d: nat, p: (nat, nat), e: Entry, x: nat, q: (nat, nat))
    requires AllAllocated(nodes, dirs) && d in dirs && e.id as nat !in nodes && p !in dirs[d]
    requires x in dirs && q in dirs[d := dirs[d][p := e]][x]
    ensures if x == d && q == p then dirs[d := dirs[d][p := e]][x][q] == e else
            q in dirs[x] && dirs[d := dirs[d][p := e]][x][q] == dirs[x][q] && dirs[x][q].id != e.id
  {
    hide KindsKnown;
    assert EntriesAllocated(nodes, dirs, x);
  }

  lemma AllocatedAdded(nodes: map<nat, Node>, nodes1: map<nat, Node>, dirs: Listings, d: nat, p: (nat, nat), e: Entry)
    requires AllAllocated(nodes, dirs) && d in dirs && nodes1.Keys == nodes.Keys + {e.id as nat}
    requires (e.kind == REGULAR || e.kind == DIRECTORY) && e.id != 0
    ensures AllAllocated(nodes1, dirs[d := dirs[d][p := e]])
  {
    var after := dirs[d := dirs[d][p := e]];
    forall x ensures EntriesAllocated(nodes1, after, x) {
      assert EntriesAllocated(nodes, dirs, x);
    }
  }

  /** No entry has the new number. */
  lemma NumberIsNew(nodes: map<nat, Node>, entries: Entries, id: nat)
    requires Allocated(nodes, entries) && OneEach(entries) && id !in nodes
    ensures NewIn(DirectoryOf(entries), id)
  {
    hide OneEach;
    forall n | n in DirectoryOf(entries) && !IsDots(n) ensures DirectoryOf(entries)[n].id != id {
      Looked(entries, n);
      var p :| p in entries && entries[p].name == n;
    }
  }

  lemma ValidIsName(name: seq<byte>)
    requires ValidName(name)
    ensures IsName(name)
  {
  }

  /** What file_create and sys_mkdir do to the tree, but for the new directory itself. */
  lemma EntryStep(s0: seq<Sector>, nodes0: map<nat, Node>, s1: seq<Sector>, nodes1: map<nat, Node>, dirs: Listings,
                  d: nat,
                  p: (nat, nat), e: Entry)
    requires AllDisplayed(s0, nodes0, dirs) && AllAllocated(nodes0, dirs) && SoleEntries(dirs) && d in dirs
    requires OthersKept(nodes0, s0, nodes1, s1, {d}) && Displays(s1, nodes1, d, dirs[d][p := e]) && p !in dirs[d]
    requires e.id as nat !in nodes0 && nodes1.Keys == nodes0.Keys + {e.id as nat} && ValidName(e.name)
    requires (e.kind == REGULAR || e.kind == DIRECTORY) && !DirData.HasName(dirs[d], e.name) && 0 in nodes0
    ensures var dirs1 := dirs[d := dirs[d][p := e]];
      AllDisplayed(s1, nodes1, dirs1) && AllAllocated(nodes1, dirs1) && SoleEntries(dirs1)
    ensures TreeOf(dirs[d := dirs[d][p := e]])
         == TreeOf(dirs)[d := TreeOf(dirs)[d][e.name := Child(e.id, e.kind == DIRECTORY)]]
    ensures IsName(e.name) && e.name !in TreeOf(dirs)[d] && NewIn(TreeOf(dirs)[d], e.id)
  {
    hide Displays, OthersKept, AllAllocated, SoleEntries, ValidName, IsName, DirData.HasName, DirectoryOf, NewIn;
    OneDisplayed(s0, nodes0, s1, nodes1, dirs, d, dirs[d][p := e]);
    AllocatedAdded(nodes0, nodes1, dirs, d, p, e);
    SoleAdded(nodes0, dirs, d, p, e);
    assert Displays(s0, nodes0, d, dirs[d]);
    Seen(s0, nodes0, d, dirs[d]);
    AddedToDirectory(dirs[d], p, e);
    TreeOfUpdate(dirs, d, dirs[d][p := e]);
    ValidIsName(e.name);
    AllocatedOne(nodes0, dirs, d);
    NumberIsNew(nodes0, dirs[d], e.id);
  }

  lemma RootThere(part: Partition)
    requires part.Valid()
    ensures 0 in part.nodes
  {
  }

  /** A directory of the tree, at hand. */
  lemma AtHand(part: Partition, dirs: Listings, dir: Inode)
    requires OnDisk(part, dirs) && AllAllocated(part.nodes, dirs) && dir.id as nat in dirs && Opened(part, dir)
    ensures DirReady(part, dir, dirs[dir.id], ParentIn(dirs[dir.id]))
    ensures InPlace(part, dir, dirs[dir.id], ParentIn(dirs[dir.id]))
    ensures OneEach(dirs[dir.id]) && 0 in part.nodes && dir.id in part.nodes && |part.nodes[dir.id].slots| == SLOTS
    ensures DirectoryOf(dirs[dir.id]).Keys == TreeOf(dirs)[dir.id].Keys
    ensures forall n :: n in TreeOf(dirs)[dir.id] <==> DirData.HasName(dirs[dir.id], n)
  {
    hide Partition.Consistent, TablesIn, RecordsIn, Shows, DirOk, DirectoryOf, OneEach, DirData.HasName;
    RootThere(part);
    AllocatedOne(part.nodes, dirs, dir.id);
    assert Displays(part.disk.sectors, part.nodes, dir.id, dirs[dir.id]);
    Seen(part.disk.sectors, part.nodes, dir.id, dirs[dir.id]);
  }

  /** What Created says, said about the tree. */
  lemma CreatedStep(part: Partition, dir: Inode, nodes0: map<nat, Node>, s0: seq<Sector>, dirs: Listings, p: (nat, nat),
                    e: Entry)
    requires AllDisplayed(s0, nodes0, dirs) && AllAllocated(nodes0, dirs) && SoleEntries(dirs) && dir.id as nat in dirs
    requires Created(part, dir, nodes0, s0, dirs[dir.id], ParentIn(dirs[dir.id]), p, e) && ValidName(e.name)
    requires (e.kind == REGULAR || e.kind == DIRECTORY) && !DirData.HasName(dirs[dir.id], e.name) && 0 in nodes0
    ensures var dirs1 := dirs[dir.id as nat := dirs[dir.id][p := e]];
      OnDisk(part, dirs1) && AllAllocated(part.nodes, dirs1) && SoleEntries(dirs1) && part.Valid()
    ensures TreeOf(dirs[dir.id as nat := dirs[dir.id][p := e]])
         == TreeOf(dirs)[dir.id as nat := TreeOf(dirs)[dir.id][e.name := Child(e.id, e.kind == DIRECTORY)]]
    ensures IsName(e.name) && e.name !in TreeOf(dirs)[dir.id] && NewIn(TreeOf(dirs)[dir.id], e.id)
    ensures e.id as nat !in nodes0
  {
    hide Partition.Valid, AllAllocated, SoleEntries, ValidName, DirData.HasName, IsName, NewIn, DirectoryOf,
      OthersKept, DirPlus;
    assert Displays(s0, nodes0, dir.id, dirs[dir.id]);
    CreatedDisplays(part, dir, nodes0, s0, dirs[dir.id], p, e);
    EntryStep(s0, nodes0, part.disk.sectors, part.nodes, dirs, dir.id, p, e);
  }

  lemma CreatedDisplays(part: Partition, dir: Inode, nodes0: map<nat, Node>, s0: seq<Sector>, entries: Entries,
                        p: (nat, nat), e: Entry)
    requires Displays(s0, nodes0, dir.id, entries) && Created(part, dir, nodes0, s0, entries, ParentIn(entries), p, e)
    ensures Displays(part.disk.sectors, part.nodes, dir.id, entries[p := e])
  {
    hide Partition.Consistent, TablesIn, RecordsIn, Shows, Unique, NoEmptyBlock, OthersKept, DirPlus;
  }

  /** file_create, as a step of the tree. */
  method CreateFile(part: Partition, cache: Cache, dir: Inode, name: Text, ghost dirs: Listings,
                    ghost depth: map<nat, nat>)
    returns (halted: bool, file: File, ghost dirs1: Listings)
    requires OnDisk(part, dirs) && TreeInOrder(part.nodes, dirs, depth) && cache.Valid(part) && dir in cache.list
    requires dir.id as nat in dirs
    requires ValidName(name) && name !in TreeOf(dirs)[dir.id] && HasRoom(dirs[dir.id]) && IdLeft(part.inodeMap)
    modifies part, part.disk, dir`size, dir`blocks, cache
    ensures dir.id in old(part.nodes) && |old(part.nodes)[dir.id].slots| == SLOTS && fresh(file) && fresh(file.inode)
    ensures halted <==> old(part.FreeBlocks()) == {} && NeedsBlock(old(part.nodes)[dir.id], dirs[dir.id])
    ensures !halted ==> |part.FreeBlocks()| == |old(part.FreeBlocks())| - Extra(old(part.nodes)[dir.id], dirs[dir.id])
    ensures !halted ==> part.nodes.Keys == old(part.nodes).Keys + {file.inode.id as nat}
    ensures file.inode.id as nat == FirstClear(old(part.inodeMap), 0)
    ensures !halted ==> OnDisk(part, dirs1) && TreeInOrder(part.nodes, dirs1, depth)
    ensures !halted ==> var s := Create(dir.id, name, file.inode.id);
      GoesThrough(TreeOf(dirs), s) && TreeOf(dirs1) == After(TreeOf(dirs), s)
    ensures !halted ==>
      OthersKept(old(part.nodes), old(part.disk.sectors), part.nodes, part.disk.sectors, {dir.id as nat})
    ensures !halted ==> cache.Valid(part) && cache.opens == Opening(old(cache.opens), file.inode.id)
    ensures !halted ==> cache.list == [file.inode] + old(cache.list) && file.inode.id as nat !in old(part.nodes)
  {
    hide Partition.Valid, TreeOk, AllAllocated, SoleEntries, ValidName, DirData.HasName, HasRoom, IdLeft, FreeIn,
      NeedsBlock, Created, DirReady, InPlace, TreeOf, IsName, NewIn, Distinct, Counted, Ids, Counts, OpenedIn,
      Opening, OthersKept, EmptyNode;
    ghost var nodes0, s0 := part.nodes, part.disk.sectors;
    cache.ShowsFields(part, dir);
    AtHand(part, dirs, dir);
    ghost var p;
    halted, file, p := FileCreate(part, cache, dir, name, dirs[dir.id], ParentIn(dirs[dir.id]));
    dirs1 := dirs;
    if !halted {
      ghost var e := Entry(name, file.inode.id, REGULAR);
      dirs1 := dirs[dir.id as nat := dirs[dir.id][p := e]];
      CreatedStep(part, dir, nodes0, s0, dirs, p, e);
      TreeHas(dirs, dir.id);
      CreateKeeps(TreeOf(dirs), depth, dir.id, name, file.inode.id);
      CreatedOthers(part, dir, nodes0, s0, dirs[dir.id], ParentIn(dirs[dir.id]), p, e);
    }
  }

  lemma CreatedOthers(part: Partition, dir: Inode, nodes0: map<nat, Node>, s0: seq<Sector>, entries: Entries,
                      parent: word,
                      p: (nat, nat), e: Entry)
    requires Created(part, dir, nodes0, s0, entries, parent, p, e)
    ensures OthersKept(nodes0, s0, part.nodes, part.disk.sectors, {dir.id as nat})
    ensures part.nodes.Keys == nodes0.Keys + {e.id as nat} && e.id as nat !in nodes0
  {
    hide Partition.Valid, DirReady, OthersKept, DirPlus;
  }

  /** What a new directory shows is a new directory of the tree. */
  lemma DotsSeen(id: word, parent: word)
    ensures DirectoryOf(DotEntries(id, parent)) == NewDirectory(id, parent)
  {
    var e := DotEntries(id, parent);
    DotKeys(id, parent);
    assert OneEach(e);
    SeenAt(e, (0, 0));
    SeenAt(e, (0, 1));
    forall n | n in DirectoryOf(e) ensures n == DOT || n == DOTDOT {
      Looked(e, n);
      var p :| p in e && e[p].name == n;
    }
  }

  lemma DotsAdded(nodes: map<nat, Node>, dirs: Listings, id: word, parent: word)
    requires AllAllocated(nodes, dirs) && SoleEntries(dirs) && id as nat in nodes && parent as nat in nodes
    ensures var dirs1 := dirs[id as nat := DotEntries(id, parent)]; AllAllocated(nodes, dirs1) && SoleEntries(dirs1)
  {
    var dirs1: Listings := dirs[id as nat := DotEntries(id, parent)];
    forall x ensures EntriesAllocated(nodes, dirs1, x) {
      assert EntriesAllocated(nodes, dirs, x);
    }
    forall x: nat, y: nat, q: (nat, nat), r: (nat, nat) ensures OneOrOther(dirs1, x, q, y, r) {
      assert OneOrOther(dirs, x, q, y, r);
      assert forall p :: p in DotEntries(id, parent) ==> Dot(p);
    }
  }

  lemma ChildDisplays(part: Partition, child: Inode, id: word, parent: word, dirs: Listings)
    requires InPlace(part, child, DotEntries(id, parent), parent) && child.id == id
    requires OnDisk(part, dirs)
    ensures OnDisk(part, dirs[id as nat := DotEntries(id, parent)]) && id as nat in part.nodes
  {
    hide Partition.Consistent, TablesIn, RecordsIn, Shows, Unique, NoEmptyBlock;
    var dirs1 := dirs[id as nat := DotEntries(id, parent)];
    forall x | x in dirs1 ensures Displays(part.disk.sectors, part.nodes, x, dirs1[x]) {
      if x != id {
        assert Displays(part.disk.sectors, part.nodes, x, dirs[x]);
      }
    }
  }

  /** sys_mkdir once its path is searched, as a step of the tree. */
  method MakeDirectory(part: Partition, cache: Cache, dir: Inode, name: Text, ghost dirs: Listings,
                       ghost depth: map<nat, nat>)
    returns (halted: bool, id: word, ghost dirs1: Listings, ghost depth1: map<nat, nat>)
    requires OnDisk(part, dirs) && TreeInOrder(part.nodes, dirs, depth) && cache.Valid(part) && dir in cache.list
    requires dir.id as nat in dirs
    requires ValidName(name) && name !in TreeOf(dirs)[dir.id] && HasRoom(dirs[dir.id]) && IdLeft(part.inodeMap)
    modifies part, part.disk, dir`size, dir`blocks
    ensures dir.id in old(part.nodes) && |old(part.nodes)[dir.id].slots| == SLOTS
    ensures halted <==> |old(part.FreeBlocks())| < 1 + Extra(old(part.nodes)[dir.id], dirs[dir.id])
    ensures !halted ==>
      |part.FreeBlocks()| == |old(part.FreeBlocks())| - 1 - Extra(old(part.nodes)[dir.id], dirs[dir.id])
    ensures !halted ==> OnDisk(part, dirs1) && TreeInOrder(part.nodes, dirs1, depth1)
    ensures !halted ==> var s := Mkdir(dir.id, name, id);
      GoesThrough(TreeOf(dirs), s) && TreeOf(dirs1) == After(TreeOf(dirs), s)
    ensures !halted ==>
      OthersKept(old(part.nodes), old(part.disk.sectors), part.nodes, part.disk.sectors, {dir.id as nat})
    ensures !halted ==> cache.Valid(part)
    ensures id as nat == FirstClear(old(part.inodeMap), 0)
    ensures !halted ==> part.nodes.Keys == old(part.nodes).Keys + {id as nat} && id as nat !in old(part.nodes)
  {
    hide Partition.Valid, TreeOk, AllAllocated, SoleEntries, ValidName, DirData.HasName, HasRoom, IdLeft, FreeIn,
      NeedsBlock, Created, DirReady, InPlace, TreeOf, IsName, NewIn, Distinct, Counted, Ids, Counts, OpenedIn,
      OthersKept, EmptyNode, Extra, AllDisplayed, DotEntries, NewDirectory;
    ghost var nodes0, s0 := part.nodes, part.disk.sectors;
    cache.ShowsFields(part, dir);
    AtHand(part, dirs, dir);
    KnownNumbers(part, dirs);
    var child;
    ghost var p;
    halted, child, p := MakeDir(part, cache, dir, name, dirs[dir.id], ParentIn(dirs[dir.id]));
    id, dirs1, depth1 := child.id, dirs, depth;
    if !halted {
      CreatedOthers(part, dir, nodes0, s0, dirs[dir.id], ParentIn(dirs[dir.id]), p, Entry(name, id, DIRECTORY));
      dirs1, depth1 := MadeStep(part, dir, child, nodes0, s0, dirs, depth, p, name);
    }
  }

  lemma MadeStep(part: Partition, dir: Inode, child: Inode, nodes0: map<nat, Node>, s0: seq<Sector>, dirs: Listings,
                 depth: map<nat, nat>, p: (nat, nat), name: Text)
    returns (dirs1: Listings, depth1: map<nat, nat>)
    requires AllDisplayed(s0, nodes0, dirs) && TreeInOrder(nodes0, dirs, depth) && dir.id as nat in dirs
    requires dirs.Keys <= nodes0.Keys
    requires Created(part, dir, nodes0, s0, dirs[dir.id], ParentIn(dirs[dir.id]), p, Entry(name, child.id, DIRECTORY))
    requires ValidName(name) && !DirData.HasName(dirs[dir.id], name) && 0 in nodes0
    requires InPlace(part, child, DotEntries(child.id, dir.id), dir.id)
    ensures OnDisk(part, dirs1) && TreeInOrder(part.nodes, dirs1, depth1)
    ensures var s := Mkdir(dir.id, name, child.id);
      GoesThrough(TreeOf(dirs), s) && TreeOf(dirs1) == After(TreeOf(dirs), s)
    ensures part.nodes.Keys == nodes0.Keys + {child.id as nat}
  {
    hide Partition.Valid, TreeOk, AllAllocated, SoleEntries, ValidName, DirData.HasName, Created, DirReady, InPlace,
      TreeOf, IsName, NewIn, OpenedIn, OthersKept, AllDisplayed, OnDisk, DotEntries, NewDirectory, DirPlus;
    var id, e := child.id, Entry(name, child.id, DIRECTORY);
    var more := dirs[dir.id as nat := dirs[dir.id][p := e]];
    CreatedStep(part, dir, nodes0, s0, dirs, p, e);
    CreatedParts(part, dir, nodes0, s0, dirs[dir.id], ParentIn(dirs[dir.id]), p, e);
    dirs1 := more[id as nat := DotEntries(id, dir.id)];
    ChildDisplays(part, child, id, dir.id, more);
    DotsAdded(part.nodes, more, id, dir.id);
    TreeOfUpdate(more, id, DotEntries(id, dir.id));
    DotsSeen(id, dir.id);
    TreeHas(dirs, dir.id);
    TreeHas(dirs, id);
    InDepth(TreeOf(dirs), depth, dir.id);
    MkdirKeeps(TreeOf(dirs), depth, dir.id, name, id);
    depth1 := depth[id as nat := depth[dir.id] + 1];
  }

  /** The dots of a directory in order. */
  lemma DotIds(sectors: seq<Sector>, nodes: map<nat, Node>, d: nat, entries: Entries, q: (nat, nat))
    requires Displays(sectors, nodes, d, entries) && q in entries && Dot(q)
    ensures entries[q].id == d || entries[q].id == ParentIn(entries)
  {
    hide Shows, Unique, NoEmptyBlock;
  }

  /** No other directory has inode `ino` for its parent. */
  ghost predicate NotUp(dirs: Listings, ino: nat) {
    forall x :: x in dirs && x != ino ==> ParentIn(dirs[x]) != ino
  }

  /** Without the entry at `p` of `d` nobody mentions inode `ino` any more. */
  lemma NobodyMentions(sectors: seq<Sector>, nodes: map<nat, Node>, dirs: Listings, d: nat, p: (nat, nat), ino: word,
                       x: nat, q: (nat, nat))
    requires AllDisplayed(sectors, nodes, dirs) && SoleEntries(dirs) && d in dirs && Target(dirs[d], p, ino)
    requires x in dirs && x != ino && ParentIn(dirs[x]) != ino && q in dirs[x] && dirs[x][q].id == ino
    ensures x == d && q == p
  {
    hide Displays;
    if Dot(q) {
      assert Displays(sectors, nodes, x, dirs[x]);
      DotIds(sectors, nodes, x, dirs[x], q);
    } else {
      assert OneOrOther(dirs, x, q, d, p);
    }
  }

  lemma AllocatedLess(sectors: seq<Sector>, nodes: map<nat, Node>, nodes1: map<nat, Node>, dirs: Listings, d: nat,
                      p: (nat, nat), ino: word)
    requires AllDisplayed(sectors, nodes, dirs) && AllAllocated(nodes, dirs) && SoleEntries(dirs) && d in dirs
    requires d != ino
    requires Target(dirs[d], p, ino) && nodes1.Keys == nodes.Keys - {ino as nat}
    requires NotUp(dirs, ino)
    ensures AllAllocated(nodes1, (dirs - {ino as nat})[d := dirs[d] - {p}])
  {
    hide AllDisplayed, SoleEntries;
    var dirs1 := (dirs - {ino as nat})[d := dirs[d] - {p}];
    forall x: nat ensures EntriesAllocated(nodes1, dirs1, x) {
      assert EntriesAllocated(nodes, dirs, x);
      if x in dirs1 {
        forall q | q in dirs1[x] ensures dirs1[x][q].id as nat in nodes1 {
          if dirs[x][q].id == ino {
            NobodyMentions(sectors, nodes, dirs, d, p, ino, x, q);
          }
        }
      }
    }
  }

  lemma SoleLess(dirs: Listings, d: nat, p: (nat, nat), ino: nat)
    requires SoleEntries(dirs) && d in dirs
    ensures SoleEntries((dirs - {ino})[d := dirs[d] - {p}]) && SoleEntries(dirs - {ino})
  {
    var dirs1: Listings := (dirs - {ino})[d := dirs[d] - {p}];
    forall x: nat, y: nat, q: (nat, nat), r: (nat, nat)
      ensures OneOrOther(dirs1, x, q, y, r) && OneOrOther(dirs - {ino}, x, q, y, r)
    {
      assert OneOrOther(dirs, x, q, y, r);
    }
  }

  lemma DeletedDisplays(part: Partition, dir: Inode, nodes0: map<nat, Node>, s0: seq<Sector>, entries: Entries,
                        p: (nat, nat), ino: word)
    requires Displays(s0, nodes0, dir.id, entries) && Deleted(part, dir, nodes0, s0, entries, ParentIn(entries), p, ino)
    ensures Displays(part.disk.sectors, part.nodes, dir.id, entries - {p})
    ensures part.nodes.Keys == nodes0.Keys - {ino as nat}
    ensures OthersKept(nodes0, s0, part.nodes, part.disk.sectors, {dir.id as nat, ino as nat}) && part.Valid()
  {
    hide Partition.Consistent, TablesIn, RecordsIn, Shows, Unique, NoEmptyBlock, OthersKept;
  }

  lemma RestDisplayed(s0: seq<Sector>, nodes0: map<nat, Node>, s1: seq<Sector>, nodes1: map<nat, Node>, dirs: Listings,
                      d: nat,
                      entries: Entries, ino: nat)
    requires AllDisplayed(s0, nodes0, dirs) && OthersKept(nodes0, s0, nodes1, s1, {d, ino})
    requires Displays(s1, nodes1, d, entries)
    ensures AllDisplayed(s1, nodes1, (dirs - {ino})[d := entries])
  {
    hide Displays, OthersKept;
    var after := (dirs - {ino})[d := entries];
    forall x | x in after ensures Displays(s1, nodes1, x, after[x]) {
      if x != d {
        StillDisplayed(s0, nodes0, s1, nodes1, dirs, {d, ino}, x);
      }
    }
  }

  /** What Deleted says, said about the tree. */
  lemma DeletedStep(part: Partition, dir: Inode, nodes0: map<nat, Node>, s0: seq<Sector>, dirs: Listings, p: (nat, nat),
                    ino: word)
    returns (dirs1: Listings)
    requires AllDisplayed(s0, nodes0, dirs) && AllAllocated(nodes0, dirs) && SoleEntries(dirs) && dir.id as nat in dirs
    requires Target(dirs[dir.id], p, ino) && NotUp(dirs, ino) && dir.id != ino
    requires Deleted(part, dir, nodes0, s0, dirs[dir.id], ParentIn(dirs[dir.id]), p, ino)
    ensures dirs1 == (dirs - {ino as nat})[dir.id as nat := dirs[dir.id] - {p}]
    ensures OnDisk(part, dirs1) && AllAllocated(part.nodes, dirs1) && SoleEntries(dirs1)
  {
    hide Partition.Valid, AllAllocated, SoleEntries, DirectoryOf, OthersKept, Deleted, Displays;
    assert Displays(s0, nodes0, dir.id, dirs[dir.id]);
    DeletedDisplays(part, dir, nodes0, s0, dirs[dir.id], p, ino);
    RestDisplayed(s0, nodes0, part.disk.sectors, part.nodes, dirs, dir.id, dirs[dir.id] - {p}, ino);
    AllocatedLess(s0, nodes0, part.nodes, dirs, dir.id, p, ino);
    SoleLess(dirs, dir.id, p, ino);
    dirs1 := (dirs - {ino as nat})[dir.id as nat := dirs[dir.id] - {p}];
  }

  lemma DeletedTree(sectors: seq<Sector>, nodes: map<nat, Node>, dirs: Listings, d: nat, p: (nat, nat), ino: nat)
    requires AllDisplayed(sectors, nodes, dirs) && d in dirs && p in dirs[d]
    ensures TreeOf((dirs - {ino})[d := dirs[d] - {p}])
         == (TreeOf(dirs) - {ino})[d := TreeOf(dirs)[d] - {dirs[d][p].name}]
  {
    hide Displays, DirectoryOf, OneEach;
    OneOfAll(sectors, nodes, dirs, d);
    Seen(sectors, nodes, d, dirs[d]);
    RemovedFromDirectory(dirs[d], p);
    TreeOfLess(dirs, ino);
    TreeOfUpdate(dirs - {ino}, d, dirs[d] - {p});
  }

  lemma DotNames(sectors: seq<Sector>, nodes: map<nat, Node>, d: nat, entries: Entries, p: (nat, nat))
    requires Displays(sectors, nodes, d, entries) && p in entries
    ensures IsDots(entries[p].name) <==> Dot(p)
    ensures Dot(p) ==> entries[p].kind == DIRECTORY
  {
    hide Shows, NoEmptyBlock, ValidName;
    if IsDots(entries[p].name) {
      assert entries[(0, 0)].name == DOT && entries[(0, 1)].name == DOTDOT;
    }
  }

  /** Where a name of the tree is in its directory. */
  lemma PlaceOfName(sectors: seq<Sector>, nodes: map<nat, Node>, dirs: Listings, d: nat,
                    name: Text) returns (p: (nat, nat))
    requires AllDisplayed(sectors, nodes, dirs) && d in dirs && name in TreeOf(dirs)[d]
    ensures p in dirs[d] && dirs[d][p].name == name && (IsDots(name) <==> Dot(p))
    ensures TreeOf(dirs)[d][name] == Child(dirs[d][p].id, dirs[d][p].kind == DIRECTORY)
    ensures OneEach(dirs[d]) && (Dot(p) ==> dirs[d][p].kind == DIRECTORY)
  {
    hide Displays, DirectoryOf, OneEach, DirData.HasName, IsDots;
    assert Displays(sectors, nodes, d, dirs[d]);
    Seen(sectors, nodes, d, dirs[d]);
    p := PlaceOf(dirs[d], name);
    SeenAt(dirs[d], p);
    DotNames(sectors, nodes, d, dirs[d], p);
  }

  /** A file's number is not a directory's. */
  lemma FileNotDirectory(sectors: seq<Sector>, nodes: map<nat, Node>, dirs: Listings, depth: map<nat, nat>, d: nat,
                         p: (nat, nat))
    requires AllDisplayed(sectors, nodes, dirs) && TreeInOrder(nodes, dirs, depth) && d in dirs && p in dirs[d]
    requires !Dot(p)
    requires dirs[d][p].kind == REGULAR
    ensures dirs[d][p].id != 0 && dirs[d][p].id as nat !in dirs
  {
    hide AllDisplayed, AllAllocated, SoleEntries, TreeOf, NamesChild, DirectoryOk;
    var ino := dirs[d][p].id as nat;
    AllocatedOne(nodes, dirs, d);
    if ino in dirs {
      TreeHas(dirs, ino);
      HasAName(TreeOf(dirs), depth, ino);
      var e := Parent(TreeOf(dirs), depth, ino);
      TreeHas(dirs, e);
      var n := NameIn1(TreeOf(dirs)[e], ino);
      var q := PlaceOfName(sectors, nodes, dirs, e, n);
      Sole(dirs, d, p, e, q);
    }
  }

  lemma Sole(dirs: Listings, d: nat, p: (nat, nat), e: nat, q: (nat, nat))
    requires SoleEntries(dirs)
    ensures OneOrOther(dirs, d, p, e, q)
  {
  }

  /** The parent of a directory is a directory. */
  lemma ParentListed(sectors: seq<Sector>, nodes: map<nat, Node>, dirs: Listings, depth: map<nat, nat>, x: nat)
    requires AllDisplayed(sectors, nodes, dirs) && TreeInOrder(nodes, dirs, depth) && x in dirs
    ensures ParentIn(dirs[x]) as nat in dirs && x in TreeOf(dirs) && DOTDOT in TreeOf(dirs)[x]
    ensures ParentIn(dirs[x]) as nat == TreeOf(dirs)[x][DOTDOT].id
  {
    hide AllDisplayed, AllAllocated, SoleEntries, TreeOf, DirectoryOk;
    UpIsUp(sectors, nodes, dirs, x);
    TreeHas(dirs, x);
    DotsThere(TreeOf(dirs), depth, x);
    TreeHas(dirs, ParentIn(dirs[x]));
  }

  lemma FileNotUp(sectors: seq<Sector>, nodes: map<nat, Node>, dirs: Listings, depth: map<nat, nat>, ino: nat)
    requires AllDisplayed(sectors, nodes, dirs) && TreeInOrder(nodes, dirs, depth) && ino !in dirs
    ensures NotUp(dirs, ino)
  {
    hide AllDisplayed, TreeInOrder;
    forall x | x in dirs && x != ino ensures ParentIn(dirs[x]) != ino {
      ParentListed(sectors, nodes, dirs, depth, x);
    }
  }

  /** Nobody has an empty directory for its parent. */
  lemma EmptyNotParent(sectors: seq<Sector>, nodes: map<nat, Node>, dirs: Listings, depth: map<nat, nat>, ino: nat)
    requires AllDisplayed(sectors, nodes, dirs) && TreeInOrder(nodes, dirs, depth) && ino in dirs && ino != 0
    requires IsEmptyDir(TreeOf(dirs)[ino])
    ensures NotUp(dirs, ino)
  {
    hide AllDisplayed, AllAllocated, SoleEntries, TreeOf, TreeOk, IsDots;
    TreeHas(dirs, ino);
    forall x | x in dirs && x != ino ensures ParentIn(dirs[x]) != ino {
      ParentListed(sectors, nodes, dirs, depth, x);
      TreeHas(dirs, x);
      DotsThere(TreeOf(dirs), depth, x);
      if x != 0 {
        NotAParent(TreeOf(dirs), depth, ino, x);
      }
    }
  }

  /** sys_unlink once its path is searched, as a step of the tree. */
  method UnlinkFile(part: Partition, cache: Cache, dir: Inode, ino: word, ghost name: Text, ghost dirs: Listings,
                    ghost depth: map<nat, nat>)
    returns (ghost dirs1: Listings)
    requires OnDisk(part, dirs) && TreeInOrder(part.nodes, dirs, depth) && cache.Valid(part) && dir in cache.list
    requires dir.id as nat in dirs
    requires name in TreeOf(dirs)[dir.id] && TreeOf(dirs)[dir.id][name] == Child(ino, false)
    modifies part, part.disk, dir`size, dir`blocks, cache, cache.list`openCount
    ensures OnDisk(part, dirs1) && TreeInOrder(part.nodes, dirs1, depth)
    ensures var s := Unlink(dir.id, name); GoesThrough(TreeOf(dirs), s) && TreeOf(dirs1) == After(TreeOf(dirs), s)
    ensures OthersKept(old(part.nodes), old(part.disk.sectors), part.nodes, part.disk.sectors,
                       {dir.id as nat, ino as nat})
    ensures cache.ValidBut(part, {ino as nat}) && cache.opens == old(cache.opens) && cache.list == old(cache.list)
    ensures cache.Valid(part) <==> ino as nat !in old(cache.opens)
    ensures part.nodes.Keys == old(part.nodes).Keys - {ino as nat}
  {
    hide Partition.Valid, TreeOk, AllAllocated, SoleEntries, Deleted, DirReady, InPlace, TreeOf, Distinct, Counted,
      Ids, Counts, OpenedIn, OthersKept, AllDisplayed, IsDots, NotUp, DirectoryOf, OneEach;
    ghost var nodes0, s0, entries := part.nodes, part.disk.sectors, dirs[dir.id];
    cache.ShowsFields(part, dir);
    AtHand(part, dirs, dir);
    TreeHas(dirs, dir.id);
    ghost var p := PlaceOfName(s0, nodes0, dirs, dir.id, name);
    AllocatedOne(nodes0, dirs, dir.id);
    FileNotDirectory(s0, nodes0, dirs, depth, dir.id, p);
    ParentListed(s0, nodes0, dirs, depth, dir.id);
    FileNotUp(s0, nodes0, dirs, depth, ino);
    ListsIt(entries, p, ino);
    ghost var found, q := RemoveEntryAndInode(part, cache, dir, ino, entries, ParentIn(entries));
    dirs1 := UnlinkStep(part, dir, nodes0, s0, dirs, depth, p, q, name, ino);
  }

  lemma UnlinkStep(part: Partition, dir: Inode, nodes0: map<nat, Node>, s0: seq<Sector>, dirs: Listings,
                   depth: map<nat, nat>,
                   p: (nat, nat), q: (nat, nat), name: Text, ino: word)
    returns (dirs1: Listings)
    requires AllDisplayed(s0, nodes0, dirs) && TreeInOrder(nodes0, dirs, depth) && dir.id as nat in dirs
    requires Target(dirs[dir.id], p, ino) && dirs[dir.id][p].name == name && NotUp(dirs, ino) && ino as nat !in dirs
    requires name in TreeOf(dirs)[dir.id] && TreeOf(dirs)[dir.id][name] == Child(ino, false)
    requires Deleted(part, dir, nodes0, s0, dirs[dir.id], ParentIn(dirs[dir.id]), q, ino)
    ensures OnDisk(part, dirs1) && TreeInOrder(part.nodes, dirs1, depth)
    ensures var s := Unlink(dir.id, name); GoesThrough(TreeOf(dirs), s) && TreeOf(dirs1) == After(TreeOf(dirs), s)
    ensures OthersKept(nodes0, s0, part.nodes, part.disk.sectors, {dir.id as nat, ino as nat})
    ensures part.nodes.Keys == nodes0.Keys - {ino as nat}
  {
    hide Partition.Valid, TreeOk, AllAllocated, SoleEntries, Deleted, TreeOf, OthersKept, AllDisplayed, NotUp,
      DirectoryOf, OneEach, Displays, OnDisk;
    assert Displays(s0, nodes0, dir.id, dirs[dir.id]) by {
      OneOfAll(s0, nodes0, dirs, dir.id);
    }
    DeletedTarget(part, dir, nodes0, s0, dirs[dir.id], q, ino, p);
    DeletedDisplays(part, dir, nodes0, s0, dirs[dir.id], p, ino);
    dirs1 := DeletedStep(part, dir, nodes0, s0, dirs, p, ino);
    DeletedTree(s0, nodes0, dirs, dir.id, p, ino);
    TreeHas(dirs, dir.id);
    TreeHas(dirs, ino);
    assert TreeOf(dirs) - {ino as nat} == TreeOf(dirs);
    UnlinkKeeps(TreeOf(dirs), depth, dir.id, name);
  }

  /** Only one entry has the number. */
  lemma DeletedTarget(part: Partition, dir: Inode, nodes0: map<nat, Node>, s0: seq<Sector>, entries: Entries,
                      q: (nat, nat), ino: word,
                      p: (nat, nat))
    requires Displays(s0, nodes0, dir.id, entries) && Deleted(part, dir, nodes0, s0, entries, ParentIn(entries), q, ino)
    requires Target(entries, p, ino)
    ensures q == p
  {
    hide Partition.Valid, Shows, OthersKept, DirReady, NodesMinus;
    TargetUnique(nodes0[dir.id], entries, dir.id, ParentIn(entries), p, q, ino);
  }

  /** The entry of a directory in its parent. */
  lemma EmptyChild(sectors: seq<Sector>, nodes: map<nat, Node>, dirs: Listings, depth: map<nat, nat>, d: nat,
                   name: Text, id: nat)
    requires AllDisplayed(sectors, nodes, dirs) && TreeInOrder(nodes, dirs, depth) && d in dirs && id in dirs && id != 0
    requires name in TreeOf(dirs)[d] && TreeOf(dirs)[d][name] == Child(id, true) && name != DOT
    requires IsEmptyDir(TreeOf(dirs)[id])
    ensures !IsDots(name) && id != d && NotUp(dirs, id) && id != ParentIn(dirs[d])
  {
    hide AllDisplayed, AllAllocated, SoleEntries, TreeOf, TreeOk, IsEmptyDir;
    TreeHas(dirs, d);
    TreeHas(dirs, id);
    DotsThere(TreeOf(dirs), depth, d);
    if name == DOTDOT {
      EmptyNotUp(TreeOf(dirs), depth, d);
    }
    NotItsParent(TreeOf(dirs), depth, d, name, id);
    EmptyNotParent(sectors, nodes, dirs, depth, id);
  }

  lemma RmdirStep(part: Partition, dir: Inode, nodes0: map<nat, Node>, s0: seq<Sector>, dirs: Listings,
                  depth: map<nat, nat>,
                  p: (nat, nat), q: (nat, nat), name: Text, id: word)
    returns (dirs1: Listings)
    requires AllDisplayed(s0, nodes0, dirs) && TreeInOrder(nodes0, dirs, depth) && dir.id as nat in dirs
    requires id as nat in dirs && id != 0
    requires Target(dirs[dir.id], p, id) && dirs[dir.id][p].name == name && NotUp(dirs, id) && id != dir.id
    requires !IsDots(name)
    requires name in TreeOf(dirs)[dir.id] && TreeOf(dirs)[dir.id][name] == Child(id, true)
    requires IsEmptyDir(TreeOf(dirs)[id])
    requires Deleted(part, dir, nodes0, s0, dirs[dir.id], ParentIn(dirs[dir.id]), q, id)
    ensures OnDisk(part, dirs1) && TreeInOrder(part.nodes, dirs1, depth - {id as nat})
    ensures p in dirs[dir.id] && dirs1 == (dirs - {id as nat})[dir.id as nat := dirs[dir.id] - {p}]
    ensures var s := Rmdir(dir.id, name); GoesThrough(TreeOf(dirs), s) && TreeOf(dirs1) == After(TreeOf(dirs), s)
    ensures OthersKept(nodes0, s0, part.nodes, part.disk.sectors, {dir.id as nat, id as nat})
    ensures part.nodes.Keys == nodes0.Keys - {id as nat}
  {
    hide Partition.Valid, TreeOk, AllAllocated, SoleEntries, Deleted, TreeOf, OthersKept, AllDisplayed, NotUp,
      DirectoryOf, OneEach, Displays, OnDisk, IsEmptyDir;
    assert Displays(s0, nodes0, dir.id, dirs[dir.id]) by {
      OneOfAll(s0, nodes0, dirs, dir.id);
    }
    DeletedTarget(part, dir, nodes0, s0, dirs[dir.id], q, id, p);
    DeletedDisplays(part, dir, nodes0, s0, dirs[dir.id], p, id);
    dirs1 := DeletedStep(part, dir, nodes0, s0, dirs, p, id);
    DeletedTree(s0, nodes0, dirs, dir.id, p, id);
    TreeHas(dirs, dir.id);
    TreeHas(dirs, id);
    assert (TreeOf(dirs) - {id as nat})[dir.id as nat := TreeOf(dirs)[dir.id] - {name}]
        == WithoutDir(TreeOf(dirs), dir.id, name, id);
    EmptyKeeps(TreeOf(dirs), depth, dir.id, name, id);
  }

  lemma EmptyKeeps(tree: Tree, depth: map<nat, nat>, p: nat, n: Text, id: nat)
    requires TreeOk(tree, depth) && p in tree && n in tree[p] && !IsDots(n) && tree[p][n] == Child(id, true)
    requires id in tree && IsEmptyDir(tree[id])
    ensures TreeOk(WithoutDir(tree, p, n, id), depth - {id})
  {
    hide TreeOk, IsDots, WithoutDir;
    RmdirKeeps(tree, depth, p, n, id);
  }

  /** An empty directory removed through its own `.`: the inode goes, and nothing else changes. */
  lemma SelfStep(part: Partition, nodes0: map<nat, Node>, s0: seq<Sector>, dirs: Listings, id: nat)
    requires AllDisplayed(s0, nodes0, dirs) && id in dirs && part.Valid()
    requires OthersKept(nodes0, s0, part.nodes, part.disk.sectors, {id})
    ensures OnDisk(part, dirs - {id}) && TreeOf(dirs - {id}) == WithoutSelf(TreeOf(dirs), id)
  {
    hide Partition.Valid, Displays, OthersKept, DirectoryOf;
    forall x | x in dirs - {id} ensures Displays(part.disk.sectors, part.nodes, x, (dirs - {id})[x]) {
      StillDisplayed(s0, nodes0, part.disk.sectors, part.nodes, dirs, {id}, x);
    }
    TreeOfLess(dirs, id);
  }

  /** No entry of an empty directory names it. */
  lemma EmptyMentions(sectors: seq<Sector>, nodes: map<nat, Node>, dirs: Listings, d: nat, ino: word)
    requires AllDisplayed(sectors, nodes, dirs) && d in dirs && IsEmptyDir(TreeOf(dirs)[d])
    ensures !Mentions(dirs[d], ino)
  {
    hide Displays, DirectoryOf, OneEach;
    if Mentions(dirs[d], ino) {
      var p :| Target(dirs[d], p, ino);
      OneOfAll(sectors, nodes, dirs, d);
      Seen(sectors, nodes, d, dirs[d]);
      SeenAt(dirs[d], p);
      DotNames(sectors, nodes, d, dirs[d], p);
    }
  }

  /** A directory is empty when it has two entries. */
  lemma EmptyEntries(sectors: seq<Sector>, nodes: map<nat, Node>, dirs: Listings, d: nat)
    requires AllDisplayed(sectors, nodes, dirs) && d in dirs
    ensures d in nodes && (nodes[d].size == 2 * ENTRY <==> IsEmptyDir(TreeOf(dirs)[d]))
  {
    hide Shows, DirectoryOf, OneEach, Unique, NoEmptyBlock, DirData.HasName, IsDots;
    OneOfAll(sectors, nodes, dirs, d);
    Seen(sectors, nodes, d, dirs[d]);
    EmptyBySize(nodes[d], dirs[d], d, ParentIn(dirs[d]));
    if nodes[d].size == 2 * ENTRY {
      forall n | n in TreeOf(dirs)[d] ensures IsDots(n) {
        var p := PlaceOf(dirs[d], n);
        DotNames(sectors, nodes, d, dirs[d], p);
      }
    }
    if IsEmptyDir(TreeOf(dirs)[d]) {
      OnlyDots(sectors, nodes, d, dirs[d]);
    }
  }

  lemma OnlyDots(sectors: seq<Sector>, nodes: map<nat, Node>, d: nat, entries: Entries)
    requires Displays(sectors, nodes, d, entries) && IsEmptyDir(DirectoryOf(entries))
    ensures entries.Keys == {(0, 0), (0, 1)}
  {
    hide Shows, DirectoryOf, OneEach, Unique, NoEmptyBlock, IsDots;
    Seen(sectors, nodes, d, entries);
    forall p | p in entries ensures Dot(p) {
      SeenAt(entries, p);
      DotNames(sectors, nodes, d, entries, p);
    }
  }
}
