/** fs/c14a_fs.c: sys_getcwd climbs from the working directory to the root, sys_chdir goes where a path leads. */
module WorkingDirs {
  import opened Debug
  import opened Bytes
  import opened Ide
  import opened Inodes
  import opened Volumes
  import opened OpenInodes
  import opened FileData
  import opened DirData
  import opened Dirs
  import opened Caches
  import opened NameMaps
  import opened NameBuffers
  import opened Paths
  import opened Trees
  import opened TreeSteps
  import opened DiskTrees
  import opened Calls
  import opened Canonicals
  import opened Searches

  /** The second entry of the first block is `..`, behind the start of the data area. */
  lemma SecondEntry(part: Partition, inode: Inode, entries: Entries)
    requires part.Valid() && Opened(part, inode) && Displays(part.disk.sectors, part.nodes, inode.id, entries)
    ensures |inode.blocks| == 13 && part.dataStart <= inode.blocks[0] < |part.disk.sectors| <= MAX_LBA + 1
    ensures DecodeEntry(RawAt(part.disk.sectors[inode.blocks[0]], 1)) == Entry(DOTDOT, ParentIn(entries), DIRECTORY)
  {
    hide RawAt, DecodeEntry, Unique, NoEmptyBlock, TablesIn, RecordsIn, BitmapAgrees, IdsAgree;
    OwnedBlocks(part);
    assert Block(part.nodes[inode.id], 0) == Slot(part.nodes, inode.id, 0) == inode.blocks[0];
    assert ShowsAt(RawAt(part.disk.sectors[inode.blocks[0]], 1), entries, 0, 1);
  }

  /** What opening a directory of the tree brings. */
  lemma CanRead(part: Partition, cache: Cache, root: Inode, dirs: Listings, depth: map<nat, nat>, d: nat)
    requires InUse(part, cache, root, dirs, depth) && d in dirs
    ensures part.Valid() && d in part.nodes && cache.Valid(part) && (d in cache.opens ==> cache.opens[d] > 0)
    ensures Displays(part.disk.sectors, part.nodes, d, dirs[d]) && ParentIn(dirs[d]) < 256
    ensures ParentIn(dirs[d]) as nat in dirs
  {
    hide DirectoryOk, AllAllocated, SoleEntries, TreeOf, Distinct, Counted, Ids, Counts, OpenedIn, Displays;
    KnownNumbers(part, dirs);
    OneOfAll(part.disk.sectors, part.nodes, dirs, d);
    UpIsParent(part.disk.sectors, part.nodes, dirs, depth, d);
    cache.Positive(part.nodes, {}, d);
  }

  /** `..` names the parent. */
  lemma UpIsParent(sectors: seq<Sector>, nodes: map<nat, Node>, dirs: Listings, depth: map<nat, nat>, d: nat)
    requires AllDisplayed(sectors, nodes, dirs) && TreeOk(TreeOf(dirs), depth) && d in dirs
    ensures d in TreeOf(dirs) && ParentIn(dirs[d]) as nat == Parent(TreeOf(dirs), depth, d)
    ensures ParentIn(dirs[d]) as nat in dirs
  {
    hide AllDisplayed, TreeOf, DirectoryOk, Placed;
    UpIsUp(sectors, nodes, dirs, d);
    TreeHas(dirs, Parent(TreeOf(dirs), depth, d));
  }

  /** get_parent_dir_inode_nr: what `..` says. Neither ASSERT fails. */
  method GetParent(part: Partition, cache: Cache, root: Inode, child: nat, ghost dirs: Listings,
                   ghost depth: map<nat, nat>)
    returns (halted: bool, p: word)
    requires InUse(part, cache, root, dirs, depth) && child in dirs
    modifies cache, cache.list`openCount
    ensures !halted && p == ParentIn(dirs[child])
    ensures InUse(part, cache, root, dirs, depth) && cache.opens == old(cache.opens) && cache.list == old(cache.list)
  {
    hide Partition.Valid, TreeInOrder, AllDisplayed, OpenedIn, RawAt, DecodeEntry, Displays, Cache.Tracks, Opening;
    ghost var opens0, list0 := cache.opens, cache.list;
    CanRead(part, cache, root, dirs, depth, child);
    var inode := cache.Open(part, child, {});
    SecondEntry(part, inode, dirs[child]);
    var lba := inode.blocks[0];
    halted, p := lba < part.dataStart, 0;  // ASSERT
    if halted {
      return;
    }
    cache.Reclose(part, inode, opens0, list0, {});
    var buf := part.disk.ReadSector(lba);
    var e := DecodeEntry(RawAt(buf, 1));
    halted := !(e.id < 4096 && e.kind == DIRECTORY);  // ASSERT
    p := e.id;
  }

  /** Some entry has this inode number. */
  ghost predicate Numbered(entries: Entries, id: nat, name: Text) {
    exists q :: q in entries && entries[q].id as nat == id && entries[q].name == name
  }

  /** No entry with this inode number in front of position (k, i). */
  ghost predicate NoneBefore(entries: Entries, id: nat, k: nat, i: nat) {
    forall q :: q in entries && (q.0 < k || (q.0 == k && q.1 < i)) ==> entries[q].id as nat != id
  }

  /** The inner loop of get_child_dir_name. An unused entry has the number 0. */
  method ScanNumbers(buf: Sector, k: nat, id: nat, ghost entries: Entries) returns (found: bool, name: Text)
    requires ShowsBlock(buf, entries, k) && id != 0 && NoneBefore(entries, id, k, 0)
    requires forall q :: q in entries ==> q.1 < PER_SECTOR
    ensures found ==> Numbered(entries, id, name)
    ensures !found ==> NoneBefore(entries, id, k + 1, 0)
  {
    hide RawAt, DecodeEntry;
    var i := 0;
    while i < PER_SECTOR
      invariant i <= PER_SECTOR && NoneBefore(entries, id, k, i)
    {
      var e := DecodeEntry(RawAt(buf, i));
      assert ShowsAt(RawAt(buf, i), entries, k, i);
      if e.id as nat == id {
        assert (k, i) in entries && entries[(k, i)] == e;
        return true, e.name;
      }
      i := i + 1;
    }
    found, name := false, [];
  }

  /** The outer loop: all blocks, with those of a table when there is one. */
  method FindNumber(part: Partition, inode: Inode, all: seq<word>, id: nat,
                    ghost entries: Entries) returns (found: bool, name: Text)
    requires Showing(part, inode, entries) && id != 0 && |inode.blocks| == 13 && all == AllBlocks(inode.blocks)
    ensures found <==> exists q :: q in entries && entries[q].id as nat == id
    ensures found ==> Numbered(entries, id, name)
  {
    hide ShowsBlock, AllBlocks;
    assert forall q :: q in entries ==> q.1 < PER_SECTOR && q.0 < 12;
    BlockShown(part, inode, entries, 0);
    hide Showing;
    var count := if inode.blocks[12] != 0 then MAX_BLOCKS else 12;
    var k := 0;
    while k < count
      invariant k <= count && NoneBefore(entries, id, k, 0)
    {
      BlockShown(part, inode, entries, k);
      if all[k] != 0 {
        var buf := part.disk.ReadSector(all[k]);
        found, name := ScanNumbers(buf, k, id, entries);
        if found {
          return;
        }
      }
      k := k + 1;
    }
    found, name := false, [];
  }

  /** get_child_dir_name: the name of the first entry with this number. */
  method GetChildName(part: Partition, cache: Cache, root: Inode, p: nat, id: nat, ghost dirs: Listings,
                      ghost depth: map<nat, nat>)
    returns (found: bool, name: Text)
    requires InUse(part, cache, root, dirs, depth) && p in dirs && id != 0
    modifies cache, cache.list`openCount
    ensures found <==> exists q :: q in dirs[p] && dirs[p][q].id as nat == id
    ensures found ==> Numbered(dirs[p], id, name)
    ensures InUse(part, cache, root, dirs, depth) && cache.opens == old(cache.opens) && cache.list == old(cache.list)
  {
    hide Partition.Valid, TreeInOrder, AllDisplayed, Cache.Tracks, OpenedIn, Showing, AllBlocks, Numbered, Displays,
      Opening;
    ghost var opens0, list0 := cache.opens, cache.list;
    CanRead(part, cache, root, dirs, depth, p);
    var inode := cache.Open(part, p, {});
    NowShowing(part, inode, dirs[p]);
    var all := AllBlocks(inode.blocks);
    cache.Reclose(part, inode, opens0, list0, {});
    NowShowing(part, inode, dirs[p]);
    found, name := FindNumber(part, inode, all, id, dirs[p]);
  }

  lemma NowShowing(part: Partition, inode: Inode, entries: Entries)
    requires part.Valid() && Opened(part, inode) && Displays(part.disk.sectors, part.nodes, inode.id, entries)
    ensures Showing(part, inode, entries) && |inode.blocks| == 13
  {
    hide Partition.Consistent, TablesIn, RecordsIn, Shows, DirOk;
  }

  /** The name found for a directory's number in its parent is the directory's own. */
  lemma OwnName(sectors: seq<Sector>, nodes: map<nat, Node>, dirs: Listings, depth: map<nat, nat>, d: nat, name: Text)
    requires AllDisplayed(sectors, nodes, dirs) && TreeOk(TreeOf(dirs), depth) && d in dirs && d != 0
    requires ParentIn(dirs[d]) as nat in dirs && Numbered(dirs[ParentIn(dirs[d])], d, name)
    ensures d in TreeOf(dirs) && NameIn(TreeOf(dirs)[Parent(TreeOf(dirs), depth, d)], d, name) && IsName(name)
  {
    hide TreeOk, TreeOf, Parent, NameIn, IsName, Displays, DirectoryOf, AllDisplayed, OneEach;
    var p := ParentIn(dirs[d]) as nat;
    UpIsParent(sectors, nodes, dirs, depth, d);
    var q :| q in dirs[p] && dirs[p][q].id as nat == d && dirs[p][q].name == name;
    OneOfAll(sectors, nodes, dirs, p);
    Seen(sectors, nodes, p, dirs[p]);
    SeenAt(dirs[p], q);
    SeenThere(dirs, p);
    InDepth(TreeOf(dirs), depth, d);
    OnlyChildMatches(TreeOf(dirs), depth, d, name);
    NameOfChild(TreeOf(dirs), depth, d, name);
  }

  lemma SeenThere(dirs: Listings, d: nat)
    requires d in dirs
    ensures d in TreeOf(dirs) && TreeOf(dirs)[d] == DirectoryOf(dirs[d])
  {
    hide DirectoryOf;
  }

  /** There is one. */
  lemma HasNumber(sectors: seq<Sector>, nodes: map<nat, Node>, dirs: Listings, depth: map<nat, nat>, d: nat)
    requires AllDisplayed(sectors, nodes, dirs) && TreeOk(TreeOf(dirs), depth) && d in dirs && d != 0
    requires ParentIn(dirs[d]) as nat in dirs
    ensures exists q :: q in dirs[ParentIn(dirs[d])] && dirs[ParentIn(dirs[d])][q].id as nat == d
  {
    hide TreeOk, TreeOf, Parent, IsName, Displays, DirectoryOf, AllDisplayed, OneEach, NamesChild;
    var p := ParentIn(dirs[d]) as nat;
    UpIsParent(sectors, nodes, dirs, depth, d);
    HasAName(TreeOf(dirs), depth, d);
    var n := NameIn1(TreeOf(dirs)[p], d);
    OneOfAll(sectors, nodes, dirs, p);
    Seen(sectors, nodes, p, dirs[p]);
    SeenThere(dirs, p);
    var q := PlaceOf(dirs[p], n);
    SeenAt(dirs[p], q);
  }

  /** What a climb has gathered: whatever leads to `d`, followed by it, leads to `cwd`. */
  ghost predicate Climbed(tree: Tree, depth: map<nat, nat>, d: nat, ups: seq<Text>, cwd: nat) {
    && TreeOk(tree, depth) && d in tree && d in depth && cwd in tree
    && LeadsOn(tree, depth, d, Reversed(ups), cwd) && forall i :: 0 <= i < |ups| ==> IsName(ups[i])
  }

  lemma ClimbStart(tree: Tree, depth: map<nat, nat>, cwd: nat)
    requires TreeOk(tree, depth) && cwd in tree
    ensures Climbed(tree, depth, cwd, [], cwd) && Joined([]) == []
  {
    hide TreeOk, LeadsOn;
    InDepth(tree, depth, cwd);
    LeadsOnStart(tree, depth, cwd);
  }

  lemma ClimbOn(tree: Tree, depth: map<nat, nat>, d: nat, ups: seq<Text>, cwd: nat, name: Text)
    requires Climbed(tree, depth, d, ups, cwd) && d != 0 && NameIn(tree[Parent(tree, depth, d)], d, name)
    requires IsName(name)
    ensures Climbed(tree, depth, Parent(tree, depth, d), ups + [name], cwd)
    ensures Joined(ups + [name]) == Joined(ups) + ([SLASH] + name)
    ensures depth[Parent(tree, depth, d)] < depth[d]
  {
    hide TreeOk, LeadsOn, NameIn, IsName, Joined;
    JoinedAppend(ups, [name]);
    JoinedOne(name);
    ReversedAppend(ups, name);
    LeadsOnUp(tree, depth, d, name, Reversed(ups), cwd);
  }

  /** What the climb knows before a turn. */
  lemma ClimbTurn(part: Partition, cache: Cache, root: Inode, dirs: Listings, depth: map<nat, nat>, d: nat)
    requires InUse(part, cache, root, dirs, depth) && d in dirs && d != 0
    ensures ParentIn(dirs[d]) as nat in dirs && AllDisplayed(part.disk.sectors, part.nodes, dirs)
    ensures TreeOk(TreeOf(dirs), depth)
    ensures d in TreeOf(dirs) && ParentIn(dirs[d]) as nat == Parent(TreeOf(dirs), depth, d)
    ensures exists q :: q in dirs[ParentIn(dirs[d])] && dirs[ParentIn(dirs[d])][q].id as nat == d
  {
    hide AllAllocated, SoleEntries, AllDisplayed, TreeOk, TreeOf, Cache.Tracks, Partition.Valid, Parent;
    UpIsParent(part.disk.sectors, part.nodes, dirs, depth, d);
    HasNumber(part.disk.sectors, part.nodes, dirs, depth, d);
  }

  /** The upward loop of sys_getcwd: names from the working directory to the root. It finds every name. */
  method ClimbUp(part: Partition, cache: Cache, root: Inode, cwd: nat, ghost dirs: Listings, ghost depth: map<nat, nat>)
    returns (halted: bool, found: bool, reversed: Text, ghost ups: seq<Text>)
    requires InUse(part, cache, root, dirs, depth) && cwd in dirs
    modifies cache, cache.list`openCount
    ensures InUse(part, cache, root, dirs, depth) && cache.opens == old(cache.opens) && cache.list == old(cache.list)
    ensures !halted && found && reversed == Joined(ups) && Climbed(TreeOf(dirs), depth, 0, ups, cwd)
  {
    hide *;
    ghost var tree := TreeOf(dirs);
    InDirs(part, cache, root, dirs, depth, cwd);
    ClimbStart(tree, depth, cwd);
    reversed, ups := [], [];
    halted, found := false, true;
    var child := cwd;
    while child != 0
      invariant InUse(part, cache, root, dirs, depth) && cache.opens == old(cache.opens)
      invariant cache.list == old(cache.list)
      invariant child in dirs && child in depth && reversed == Joined(ups) && Climbed(tree, depth, child, ups, cwd)
      invariant !halted && found
      decreases depth[child]
    {
      ClimbTurn(part, cache, root, dirs, depth, child);
      var parent, name;
      halted, parent := GetParent(part, cache, root, child, dirs, depth);
      if halted {
        return;
      }
      found, name := GetChildName(part, cache, root, parent, child, dirs, depth);
      if !found {
        return;
      }
      OwnName(part.disk.sectors, part.nodes, dirs, depth, child, name);
      ClimbOn(tree, depth, child, ups, cwd, name);
      InDirs(part, cache, root, dirs, depth, parent);
      reversed := reversed + ([SLASH] + name);
      ups := ups + [name];
      child := parent;
    }
  }

  lemma InDirs(part: Partition, cache: Cache, root: Inode, dirs: Listings, depth: map<nat, nat>, d: nat)
    requires InUse(part, cache, root, dirs, depth) && d in dirs
    ensures TreeOk(TreeOf(dirs), depth) && d in TreeOf(dirs) && d in depth && d < 256
  {
    hide AllAllocated, SoleEntries, AllDisplayed, TreeOf, Cache.Tracks, DirectoryOk, Placed;
    TreeHas(dirs, d);
    KnownNumbers(part, dirs);
  }

  lemma ClimbEnd(tree: Tree, depth: map<nat, nat>, ups: seq<Text>, cwd: nat)
    requires Climbed(tree, depth, 0, ups, cwd)
    ensures TreeOk(tree, depth) && cwd in tree && Leads(tree, depth, Reversed(ups), cwd)
    ensures |Joined(Reversed(ups))| == |Joined(ups)|
    ensures forall i :: 0 <= i < |ups| ==> IsName(ups[i])
  {
    hide TreeOk, LeadsOn, IsName, Joined, Leads;
    LeadsOnEnd(tree, depth, Reversed(ups), cwd);
    SameLength(ups);
  }

  /** sys_getcwd: what it writes, with the zero at the end. The 512 bytes that it gathers the names in suffice
      when the path fits. The ASSERT lets a path through that fills the buffer; the zero then comes behind it.
      For the root it does not look at the size. */
  method GetCwd(part: Partition, cache: Cache, root: Inode, cwd: nat, size: nat, ghost dirs: Listings,
                ghost depth: map<nat, nat>)
    returns (r: Run<Text>, ghost names: seq<Text>)
    requires InUse(part, cache, root, dirs, depth) && cwd in dirs && PathFits(TreeOf(dirs), depth, cwd)
    modifies cache, cache.list`openCount
    ensures InUse(part, cache, root, dirs, depth) && cache.opens == old(cache.opens) && cache.list == old(cache.list)
    ensures TreeOk(TreeOf(dirs), depth) && cwd in TreeOf(dirs) && Leads(TreeOf(dirs), depth, names, cwd)
    ensures |Joined(names)| < MAX_PATH_LEN
    ensures r == Halted <==> cwd != 0 && |Joined(names)| > size
    ensures r.Done? ==> r.value == (if cwd == 0 then [SLASH] else Joined(names)) + [0]
    ensures r.Done? && cwd != 0 ==> (|r.value| > size <==> |Joined(names)| == size)
  {
    hide *;
    InDirs(part, cache, root, dirs, depth, cwd);
    RootLeads(TreeOf(dirs), depth);
    NothingJoined();
    names := [];
    r := Halted;
    if cwd == 0 {
      return Done([SLASH, 0]), names;
    }
    var halted, found, reversed;
    ghost var ups;
    halted, found, reversed, ups := ClimbUp(part, cache, root, cwd, dirs, depth);
    ClimbEnd(TreeOf(dirs), depth, ups, cwd);
    names := Reversed(ups);
    FitsItsBuffer(TreeOf(dirs), depth, cwd, names);
    halted := halted || cwd >= 4096 || |reversed| > size;  // ASSERTs
    if !halted && found {
      var buf := Unreverse(reversed, ups);
      r := Done(buf + [0]);
    }
  }

  /** Every name in a directory leaves room for its zero. */
  lemma NameShort(part: Partition, dirs: Listings, d: nat, n: Text)
    requires OnDisk(part, dirs) && d in dirs && n in TreeOf(dirs)[d]
    ensures |n| < NAME_SPACE
  {
    hide Partition.Valid, TreeOf, Shows, NoEmptyBlock;
    var p := PlaceOfName(part.disk.sectors, part.nodes, dirs, d, n);
    OneOfAll(part.disk.sectors, part.nodes, dirs, d);
  }

  lemma {:induction false} LeadsShort(part: Partition, dirs: Listings, depth: map<nat, nat>, names: seq<Text>, d: nat)
    requires OnDisk(part, dirs) && TreeOk(TreeOf(dirs), depth) && d in TreeOf(dirs) && d in depth
    requires Leads(TreeOf(dirs), depth, names, d)
    ensures Short(names)
    decreases depth[d]
  {
    hide OnDisk, TreeOk, TreeOf, Parent, NAME_SPACE;
    if d != 0 {
      var p := Parent(TreeOf(dirs), depth, d);
      TreeHas(dirs, p);
      NameShort(part, dirs, p, names[|names| - 1]);
      LeadsShort(part, dirs, depth, names[..|names| - 1], p);
    }
  }

  /** The answer of sys_getcwd can be searched for. */
  lemma CwdKept(part: Partition, cache: Cache, root: Inode, dirs: Listings, depth: map<nat, nat>, cwd: nat,
                names: seq<Text>, path: Text)
    requires InUse(part, cache, root, dirs, depth) && TreeOk(TreeOf(dirs), depth) && cwd in TreeOf(dirs)
    requires Leads(TreeOf(dirs), depth, names, cwd) && path == if cwd == 0 then [SLASH] else Joined(names)
    ensures 0 !in path && BufferOf(TreeOf(dirs), path) == Kept
  {
    hide TreeOk, TreeOf, OnDisk, AllAllocated, SoleEntries, Leads, Joined, Components, BufferAfter, Short, Cache.Valid;
    InDepth(TreeOf(dirs), depth, cwd);
    if cwd != 0 {
      LeadsShort(part, dirs, depth, names, cwd);
      LeadsResolves(TreeOf(dirs), depth, names, cwd);
      NoZeros(names);
      ComponentsOfJoined(names);
      ShortIsKept(TreeOf(dirs), 0, names);
    }
  }

  lemma FitsItsBuffer(tree: Tree, depth: map<nat, nat>, d: nat, own: seq<Text>)
    requires PathFits(tree, depth, d) && Leads(tree, depth, own, d)
    ensures |Joined(own)| < MAX_PATH_LEN && MAX_PATH_LEN == 512
  {
    hide TreeOk, Leads, Joined;
  }

  lemma RootLeads(tree: Tree, depth: map<nat, nat>)
    requires TreeOk(tree, depth)
    ensures 0 in tree && Leads(tree, depth, [], 0) && 0 < MAX_PATH_LEN
  {
  }

  /** The part of a process that sys_chdir changes. */
  class Process {
    var cwd: nat

    constructor ()
      ensures cwd == 0
    {
      cwd := 0;
    }

    /** sys_chdir */
    method ChDir(part: Partition, cache: Cache, root: Inode, junk: word, path: Text, ghost dirs: Listings,
                 ghost depth: map<nat, nat>)
      returns (r: Run<int>)
      requires InUse(part, cache, root, dirs, depth) && 0 !in path && BufferOf(TreeOf(dirs), path) == Kept
      modifies this, cache, cache.list`openCount
      ensures InUse(part, cache, root, dirs, depth)
      ensures r == Halted <==> Refused(path)
      ensures r.Done? ==> cache.opens == old(cache.opens) && cache.list == old(cache.list)
      ensures r.Done? && (IsRoot(path) || Components(path) != []) ==>
                var found := Resolve(TreeOf(dirs), 0, Components(path));
                r.value == (if found.Dir? then 0 else -1) && cwd == if found.Dir? then found.id else old(cwd)
      ensures r.Done? && !IsRoot(path) && Components(path) == [] ==>
                && r.value == (if junk == MINUS_ONE then -1 else 0)
                && cwd == if junk == MINUS_ONE then old(cwd) else junk as nat
      ensures r.Halted? ==> cwd == old(cwd)
    {
      hide InUse, TreeOk, TreeOf, Components, Resolve, IsRoot, Joined, Cache.Held, BufferOf;
      RootAtHand(part, cache, root, dirs, depth);
      ghost var opens0, list0 := cache.opens, cache.list;
      var hit, buffer, atRoot, parent, _ := SearchFile(part, cache, root, junk, path, dirs, depth);
      if hit.Halted? {
        return Halted;
      }
      r := Done(-1);
      if hit.value != None && hit.value.isDir {
        cwd := hit.value.id;
        r := Done(0);
      }
      CloseParent(part, cache, root, atRoot, parent, dirs, depth, opens0, list0);
    }

    /** The working directory as a path, and back again: sys_chdir to what sys_getcwd answered leaves the
        process where it was. */
    method ThereAndBack(part: Partition, cache: Cache, root: Inode, junk: word, size: nat, ghost dirs: Listings,
                        ghost depth: map<nat, nat>)
      returns (path: Run<Text>, r: Run<int>, ghost names: seq<Text>)
      requires InUse(part, cache, root, dirs, depth) && cwd in dirs && PathFits(TreeOf(dirs), depth, cwd)
      modifies this, cache, cache.list`openCount
      ensures InUse(part, cache, root, dirs, depth) && cwd == old(cwd) && TreeOk(TreeOf(dirs), depth)
      ensures cwd in TreeOf(dirs) && Leads(TreeOf(dirs), depth, names, cwd)
      ensures path.Halted? <==> cwd != 0 && |Joined(names)| > size
      ensures path.Done? ==> |path.value| == 1 + if cwd == 0 then 1 else |Joined(names)|
      ensures path.Done? ==> Resolve(TreeOf(dirs), 0, Components(path.value[..|path.value| - 1])) == Dir(cwd)
      ensures r == if path.Done? then Done(0) else Halted
    {
      hide InUse, TreeOk, TreeOf, Components, Resolve, Joined, Leads;
      path, names := GetCwd(part, cache, root, cwd, size, dirs, depth);
      r := Halted;
      if path.Halted? {
        return;
      }
      var text := path.value[..|path.value| - 1];
      CwdResolves(TreeOf(dirs), depth, cwd, names, text);
      CwdKept(part, cache, root, dirs, depth, cwd, names, text);
      r := ChDir(part, cache, root, junk, text, dirs, depth);
    }
  }

  lemma HeldList(cache: Cache, atRoot: bool, parent: Inode, opens0: map<nat, nat>, list0: seq<Inode>)
    requires cache.Held(atRoot, parent, opens0, list0)
    ensures forall i :: 0 <= i < |cache.list| ==> cache.list[i] in list0 || cache.list[i] == parent
  {
  }

  /** dir_close of the handle that the search left open. */
  method CloseParent(part: Partition, cache: Cache, root: Inode, atRoot: bool, parent: Inode, ghost dirs: Listings,
                     ghost depth: map<nat, nat>,
                     ghost opens0: map<nat, nat>, ghost list0: seq<Inode>)
    requires InUse(part, cache, root, dirs, depth) && cache.Held(atRoot, parent, opens0, list0) && root in list0
    modifies cache, parent`openCount
    ensures InUse(part, cache, root, dirs, depth) && cache.opens == opens0 && cache.list == list0
  {
    hide TreeOk, AllAllocated, SoleEntries, AllDisplayed, TreeOf, Cache.Tracks, Partition.Valid, Cache.OpenedSince;
    cache.DirClose(part, atRoot, parent, opens0, list0, {});
  }
}
