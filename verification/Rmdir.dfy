/** fs/c14a_fs.c: sys_rmdir from the path on, a path through the directory's own `.` included. */
module Rmdirs {
  import opened Debug
  import opened Bytes
  import opened Ide
  import opened Inodes
  import opened Volumes
  import opened OpenInodes
  import opened FileData
  import opened DirData
  import opened Dirs
  import opened Caches
  import opened Names
  import opened MakeDirs
  import opened NameBuffers
  import opened Paths
  import opened Trees
  import opened TreeSteps
  import opened DiskTrees
  import opened Calls
  import opened Searches
  import opened WorkingDirs

  /** An entry of a directory, other than the dots, that is of a directory: not the directory itself, nor its
      parent. */
  lemma EntryIsBelow(sectors: seq<Sector>, nodes: map<nat, Node>, dirs: Listings, depth: map<nat, nat>, d: nat,
                     id: word)
    requires AllDisplayed(sectors, nodes, dirs) && TreeInOrder(nodes, dirs, depth) && d in dirs && id as nat in dirs
    requires Mentions(dirs[d], id)
    ensures id != d && id != ParentIn(dirs[d])
  {
    hide AllDisplayed, AllAllocated, SoleEntries, TreeOf, TreeOk, Parent;
    var p :| Target(dirs[d], p, id);
    AllocatedOne(nodes, dirs, d);
    if dirs[d][p].kind == REGULAR {
      FileNotDirectory(sectors, nodes, dirs, depth, d, p);
    }
    ChildEntry(sectors, nodes, dirs, d, p);
    TreeHas(dirs, d);
    var n := dirs[d][p].name;
    NotItsParent(TreeOf(dirs), depth, d, n, id);
    ChildThere(TreeOf(dirs), depth, d, n);
    DotsThere(TreeOf(dirs), depth, id);
    DotsThere(TreeOf(dirs), depth, d);
    UpIsUp(sectors, nodes, dirs, d);
  }

  lemma ChildEntry(sectors: seq<Sector>, nodes: map<nat, Node>, dirs: Listings, d: nat, p: (nat, nat))
    requires AllDisplayed(sectors, nodes, dirs) && d in dirs && p in dirs[d] && !Dot(p)
    ensures dirs[d][p].name in TreeOf(dirs)[d] && !IsDots(dirs[d][p].name)
    ensures TreeOf(dirs)[d][dirs[d][p].name] == Child(dirs[d][p].id, dirs[d][p].kind == DIRECTORY)
  {
    hide Displays, DirectoryOf, IsDots, NameMaps.OneEach;
    OneOfAll(sectors, nodes, dirs, d);
    Seen(sectors, nodes, d, dirs[d]);
    SeenAt(dirs[d], p);
    DotNames(sectors, nodes, d, dirs[d], p);
  }

  /** What the removal finds of the parent. */
  lemma ParentAtHand(part: Partition, cache: Cache, root: Inode, dirs: Listings, depth: map<nat, nat>, dir: Inode,
                     id: word)
    requires InUse(part, cache, root, dirs, depth) && dir in cache.list && dir.id as nat in dirs && id as nat in dirs
    ensures part.Valid() && cache.Valid(part) && AllDisplayed(part.disk.sectors, part.nodes, dirs)
    ensures TreeInOrder(part.nodes, dirs, depth)
    ensures DirReady(part, dir, dirs[dir.id], ParentIn(dirs[dir.id])) && id as nat in part.nodes
    ensures Mentions(dirs[dir.id], id) ==> id != dir.id && id != ParentIn(dirs[dir.id])
    ensures id as nat in cache.opens ==> cache.opens[id] > 0
  {
    hide AllDisplayed, AllAllocated, SoleEntries, TreeOf, TreeOk, Cache.Tracks, DirReady, InPlace, Mentions,
      DirectoryOf, NameMaps.OneEach, DirData.HasName;
    cache.ShowsFields(part, dir);
    AtHand(part, dirs, dir);
    KnownNumbers(part, dirs);
    if Mentions(dirs[dir.id], id) {
      EntryIsBelow(part.disk.sectors, part.nodes, dirs, depth, dir.id, id);
    }
    cache.Positive(part.nodes, {}, id);
  }

  /** And of the directory to remove: its size tells whether it is empty, and then it has one block. */
  lemma ChildReady(part: Partition, dirs: Listings, child: Inode)
    requires part.Valid() && AllDisplayed(part.disk.sectors, part.nodes, dirs) && child.id as nat in dirs
    requires Opened(part, child)
    ensures |child.blocks| == 13 && (child.size == 2 * ENTRY <==> IsEmptyDir(TreeOf(dirs)[child.id]))
    ensures child.size == 2 * ENTRY ==> forall k :: 1 <= k < 13 ==> child.blocks[k] == 0
  {
    hide Partition.Consistent, TablesIn, RecordsIn, Shows, DirOk, TreeOf, IsEmptyDir, AllDisplayed;
    OneOfAll(part.disk.sectors, part.nodes, dirs, child.id);
    EmptyEntries(part.disk.sectors, part.nodes, dirs, child.id);
    EmptyDirBlocks(part, child, dirs[child.id], ParentIn(dirs[child.id]));
  }

  /** What is left of the tree on the disk. */
  ghost predicate Stepped(part: Partition, nodes0: map<nat, Node>, s0: seq<Sector>, dirs: Listings,
                          depth: map<nat, nat>,
                          d: nat, name: Text, id: nat, dirs1: Listings)
    reads part, part.disk
  {
    && GoesThrough(TreeOf(dirs), Rmdir(d, name)) && TreeOf(dirs1) == After(TreeOf(dirs), Rmdir(d, name))
    && OnDisk(part, dirs1)
    && (name != DOT ==> TreeInOrder(part.nodes, dirs1, depth - {id}))
    && part.nodes.Keys == nodes0.Keys - {id}
    && OthersKept(nodes0, s0, part.nodes, part.disk.sectors, {d, id})
  }

  /** Through `.`: nothing is deleted but the inode. */
  lemma ThroughSelf(part: Partition, nodes0: map<nat, Node>, s0: seq<Sector>, dirs: Listings, depth: map<nat, nat>,
                    d: nat, id: nat)
    requires AllDisplayed(s0, nodes0, dirs) && TreeOk(TreeOf(dirs), depth) && d in dirs && d in TreeOf(dirs) && id != 0
    requires DOT in TreeOf(dirs)[d] && TreeOf(dirs)[d][DOT] == Child(id, true) && id in TreeOf(dirs)
    requires IsEmptyDir(TreeOf(dirs)[id])
    requires part.Valid() && OthersKept(nodes0, s0, part.nodes, part.disk.sectors, {id}) && part.nodes == nodes0 - {id}
    ensures d == id && Stepped(part, nodes0, s0, dirs, depth, d, DOT, id, dirs - {id})
  {
    hide AllDisplayed, TreeOf, TreeOk, IsEmptyDir, OthersKept, Partition.Valid, OnDisk;
    DotsThere(TreeOf(dirs), depth, d);
    SelfStep(part, nodes0, s0, dirs, id);
    assert {d, id} == {id};
  }

  /** `.` is the directory itself. */
  lemma OwnDot(nodes: map<nat, Node>, dirs: Listings, depth: map<nat, nat>, d: nat, id: nat)
    requires TreeInOrder(nodes, dirs, depth) && d in dirs && DOT in TreeOf(dirs)[d]
    requires TreeOf(dirs)[d][DOT] == Child(id, true)
    ensures d == id && TreeOk(TreeOf(dirs), depth) && d in TreeOf(dirs)
  {
    hide AllAllocated, SoleEntries, TreeOf, TreeOk;
    TreeHas(dirs, d);
    DotsThere(TreeOf(dirs), depth, d);
  }

  /** Under its name: the entry goes too. */
  lemma UnderName(part: Partition, dir: Inode, nodes0: map<nat, Node>, s0: seq<Sector>, dirs: Listings,
                  depth: map<nat, nat>,
                  q: (nat, nat), name: Text, id: word)
    returns (dirs1: Listings)
    requires AllDisplayed(s0, nodes0, dirs) && TreeInOrder(nodes0, dirs, depth) && dir.id as nat in dirs
    requires id as nat in dirs && id != 0
    requires name in TreeOf(dirs)[dir.id] && TreeOf(dirs)[dir.id][name] == Child(id, true)
    requires IsEmptyDir(TreeOf(dirs)[id]) && name != DOT
    requires Mentions(dirs[dir.id], id) ==> Deleted(part, dir, nodes0, s0, dirs[dir.id], ParentIn(dirs[dir.id]), q, id)
    ensures Stepped(part, nodes0, s0, dirs, depth, dir.id, name, id, dirs1)
  {
    hide AllDisplayed, TreeInOrder, TreeOf, IsEmptyDir, OthersKept, OnDisk, Deleted, NotUp, IsDots, Mentions;
    EmptyChild(s0, nodes0, dirs, depth, dir.id, name, id);
    var p := PlaceOfName(s0, nodes0, dirs, dir.id, name);
    ListsIt(dirs[dir.id], p, id);
    dirs1 := RmdirStep(part, dir, nodes0, s0, dirs, depth, p, q, name, id);
    DeletedNodes(part, dir, nodes0, s0, dirs[dir.id], ParentIn(dirs[dir.id]), q, id);
  }

  lemma EitherWay(part: Partition, dir: Inode, nodes0: map<nat, Node>, s0: seq<Sector>, dirs: Listings,
                  depth: map<nat, nat>,
                  q: (nat, nat), name: Text, id: word)
    returns (dirs1: Listings)
    requires AllDisplayed(s0, nodes0, dirs) && TreeInOrder(nodes0, dirs, depth) && dir.id as nat in dirs
    requires id as nat in dirs && id != 0
    requires name in TreeOf(dirs)[dir.id] && TreeOf(dirs)[dir.id][name] == Child(id, true)
    requires IsEmptyDir(TreeOf(dirs)[id])
    requires Mentions(dirs[dir.id], id) ==> Deleted(part, dir, nodes0, s0, dirs[dir.id], ParentIn(dirs[dir.id]), q, id)
    requires !Mentions(dirs[dir.id], id) ==> part.Valid() && part.nodes == nodes0 - {id as nat}
    requires !Mentions(dirs[dir.id], id) ==> OthersKept(nodes0, s0, part.nodes, part.disk.sectors, {id as nat})
    ensures Stepped(part, nodes0, s0, dirs, depth, dir.id, name, id, dirs1)
  {
    hide AllDisplayed, TreeInOrder, TreeOf, IsEmptyDir, OthersKept, Deleted, Mentions, Stepped, Partition.Valid;
    if name == DOT {
      OwnDot(nodes0, dirs, depth, dir.id, id);
      EmptyMentions(s0, nodes0, dirs, dir.id, id);
      TreeHas(dirs, id);
      ThroughSelf(part, nodes0, s0, dirs, depth, dir.id, id);
      dirs1 := dirs - {id as nat};
    } else {
      dirs1 := UnderName(part, dir, nodes0, s0, dirs, depth, q, name, id);
    }
  }

  /** sys_rmdir once the search has found a directory: it is opened, removed when it is empty, and closed. */
  method RemoveFound(part: Partition, cache: Cache, root: Inode, dir: Inode, id: word, ghost name: Text,
                     ghost dirs: Listings,
                     ghost depth: map<nat, nat>)
    returns (halted: bool, r: int, ghost dirs1: Listings)
    requires InUse(part, cache, root, dirs, depth) && dir in cache.list && dir.id as nat in dirs && id as nat in dirs
    requires id != 0
    requires name in TreeOf(dirs)[dir.id] && TreeOf(dirs)[dir.id][name] == Child(id, true)
    modifies part, part.disk, dir`size, dir`blocks, cache, cache.list`openCount
    ensures !halted && r == if IsEmptyDir(TreeOf(dirs)[id]) then 0 else -1
    ensures r == -1 ==> unchanged(part, part.disk) && InUse(part, cache, root, dirs, depth)
    ensures r == 0 ==> Stepped(part, old(part.nodes), old(part.disk.sectors), dirs, depth, dir.id, name, id, dirs1)
    ensures r == 0 ==> cache.ValidBut(part, {id as nat})
    ensures cache.opens == old(cache.opens) && cache.list == old(cache.list)
  {
    hide Partition.Valid, AllDisplayed, TreeInOrder, TreeOf, Cache.Tracks, DirReady, Mentions, IsEmptyDir, Deleted,
      OthersKept, OnDisk, Opened, Opening, Stepped, ParentIn;
    ghost var nodes0, s0, opens0, list0, entries :=
      part.nodes, part.disk.sectors, cache.opens, cache.list, dirs[dir.id];
    ParentAtHand(part, cache, root, dirs, depth, dir, id);
    var child := cache.Open(part, id, {});
    ChildReady(part, dirs, child);
    ghost var found, q;
    halted, r, found, q := RemoveDir(part, cache, dir, child, entries, ParentIn(entries));
    dirs1 := dirs;
    if r == 0 {
      cache.Reclose(part, child, opens0, list0, {id as nat});
      dirs1 := EitherWay(part, dir, nodes0, s0, dirs, depth, q, name, id);
    } else {
      cache.Reclose(part, child, opens0, list0, {});
    }
  }

  /** All names but the last lead to `e`: the last one is looked up there. */
  lemma {:induction false} LastLookedUp(tree: Tree, d: nat, names: seq<Text>, e: nat)
    requires names != [] && Resolve(tree, d, names[..|names| - 1]) == Dir(e)
    ensures Resolve(tree, d, names) == Resolve(tree, e, [names[|names| - 1]])
    decreases |names|
  {
    var front := names[..|names| - 1];
    if front == [] {
      assert names == [names[|names| - 1]];
    } else {
      assert front[0] == names[0] && front[1..] == names[1..][..|names[1..]| - 1];
      LastLookedUp(tree, tree[d][names[0]].id, names[1..], e);
    }
  }

  /** The names lead to directory `id`, and all but the last one to `d`. */
  ghost predicate FoundDir(tree: Tree, names: seq<Text>, d: nat, id: nat) {
    && names != [] && d in tree && names[|names| - 1] in tree[d] && tree[d][names[|names| - 1]] == Child(id, true)
    && id in tree
    && Resolve(tree, 0, names[..|names| - 1]) == Dir(d) && Resolve(tree, 0, names) == Dir(id)
  }

  lemma FoundThere(tree: Tree, depth: map<nat, nat>, names: seq<Text>, hit: Hit, parent: nat, searched: Text)
    requires TreeOk(tree, depth) && Answer(tree, names, hit, parent, searched) && hit != None && hit.isDir
    ensures FoundDir(tree, names, parent, hit.id)
  {
    hide TreeOk, Joined;
    LastLookedUp(tree, 0, names, parent);
    InDepth(tree, depth, 0);
    DirsFound(tree, depth, 0, names);
    var c := tree[parent][names[|names| - 1]];
    assert Resolve(tree, c.id, [names[|names| - 1]][1..]) == Dir(c.id);
  }

  /** The path stops sys_rmdir: search_file does not take it, or it leads to the root. */
  ghost predicate Stops(tree: Tree, path: Text) {
    Refused(path) || Resolve(tree, 0, Components(path)) == Dir(0)
  }

  /** The path leads to an empty directory. */
  ghost predicate LeadsToEmpty(tree: Tree, path: Text) {
    var found := Resolve(tree, 0, Components(path));
    found.Dir? && found.id in tree && IsEmptyDir(tree[found.id])
  }

  /** What sys_rmdir leaves when it answers 0: the last name's step from the directory the others lead to. */
  ghost predicate RemovedBy(part: Partition, nodes0: map<nat, Node>, s0: seq<Sector>, dirs: Listings,
                            depth: map<nat, nat>,
                            names: seq<Text>, d: nat, id: nat, dirs1: Listings)
    reads part, part.disk
  {
    FoundDir(TreeOf(dirs), names, d, id) && Stepped(part, nodes0, s0, dirs, depth, d, names[|names| - 1], id, dirs1)
  }

  /** The name under which a search found a file; it may have left names over. */
  function LastTried(names: seq<Text>, left: seq<Text>): Text
    requires |left| < |names|
  {
    names[|names| - 1 - |left|]
  }

  /** Where a file is found it has an entry. */
  lemma {:induction false} FileFound(tree: Tree, d: nat, names: seq<Text>)
    requires Resolve(tree, d, names).File?
    ensures var f := Resolve(tree, d, names);
      && |f.left| < |names| && f.d in tree && LastTried(names, f.left) in tree[f.d]
      && tree[f.d][LastTried(names, f.left)] == Child(f.id, false)
    decreases |names|
  {
    var c := tree[d][names[0]];
    if c.isDir {
      FileFound(tree, c.id, names[1..]);
    }
  }

  /** No file has the root's number. */
  lemma FileNotRoot(part: Partition, cache: Cache, root: Inode, dirs: Listings, depth: map<nat, nat>, names: seq<Text>)
    requires InUse(part, cache, root, dirs, depth) && Resolve(TreeOf(dirs), 0, names).File?
    ensures Resolve(TreeOf(dirs), 0, names).id != 0
  {
    hide AllDisplayed, TreeOk, SoleEntries, TreeOf, Cache.Tracks, Partition.Valid, IsDots, AllAllocated;
    FileFound(TreeOf(dirs), 0, names);
    var d, n := Resolve(TreeOf(dirs), 0, names).d, LastTried(names, Resolve(TreeOf(dirs), 0, names).left);
    TreeHas(dirs, d);
    var p := PlaceOfName(part.disk.sectors, part.nodes, dirs, d, n);
    AllocatedOne(part.nodes, dirs, d);
  }

  /** Nothing found, or a file. */
  lemma NoDirFound(part: Partition, cache: Cache, root: Inode, dirs: Listings, depth: map<nat, nat>, names: seq<Text>,
                   hit: Hit,
                   parent: nat, searched: Text)
    requires InUse(part, cache, root, dirs, depth) && Answer(TreeOf(dirs), names, hit, parent, searched)
    requires (hit == None || !hit.isDir)
    ensures !Resolve(TreeOf(dirs), 0, names).Dir? && (hit != None ==> hit.id != 0)
  {
    hide InUse, TreeOf, Joined, Resolve;
    if hit != None {
      FileNotRoot(part, cache, root, dirs, depth, names);
    }
  }

  lemma RmdirEnds(part: Partition, cache: Cache, root: Inode, nodes0: map<nat, Node>, s0: seq<Sector>, dirs: Listings,
                  depth: map<nat, nat>, d: nat, name: Text, id: nat, dirs1: Listings)
    requires Stepped(part, nodes0, s0, dirs, depth, d, name, id, dirs1) && TreeOk(TreeOf(dirs), depth)
    requires cache.ValidBut(part, {id}) && root in cache.list && root.id == 0
    ensures (exists depth1 :: TreeOk(TreeOf(dirs1), depth1)) <==> name != DOT
    ensures cache.Valid(part) <==> id !in cache.opens
    ensures name != DOT && id !in cache.opens ==> InUse(part, cache, root, dirs1, depth - {id})
  {
    hide TreeOf, TreeOk, AllAllocated, SoleEntries, GoesThrough, After, Cache.Tracks, OthersKept, OnDisk, TreeInOrder;
    KeepsUnlessByDot(TreeOf(dirs), depth, Rmdir(d, name));
    cache.ValidIffClosed(part, id);
  }

  /** Of the directories one is gone. */
  lemma OneLess(part: Partition, nodes0: map<nat, Node>, s0: seq<Sector>, dirs: Listings, depth: map<nat, nat>,
                names: seq<Text>, d: nat, id: nat, dirs1: Listings)
    requires RemovedBy(part, nodes0, s0, dirs, depth, names, d, id, dirs1)
    ensures dirs1.Keys == dirs.Keys - {id}
  {
    hide DirectoryOf, OthersKept, OnDisk, TreeInOrder, Resolve;
    assert TreeOf(dirs).Keys == dirs.Keys && TreeOf(dirs1).Keys == dirs1.Keys;
  }

  /** The rest of sys_rmdir for a directory other than the root: removing it, and closing both handles. */
  method RemoveAndClose(part: Partition, cache: Cache, root: Inode, atRoot: bool, dir: Inode, id: word,
                        ghost names: seq<Text>,
                        ghost dirs: Listings, ghost depth: map<nat, nat>, ghost opens0: map<nat, nat>,
                        ghost list0: seq<Inode>)
    returns (halted: bool, r: int, ghost dirs1: Listings)
    requires InUse(part, cache, root, dirs, depth) && cache.Held(atRoot, dir, opens0, list0) && root in list0
    requires dir in cache.list
    requires FoundDir(TreeOf(dirs), names, dir.id, id) && id != 0
    modifies part, part.disk, dir`size, dir`blocks, cache, cache.list`openCount
    ensures !halted && r == if IsEmptyDir(TreeOf(dirs)[id]) then 0 else -1
    ensures r == -1 ==> unchanged(part, part.disk) && InUse(part, cache, root, dirs, depth)
    ensures r == 0 ==> RemovedBy(part, old(part.nodes), old(part.disk.sectors), dirs, depth, names, dir.id, id, dirs1)
    ensures r == 0 ==> dirs1.Keys == dirs.Keys - {id as nat}
    ensures r == 0 ==> ((exists depth1 :: TreeOk(TreeOf(dirs1), depth1)) <==> names[|names| - 1] != DOT)
    ensures r == 0 ==> cache.ValidBut(part, {id as nat}) && (cache.Valid(part) <==> id as nat !in opens0)
    ensures r == 0 && names[|names| - 1] != DOT && id as nat !in opens0 ==>
      InUse(part, cache, root, dirs1, depth - {id as nat})
    ensures cache.opens == opens0 && cache.list == list0
  {
    hide InUse, TreeOf, TreeOk, Resolve, Stepped, IsEmptyDir, Partition.Valid, Opening, Cache.ValidBut, Cache.Valid;
    ghost var nodes0, s0 := part.nodes, part.disk.sectors;
    RootAtHand(part, cache, root, dirs, depth);
    TreeHas(dirs, dir.id);
    TreeHas(dirs, id);
    halted, r, dirs1 := RemoveFound(part, cache, root, dir, id, names[|names| - 1], dirs, depth);
    if r == 0 {
      cache.DirClose(part, atRoot, dir, opens0, list0, {id as nat});
      RmdirEnds(part, cache, root, nodes0, s0, dirs, depth, dir.id, names[|names| - 1], id, dirs1);
      OneLess(part, nodes0, s0, dirs, depth, names, dir.id, id, dirs1);
    } else {
      CloseParent(part, cache, root, atRoot, dir, dirs, depth, opens0, list0);
    }
  }

  /** sys_rmdir. It does not look at who works in the directory: a working directory stays one if and only if
      it is not the one removed. When it answers 0, the directories still form a tree if and only if the last name
      was not `.`, and the open-inode list is right if and only if nobody had the directory open. */
  method SysRmdir(part: Partition, cache: Cache, root: Inode, junk: word, path: Text, ghost dirs: Listings,
                  ghost depth: map<nat, nat>)
    returns (r: Run<int>, ghost d: nat, ghost id: nat, ghost dirs1: Listings)
    requires InUse(part, cache, root, dirs, depth) && 0 !in path && BufferOf(TreeOf(dirs), path) == Kept
    requires path == [] || IsRoot(path) || Components(path) != []
    modifies part, part.disk, cache, cache.list`openCount, cache.list`size, cache.list`blocks
    ensures r == Halted <==> Stops(TreeOf(dirs), path)
    ensures r.Done? ==> r.value == if LeadsToEmpty(TreeOf(dirs), path) then 0 else -1
    ensures r == Done(-1) ==> unchanged(part, part.disk) && InUse(part, cache, root, dirs, depth)
    ensures r == Done(0) ==>
      RemovedBy(part, old(part.nodes), old(part.disk.sectors), dirs, depth, Components(path), d, id, dirs1)
    ensures r == Done(0) ==> forall cwd :: cwd in dirs ==> (cwd in dirs1 <==> cwd != id)
    ensures r == Done(0) ==>
      ((exists depth1 :: TreeOk(TreeOf(dirs1), depth1)) <==> Components(path)[|Components(path)| - 1] != DOT)
    ensures r == Done(0) ==> cache.ValidBut(part, {id}) && (cache.Valid(part) <==> id !in old(cache.opens))
    ensures r == Done(0) && Components(path)[|Components(path)| - 1] != DOT && id !in old(cache.opens) ==>
      InUse(part, cache, root, dirs1, depth - {id})
    ensures r.Done? ==> cache.opens == old(cache.opens) && cache.list == old(cache.list)
  {
    hide InUse, TreeOf, TreeOk, Components, Answer, IsRoot, Cache.Held, RemovedBy, IsEmptyDir, Joined, Resolve,
      Partition.Valid, Cache.ValidBut, Cache.Valid, BufferOf;
    ghost var opens0, list0, names, tree := cache.opens, cache.list, Components(path), TreeOf(dirs);
    RootAtHand(part, cache, root, dirs, depth);
    d, id, dirs1 := 0, 0, dirs;
    var hit, buffer, atRoot, parent, searched := SearchFile(part, cache, root, junk, path, dirs, depth);
    if hit.Halted? {
      return Halted, d, id, dirs1;
    }
    if hit.value == None || !hit.value.isDir {
      NoDirFound(part, cache, root, dirs, depth, names, hit.value, parent.id, searched);
      if hit.value != None && hit.value.id == 0 {  // ASSERT
        return Halted, d, id, dirs1;
      }
      CloseParent(part, cache, root, atRoot, parent, dirs, depth, opens0, list0);
      return Done(-1), d, id, dirs1;
    }
    if !IsRoot(path) {
      FoundThere(tree, depth, names, hit.value, parent.id, searched);
    }
    if hit.value.id == 0 {  // ASSERT
      return Halted, d, id, dirs1;
    }
    d, id := parent.id, hit.value.id;
    CanOpen(part, cache, root, dirs, depth, id);
    HeldList(cache, atRoot, parent, opens0, list0);
    var halted, answer;
    halted, answer, dirs1 := RemoveAndClose(part, cache, root, atRoot, parent, hit.value.id, names, dirs, depth, opens0,
                                            list0);
    r := if halted then Halted else Done(answer);
  }
}
