/** fs/c14a_fs.c: sys_unlink from the path on. */
module Unlinks {
  import opened Debug
  import opened Bytes
  import opened Ide
  import opened Inodes
  import opened Volumes
  import opened OpenInodes
  import opened FileData
  import opened DirData
  import opened Dirs
  import opened Caches
  import opened Names
  import opened NameBuffers
  import opened Paths
  import opened Trees
  import opened TreeSteps
  import opened DiskTrees
  import opened Calls
  import opened Searches
  import opened WorkingDirs
  import opened Rmdirs

  /** The search ends at a file `id` with an entry `name` in `d`. */
  ghost predicate FoundFile(tree: Tree, names: seq<Text>, d: nat, id: nat, name: Text) {
    && Resolve(tree, 0, names).File? && Resolve(tree, 0, names).id == id && Resolve(tree, 0, names).d == d
    && |Resolve(tree, 0, names).left| < |names| && name == LastTried(names, Resolve(tree, 0, names).left)
    && d in tree && name in tree[d] && tree[d][name] == Child(id, false)
  }

  lemma FileThere(part: Partition, cache: Cache, root: Inode, dirs: Listings, depth: map<nat, nat>, names: seq<Text>,
                  hit: Hit,
                  parent: nat, searched: Text)
    returns (name: Text)
    requires InUse(part, cache, root, dirs, depth) && Answer(TreeOf(dirs), names, hit, parent, searched)
    requires hit != None && !hit.isDir
    ensures FoundFile(TreeOf(dirs), names, parent, hit.id, name) && hit.id != 0 && parent in dirs
  {
    hide InUse, TreeOf, Joined, Resolve;
    FileNotRoot(part, cache, root, dirs, depth, names);
    FileFound(TreeOf(dirs), 0, names);
    name := LastTried(names, Resolve(TreeOf(dirs), 0, names).left);
    TreeHas(dirs, parent);
  }

  /** What sys_unlink leaves when it answers 0. */
  ghost predicate UnlinkedBy(part: Partition, nodes0: map<nat, Node>, s0: seq<Sector>, dirs: Listings,
                             depth: map<nat, nat>,
                             names: seq<Text>, d: nat, id: nat, dirs1: Listings)
    reads part, part.disk
  {
    exists name ::
      FoundFile(TreeOf(dirs), names, d, id, name) && Gone(part, nodes0, s0, dirs, depth, d, id, name, dirs1)
  }

  ghost predicate Gone(part: Partition, nodes0: map<nat, Node>, s0: seq<Sector>, dirs: Listings, depth: map<nat, nat>,
                       d: nat, id: nat, name: Text, dirs1: Listings)
    reads part, part.disk
  {
    && GoesThrough(TreeOf(dirs), Unlink(d, name)) && TreeOf(dirs1) == After(TreeOf(dirs), Unlink(d, name))
    && OnDisk(part, dirs1) && TreeInOrder(part.nodes, dirs1, depth) && part.nodes.Keys == nodes0.Keys - {id}
    && OthersKept(nodes0, s0, part.nodes, part.disk.sectors, {d, id})
  }

  /** The end of sys_unlink: entry and inode go, and the parent's handle is closed. */
  method UnlinkAndClose(part: Partition, cache: Cache, root: Inode, atRoot: bool, dir: Inode, id: word,
                        ghost name: Text,
                        ghost dirs: Listings, ghost depth: map<nat, nat>, ghost opens0: map<nat, nat>,
                        ghost list0: seq<Inode>)
    returns (ghost dirs1: Listings)
    requires InUse(part, cache, root, dirs, depth) && cache.Held(atRoot, dir, opens0, list0) && root in list0
    requires dir in cache.list
    requires dir.id as nat in dirs && name in TreeOf(dirs)[dir.id] && TreeOf(dirs)[dir.id][name] == Child(id, false)
    modifies part, part.disk, dir`size, dir`blocks, cache, cache.list`openCount
    ensures Gone(part, old(part.nodes), old(part.disk.sectors), dirs, depth, dir.id, id, name, dirs1)
    ensures cache.ValidBut(part, {id as nat}) && cache.opens == opens0 && cache.list == list0
    ensures dir.id == old(dir.id)
  {
    hide AllDisplayed, AllAllocated, SoleEntries, TreeOf, TreeOk, Cache.ValidBut, Partition.Valid, GoesThrough, After,
      OthersKept, Opening;
    dirs1 := UnlinkFile(part, cache, dir, id, name, dirs, depth);
    cache.DirClose(part, atRoot, dir, opens0, list0, {id as nat});
  }

  /** sys_unlink. It answers 0 exactly when the search ends at a file that is not in the file table, even with
      names left over behind the file's. */
  method SysUnlink(part: Partition, cache: Cache, root: Inode, junk: word, path: Text, fileTable: set<nat>,
                   ghost dirs: Listings,
                   ghost depth: map<nat, nat>)
    returns (r: Run<int>, ghost d: nat, ghost id: nat, ghost dirs1: Listings)
    requires InUse(part, cache, root, dirs, depth) && 0 !in path && BufferOf(TreeOf(dirs), path) == Kept
    requires path == [] || IsRoot(path) || Components(path) != []
    modifies part, part.disk, cache, cache.list`openCount, cache.list`size, cache.list`blocks
    ensures r == Halted <==> Stops(TreeOf(dirs), path)
    ensures r.Done? ==> var found := Resolve(TreeOf(dirs), 0, Components(path));
      r.value == if found.File? && found.id !in fileTable then 0 else -1
    ensures r == Done(-1) ==> unchanged(part, part.disk) && InUse(part, cache, root, dirs, depth)
    ensures r == Done(0) ==>
      UnlinkedBy(part, old(part.nodes), old(part.disk.sectors), dirs, depth, Components(path), d, id, dirs1)
    ensures r == Done(0) ==> cache.ValidBut(part, {id}) && (cache.Valid(part) <==> id !in old(cache.opens))
    ensures r == Done(0) && id !in old(cache.opens) ==> InUse(part, cache, root, dirs1, depth)
    ensures r.Done? ==> cache.opens == old(cache.opens) && cache.list == old(cache.list)
  {
    hide InUse, TreeOf, TreeOk, Components, Answer, IsRoot, Cache.Held, Joined, Resolve, Partition.Valid,
      Cache.ValidBut, Cache.Valid, Gone, BufferOf;
    ghost var opens0, list0, names, tree := cache.opens, cache.list, Components(path), TreeOf(dirs);
    RootAtHand(part, cache, root, dirs, depth);
    d, id, dirs1 := 0, 0, dirs;
    if |path| >= MAX_PATH_LEN {  // ASSERT
      LongRefused(path);
      return Halted, d, id, dirs1;
    }
    var hit, buffer, atRoot, parent, searched := SearchFile(part, cache, root, junk, path, dirs, depth);
    if hit.Halted? {
      return Halted, d, id, dirs1;
    }
    r := Done(-1);
    if hit.value == None || hit.value.isDir {
      NoFileFound(part, cache, root, dirs, depth, path, hit.value, parent.id, searched);
      if hit.value != None && hit.value.id == 0 {  // ASSERT
        return Halted, d, id, dirs1;
      }
      CloseParent(part, cache, root, atRoot, parent, dirs, depth, opens0, list0);
      return;
    }
    ghost var name := FileThere(part, cache, root, dirs, depth, names, hit.value, parent.id, searched);
    if hit.value.id == 0 {  // ASSERT
      return Halted, d, id, dirs1;
    }
    if hit.value.id in fileTable {
      CloseParent(part, cache, root, atRoot, parent, dirs, depth, opens0, list0);
      return;
    }
    d, id := parent.id, hit.value.id;
    SmallNumber(part, cache, root, dirs, depth, d, name, id);
    HeldList(cache, atRoot, parent, opens0, list0);
    ghost var nodes0, s0 := part.nodes, part.disk.sectors;
    dirs1 := UnlinkAndClose(part, cache, root, atRoot, parent, hit.value.id, name, dirs, depth, opens0, list0);
    UnlinkEnds(part, cache, root, nodes0, s0, dirs, depth, d, id, name, dirs1);
    r := Done(0);
  }

  lemma UnlinkEnds(part: Partition, cache: Cache, root: Inode, nodes0: map<nat, Node>, s0: seq<Sector>, dirs: Listings,
                   depth: map<nat, nat>, d: nat, id: nat, name: Text, dirs1: Listings)
    requires Gone(part, nodes0, s0, dirs, depth, d, id, name, dirs1) && cache.ValidBut(part, {id})
    requires root in cache.list && root.id == 0
    ensures cache.Valid(part) <==> id !in cache.opens
    ensures id !in cache.opens ==> InUse(part, cache, root, dirs1, depth)
  {
    hide GoesThrough, After, Cache.Tracks, OthersKept, OnDisk, TreeInOrder, TreeOf;
    cache.ValidIffClosed(part, id);
  }

  /** Nothing found, or a directory. */
  lemma NoFileFound(part: Partition, cache: Cache, root: Inode, dirs: Listings, depth: map<nat, nat>, path: Text,
                    hit: Hit,
                    parent: nat, searched: Text)
    requires InUse(part, cache, root, dirs, depth) && (hit == None || hit.isDir)
    requires IsRoot(path) ==> hit == Hit(0, true) && Resolve(TreeOf(dirs), 0, Components(path)) == Dir(0)
    requires !IsRoot(path) ==> Answer(TreeOf(dirs), Components(path), hit, parent, searched)
    ensures !Resolve(TreeOf(dirs), 0, Components(path)).File?
    ensures Resolve(TreeOf(dirs), 0, Components(path)) == Dir(0) <==> hit == Hit(0, true)
  {
    hide InUse, TreeOf, Joined, Resolve, Components, IsRoot;
  }

  lemma SmallNumber(part: Partition, cache: Cache, root: Inode, dirs: Listings, depth: map<nat, nat>, d: nat,
                    name: Text, id: nat)
    requires InUse(part, cache, root, dirs, depth) && d in dirs && name in TreeOf(dirs)[d]
    requires TreeOf(dirs)[d][name].id == id
    ensures id < 256
  {
    hide TreeOk, SoleEntries, AllDisplayed, TreeOf, Cache.Tracks;
    var p := PlaceOfName(part.disk.sectors, part.nodes, dirs, d, name);
    AllocatedOne(part.nodes, dirs, d);
    assert dirs[d][p].id as nat in part.nodes;
  }
}
