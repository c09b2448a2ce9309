/** fs/c14a_fs.c: sys_opendir from the path on. */
module OpenDirs {
  import opened Debug
  import opened Bytes
  import opened Inodes
  import opened Volumes
  import opened OpenInodes
  import opened NameBuffers
  import opened Caches
  import opened Paths
  import opened Trees
  import opened DiskTrees
  import opened Searches
  import opened WorkingDirs

  /** sys_opendir: NULL, or the inode of the handle. Only `/` answers with the root's own handle. */
  method SysOpenDir(part: Partition, cache: Cache, root: Inode, junk: word, path: Text, ghost dirs: Listings,
                    ghost depth: map<nat, nat>)
    returns (r: Run<Inode?>)
    requires InUse(part, cache, root, dirs, depth) && 0 !in path && BufferOf(TreeOf(dirs), path) == Kept
    requires path == [] || IsRoot(path) || Components(path) != []
    modifies cache, cache.list`openCount
    ensures r == Halted <==> Refused(path)
    ensures r.Done? ==> InUse(part, cache, root, dirs, depth)
    ensures r.Done? ==> var found := Resolve(TreeOf(dirs), 0, Components(path));
      (r.value != null <==> found.Dir?) && (r.value != null ==> r.value.id as nat == found.id)
    ensures r.Done? && path == [SLASH] ==> r.value == root
    ensures r.Done? && (r.value == null || path == [SLASH]) ==>
      cache.opens == old(cache.opens) && cache.list == old(cache.list)
    ensures r.Done? && r.value != null ==> r.value in old(cache.list) || fresh(r.value)
    ensures r.Done? && r.value != null && path != [SLASH] ==>
      cache.OpenedSince(old(cache.opens), old(cache.list), r.value)
  {
    hide InUse, TreeOk, TreeOf, Components, Resolve, Joined, Cache.Held, Cache.OpenedSince, BufferOf, Answer, IsRoot,
      Refused, HitOf;
    RootAtHand(part, cache, root, dirs, depth);
    ghost var opens0, list0 := cache.opens, cache.list;
    RootPaths(path);
    if |path| >= MAX_PATH_LEN {  // ASSERT
      LongRefused(path);
      return Halted;
    }
    if path == [SLASH] {
      RootResolves(TreeOf(dirs), depth, path);
      return Done(root);
    }
    var hit, buffer, atRoot, parent, searched := SearchFile(part, cache, root, junk, path, dirs, depth);
    if hit.Halted? {
      return Halted;
    }
    r := Done(null);
    HitDecides(TreeOf(dirs), path, hit.value, parent.id, searched);
    if hit.value != None && hit.value.isDir {
      DirKnown(TreeOf(dirs), depth, path);
      CanOpen(part, cache, root, dirs, depth, hit.value.id);
      HeldList(cache, atRoot, parent, opens0, list0);
      var dir := OpenHit(part, cache, root, atRoot, parent, hit.value.id, dirs, depth, opens0, list0);
      r := Done(dir);
    } else {
      CloseParent(part, cache, root, atRoot, parent, dirs, depth, opens0, list0);
    }
  }

  /** dir_open of what was found, and dir_close of the parent. */
  method OpenHit(part: Partition, cache: Cache, root: Inode, atRoot: bool, parent: Inode, id: nat, ghost dirs: Listings,
                 ghost depth: map<nat, nat>, ghost opens0: map<nat, nat>, ghost list0: seq<Inode>)
    returns (dir: Inode)
    requires InUse(part, cache, root, dirs, depth) && cache.Held(atRoot, parent, opens0, list0) && root in list0
    requires id in part.nodes
    modifies cache, cache.list`openCount
    ensures InUse(part, cache, root, dirs, depth) && cache.OpenedSince(opens0, list0, dir) && dir.id == id
    ensures dir in list0 || dir == parent || fresh(dir)
  {
    hide TreeOk, AllAllocated, SoleEntries, AllDisplayed, TreeOf, Cache.Tracks, Partition.Valid, Opening;
    dir := cache.OpenNext(part, atRoot, parent, id, opens0, list0);
  }

  lemma HitDecides(tree: Tree, path: Text, hit: Hit, parent: nat, searched: Text)
    requires if IsRoot(path) then hit == Hit(0, true) && Resolve(tree, 0, Components(path)) == Dir(0) else
      Answer(tree, Components(path), hit, parent, searched)
    ensures hit != None && hit.isDir <==> Resolve(tree, 0, Components(path)).Dir?
    ensures hit != None && hit.isDir ==> Resolve(tree, 0, Components(path)).id == hit.id
  {
    hide Components, Resolve, Joined, IsRoot;
  }

  lemma RootPaths(path: Text)
    ensures path == [SLASH] ==> IsRoot(path)
    ensures IsRoot(path) ==> !Refused(path)
    ensures path == [] ==> Refused(path)
  {
  }

  lemma DirKnown(tree: Tree, depth: map<nat, nat>, path: Text)
    requires TreeOk(tree, depth) && Resolve(tree, 0, Components(path)).Dir?
    ensures Resolve(tree, 0, Components(path)).id in tree
  {
    hide TreeOk, Components, Resolve;
    InDepth(tree, depth, 0);
    DirsFound(tree, depth, 0, Components(path));
  }
}
