/** fs/c14a_fs.c: sys_open with O_CREAT, from the path on. */
module Creates {
  import opened Debug
  import opened Bytes
  import opened Bitmaps
  import opened Ide
  import opened Inodes
  import opened Volumes
  import opened FileData
  import opened Files
  import opened DirData
  import opened Dirs
  import opened Caches
  import opened Names
  import opened NameBuffers
  import opened Paths
  import opened Trees
  import opened TreeSteps
  import opened DiskTrees
  import opened Calls
  import opened Searches
  import opened WorkingDirs
  import opened Rmdirs
  import opened Mkdirs

  lemma {:induction false} SkipsBefore(a: Text, t: Text)
    requires t != [] && t[0] == SLASH
    ensures SkipSlashes(a + t) == if SkipSlashes(a) == [] then SkipSlashes(t) else SkipSlashes(a) + t
    decreases |a|
  {
    if a == [] {
      assert a + t == t;
    } else {
      assert (a + t)[0] == a[0] && (a + t)[1..] == a[1..] + t;
      if a[0] == SLASH {
        SkipsBefore(a[1..], t);
      }
    }
  }

  lemma {:induction false} StopsBefore(q: Text, t: Text)
    requires t != [] && t[0] == SLASH
    ensures UpToSlash(q + t) == UpToSlash(q)
    decreases |q|
  {
    if q == [] {
      assert q + t == t;
    } else {
      assert (q + t)[0] == q[0] && (q + t)[1..] == q[1..] + t;
      StopsBefore(q[1..], t);
    }
  }

  /** One name more behind a path. */
  lemma {:induction false} NameAppended(a: Text, n: Text)
    requires n != [] && SLASH !in n
    ensures Components(a + ([SLASH] + n)) == Components(a) + [n]
    decreases |a|
  {
    var t := [SLASH] + n;
    var q := SkipSlashes(a);
    SkipsBefore(a, t);
    if q == [] {
      LoneName(n);
    } else {
      var m := UpToSlash(q);
      StopsBefore(q, t);
      assert (q + t)[|m|..] == q[|m|..] + t;
      NameAppended(q[|m|..], n);
    }
  }

  lemma LoneName(n: Text)
    requires n != [] && SLASH !in n
    ensures SkipSlashes([SLASH] + n) == n && UpToSlash(n) == n && Components(n[|n|..]) == []
    ensures Components([]) == []
  {
    assert ([SLASH] + n)[1..] == n && n[0] in n;
    UpToName(n, []);
    assert n + [] == n;
  }

  /** The name behind the last slash of the path itself. */
  method NameInPath(path: Text) returns (name: Text)
    requires path != [] && path[0] == SLASH && path[|path| - 1] != SLASH
    ensures Components(path) != [] && name == Components(path)[|Components(path)| - 1]
  {
    hide Components;
    var k := LastSlash(path);
    name := path[k + 1..];
    assert path == path[..k] + ([SLASH] + name);
    assert forall i :: 0 <= i < |name| ==> name[i] == path[k + 1 + i];
    NameAppended(path[..k], name);
  }

  /** The new entry needs a block of `d`, and none is free. */
  ghost predicate NoPlace(nodes: map<nat, Node>, dirs: Listings, d: nat, free: set<nat>) {
    d in nodes && d in dirs && |nodes[d].slots| == SLOTS && free == {} && NeedsBlock(nodes[d], dirs[d])
  }

  /** What sys_open leaves when it has created a file. */
  ghost predicate FileMade(part: Partition, nodes0: map<nat, Node>, s0: seq<Sector>, map0: seq<bool>, free0: nat,
                           dirs: Listings, d: nat, name: Text, id: nat, dirs1: Listings)
    reads part, part.disk
  {
    && GoesThrough(TreeOf(dirs), Create(d, name, id)) && TreeOf(dirs1) == After(TreeOf(dirs), Create(d, name, id))
    && OthersKept(nodes0, s0, part.nodes, part.disk.sectors, {d})
    && id == FirstClear(map0, 0) && part.nodes.Keys == nodes0.Keys + {id} && id !in nodes0
    && d in nodes0 && d in dirs && |nodes0[d].slots| == SLOTS
    && |part.FreeBlocks()| == free0 - Extra(nodes0[d], dirs[d])
  }

  /** file_create, and dir_close of the parent. */
  method CreateAndClose(part: Partition, cache: Cache, root: Inode, atRoot: bool, dir: Inode, name: Text,
                        ghost dirs: Listings,
                        ghost depth: map<nat, nat>, ghost opens0: map<nat, nat>, ghost list0: seq<Inode>)
    returns (halted: bool, file: File, ghost dirs1: Listings)
    requires InUse(part, cache, root, dirs, depth) && cache.Held(atRoot, dir, opens0, list0) && root in list0
    requires dir in cache.list
    requires dir.id as nat in dirs && ValidName(name) && name !in TreeOf(dirs)[dir.id] && HasRoom(dirs[dir.id])
    requires IdLeft(part.inodeMap)
    modifies part, part.disk, dir`size, dir`blocks, cache, dir`openCount
    ensures halted <==> NoPlace(old(part.nodes), dirs, dir.id, old(part.FreeBlocks()))
    ensures fresh(file) && fresh(file.inode)
    ensures !halted ==> InUse(part, cache, root, dirs1, depth)
    ensures !halted ==> cache.opens == Opening(opens0, file.inode.id) && cache.list == [file.inode] + list0
    ensures !halted ==>
      FileMade(part, old(part.nodes), old(part.disk.sectors), old(part.inodeMap), |old(part.FreeBlocks())|, dirs,
               dir.id, name, file.inode.id, dirs1)
  {
    hide AllDisplayed, AllAllocated, SoleEntries, TreeOf, TreeOk, Cache.ValidBut, Partition.Valid, GoesThrough, After,
      OthersKept, Opening, ValidName, HasRoom, IdLeft, FreeIn, NeedsBlock;
    cache.OpenExists(part);
    halted, file, dirs1 := CreateFile(part, cache, dir, name, dirs, depth);
    if !halted && !atRoot {
      OpenIsOpen(opens0, dir.id);
      cache.CloseBehind(part, file.inode, dir, opens0, list0);
    }
  }

  lemma OpenIsOpen(opens: map<nat, nat>, id: nat)
    ensures Opening(opens, id).Keys == opens.Keys + {id}
  {
  }

  /** The count of the searched part keeps to its buffer. */
  lemma CountsKept(tree: Tree, path: Text, hit: Hit, parent: nat, searched: Text)
    requires !IsRoot(path) && !Refused(path) && 0 !in path && Components(path) != [] && BufferOf(tree, path) == Kept
    requires Answer(tree, Components(path), hit, parent, searched)
    ensures 0 !in searched && !Overlong(Components(searched))
  {
    hide Joined, Components, BufferAfter, Resolve, Overlong, Short;
    SearchedShort(tree, path, hit, parent, searched);
    ShortNotOverlong(Components(searched));
  }

  /** sys_open with O_CREAT. It creates a file exactly when the path does not end in a slash and leads to a
      directory in which its last name is missing; the file is then open. */
  method SysCreate(part: Partition, cache: Cache, root: Inode, junk: word, junkByte: byte, path: Text,
                   ghost dirs: Listings,
                   ghost depth: map<nat, nat>)
    returns (r: Run<int>, file: File?, ghost d: nat, ghost dirs1: Listings)
    requires InUse(part, cache, root, dirs, depth) && 0 !in path
    requires path != [] && (IsRoot(path) || Components(path) != [])
    requires path[|path| - 1] != SLASH ==> BufferOf(TreeOf(dirs), path) == Kept && !Overlong(Components(path))
    requires forall e :: LastMissing(TreeOf(dirs), Components(path), e) ==> Makeable(part.inodeMap, dirs, e)
    modifies part, part.disk, cache, cache.list`openCount, cache.list`size, cache.list`blocks
    ensures r == Halted <==>
      && path[|path| - 1] != SLASH
      && (Refused(path) ||
          (LastMissing(TreeOf(dirs), Components(path), d) &&
           NoPlace(old(part.nodes), dirs, d, old(part.FreeBlocks()))))
    ensures r.Done? ==> (r.value == 0 || r.value == -1)
    ensures r == Done(0) ==> path[|path| - 1] != SLASH && LastMissing(TreeOf(dirs), Components(path), d)
    ensures r == Done(-1) ==> path[|path| - 1] == SLASH || !exists e :: LastMissing(TreeOf(dirs), Components(path), e)
    ensures r == Done(-1) ==> unchanged(part, part.disk) && InUse(part, cache, root, dirs, depth)
    ensures r == Done(-1) ==> cache.opens == old(cache.opens) && cache.list == old(cache.list)
    ensures r == Done(0) ==> file != null && fresh(file.inode) && InUse(part, cache, root, dirs1, depth)
    ensures r == Done(0) ==> cache.opens == Opening(old(cache.opens), file.inode.id)
    ensures r == Done(0) ==> cache.list == [file.inode] + old(cache.list)
    ensures r == Done(0) ==> FileMade(part, old(part.nodes), old(part.disk.sectors), old(part.inodeMap),
                                      |old(part.FreeBlocks())|, dirs, d, Components(path)[|Components(path)| - 1],
                                      file.inode.id, dirs1)
  {
    hide InUse, TreeOf, TreeOk, Components, Answer, IsRoot, Cache.Held, Joined, Resolve, Partition.Valid, FileMade,
      NoPlace, LastMissing, Makeable, IsName, FreeIn, Opening, BufferOf, BufferAfter, Short, Overlong, ValidName;
    ghost var opens0, list0, names, tree := cache.opens, cache.list, Components(path), TreeOf(dirs);
    RootAtHand(part, cache, root, dirs, depth);
    d, file, dirs1, r := 0, null, dirs, Done(-1);
    if path[|path| - 1] == SLASH {
      return;
    }
    var overrun, wanted := PathDepthCount(path, junkByte);
    var hit, buffer, atRoot, parent, searched := SearchFile(part, cache, root, junk, path, dirs, depth);
    d := parent.id;
    if hit.Halted? {
      return Halted, file, d, dirs1;
    }
    if hit.value != None && hit.value.isDir {
      FoundSomething(tree, path, hit.value, parent.id, searched);
      CloseParent(part, cache, root, atRoot, parent, dirs, depth, opens0, list0);
      return;
    }
    CountsKept(tree, path, hit.value, parent.id, searched);
    var reached;
    overrun, reached := PathDepthCount(searched, junkByte);
    if hit.value != None {
      FoundSomething(tree, path, hit.value, parent.id, searched);
    } else {
      MissingHere(tree, depth, path, parent.id, searched);
      DepthsTell(tree, depth, path, parent.id, searched);
      OnlyThere(tree, names, parent.id, searched);
    }
    if wanted != reached || hit.value != None {
      CloseParent(part, cache, root, atRoot, parent, dirs, depth, opens0, list0);
      return;
    }
    var name := NameInPath(path);
    TreeHas(dirs, parent.id);
    IsMakeable(part.inodeMap, dirs, d);
    var halted;
    halted, file, dirs1 := CreateAndClose(part, cache, root, atRoot, parent, name, dirs, depth, opens0, list0);
    r := if halted then Halted else Done(0);
  }
}
