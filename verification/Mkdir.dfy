/** fs/c14a_fs.c: sys_mkdir from the path on. */
module Mkdirs {
  import opened Debug
  import opened Bytes
  import opened Bitmaps
  import opened Ide
  import opened Inodes
  import opened Volumes
  import opened FileData
  import opened DirData
  import opened Dirs
  import opened Caches
  import opened Names
  import opened NameBuffers
  import opened Paths
  import opened Trees
  import opened TreeSteps
  import opened DiskTrees
  import opened Calls
  import opened Canonicals
  import opened Searches
  import opened WorkingDirs

  /** The names lead to a directory in which only the last one is missing. */
  predicate LastMissing(tree: Tree, names: seq<Text>, d: nat) {
    names != [] && Resolve(tree, 0, names) == Missing(d, [names[|names| - 1]])
  }

  /** The depths that sys_mkdir compares tell whether the search got to the last name. */
  lemma DepthsTell(tree: Tree, depth: map<nat, nat>, path: Text, parent: nat, searched: Text)
    requires TreeOk(tree, depth) && path != [] && path[0] == SLASH && 0 !in path && Components(path) != []
    requires Answer(tree, Components(path), None, parent, searched)
    ensures Components(searched) != []
    ensures |Components(searched)| == |Components(path)| <==> LastMissing(tree, Components(path), parent)
    ensures LastMissing(tree, Components(path), parent) ==>
      && searched == Joined(Components(path)) && parent in tree
      && Components(path)[|Components(path)| - 1] !in tree[parent]
  {
    hide TreeOk, Joined, Components, IsName;
    var names := Components(path);
    NamesFit(path);
    DepthTells(tree, names, None, parent, searched);
    MissingLast(tree, depth, names, parent, searched);
    ComponentsOfJoined(names[..|names| - |Resolve(tree, 0, names).left| + 1]);
  }

  lemma MissingLast(tree: Tree, depth: map<nat, nat>, names: seq<Text>, parent: nat, searched: Text)
    requires TreeOk(tree, depth) && names != [] && Answer(tree, names, None, parent, searched)
    ensures Resolve(tree, 0, names[..|names| - 1]) == Dir(parent) <==> LastMissing(tree, names, parent)
    ensures LastMissing(tree, names, parent) ==> searched == Joined(names) && parent in tree
    ensures LastMissing(tree, names, parent) ==> names[|names| - 1] !in tree[parent]
  {
    hide TreeOk, Joined, Resolve;
    var left := Resolve(tree, 0, names).left;
    LastStep(tree, 0, names);
    LeftOver(tree, 0, names);
    assert |left| == 1 ==> left == [names[|names| - 1]];
    if |left| == 1 {
      InDepth(tree, depth, 0);
      DirsFound(tree, depth, 0, names[..|names| - 1]);
      assert names[..|names| - 1 + 1] == names;
      LastOnly(tree, 0, names);
    }
  }

  /** What is left over is the end of the path. */
  lemma {:induction false} LeftOver(tree: Tree, d: nat, names: seq<Text>)
    requires Resolve(tree, d, names).Missing?
    ensures var left := Resolve(tree, d, names).left; 0 < |left| <= |names| && left == names[|names| - |left|..]
    decreases |names|
  {
    if d in tree && names[0] in tree[d] && tree[d][names[0]].isDir {
      LeftOver(tree, tree[d][names[0]].id, names[1..]);
    }
  }

  lemma {:induction false} LastOnly(tree: Tree, d: nat, names: seq<Text>)
    requires Resolve(tree, d, names).Missing? && |Resolve(tree, d, names).left| == 1
    ensures Resolve(tree, d, names).d in tree ==> Resolve(tree, d, names).left[0] !in tree[Resolve(tree, d, names).d]
    decreases |names|
  {
    if d in tree && names[0] in tree[d] && tree[d][names[0]].isDir {
      LastOnly(tree, tree[d][names[0]].id, names[1..]);
    }
  }

  /** The name behind the last slash of the searched part. */
  method NameBehind(searched: Text, ghost names: seq<Text>) returns (name: Text)
    requires names != [] && searched == Joined(names) && IsName(names[|names| - 1])
    ensures name == names[|names| - 1]
  {
    hide Joined;
    var k := LastSlash(searched);
    LastPiece(names, k);
    JoinedOne(names[|names| - 1]);
    name := searched[k..][1..];
  }

  /** The free blocks do not suffice for a directory in `d`. */
  ghost predicate TooFew(nodes: map<nat, Node>, dirs: Listings, d: nat, free: nat) {
    d in nodes && d in dirs && |nodes[d].slots| == SLOTS && free < 1 + Extra(nodes[d], dirs[d])
  }

  /** What sys_mkdir leaves when it answers 0. */
  ghost predicate Made(part: Partition, nodes0: map<nat, Node>, s0: seq<Sector>, map0: seq<bool>, free0: nat,
                       dirs: Listings, d: nat, name: Text, id: nat, dirs1: Listings)
    reads part, part.disk
  {
    && GoesThrough(TreeOf(dirs), Mkdir(d, name, id)) && TreeOf(dirs1) == After(TreeOf(dirs), Mkdir(d, name, id))
    && OthersKept(nodes0, s0, part.nodes, part.disk.sectors, {d})
    && id == FirstClear(map0, 0) && part.nodes.Keys == nodes0.Keys + {id} && id !in nodes0
    && d in nodes0 && d in dirs && |nodes0[d].slots| == SLOTS
    && |part.FreeBlocks()| == free0 - 1 - Extra(nodes0[d], dirs[d])
  }

  /** The rest of sys_mkdir once the parent is known. */
  method MakeAndClose(part: Partition, cache: Cache, root: Inode, atRoot: bool, dir: Inode, name: Text,
                      ghost dirs: Listings,
                      ghost depth: map<nat, nat>, ghost opens0: map<nat, nat>, ghost list0: seq<Inode>)
    returns (halted: bool, ghost id: nat, ghost dirs1: Listings, ghost depth1: map<nat, nat>)
    requires InUse(part, cache, root, dirs, depth) && cache.Held(atRoot, dir, opens0, list0) && root in list0
    requires dir in cache.list
    requires dir.id as nat in dirs && ValidName(name) && name !in TreeOf(dirs)[dir.id] && HasRoom(dirs[dir.id])
    requires IdLeft(part.inodeMap)
    modifies part, part.disk, dir`size, dir`blocks, cache, dir`openCount
    ensures halted <==> TooFew(old(part.nodes), dirs, dir.id, |old(part.FreeBlocks())|)
    ensures !halted ==> InUse(part, cache, root, dirs1, depth1) && cache.opens == opens0 && cache.list == list0
    ensures !halted ==> Made(part, old(part.nodes), old(part.disk.sectors), old(part.inodeMap),
                             |old(part.FreeBlocks())|, dirs, dir.id, name, id, dirs1)
  {
    hide AllDisplayed, AllAllocated, SoleEntries, TreeOf, TreeOk, Cache.ValidBut, Partition.Valid, GoesThrough, After,
      OthersKept, Opening, ValidName, HasRoom, IdLeft, FreeIn, Extra;
    halted, id, dirs1, depth1 := MakeDirectory(part, cache, dir, name, dirs, depth);
    if !halted {
      cache.DirClose(part, atRoot, dir, opens0, list0, {});
    }
  }

  /** The parent has a place for the entry, and the bitmap a number. */
  ghost predicate Makeable(inodeMap: seq<bool>, dirs: Listings, d: nat) {
    (d in dirs ==> HasRoom(dirs[d])) && IdLeft(inodeMap)
  }

  lemma IsMakeable(inodeMap: seq<bool>, dirs: Listings, d: nat)
    requires Makeable(inodeMap, dirs, d) && d in dirs
    ensures HasRoom(dirs[d]) && IdLeft(inodeMap)
  {
    hide HasRoom, IdLeft;
  }

  /** A last name for which the search had room is one that fits an entry. */
  lemma LastNameValid(names: seq<Text>)
    requires names != [] && Short(names) && IsName(names[|names| - 1])
    ensures ValidName(names[|names| - 1])
  {
  }

  lemma FoundSomething(tree: Tree, path: Text, hit: Hit, parent: nat, searched: Text)
    requires hit != None && if IsRoot(path) then Resolve(tree, 0, Components(path)) == Dir(0) else
      Answer(tree, Components(path), hit, parent, searched)
    ensures forall e :: !LastMissing(tree, Components(path), e)
  {
    hide Joined, Components, IsRoot, Resolve;
  }

  lemma OnlyThere(tree: Tree, names: seq<Text>, parent: nat, searched: Text)
    requires Answer(tree, names, None, parent, searched)
    ensures forall e :: LastMissing(tree, names, e) ==> e == parent
  {
    hide Joined, Resolve;
  }

  /** The counts of sys_mkdir keep to their buffer, and the name it makes fits. */
  lemma MissingHere(tree: Tree, depth: map<nat, nat>, path: Text, parent: nat, searched: Text)
    requires TreeOk(tree, depth) && !IsRoot(path) && !Refused(path) && 0 !in path && Components(path) != []
    requires BufferOf(tree, path) == Kept && Answer(tree, Components(path), None, parent, searched)
    ensures path != [] && path[0] == SLASH && Resolve(tree, 0, Components(path)).Missing?
    ensures 0 !in searched && Components(searched) != [] && !Overlong(Components(searched))
    ensures |Components(searched)| == |Components(path)| ==> Components(searched) == Components(path)
    ensures |Components(searched)| == |Components(path)| ==> ValidName(Components(path)[|Components(path)| - 1])
  {
    hide TreeOk, Joined, Components, IsName, BufferAfter, Resolve, LookedUp, Short, ValidName;
    NamesFit(path);
    SearchedShort(tree, path, None, parent, searched);
    ShortNotOverlong(Components(searched));
    DepthTells(tree, Components(path), None, parent, searched);
    if |Components(searched)| == |Components(path)| {
      assert Components(path)[..|Components(path)|] == Components(path);
      LastNameValid(Components(path));
    }
  }

  /** The path of the new directory fits, because the path of the call did. */
  lemma MadeWithin(part: Partition, nodes0: map<nat, Node>, s0: seq<Sector>, map0: seq<bool>, free0: nat,
                   dirs: Listings, depth: map<nat, nat>, path: Text, d: nat, id: nat, dirs1: Listings,
                   depth1: map<nat, nat>)
    requires TreeOk(TreeOf(dirs), depth) && LastMissing(TreeOf(dirs), Components(path), d)
    requires !Refused(path) && !IsRoot(path)
    requires Made(part, nodes0, s0, map0, free0, dirs, d, Components(path)[|Components(path)| - 1], id, dirs1)
    requires TreeOk(TreeOf(dirs1), depth1)
    ensures AllFit(TreeOf(dirs), depth) ==> AllFit(TreeOf(dirs1), depth1)
  {
    hide TreeOk, TreeOf, Joined, Components, IsRoot, GoesThrough, After, OthersKept, AllFit;
    if AllFit(TreeOf(dirs), depth) {
      var names := Components(path);
      var front, n := names[..|names| - 1], names[|names| - 1];
      NamesFit(path);
      LastStep(TreeOf(dirs), 0, names);
      assert names == front + [n];
      StepFits(TreeOf(dirs), depth, Mkdir(d, n, id), depth1, front);
    }
  }

  /** sys_mkdir. It makes a directory exactly when the path leads to one in which its last name is missing. */
  method SysMkdir(part: Partition, cache: Cache, root: Inode, junk: word, junkByte: byte, path: Text,
                  ghost dirs: Listings,
                  ghost depth: map<nat, nat>)
    returns (r: Run<int>, ghost d: nat, ghost id: nat, ghost dirs1: Listings, ghost depth1: map<nat, nat>)
    requires InUse(part, cache, root, dirs, depth) && 0 !in path && BufferOf(TreeOf(dirs), path) == Kept
    requires Resolve(TreeOf(dirs), 0, Components(path)).Missing? ==> !Overlong(Components(path))
    requires path == [] || IsRoot(path) || Components(path) != []
    requires forall e :: LastMissing(TreeOf(dirs), Components(path), e) ==> Makeable(part.inodeMap, dirs, e)
    modifies part, part.disk, cache, cache.list`openCount, cache.list`size, cache.list`blocks
    ensures r == Halted <==>
      || Refused(path)
      || (LastMissing(TreeOf(dirs), Components(path), d) && TooFew(old(part.nodes), dirs, d, |old(part.FreeBlocks())|))
    ensures r.Done? ==> (r.value == 0 || r.value == -1)
    ensures r.Done? ==> (r.value == 0 <==> LastMissing(TreeOf(dirs), Components(path), d))
    ensures r == Done(-1) ==> !exists e :: LastMissing(TreeOf(dirs), Components(path), e)
    ensures r == Done(-1) ==> unchanged(part, part.disk) && InUse(part, cache, root, dirs, depth)
    ensures r == Done(0) ==> InUse(part, cache, root, dirs1, depth1)
    ensures r == Done(0) ==>
      Made(part, old(part.nodes), old(part.disk.sectors), old(part.inodeMap), |old(part.FreeBlocks())|, dirs, d,
           Components(path)[|Components(path)| - 1], id, dirs1)
    ensures r == Done(0) && AllFit(TreeOf(dirs), depth) ==> AllFit(TreeOf(dirs1), depth1)
    ensures r.Done? ==> cache.opens == old(cache.opens) && cache.list == old(cache.list)
  {
    hide InUse, TreeOf, TreeOk, Components, Answer, IsRoot, Cache.Held, Joined, Resolve, Partition.Valid, Made,
      TooFew, LastMissing, Makeable, IsName, FreeIn, BufferOf, BufferAfter, Short, Overlong,
      AllFit;
    ghost var opens0, list0, names, tree := cache.opens, cache.list, Components(path), TreeOf(dirs);
    RootAtHand(part, cache, root, dirs, depth);
    d, id, dirs1, depth1 := 0, 0, dirs, depth;
    var hit, buffer, atRoot, parent, searched := SearchFile(part, cache, root, junk, path, dirs, depth);
    d := parent.id;
    if hit.Halted? {
      return Halted, d, id, dirs1, depth1;
    }
    r := Done(-1);
    if hit.value != None {
      FoundSomething(tree, path, hit.value, parent.id, searched);
      CloseParent(part, cache, root, atRoot, parent, dirs, depth, opens0, list0);
      return;
    }
    MissingHere(tree, depth, path, parent.id, searched);
    DepthsTell(tree, depth, path, parent.id, searched);
    var overrun, wanted := PathDepthCount(path, junkByte);
    var reached;
    overrun, reached := PathDepthCount(searched, junkByte);
    if wanted != reached {
      OnlyThere(tree, names, parent.id, searched);
      CloseParent(part, cache, root, atRoot, parent, dirs, depth, opens0, list0);
      return;
    }
    NamesFit(path);
    var name := NameBehind(searched, names);
    TreeHas(dirs, parent.id);
    ghost var nodes0, s0, map0, free0 := part.nodes, part.disk.sectors, part.inodeMap, |part.FreeBlocks()|;
    var halted;
    IsMakeable(part.inodeMap, dirs, d);
    halted, id, dirs1, depth1 := MakeAndClose(part, cache, root, atRoot, parent, name, dirs, depth, opens0, list0);
    r := if halted then Halted else Done(0);
    if !halted {
      RootAtHand(part, cache, root, dirs1, depth1);
      MadeWithin(part, nodes0, s0, map0, free0, dirs, depth, path, d, id, dirs1, depth1);
    }
  }
}
