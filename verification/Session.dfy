/** fs/c14a_fs.c: whole runs of calls on a mounted partition. Each file is closed after it is made. */
module Sessions {
  import opened Debug
  import opened Bytes
  import opened Bitmaps
  import opened Ide
  import opened Inodes
  import opened Volumes
  import opened OpenInodes
  import opened FileData
  import opened Files
  import opened DirData
  import opened Dirs
  import opened Caches
  import opened Names
  import opened NameBuffers
  import opened Paths
  import opened Trees
  import opened TreeSteps
  import opened DiskTrees
  import opened Calls
  import opened Canonicals
  import opened Searches
  import opened WorkingDirs
  import opened Rmdirs
  import opened Unlinks
  import opened Mkdirs
  import opened Creates
  import opened FirstMounts
  import opened Formats

  /** sys_open with O_CREAT and sys_close, sys_mkdir, sys_unlink, sys_rmdir. */
  datatype Call = Touch(path: Text) | MakeDir(path: Text) | DropFile(path: Text) | RemoveDir(path: Text)

  /** A path that names something, by names that leave room for their zero. */
  predicate Proper(path: Text) {
    path != [] && 0 !in path && (IsRoot(path) || Components(path) != []) && Short(Components(path))
  }

  /** Only the last name is missing. */
  ghost predicate OneMissing(tree: Tree, path: Text) {
    exists e :: LastMissing(tree, Components(path), e)
  }

  /** When a call answers 0. */
  ghost predicate Possible(tree: Tree, c: Call) {
    match c
    case Touch(path) => path != [] && path[|path| - 1] != SLASH && OneMissing(tree, path)
    case MakeDir(path) => OneMissing(tree, path)
    case DropFile(path) => Resolve(tree, 0, Components(path)).File?
    case RemoveDir(path) => LeadsToEmpty(tree, path)
  }

  /** What it then does. */
  ghost predicate Performs(tree: Tree, c: Call, s: Step) {
    var names := Components(c.path);
    && GoesThrough(tree, s)
    && match c
       case Touch(_) => s.Create? && LastMissing(tree, names, s.p) && s.n == names[|names| - 1]
       case MakeDir(_) => s.Mkdir? && LastMissing(tree, names, s.p) && s.n == names[|names| - 1]
       case DropFile(_) => s.Unlink? && exists id :: FoundFile(tree, names, s.p, id, s.n)
       case RemoveDir(_) => s.Rmdir? && exists id :: FoundDir(tree, names, s.p, id) && s.n == names[|names| - 1]
  }

  /** A call, its answer, and the trees before and after it. */
  ghost predicate Answered(tree: Tree, c: Call, answer: int, after: Tree) {
    && (answer == 0 <==> Possible(tree, c))
    && if answer == 0 then exists s :: Performs(tree, c, s) && after == After(tree, s)
       else answer == -1 && after == tree
  }

  /** Where a call stops the kernel however many blocks are free. */
  ghost predicate Stopping(tree: Tree, c: Call) {
    match c
    case Touch(path) => path != [] && path[|path| - 1] != SLASH && Refused(path)
    case MakeDir(path) => Refused(path)
    case DropFile(path) => Stops(tree, path)
    case RemoveDir(path) => Stops(tree, path)
  }

  /** How many bits are set. */
  function Used(inodeMap: seq<bool>): nat {
    if inodeMap == [] then 0 else (if inodeMap[0] then 1 else 0) + Used(inodeMap[1..])
  }

  lemma {:induction false} UsedIs(inodeMap: seq<bool>, from: nat, ids: set<nat>)
    requires forall i :: 0 <= i < |inodeMap| ==> (inodeMap[i] <==> from + i in ids)
    requires forall id :: id in ids ==> from <= id < from + |inodeMap|
    ensures |ids| == Used(inodeMap)
    decreases |inodeMap|
  {
    if inodeMap == [] {
      assert ids == {};
    } else {
      UsedIs(inodeMap[1..], from + 1, ids - {from});
    }
  }

  lemma UsedNodes(part: Partition)
    requires part.Valid()
    ensures |part.nodes.Keys| == Used(part.inodeMap) && IdsAgree(part.inodeMap, part.nodes.Keys) && 0 in part.nodes
    ensures |part.inodeMap| >= 256
  {
    hide OwnersAgree, BitmapAgrees, TablesIn, RecordsIn;
    UsedIs(part.inodeMap, 0, part.nodes.Keys);
  }

  function Numbers(n: nat): (r: set<nat>)
    ensures |r| == n && forall i :: i in r <==> 0 <= i < n
  {
    if n == 0 then {} else Numbers(n - 1) + {n - 1}
  }

  lemma Subset(a: set<nat>, b: set<nat>)
    requires a <= b
    ensures |a| <= |b|
  {
    if a != b {
      assert |b| == |a| + |b - a| by {
        assert a + (b - a) == b;
      }
    }
  }

  /** With fewer than 256 inodes there is a number left. */
  lemma NumberLeft(inodeMap: seq<bool>, ids: set<nat>)
    requires IdsAgree(inodeMap, ids) && |inodeMap| >= 256 && |ids| < 256
    ensures IdLeft(inodeMap)
  {
    if !IdLeft(inodeMap) {
      Subset(Numbers(256), ids);
    }
  }

  function PlaceAt(k: nat): (nat, nat) {
    (k / PER_SECTOR, k % PER_SECTOR)
  }

  const PLACES := 12 * PER_SECTOR

  /** The numbers in the entries behind the dots. */
  ghost function NumbersIn(entries: Entries, k: nat): set<nat>
    requires forall j :: 2 <= j < k ==> PlaceAt(j) in entries
  {
    set j | 2 <= j < k :: entries[PlaceAt(j)].id as nat
  }

  lemma {:induction false} AllDifferent(node: Node, entries: Entries, k: nat)
    requires |node.slots| == SLOTS && Unique(node, entries) && 2 <= k
    requires forall j :: 2 <= j < k ==> PlaceAt(j) in entries
    ensures |NumbersIn(entries, k)| == k - 2
  {
    hide Unique, PlaceAt;
    if k == 2 {
      assert NumbersIn(entries, k) == {};
    } else {
      AllDifferent(node, entries, k - 1);
      OneMore(entries, k);
      forall j | 2 <= j < k - 1 ensures entries[PlaceAt(j)].id != entries[PlaceAt(k - 1)].id {
        TwoDifferent(node, entries, j, k - 1);
      }
    }
  }

  lemma OneMore(entries: Entries, k: nat)
    requires 3 <= k && forall j :: 2 <= j < k ==> PlaceAt(j) in entries
    ensures NumbersIn(entries, k) == NumbersIn(entries, k - 1) + {entries[PlaceAt(k - 1)].id as nat}
  {
    hide PlaceAt;
  }

  lemma TwoDifferent(node: Node, entries: Entries, i: nat, j: nat)
    requires |node.slots| == SLOTS && Unique(node, entries) && 2 <= i < j
    requires PlaceAt(i) in entries && PlaceAt(j) in entries
    ensures entries[PlaceAt(i)].id != entries[PlaceAt(j)].id
  {
    assert PlaceAt(i) != PlaceAt(j) && !Dot(PlaceAt(i)) && !Dot(PlaceAt(j));
  }

  /** With at most 250 inodes every directory has a place left: each entry but the dots has a number of its own,
      and none has the root's. */
  lemma PlaceLeft(part: Partition, dirs: Listings, d: nat)
    requires OnDisk(part, dirs) && AllAllocated(part.nodes, dirs) && d in dirs && |part.nodes.Keys| <= 250
    ensures HasRoom(dirs[d])
  {
    hide Partition.Valid, AllAllocated, AllDisplayed, Shows, NoEmptyBlock, NumbersIn;
    OneOfAll(part.disk.sectors, part.nodes, dirs, d);
    AllocatedOne(part.nodes, dirs, d);
    if !HasRoom(dirs[d]) {
      forall k | 0 <= k < PLACES ensures PlaceAt(k) in dirs[d] {
        assert PlaceAt(k).0 < 12 && PlaceAt(k).1 < PER_SECTOR;
      }
      AllDifferent(part.nodes[d], dirs[d], PLACES);
      RootThere(part);
      NumbersKnown(part.nodes, dirs[d]);
      Subset(NumbersIn(dirs[d], PLACES) + {0}, part.nodes.Keys);
    }
  }

  lemma NumbersKnown(nodes: map<nat, Node>, entries: Entries)
    requires Names.Allocated(nodes, entries) && KindsKnown(entries)
    requires forall j :: 2 <= j < PLACES ==> PlaceAt(j) in entries
    ensures NumbersIn(entries, PLACES) <= nodes.Keys && 0 !in NumbersIn(entries, PLACES)
  {
    forall j | 2 <= j < PLACES ensures !Dot(PlaceAt(j)) {}
  }

  /** A partition with at most 250 inodes can make a file or a directory anywhere. */
  lemma RoomEverywhere(part: Partition, dirs: Listings, depth: map<nat, nat>)
    requires OnDisk(part, dirs) && TreeInOrder(part.nodes, dirs, depth) && Used(part.inodeMap) <= 250
    ensures IdLeft(part.inodeMap) && forall e :: Makeable(part.inodeMap, dirs, e)
  {
    hide Partition.Valid, AllDisplayed, TreeOk, AllAllocated, SoleEntries, HasRoom, IdLeft, TreeOf, Used;
    UsedNodes(part);
    NumberLeft(part.inodeMap, part.nodes.Keys);
    forall e | e in dirs ensures HasRoom(dirs[e]) {
      PlaceLeft(part, dirs, e);
    }
  }

  /** The partition is in order, every path fits, and only the root is open. */
  ghost predicate Ready(part: Partition, cache: Cache, root: Inode, dirs: Listings, depth: map<nat, nat>)
    reads part, part.disk, cache, cache.list
  {
    && InUse(part, cache, root, dirs, depth) && AllFit(TreeOf(dirs), depth)
    && cache.list == [root] && cache.opens == map[0 := 1]
  }

  lemma ReadyHas(part: Partition, cache: Cache, root: Inode, dirs: Listings, depth: map<nat, nat>)
    requires Ready(part, cache, root, dirs, depth) && Used(part.inodeMap) <= 250
    ensures InUse(part, cache, root, dirs, depth) && OnDisk(part, dirs) && cache.opens.Keys <= part.nodes.Keys
    ensures forall e :: Makeable(part.inodeMap, dirs, e)
  {
    hide Partition.Valid, AllDisplayed, TreeOk, AllAllocated, SoleEntries, HasRoom, IdLeft, TreeOf, Used, Makeable,
      Cache.Tracks;
    RoomEverywhere(part, dirs, depth);
    cache.OpenExists(part);
  }

  lemma PathReady(tree: Tree, path: Text)
    requires Proper(path)
    ensures BufferOf(tree, path) == Kept && !Overlong(Components(path)) && path != [] && 0 !in path
    ensures IsRoot(path) || Components(path) != []
  {
    hide Components, IsRoot, Short, BufferOf, Overlong;
    ShortPathKept(tree, path);
  }

  lemma StepDone(dirs: Listings, depth: map<nat, nat>, c: Call, s: Step, depth1: map<nat, nat>, dirs1: Listings,
                 front: seq<Text>)
    requires AllFit(TreeOf(dirs), depth) && Performs(TreeOf(dirs), c, s) && Possible(TreeOf(dirs), c) && !ByDot(s)
    requires TreeOk(TreeOf(dirs1), depth1) && GoesThrough(TreeOf(dirs), s)
    requires TreeOf(dirs1) == After(TreeOf(dirs), s)
    requires !s.Mkdir?
    ensures AllFit(TreeOf(dirs1), depth1) && Answered(TreeOf(dirs), c, 0, TreeOf(dirs1))
  {
    hide TreeOk, TreeOf, AllFit, Performs, Possible, GoesThrough, After;
    StepFits(TreeOf(dirs), depth, s, depth1, front);
  }

  lemma TouchDone(part: Partition, nodes0: map<nat, Node>, s0: seq<Sector>, map0: seq<bool>, free0: nat, dirs: Listings,
                  depth: map<nat, nat>, path: Text, d: nat, id: nat, dirs1: Listings)
    requires AllFit(TreeOf(dirs), depth) && LastMissing(TreeOf(dirs), Components(path), d)
    requires path != [] && path[|path| - 1] != SLASH && TreeOk(TreeOf(dirs1), depth)
    requires FileMade(part, nodes0, s0, map0, free0, dirs, d, Components(path)[|Components(path)| - 1], id, dirs1)
    ensures AllFit(TreeOf(dirs1), depth) && Answered(TreeOf(dirs), Touch(path), 0, TreeOf(dirs1))
  {
    hide TreeOk, TreeOf, AllFit, GoesThrough, After, OthersKept, Components, Resolve, Extra, NeedsBlock;
    StepDone(dirs, depth, Touch(path), Create(d, Components(path)[|Components(path)| - 1], id), depth, dirs1, []);
  }

  /** What closes the file that was made. */
  lemma MadeOpen(cache: Cache, file: Inode, opens0: map<nat, nat>, list0: seq<Inode>, nodes0: map<nat, Node>)
    requires cache.opens == Opening(opens0, file.id) && cache.list == [file] + list0 && file.id as nat !in nodes0
    requires opens0.Keys <= nodes0.Keys
    ensures cache.OpenedSince(opens0, list0, file)
  {
  }

  /** sys_open with O_CREAT, and sys_close. */
  method DoTouch(part: Partition, cache: Cache, root: Inode, junk: word, junkByte: byte, path: Text,
                 ghost dirs: Listings, ghost depth: map<nat, nat>)
    returns (r: Run<int>, ghost dirs1: Listings)
    requires Ready(part, cache, root, dirs, depth) && Proper(path) && Used(part.inodeMap) <= 250
    modifies part, part.disk, cache, cache.list`openCount, cache.list`size, cache.list`blocks
    ensures r == Halted ==> Stopping(TreeOf(dirs), Touch(path)) || |old(part.FreeBlocks())| < 2
    ensures Stopping(TreeOf(dirs), Touch(path)) ==> r == Halted
    ensures r.Done? ==> Ready(part, cache, root, dirs1, depth)
    ensures r.Done? ==> Answered(TreeOf(dirs), Touch(path), r.value, TreeOf(dirs1))
  {
    hide *;
    ghost var opens0, list0, nodes0, s0, map0, free0 :=
      cache.opens, cache.list, part.nodes, part.disk.sectors, part.inodeMap, |part.FreeBlocks()|;
    ReadyHas(part, cache, root, dirs, depth);
    ReadyIs(part, cache, root, dirs, depth);
    PathReady(TreeOf(dirs), path);
    MakingStops(TreeOf(dirs), path);
    var file;
    ghost var d;
    r, file, d, dirs1 := SysCreate(part, cache, root, junk, junkByte, path, dirs, depth);
    if r == Done(0) {
      RootAtHand(part, cache, root, dirs1, depth);
      HasLast(TreeOf(dirs), Components(path), d);
      MadeFile(part, nodes0, s0, map0, free0, dirs, d, Components(path)[|Components(path)| - 1], file.inode.id, dirs1);
      TouchDone(part, nodes0, s0, map0, free0, dirs, depth, path, d, file.inode.id, dirs1);
      MadeOpen(cache, file.inode, opens0, list0, nodes0);
      CloseFile(part, cache, root, file, dirs1, depth, opens0, list0);
      IsReady(part, cache, root, dirs1, depth);
    }
    if r == Done(-1) {
      dirs1 := dirs;
      if path[|path| - 1] != SLASH {
        NoneMissing(TreeOf(dirs), path);
      }
      NotTouched(TreeOf(dirs), path);
      IsReady(part, cache, root, dirs, depth);
    }
    if r == Halted {
      TouchStops(TreeOf(dirs), path, nodes0, dirs, d, old(part.FreeBlocks()));
    }
  }

  lemma ReadyIs(part: Partition, cache: Cache, root: Inode, dirs: Listings, depth: map<nat, nat>)
    requires Ready(part, cache, root, dirs, depth)
    ensures InUse(part, cache, root, dirs, depth) && AllFit(TreeOf(dirs), depth)
    ensures cache.list == [root] && cache.opens == map[0 := 1] && cache.opens.Keys == {0}
  {
    hide InUse, AllFit, TreeOf;
  }

  lemma IsReady(part: Partition, cache: Cache, root: Inode, dirs: Listings, depth: map<nat, nat>)
    requires InUse(part, cache, root, dirs, depth) && AllFit(TreeOf(dirs), depth)
    requires cache.list == [root] && cache.opens == map[0 := 1]
    ensures Ready(part, cache, root, dirs, depth)
  {
    hide InUse, AllFit, TreeOf;
  }

  lemma MadeFile(part: Partition, nodes0: map<nat, Node>, s0: seq<Sector>, map0: seq<bool>, free0: nat, dirs: Listings,
                 d: nat, name: Text, id: nat, dirs1: Listings)
    requires FileMade(part, nodes0, s0, map0, free0, dirs, d, name, id, dirs1)
    ensures id !in nodes0
  {
    hide TreeOf, GoesThrough, After, OthersKept, Extra;
  }

  lemma HasLast(tree: Tree, names: seq<Text>, d: nat)
    requires LastMissing(tree, names, d)
    ensures names != []
  {
  }

  lemma NoneMissing(tree: Tree, path: Text)
    requires !exists e :: LastMissing(tree, Components(path), e)
    ensures !OneMissing(tree, path)
  {
    hide Components, LastMissing;
  }

  lemma MakingStops(tree: Tree, path: Text)
    requires path != []
    ensures Stopping(tree, Touch(path)) ==> path[|path| - 1] != SLASH && Refused(path)
    ensures Stopping(tree, MakeDir(path)) ==> Refused(path)
  {
    hide Refused;
  }

  lemma NotTouched(tree: Tree, path: Text)
    requires path != []
    requires path[|path| - 1] == SLASH || !OneMissing(tree, path)
    ensures Answered(tree, Touch(path), -1, tree)
  {
    hide Components, LastMissing;
  }

  lemma TouchStops(tree: Tree, path: Text, nodes: map<nat, Node>, dirs: Listings, d: nat, free: set<nat>)
    requires path != [] && path[|path| - 1] != SLASH && (Refused(path) || NoPlace(nodes, dirs, d, free))
    ensures Stopping(tree, Touch(path)) || |free| < 2
  {
    hide NeedsBlock;
  }

  /** sys_close of the file just made. */
  method CloseFile(part: Partition, cache: Cache, root: Inode, file: File, ghost dirs: Listings,
                   ghost depth: map<nat, nat>, ghost opens0: map<nat, nat>, ghost list0: seq<Inode>)
    requires InUse(part, cache, root, dirs, depth) && cache.OpenedSince(opens0, list0, file.inode) && root in list0
    modifies cache, file.inode`openCount
    ensures InUse(part, cache, root, dirs, depth) && cache.opens == opens0 && cache.list == list0
  {
    hide TreeOk, AllAllocated, SoleEntries, AllDisplayed, TreeOf, Cache.Tracks, Partition.Valid, Cache.OpenedSince;
    cache.Reclose(part, file.inode, opens0, list0, {});
  }

  lemma MkdirDone(part: Partition, nodes0: map<nat, Node>, s0: seq<Sector>, map0: seq<bool>, free0: nat, dirs: Listings,
                  path: Text, d: nat, id: nat, dirs1: Listings)
    requires LastMissing(TreeOf(dirs), Components(path), d)
    requires Made(part, nodes0, s0, map0, free0, dirs, d, Components(path)[|Components(path)| - 1], id, dirs1)
    ensures Answered(TreeOf(dirs), MakeDir(path), 0, TreeOf(dirs1))
  {
    hide TreeOf, GoesThrough, After, OthersKept, Components, Resolve, Extra, NeedsBlock;
    assert Performs(TreeOf(dirs), MakeDir(path), Mkdir(d, Components(path)[|Components(path)| - 1], id));
  }

  lemma NotMade(tree: Tree, path: Text)
    requires !OneMissing(tree, path)
    ensures Answered(tree, MakeDir(path), -1, tree)
  {
    hide Components, LastMissing;
  }

  lemma MkdirStops(tree: Tree, path: Text, nodes: map<nat, Node>, dirs: Listings, d: nat, free: nat)
    requires Refused(path) || TooFew(nodes, dirs, d, free)
    ensures Stopping(tree, MakeDir(path)) || free < 2
  {
    hide NeedsBlock;
  }

  /** sys_mkdir */
  method DoMkdir(part: Partition, cache: Cache, root: Inode, junk: word, junkByte: byte, path: Text,
                 ghost dirs: Listings, ghost depth: map<nat, nat>)
    returns (r: Run<int>, ghost dirs1: Listings, ghost depth1: map<nat, nat>)
    requires Ready(part, cache, root, dirs, depth) && Proper(path) && Used(part.inodeMap) <= 250
    modifies part, part.disk, cache, cache.list`openCount, cache.list`size, cache.list`blocks
    ensures r == Halted ==> Stopping(TreeOf(dirs), MakeDir(path)) || |old(part.FreeBlocks())| < 2
    ensures Stopping(TreeOf(dirs), MakeDir(path)) ==> r == Halted
    ensures r.Done? ==> Ready(part, cache, root, dirs1, depth1)
    ensures r.Done? ==> Answered(TreeOf(dirs), MakeDir(path), r.value, TreeOf(dirs1))
  {
    hide *;
    ghost var nodes0, s0, map0, free0 := part.nodes, part.disk.sectors, part.inodeMap, |part.FreeBlocks()|;
    ReadyHas(part, cache, root, dirs, depth);
    ReadyIs(part, cache, root, dirs, depth);
    PathReady(TreeOf(dirs), path);
    MakingStops(TreeOf(dirs), path);
    ghost var d, id;
    r, d, id, dirs1, depth1 := SysMkdir(part, cache, root, junk, junkByte, path, dirs, depth);
    if r == Done(0) {
      HasLast(TreeOf(dirs), Components(path), d);
      MkdirDone(part, nodes0, s0, map0, free0, dirs, path, d, id, dirs1);
      IsReady(part, cache, root, dirs1, depth1);
    }
    if r == Done(-1) {
      dirs1, depth1 := dirs, depth;
      NoneMissing(TreeOf(dirs), path);
      NotMade(TreeOf(dirs), path);
      IsReady(part, cache, root, dirs, depth);
    }
    if r == Halted {
      MkdirStops(TreeOf(dirs), path, nodes0, dirs, d, free0);
    }
  }

  lemma UnlinkDone(part: Partition, nodes0: map<nat, Node>, s0: seq<Sector>, dirs: Listings, depth: map<nat, nat>,
                   path: Text, d: nat, id: nat, dirs1: Listings)
    requires AllFit(TreeOf(dirs), depth) && TreeOk(TreeOf(dirs1), depth)
    requires UnlinkedBy(part, nodes0, s0, dirs, depth, Components(path), d, id, dirs1)
    ensures AllFit(TreeOf(dirs1), depth) && Answered(TreeOf(dirs), DropFile(path), 0, TreeOf(dirs1))
  {
    hide TreeOk, TreeOf, AllFit, GoesThrough, After, OthersKept, Components, Resolve, OnDisk, TreeInOrder;
    var name :|
      FoundFile(TreeOf(dirs), Components(path), d, id, name) && Gone(part, nodes0, s0, dirs, depth, d, id, name, dirs1);
    StepDone(dirs, depth, DropFile(path), Unlink(d, name), depth, dirs1, []);
  }

  lemma UnlinkedFound(part: Partition, nodes0: map<nat, Node>, s0: seq<Sector>, dirs: Listings, depth: map<nat, nat>,
                      names: seq<Text>, d: nat, id: nat, dirs1: Listings)
    requires UnlinkedBy(part, nodes0, s0, dirs, depth, names, d, id, dirs1)
    ensures Resolve(TreeOf(dirs), 0, names).File? && Resolve(TreeOf(dirs), 0, names).id == id
  {
    hide TreeOf, Resolve, Gone;
  }

  lemma UnlinkedNot(tree: Tree, path: Text)
    requires !Resolve(tree, 0, Components(path)).File?
    ensures Answered(tree, DropFile(path), -1, tree)
  {
    hide Components, Resolve;
  }

  /** sys_unlink, while no file is open. */
  method DoUnlink(part: Partition, cache: Cache, root: Inode, junk: word, path: Text, ghost dirs: Listings,
                  ghost depth: map<nat, nat>)
    returns (r: Run<int>, ghost dirs1: Listings)
    requires Ready(part, cache, root, dirs, depth) && Proper(path)
    modifies part, part.disk, cache, cache.list`openCount, cache.list`size, cache.list`blocks
    ensures r == Halted <==> Stopping(TreeOf(dirs), DropFile(path))
    ensures r.Done? ==> Ready(part, cache, root, dirs1, depth)
    ensures r.Done? ==> Answered(TreeOf(dirs), DropFile(path), r.value, TreeOf(dirs1))
  {
    hide *;
    ghost var nodes0, s0, names := part.nodes, part.disk.sectors, Components(path);
    ReadyIs(part, cache, root, dirs, depth);
    PathReady(TreeOf(dirs), path);
    if Resolve(TreeOf(dirs), 0, names).File? {
      FileNotRoot(part, cache, root, dirs, depth, names);
    }
    ghost var d, id;
    UnlinkStops(TreeOf(dirs), path);
    r, d, id, dirs1 := SysUnlink(part, cache, root, junk, path, {}, dirs, depth);
    if r == Done(0) {
      UnlinkedFound(part, nodes0, s0, dirs, depth, names, d, id, dirs1);
      RootAtHand(part, cache, root, dirs1, depth);
      UnlinkDone(part, nodes0, s0, dirs, depth, path, d, id, dirs1);
      IsReady(part, cache, root, dirs1, depth);
    }
    if r == Done(-1) {
      dirs1 := dirs;
      UnlinkedNot(TreeOf(dirs), path);
      IsReady(part, cache, root, dirs, depth);
    }
  }

  lemma UnlinkStops(tree: Tree, path: Text)
    ensures Stopping(tree, DropFile(path)) <==> Stops(tree, path)
    ensures Stopping(tree, RemoveDir(path)) <==> Stops(tree, path)
  {
    hide Stops;
  }

  lemma RmdirDone(part: Partition, nodes0: map<nat, Node>, s0: seq<Sector>, dirs: Listings, depth: map<nat, nat>,
                  path: Text, d: nat, id: nat, dirs1: Listings)
    requires AllFit(TreeOf(dirs), depth) && LeadsToEmpty(TreeOf(dirs), path)
    requires RemovedBy(part, nodes0, s0, dirs, depth, Components(path), d, id, dirs1)
    ensures Components(path) != [] && Answered(TreeOf(dirs), RemoveDir(path), 0, TreeOf(dirs1))
    ensures Resolve(TreeOf(dirs), 0, Components(path)) == Dir(id)
    ensures Components(path)[|Components(path)| - 1] != DOT && TreeOk(TreeOf(dirs1), depth - {id}) ==>
      AllFit(TreeOf(dirs1), depth - {id})
  {
    hide TreeOk, TreeOf, AllFit, GoesThrough, After, OthersKept, Components, Resolve, OnDisk, TreeInOrder, LeadsToEmpty;
    var s := Rmdir(d, Components(path)[|Components(path)| - 1]);
    assert Performs(TreeOf(dirs), RemoveDir(path), s);
    if s.n != DOT && TreeOk(TreeOf(dirs1), depth - {id}) {
      StepFits(TreeOf(dirs), depth, s, depth - {id}, []);
    }
  }

  lemma NotRemoved(tree: Tree, path: Text)
    requires !LeadsToEmpty(tree, path)
    ensures Answered(tree, RemoveDir(path), -1, tree)
  {
    hide LeadsToEmpty;
  }

  lemma NotTheRoot(tree: Tree, path: Text, id: nat)
    requires !Stops(tree, path) && Resolve(tree, 0, Components(path)) == Dir(id)
    ensures id != 0
  {
  }

  /** sys_rmdir. The tree is torn when it goes through by `.`. */
  method DoRmdir(part: Partition, cache: Cache, root: Inode, junk: word, path: Text, ghost dirs: Listings,
                 ghost depth: map<nat, nat>)
    returns (r: Run<int>, torn: bool, ghost dirs1: Listings, ghost depth1: map<nat, nat>)
    requires Ready(part, cache, root, dirs, depth) && Proper(path)
    modifies part, part.disk, cache, cache.list`openCount, cache.list`size, cache.list`blocks
    ensures r == Halted <==> Stopping(TreeOf(dirs), RemoveDir(path))
    ensures r.Done? && !torn ==> Ready(part, cache, root, dirs1, depth1)
    ensures r.Done? ==> Answered(TreeOf(dirs), RemoveDir(path), r.value, TreeOf(dirs1))
    ensures torn <==> r == Done(0) && Components(path) != [] && Components(path)[|Components(path)| - 1] == DOT
    ensures r.Done? ==> (torn <==> !exists depth2 :: TreeOk(TreeOf(dirs1), depth2))
  {
    hide *;
    ghost var nodes0, s0 := part.nodes, part.disk.sectors;
    ReadyIs(part, cache, root, dirs, depth);
    RootAtHand(part, cache, root, dirs, depth);
    PathReady(TreeOf(dirs), path);
    ghost var d, id;
    r, d, id, dirs1 := SysRmdir(part, cache, root, junk, path, dirs, depth);
    torn, depth1 := false, depth;
    UnlinkStops(TreeOf(dirs), path);
    if r == Done(0) {
      RmdirDone(part, nodes0, s0, dirs, depth, path, d, id, dirs1);
      NotTheRoot(TreeOf(dirs), path, id);
      torn := Components(path)[|Components(path)| - 1] == DOT;
      if !torn {
        depth1 := depth - {id};
        RootAtHand(part, cache, root, dirs1, depth1);
        IsReady(part, cache, root, dirs1, depth1);
      }
    }
    if r == Done(-1) {
      dirs1 := dirs;
      NotRemoved(TreeOf(dirs), path);
      IsReady(part, cache, root, dirs, depth);
    }
  }

  predicate Makes(c: Call) {
    c.Touch? || c.MakeDir?
  }

  /** One call. */
  method DoCall(part: Partition, cache: Cache, root: Inode, junk: word, junkByte: byte, c: Call, ghost dirs: Listings,
                ghost depth: map<nat, nat>)
    returns (r: Run<int>, torn: bool, ghost dirs1: Listings, ghost depth1: map<nat, nat>)
    requires Ready(part, cache, root, dirs, depth) && Proper(c.path) && (Makes(c) ==> Used(part.inodeMap) <= 250)
    modifies part, part.disk, cache, cache.list`openCount, cache.list`size, cache.list`blocks
    ensures r == Halted ==> Stopping(TreeOf(dirs), c) || (Makes(c) && |old(part.FreeBlocks())| < 2)
    ensures Stopping(TreeOf(dirs), c) ==> r == Halted
    ensures r.Done? && !torn ==> Ready(part, cache, root, dirs1, depth1)
    ensures r.Done? ==> Answered(TreeOf(dirs), c, r.value, TreeOf(dirs1))
    ensures torn ==> r == Done(0) && Tearing(c) && !exists depth2 :: TreeOk(TreeOf(dirs1), depth2)
  {
    hide Ready, Proper, Used, Stopping, TreeOf, Answered, Components, TreeOk, Partition.FreeBlocks;
    torn, dirs1, depth1 := false, dirs, depth;
    match c
    case Touch(path) =>
      r, dirs1 := DoTouch(part, cache, root, junk, junkByte, path, dirs, depth);
    case MakeDir(path) =>
      r, dirs1, depth1 := DoMkdir(part, cache, root, junk, junkByte, path, dirs, depth);
    case DropFile(path) =>
      r, dirs1 := DoUnlink(part, cache, root, junk, path, dirs, depth);
    case RemoveDir(path) =>
      r, torn, dirs1, depth1 := DoRmdir(part, cache, root, junk, path, dirs, depth);
  }

  /** A removal of a directory by its own `.`. */
  predicate Tearing(c: Call) {
    c.RemoveDir? && Components(c.path) != [] && Components(c.path)[|Components(c.path)| - 1] == DOT
  }

  /** How a run ends: after its last call; in front of a call that would make a 252nd inode; in a call that stops
      the kernel; or in a removal by `.` that goes through. */
  datatype End = Finished | Full | Stopped | Torn

  /** The trees that the calls answered so far lead through. */
  ghost predicate Trace(trees: seq<Tree>, calls: seq<Call>, answers: seq<int>) {
    && |trees| == |answers| + 1 && |answers| <= |calls|
    && forall i :: 0 <= i < |answers| ==> Answered(trees[i], calls[i], answers[i], trees[i + 1])
  }

  lemma TraceMore(trees: seq<Tree>, calls: seq<Call>, answers: seq<int>, answer: int, after: Tree)
    requires Trace(trees, calls, answers) && |answers| < |calls|
    requires Answered(trees[|answers|], calls[|answers|], answer, after)
    ensures Trace(trees + [after], calls, answers + [answer])
  {
    hide Answered;
    var trees1, answers1 := trees + [after], answers + [answer];
    forall i | 0 <= i < |answers1| ensures Answered(trees1[i], calls[i], answers1[i], trees1[i + 1]) {
      if i < |answers| {
        assert trees1[i] == trees[i] && trees1[i + 1] == trees[i + 1] && answers1[i] == answers[i];
      }
    }
  }

  /** The calls of a trace that answer 0 are the steps of a history of the tree. */
  lemma {:induction false} TraceHistory(trees: seq<Tree>, calls: seq<Call>, answers: seq<int>)
    returns (states: seq<Tree>, steps: seq<Step>)
    requires Trace(trees, calls, answers) && trees[0] == RootOnly()
    ensures |states| == |steps| + 1 && |trees| == |answers| + 1
    ensures History(states, steps) && states[|steps|] == trees[|answers|]
    ensures |steps| == multiset(answers)[0]
    decreases |answers|
  {
    hide Answered, GoesThrough, After, Performs, History, Trace, RootOnly;
    TraceSizes(trees, calls, answers);
    if answers == [] {
      HistoryStarts();
      states, steps := [RootOnly()], [];
    } else {
      var k := |answers| - 1;
      assert answers == answers[..k] + [answers[k]];
      TraceLess(trees, calls, answers);
      states, steps := TraceHistory(trees[..k + 1], calls, answers[..k]);
      if answers[k] == 0 {
        var s := StepOf(trees[k], calls[k], trees[k + 1]);
        HistoryMore(states, steps, s, trees[k + 1]);
        states, steps := states + [trees[k + 1]], steps + [s];
      } else {
        NoStep(trees[k], calls[k], answers[k], trees[k + 1]);
      }
    }
  }

  lemma HistoryStarts()
    ensures History([RootOnly()], [])
  {
  }

  lemma HistoryMore(states: seq<Tree>, steps: seq<Step>, s: Step, after: Tree)
    requires History(states, steps) && |states| == |steps| + 1 && GoesThrough(states[|steps|], s)
    requires after == After(states[|steps|], s)
    ensures History(states + [after], steps + [s]) && |states + [after]| == |steps + [s]| + 1
  {
    hide GoesThrough, After, RootOnly;
    var states1, steps1 := states + [after], steps + [s];
    forall i | 0 <= i < |steps1|
      ensures GoesThrough(states1[i], steps1[i]) && states1[i + 1] == After(states1[i], steps1[i])
    {
      if i < |steps| {
        assert states1[i] == states[i] && states1[i + 1] == states[i + 1] && steps1[i] == steps[i];
      }
    }
  }

  lemma TraceLess(trees: seq<Tree>, calls: seq<Call>, answers: seq<int>)
    requires Trace(trees, calls, answers) && answers != []
    ensures var k := |answers| - 1;
      Trace(trees[..k + 1], calls, answers[..k]) && Answered(trees[k], calls[k], answers[k], trees[k + 1])
  {
    hide Answered;
  }

  lemma StepOf(tree: Tree, c: Call, after: Tree) returns (s: Step)
    requires Answered(tree, c, 0, after)
    ensures GoesThrough(tree, s) && after == After(tree, s) && Performs(tree, c, s)
  {
    hide Possible, GoesThrough, After;
    s :| Performs(tree, c, s) && after == After(tree, s);
  }

  lemma NoStep(tree: Tree, c: Call, answer: int, after: Tree)
    requires Answered(tree, c, answer, after) && answer != 0
    ensures after == tree
  {
  }

  /** The directories form a tree, and each can be named by a path that fits. */
  ghost predicate InOrderThroughout(trees: seq<Tree>) {
    forall i :: 0 <= i < |trees| ==> Fitting(trees[i])
  }

  ghost predicate Fitting(tree: Tree) {
    exists depth :: AllFit(tree, depth)
  }

  lemma FittingMore(trees: seq<Tree>, after: Tree, depth: map<nat, nat>)
    requires InOrderThroughout(trees) && AllFit(after, depth)
    ensures InOrderThroughout(trees + [after])
  {
    hide AllFit;
    assert Fitting(after);
  }

  lemma TraceStarts(tree: Tree, calls: seq<Call>, depth: map<nat, nat>)
    requires AllFit(tree, depth)
    ensures Trace([tree], calls, []) && InOrderThroughout([tree])
  {
    hide AllFit, Answered;
    assert Fitting(tree);
  }

  /** Why the run ended where it did; `free` blocks were free before the last call. */
  ghost predicate EndsAs(end: End, calls: seq<Call>, answers: seq<int>, trees: seq<Tree>, free: nat)
    requires Trace(trees, calls, answers)
  {
    match end
    case Finished => |answers| == |calls|
    case Full => |answers| < |calls| && Makes(calls[|answers|])
    case Stopped =>
      && |answers| < |calls|
      && (Stopping(trees[|answers|], calls[|answers|]) || (Makes(calls[|answers|]) && free < 2))
    case Torn =>
      && answers != [] && answers[|answers| - 1] == 0 && Tearing(calls[|answers| - 1])
      && !exists depth :: TreeOk(trees[|answers|], depth)
  }

  lemma EndsFinished(calls: seq<Call>, answers: seq<int>, trees: seq<Tree>, free: nat)
    requires Trace(trees, calls, answers) && |answers| == |calls|
    ensures EndsAs(Finished, calls, answers, trees, free)
  {
    hide Answered;
  }

  lemma EndsFull(calls: seq<Call>, answers: seq<int>, trees: seq<Tree>, free: nat)
    requires Trace(trees, calls, answers) && |answers| < |calls| && Makes(calls[|answers|])
    ensures EndsAs(Full, calls, answers, trees, free)
  {
    hide Answered, Makes;
  }

  lemma EndsStopped(calls: seq<Call>, answers: seq<int>, trees: seq<Tree>, free: nat)
    requires Trace(trees, calls, answers) && |answers| < |calls| && |trees| > |answers|
    requires Stopping(trees[|answers|], calls[|answers|]) || (Makes(calls[|answers|]) && free < 2)
    ensures EndsAs(Stopped, calls, answers, trees, free)
  {
    hide Answered, Makes, Stopping;
  }

  lemma EndsTorn(calls: seq<Call>, answers: seq<int>, trees: seq<Tree>, free: nat)
    requires Trace(trees, calls, answers) && 0 < |answers| <= |calls| && |trees| > |answers|
    requires answers[|answers| - 1] == 0 && Tearing(calls[|answers| - 1])
    requires !exists depth :: TreeOk(trees[|answers|], depth)
    ensures EndsAs(Torn, calls, answers, trees, free)
  {
    hide Answered, Tearing, TreeOk;
  }

  /** Any run of calls. Each call answers 0 exactly when it can be done and then does it to the tree, and -1
      otherwise, with the tree unchanged; after each the directories form a tree, unless the last removed a
      directory by its own `.`. */
  method RunCalls(part: Partition, cache: Cache, root: Inode, junk: word, junkByte: byte, calls: seq<Call>,
                  ghost dirs0: Listings, ghost depth0: map<nat, nat>)
    returns (end: End, answers: seq<int>, ghost trees: seq<Tree>, ghost dirs: Listings, ghost depth: map<nat, nat>,
             ghost free: nat)
    requires Ready(part, cache, root, dirs0, depth0)
    requires forall i :: 0 <= i < |calls| ==> Proper(calls[i].path)
    modifies part, part.disk, cache, cache.list`openCount, cache.list`size, cache.list`blocks
    ensures Trace(trees, calls, answers) && trees[0] == TreeOf(dirs0)
    ensures InOrderThroughout(if end == Torn then trees[..|answers|] else trees)
    ensures EndsAs(end, calls, answers, trees, free)
    ensures end == Finished || end == Full ==>
      Ready(part, cache, root, dirs, depth) && TreeOf(dirs) == trees[|answers|]
    ensures end == Full ==> Used(part.inodeMap) > 250
  {
    hide *;
    ReadyIs(part, cache, root, dirs0, depth0);
    answers, trees, dirs, depth, free := [], [TreeOf(dirs0)], dirs0, depth0, 0;
    TraceStarts(TreeOf(dirs0), calls, depth0);
    TraceSizes(trees, calls, answers);
    end := Finished;
    while |answers| < |calls|
      invariant Ready(part, cache, root, dirs, depth) && cache.list == old(cache.list) && end == Finished
      invariant Trace(trees, calls, answers) && InOrderThroughout(trees)
      invariant |trees| == |answers| + 1 && |answers| <= |calls|
      invariant trees[0] == TreeOf(dirs0) && trees[|answers|] == TreeOf(dirs)
      decreases |calls| - |answers|
    {
      var c := calls[|answers|];
      if Makes(c) && Used(part.inodeMap) > 250 {
        end := Full;
        EndsFull(calls, answers, trees, free);
        return;
      }
      free := |part.FreeBlocks()|;
      var r, torn;
      ghost var dirs1, depth1;
      r, torn, dirs1, depth1 := DoCall(part, cache, root, junk, junkByte, c, dirs, depth);
      if r == Halted {
        end := Stopped;
        EndsStopped(calls, answers, trees, free);
        return;
      }
      TraceMore(trees, calls, answers, r.value, TreeOf(dirs1));
      answers, trees := answers + [r.value], trees + [TreeOf(dirs1)];
      if torn {
        end := Torn;
        assert trees[..|answers|] == trees[..|trees| - 1];
        EndsTorn(calls, answers, trees, free);
        return;
      }
      ReadyIs(part, cache, root, dirs1, depth1);
      FittingMore(trees[..|trees| - 1], TreeOf(dirs1), depth1);
      dirs, depth := dirs1, depth1;
    }
    EndsFinished(calls, answers, trees, free);
  }

  lemma TraceSizes(trees: seq<Tree>, calls: seq<Call>, answers: seq<int>)
    requires Trace(trees, calls, answers)
    ensures |trees| == |answers| + 1 && |answers| <= |calls|
  {
    hide Answered;
  }

  /** Such a run on a partition just formatted and mounted. */
  method RunFromFormat(disk: Disk, start: nat, ghost sectors: nat, junk: word, junkByte: byte, calls: seq<Call>)
    returns (end: End, answers: seq<int>, ghost trees: seq<Tree>, part: Partition, cache: Cache, root: Inode,
             ghost dirs: Listings, ghost depth: map<nat, nat>, ghost free: nat)
    requires Formatted(disk.sectors, start, sectors) && BitLen(sectors) >= 8
    requires DataStart(start, sectors) + Formats.Usable(sectors) <= |disk.sectors|
    requires forall i :: 0 <= i < |calls| ==> Proper(calls[i].path)
    modifies disk
    ensures Trace(trees, calls, answers) && trees[0] == RootOnly()
    ensures InOrderThroughout(if end == Torn then trees[..|answers|] else trees)
    ensures EndsAs(end, calls, answers, trees, free)
    ensures end == Finished || end == Full ==>
      Ready(part, cache, root, dirs, depth) && TreeOf(dirs) == trees[|answers|]
    ensures end == Full ==> Used(part.inodeMap) > 250
    ensures part.disk == disk && Described(part, start, sectors)
  {
    hide *;
    part, cache, root, dirs, depth := MountRoot(disk, start, sectors);
    RootAtHand(part, cache, root, dirs, depth);
    RootFits(depth);
    IsReady(part, cache, root, dirs, depth);
    end, answers, trees, dirs, depth, free := RunCalls(part, cache, root, junk, junkByte, calls, dirs, depth);
  }

  /** In every directory that a run leaves, sys_chdir to the answer of sys_getcwd leads back there; a buffer of
      512 bytes has room for the answer. */
  method ComeBack(part: Partition, cache: Cache, root: Inode, process: Process, junk: word, size: nat,
                  ghost dirs: Listings, ghost depth: map<nat, nat>)
    returns (path: Run<Text>, r: Run<int>)
    requires Ready(part, cache, root, dirs, depth) && process.cwd in dirs && size >= MAX_PATH_LEN
    modifies process, cache, cache.list`openCount
    ensures path.Done? && 0 < |path.value| <= MAX_PATH_LEN && r == Done(0) && process.cwd == old(process.cwd)
    ensures Resolve(TreeOf(dirs), 0, Components(path.value[..|path.value| - 1])) == Dir(process.cwd)
    ensures InUse(part, cache, root, dirs, depth)
  {
    hide *;
    ReadyIs(part, cache, root, dirs, depth);
    FitsThere(dirs, depth, process.cwd);
    ghost var names;
    path, r, names := process.ThereAndBack(part, cache, root, junk, size, dirs, depth);
    FitsItsBuffer(TreeOf(dirs), depth, process.cwd, names);
    LongestPath();
  }

  lemma LongestPath()
    ensures MAX_PATH_LEN == 512
  {
  }

  lemma FitsThere(dirs: Listings, depth: map<nat, nat>, cwd: nat)
    requires AllFit(TreeOf(dirs), depth) && cwd in dirs
    ensures PathFits(TreeOf(dirs), depth, cwd)
  {
    hide PathFits, TreeOk, DirectoryOf;
    TreeHas(dirs, cwd);
  }
}
