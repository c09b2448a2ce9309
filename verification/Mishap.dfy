/** fs/c14a_fs.c: short runs of calls, each answered with success, after which the file system or the process
    is no longer in order. */
module Mishaps {
  import opened Debug
  import opened Bytes
  import opened Bitmaps
  import opened Ide
  import opened BitSectors
  import opened Inodes
  import opened Volumes
  import opened OpenInodes
  import opened FileData
  import opened Files
  import opened DirData
  import opened Dirs
  import opened Caches
  import opened Names
  import opened NameBuffers
  import opened Paths
  import opened Trees
  import opened TreeSteps
  import opened DiskTrees
  import opened Calls
  import opened Searches
  import opened WorkingDirs
  import opened OpenDirs
  import opened Rmdirs
  import opened Mkdirs
  import opened Creates

  const SLASH_A: Text := [SLASH, 97]
  const SLASH_A_DOT: Text := [SLASH, 97, SLASH, 46]
  const SLASH_F: Text := [SLASH, 102]
  const F: Text := [102]

  lemma ShortNames()
    ensures ValidName(A) && ValidName(F)
  {
  }

  /** A root with nothing but dots has room in its first block. */
  lemma EmptyHasRoom(part: Partition, dirs: Listings)
    requires OnDisk(part, dirs) && TreeOf(dirs) == RootOnly()
    ensures 0 in dirs && HasRoom(dirs[0]) && A !in TreeOf(dirs)[0] && F !in TreeOf(dirs)[0]
    ensures 0 in part.nodes && |part.nodes[0].slots| == SLOTS && !NeedsBlock(part.nodes[0], dirs[0])
  {
    hide Partition.Valid, DirectoryOf, Shows, Unique, NoEmptyBlock;
    TreeHas(dirs, 0);
    OneOfAll(part.disk.sectors, part.nodes, dirs, 0);
    OnlyDots(part.disk.sectors, part.nodes, 0, dirs[0]);
    DotsHaveRoom(part.disk.sectors, part.nodes[0], dirs[0]);
  }

  lemma DotsHaveRoom(sectors: seq<Sector>, node: Node, entries: Entries)
    requires Shows(sectors, node, entries) && entries.Keys == {(0, 0), (0, 1)}
    ensures HasRoom(entries) && !NeedsBlock(node, entries)
  {
    assert (0, 0) in entries && (0, 1) in entries && (0, 2) !in entries && FirstPlace(entries, (0, 2));
    FirstPlaceDecides(node, entries, (0, 2));
  }

  lemma MadeA(id: nat)
    requires id != 0
    ensures Resolve(OnlyA(id), 0, Components(SLASH_A_DOT)) == Dir(id) && Components(SLASH_A_DOT) == [A, DOT]
    ensures LeadsToEmpty(OnlyA(id), SLASH_A_DOT) && !Stops(OnlyA(id), SLASH_A_DOT)
  {
    hide OnlyA, Components, Resolve;
    DotPath(id);
    OnlyAHas(id);
  }

  lemma InUseParts(part: Partition, cache: Cache, root: Inode, dirs: Listings, depth: map<nat, nat>)
    requires InUse(part, cache, root, dirs, depth)
    ensures OnDisk(part, dirs) && TreeInOrder(part.nodes, dirs, depth) && cache.Valid(part) && root in cache.list
    ensures root.id == 0
    ensures 0 in dirs && 0 in TreeOf(dirs) && part.Valid() && cache.ValidBut(part, {})
  {
    hide AllDisplayed, Partition.Valid, AllAllocated, SoleEntries, Cache.ValidBut, DirectoryOk, Placed, TreeOf;
    TreeHas(dirs, 0);
  }

  lemma NewNumber(tree: Tree, id: nat)
    requires GoesThrough(tree, Mkdir(0, A, id)) && tree == RootOnly()
    ensures id != 0 && After(tree, Mkdir(0, A, id)) == OnlyA(id)
  {
  }

  lemma LeftOnDisk(part: Partition, nodes0: map<nat, Node>, s0: seq<Sector>, dirs: Listings, depth: map<nat, nat>,
                   names: seq<Text>, d: nat, id: nat, dirs1: Listings)
    requires RemovedBy(part, nodes0, s0, dirs, depth, names, d, id, dirs1)
    ensures OnDisk(part, dirs1)
  {
    hide OnDisk, TreeInOrder, GoesThrough, After, OthersKept, FoundDir;
  }

  /** The three paths, and their names. */
  lemma ShortPaths(tree: Tree)
    ensures Components(SLASH_A) == [A] && Components(SLASH_A_DOT) == [A, DOT] && Components(SLASH_F) == [F]
    ensures BufferOf(tree, SLASH_A) == BufferOf(tree, SLASH_A_DOT) == Kept && !Overlong([A]) && !Overlong([F])
    ensures 0 !in SLASH_A && 0 !in SLASH_A_DOT && !IsRoot(SLASH_A) && !Refused(SLASH_A)
  {
    hide Components, BufferAfter;
    DotPath(1);
    JoinedOne(A);
    assert SLASH_A == [SLASH] + A && SLASH_A[1] == 97 != ([SLASH] + DOT)[1];
    ComponentsOfJoined([A]);
    JoinedOne(F);
    assert SLASH_F == [SLASH] + F;
    ComponentsOfJoined([F]);
    ShortIsKept(tree, 0, [A]);
    ShortIsKept(tree, 0, [A, DOT]);
  }

  lemma NoA()
    ensures Resolve(RootOnly(), 0, [A]) == Missing(0, [A]) && forall e :: LastMissing(RootOnly(), [A], e) <==> e == 0
    ensures [A][|[A]| - 1] == A
  {
  }

  /** One block is needed, for the new directory. */
  lemma OneNeeded(part: Partition, dirs: Listings, free: set<nat>)
    requires OnDisk(part, dirs) && TreeOf(dirs) == RootOnly() && IdLeft(part.inodeMap)
    ensures forall e :: e == 0 ==> Makeable(part.inodeMap, dirs, e)
    ensures TooFew(part.nodes, dirs, 0, |free|) <==> free == {}
  {
    hide OnDisk, HasRoom, NeedsBlock, IdLeft, TreeOf;
    EmptyHasRoom(part, dirs);
  }

  lemma MadeIs(part: Partition, nodes0: map<nat, Node>, s0: seq<Sector>, map0: seq<bool>, free0: nat, dirs: Listings,
               d: nat, name: Text, id: nat, dirs1: Listings)
    requires Made(part, nodes0, s0, map0, free0, dirs, d, name, id, dirs1)
    ensures GoesThrough(TreeOf(dirs), Mkdir(d, name, id)) && id == FirstClear(map0, 0)
    ensures TreeOf(dirs1) == After(TreeOf(dirs), Mkdir(d, name, id)) && part.nodes.Keys == nodes0.Keys + {id}
  {
    hide TreeOf, GoesThrough, After, OthersKept, Extra;
  }

  /** sys_mkdir("/a") in an empty root. */
  method MakeA(part: Partition, cache: Cache, root: Inode, junk: word, junkByte: byte, ghost dirs: Listings,
               ghost depth: map<nat, nat>)
    returns (halted: bool, ghost id: nat, ghost dirs1: Listings, ghost depth1: map<nat, nat>)
    requires InUse(part, cache, root, dirs, depth) && TreeOf(dirs) == RootOnly() && IdLeft(part.inodeMap)
    modifies part, part.disk, cache, cache.list`openCount, cache.list`size, cache.list`blocks
    ensures halted <==> old(part.FreeBlocks()) == {}
    ensures !halted ==> InUse(part, cache, root, dirs1, depth1) && TreeOf(dirs1) == OnlyA(id) && id != 0
    ensures !halted ==> id == FirstClear(old(part.inodeMap), 0) && part.nodes.Keys == old(part.nodes).Keys + {id}
    ensures !halted ==> cache.opens == old(cache.opens) && cache.list == old(cache.list)
  {
    hide *;
    ghost var nodes0, s0, map0, free0 := part.nodes, part.disk.sectors, part.inodeMap, part.FreeBlocks();
    InUseParts(part, cache, root, dirs, depth);
    ShortPaths(TreeOf(dirs));
    NoA();
    OneNeeded(part, dirs, free0);
    assert LastMissing(TreeOf(dirs), Components(SLASH_A), 0);
    var r;
    ghost var d;
    r, d, id, dirs1, depth1 := SysMkdir(part, cache, root, junk, junkByte, SLASH_A, dirs, depth);
    halted := r.Halted?;
    if !halted {
      MadeIs(part, nodes0, s0, map0, |free0|, dirs, d, A, id, dirs1);
      NewNumber(TreeOf(dirs), id);
    }
  }

  /** sys_mkdir("/a"), sys_rmdir("/a/."): both go through, and no tree is left. */
  method MkdirRmdirDot(part: Partition, cache: Cache, root: Inode, junk: word, junkByte: byte, ghost dirs: Listings,
                       ghost depth: map<nat, nat>)
    returns (halted: bool, r: Run<int>, ghost dirs2: Listings)
    requires InUse(part, cache, root, dirs, depth) && TreeOf(dirs) == RootOnly() && IdLeft(part.inodeMap)
    modifies part, part.disk, cache, cache.list`openCount, cache.list`size, cache.list`blocks
    ensures halted <==> old(part.FreeBlocks()) == {}
    ensures !halted ==> r == Done(0) && OnDisk(part, dirs2) && !(exists depth2 :: TreeOk(TreeOf(dirs2), depth2))
  {
    hide *;
    ghost var id, dirs1, depth1;
    halted, id, dirs1, depth1 := MakeA(part, cache, root, junk, junkByte, dirs, depth);
    r, dirs2 := Halted, dirs1;
    if !halted {
      MadeA(id);
      ShortPaths(TreeOf(dirs1));
      ghost var d, gone, nodes1, s1 := 0, 0, part.nodes, part.disk.sectors;
      r, d, gone, dirs2 := SysRmdir(part, cache, root, junk, SLASH_A_DOT, dirs1, depth1);
      LeftOnDisk(part, nodes1, s1, dirs1, depth1, Components(SLASH_A_DOT), d, gone, dirs2);
    }
  }

  /** sys_mkdir("/a"), sys_chdir("/a"), sys_rmdir("/a"): the file system is in order, but the process works in a
      directory that is gone; sys_getcwd then opens an inode that does not exist. */
  method MkdirChdirRmdir(part: Partition, cache: Cache, root: Inode, process: Process, junk: word, junkByte: byte,
                         ghost dirs: Listings, ghost depth: map<nat, nat>)
    returns (halted: bool, r: Run<int>, ghost dirs2: Listings, ghost depth2: map<nat, nat>)
    requires InUse(part, cache, root, dirs, depth) && TreeOf(dirs) == RootOnly() && IdLeft(part.inodeMap)
    modifies process, part, part.disk, cache, cache.list`openCount, cache.list`size, cache.list`blocks
    ensures halted <==> old(part.FreeBlocks()) == {}
    ensures !halted ==> r == Done(0) && InUse(part, cache, root, dirs2, depth2)
    ensures !halted ==> process.cwd !in dirs2 && process.cwd !in part.nodes
  {
    hide *;
    InUseParts(part, cache, root, dirs, depth);
    NumberNew(part);
    cache.OpenExists(part);
    ghost var id, dirs1, depth1;
    halted, id, dirs1, depth1 := MakeA(part, cache, root, junk, junkByte, dirs, depth);
    r, dirs2, depth2 := Halted, dirs1, depth1;
    if halted {
      return;
    }
    PathA(id);
    ShortPaths(TreeOf(dirs1));
    r := process.ChDir(part, cache, root, junk, SLASH_A, dirs1, depth1);
    ghost var nodes1, s1, d, gone := part.nodes, part.disk.sectors, 0, 0;
    r, d, gone, dirs2 := SysRmdir(part, cache, root, junk, SLASH_A, dirs1, depth1);
    GoneA(part, nodes1, s1, dirs1, depth1, id, d, gone, dirs2);
    depth2 := depth1 - {id};
    KnownNumbers(part, dirs2);
  }

  lemma NumberNew(part: Partition)
    requires part.Valid() && IdLeft(part.inodeMap)
    ensures FirstClear(part.inodeMap, 0) !in part.nodes && |part.inodeMap| == BITS_PER_SECTOR
    ensures IdsAgree(part.inodeMap, part.nodes.Keys)
  {
    hide OwnersAgree, BitmapAgrees, TablesIn, RecordsIn;
    IdLeftFirst(part.inodeMap);
  }

  lemma SameMap(a: seq<bool>, b: seq<bool>, ids: set<nat>)
    requires IdsAgree(a, ids) && IdsAgree(b, ids) && |a| == |b|
    ensures a == b
  {
  }

  lemma MapOf(part: Partition)
    requires part.Valid()
    ensures |part.inodeMap| == BITS_PER_SECTOR && IdsAgree(part.inodeMap, part.nodes.Keys)
  {
    hide OwnersAgree, BitmapAgrees, TablesIn, RecordsIn, IdsAgree;
  }

  lemma PathA(id: nat)
    requires id != 0
    ensures Components(SLASH_A) == [A] && Resolve(OnlyA(id), 0, [A]) == Dir(id) && A != DOT
    ensures id in OnlyA(id) && LeadsToEmpty(OnlyA(id), SLASH_A) && !Stops(OnlyA(id), SLASH_A)
  {
    hide OnlyA, Components, Resolve;
    DotPath(id);
    OnlyAHas(id);
    JoinedOne(A);
    assert SLASH_A == [SLASH] + A;
    ComponentsOfJoined([A]);
  }

  lemma WithoutA(id: nat)
    requires id != 0
    ensures 0 in OnlyA(id) && WithoutDir(OnlyA(id), 0, A, id) == RootOnly()
  {
    assert OnlyA(id)[0] - {A} == NewDirectory(0, 0);
    assert WithoutDir(OnlyA(id), 0, A, id).Keys == {0};
  }

  /** What sys_rmdir("/a") leaves. */
  lemma GoneA(part: Partition, nodes0: map<nat, Node>, s0: seq<Sector>, dirs: Listings, depth: map<nat, nat>, id: nat,
              d: nat, gone: nat,
              dirs1: Listings)
    requires RemovedBy(part, nodes0, s0, dirs, depth, [A], d, gone, dirs1) && TreeOf(dirs) == OnlyA(id) && id != 0
    ensures d == 0 && gone == id && OnDisk(part, dirs1) && TreeOf(dirs1) == RootOnly()
    ensures TreeInOrder(part.nodes, dirs1, depth - {id})
    ensures part.nodes.Keys == nodes0.Keys - {id} && part.Valid()
  {
    hide Partition.Valid, AllDisplayed, TreeInOrder, OthersKept, Resolve, TreeOf;
    PathA(id);
    assert [A][..|[A]| - 1] == [];
    assert Resolve(OnlyA(id), 0, []) == Dir(0);
    WithoutA(id);
  }

  lemma OthersShow(cache: Cache, part: Partition, gone: set<nat>, x: Inode)
    requires cache.ValidBut(part, gone) && x in cache.list && x.id as nat !in gone
    ensures Opened(part, x)
  {
    hide Distinct, Counted, Ids, Counts;
  }

  /** The root, after the removal. */
  lemma RootReady(part: Partition, cache: Cache, root: Inode, dirs: Listings, depth: map<nat, nat>, id: nat)
    requires OnDisk(part, dirs) && TreeInOrder(part.nodes, dirs, depth) && TreeOf(dirs) == RootOnly()
    requires cache.ValidBut(part, {id})
    requires root in cache.list && root.id == 0 && id != 0
    ensures part.Valid() && 0 in dirs && DirReady(part, root, dirs[0], ParentIn(dirs[0])) && HasRoom(dirs[0])
    ensures !DirData.HasName(dirs[0], F)
    ensures 0 in part.nodes && |part.nodes[0].slots| == SLOTS && !NeedsBlock(part.nodes[0], dirs[0])
  {
    hide Partition.Valid, TreeOk, TreeOf, AllDisplayed, AllAllocated, SoleEntries, Cache.ValidBut, HasRoom,
      NeedsBlock, DirReady, DirectoryOf, RootOnly, InPlace, NameMaps.OneEach;
    OthersShow(cache, part, {id}, root);
    EmptyHasRoom(part, dirs);
    AtHand(part, dirs, root);
  }

  /** sys_mkdir("/a"), sys_opendir("/a"), sys_rmdir("/a"): the inode bitmap is as before, and the list has an inode
      that does not exist. */
  method MkdirOpenRmdir(part: Partition, cache: Cache, root: Inode, junk: word, junkByte: byte, ghost dirs: Listings,
                        ghost depth: map<nat, nat>)
    returns (halted: bool, r: Run<int>, handle: Inode, ghost dirs2: Listings, ghost depth2: map<nat, nat>)
    requires InUse(part, cache, root, dirs, depth) && TreeOf(dirs) == RootOnly() && IdLeft(part.inodeMap)
    modifies part, part.disk, cache, cache.list`openCount, cache.list`size, cache.list`blocks
    ensures halted <==> old(part.FreeBlocks()) == {}
    ensures !halted ==> r == Done(0) && OnDisk(part, dirs2) && TreeInOrder(part.nodes, dirs2, depth2)
    ensures !halted ==> TreeOf(dirs2) == RootOnly()
    ensures !halted ==> part.inodeMap == old(part.inodeMap) && handle.id as nat == FirstClear(part.inodeMap, 0)
    ensures !halted ==> handle.id != 0
    ensures !halted ==> cache.ValidBut(part, {handle.id as nat}) && !cache.Valid(part)
    ensures !halted ==> cache.list == [handle] + old(cache.list)
  {
    hide *;
    ghost var map0, keys0 := part.inodeMap, part.nodes.Keys;
    InUseParts(part, cache, root, dirs, depth);
    NumberNew(part);
    cache.OpenExists(part);
    ghost var id, dirs1, depth1;
    halted, id, dirs1, depth1 := MakeA(part, cache, root, junk, junkByte, dirs, depth);
    r, handle, dirs2, depth2 := Halted, root, dirs1, depth1;
    if halted {
      return;
    }
    PathA(id);
    ShortPaths(TreeOf(dirs1));
    ghost var opens1, list1 := cache.opens, cache.list;
    var dir := SysOpenDir(part, cache, root, junk, SLASH_A, dirs1, depth1);
    handle := dir.value;
    JustOpened(cache, opens1, list1, handle);
    ghost var nodes1, s1, d, gone := part.nodes, part.disk.sectors, 0, 0;
    r, d, gone, dirs2 := SysRmdir(part, cache, root, junk, SLASH_A, dirs1, depth1);
    GoneA(part, nodes1, s1, dirs1, depth1, id, d, gone, dirs2);
    depth2 := depth1 - {id};
    MapOf(part);
    assert part.nodes.Keys == keys0;
    SameMap(part.inodeMap, map0, keys0);
  }

  lemma JustOpened(cache: Cache, opens0: map<nat, nat>, list0: seq<Inode>, x: Inode)
    requires cache.OpenedSince(opens0, list0, x)
    ensures x.id as nat in cache.opens && (x.id as nat !in opens0 ==> cache.list == [x] + list0)
  {
  }

  /** sys_open("/f", O_CREAT) in an empty root, whose inode is listed, while the list is not right otherwise: a
      search of one name opens and closes nothing. */
  method OpenF(part: Partition, cache: Cache, root: Inode, junkByte: byte, ghost dirs: Listings,
               ghost depth: map<nat, nat>, ghost gone: nat)
    returns (halted: bool, file: File)
    requires OnDisk(part, dirs) && TreeInOrder(part.nodes, dirs, depth) && TreeOf(dirs) == RootOnly()
    requires cache.ValidBut(part, {gone}) && root in cache.list && root.id == 0 && gone != 0 && IdLeft(part.inodeMap)
    modifies part, part.disk, root`size, root`blocks, cache
    ensures !halted && fresh(file) && fresh(file.inode) && file.inode.id as nat == FirstClear(old(part.inodeMap), 0)
    ensures cache.list == [file.inode] + old(cache.list)
  {
    hide *;
    ShortNames();
    ShortPaths(TreeOf(dirs));
    RootReady(part, cache, root, dirs, depth, gone);
    OthersShow(cache, part, {gone}, root);
    LoneF();
    var overrun, wanted := PathDepthCount(SLASH_F, junkByte);
    var store := new byte[16];
    var rest, more;
    overrun, rest, more := NextName(SLASH_F, true, store);
    FirstRead(store[..]);
    var found, e := LookUp(part, root, CString(store[..]), dirs);
    NotInRoot(F);
    var searched := [SLASH] + CString(store[..]);
    var reached;
    overrun, reached := PathDepthCount(searched, junkByte);
    file := new File(root);
    halted := true;
    if !found && wanted == reached {
      var name := NameInPath(SLASH_F);
      ghost var p;
      halted, file, p := CreateUnlisted(part, root, name, dirs[0], ParentIn(dirs[0]));
      file.inode.openCount := 1;
      cache.list := [file.inode] + cache.list;
    }
  }

  lemma LoneF()
    ensures FirstName(SLASH_F) == F && |F| <= 16 && [SLASH] + F == SLASH_F && F != []
    ensures 0 !in SLASH_F && SLASH_F != [] && SLASH_F[0] == SLASH && SLASH_F[|SLASH_F| - 1] != SLASH
    ensures [F][|[F]| - 1] == F
  {
    LoneName(F);
    assert [SLASH] + F == SLASH_F;
  }

  lemma FirstRead(store: seq<byte>)
    requires StoredIn(store, F) && |store| == 16
    ensures CString(store) == F
  {
    StoredReads(store, F);
  }

  lemma NotInRoot(n: Text)
    requires n == F
    ensures 0 in RootOnly() && n !in RootOnly()[0]
  {
  }

  /** And then sys_open("/f", O_CREAT): file_create takes the number of the directory that is gone but still
      in the list, and pushes a second inode with it. */
  method MkdirOpenRmdirCreate(part: Partition, cache: Cache, root: Inode, junk: word, junkByte: byte,
                              ghost dirs: Listings, ghost depth: map<nat, nat>)
    returns (halted: bool, r: Run<int>, handle: Inode, file: File)
    requires InUse(part, cache, root, dirs, depth) && TreeOf(dirs) == RootOnly() && IdLeft(part.inodeMap)
    modifies part, part.disk, cache, cache.list`openCount, cache.list`size, cache.list`blocks
    ensures halted <==> old(part.FreeBlocks()) == {}
    ensures !halted ==> r == Done(0) && cache.list == [file.inode, handle] + old(cache.list)
    ensures !halted ==> file.inode != handle && file.inode.id == handle.id && !cache.Valid(part)
  {
    hide *;
    file := new File(root);
    InUseParts(part, cache, root, dirs, depth);
    ghost var dirs2, depth2;
    halted, r, handle, dirs2, depth2 := MkdirOpenRmdir(part, cache, root, junk, junkByte, dirs, depth);
    if !halted {
      halted, file := OpenF(part, cache, root, junkByte, dirs2, depth2, handle.id);
      TwiceListed(cache, part);
    }
  }

  lemma TwiceListed(cache: Cache, part: Partition)
    requires |cache.list| > 1 && cache.list[0].id == cache.list[1].id
    ensures !cache.Valid(part)
  {
    assert Ids(cache.list)[0] == Ids(cache.list)[1];
  }
}
