/** The tree of directories that a partition shows, and what the calls on it do to that tree. */
module DiskTrees {
  import opened Debug
  import opened Bytes
  import opened Ide
  import opened Inodes
  import opened Volumes
  import opened OpenInodes
  import opened FileData
  import opened DirData
  import opened Dirs
  import opened Caches
  import opened Names
  import opened NameMaps
  import opened Paths
  import opened Trees

  /** What each directory shows. */
  type Listings = map<nat, Entries>

  /** The parent that `..` names. */
  function ParentIn(entries: Entries): word {
    if (0, 1) in entries then entries[(0, 1)].id else 0
  }

  /** Directory `d` shows `entries` and is in order. */
  ghost predicate Displays(sectors: seq<Sector>, nodes: map<nat, Node>, d: nat, entries: Entries) {
    d in nodes && d < U32 && Shows(sectors, nodes[d], entries) && DirOk(nodes[d], entries, d, ParentIn(entries))
  }

  /** Each entry is of a regular file or a directory, and only dots are of the root. */
  ghost predicate KindsKnown(entries: Entries) {
    forall p :: p in entries ==>
      (entries[p].kind == REGULAR || entries[p].kind == DIRECTORY) && (Dot(p) || entries[p].id != 0)
  }

  ghost predicate AllDisplayed(sectors: seq<Sector>, nodes: map<nat, Node>, dirs: Listings) {
    forall d {:trigger Displays(sectors, nodes, d, dirs[d])} :: d in dirs ==> Displays(sectors, nodes, d, dirs[d])
  }

  /** The partition shows these directories. */
  ghost predicate OnDisk(part: Partition, dirs: Listings)
    reads part, part.disk
  {
    part.Valid() && AllDisplayed(part.disk.sectors, part.nodes, dirs)
  }

  /** As path search sees a directory. */
  ghost function DirectoryOf(entries: Entries): Directory {
    if OneEach(entries) then AsDirectory(entries) else map[]
  }

  ghost function TreeOf(dirs: Listings): Tree {
    map d | d in dirs :: DirectoryOf(dirs[d])
  }

  /** The entries at `p` of `d` and at `q` of `e` are the same, or have different inode numbers. */
  ghost predicate OneOrOther(dirs: Listings, d: nat, p: (nat, nat), e: nat, q: (nat, nat)) {
    d in dirs && e in dirs && p in dirs[d] && q in dirs[e] && !Dot(p) && !Dot(q) && dirs[d][p].id == dirs[e][q].id ==>
      d == e && p == q
  }

  /** No inode number is in two entries, of the same directory or of different ones. */
  ghost predicate SoleEntries(dirs: Listings) {
    forall d, e, p, q {:trigger OneOrOther(dirs, d, p, e, q)} :: OneOrOther(dirs, d, p, e, q)
  }

  /** Every entry is of an allocated inode. */
  ghost predicate AllAllocated(nodes: map<nat, Node>, dirs: Listings) {
    forall d {:trigger EntriesAllocated(nodes, dirs, d)} :: EntriesAllocated(nodes, dirs, d)
  }

  ghost predicate EntriesAllocated(nodes: map<nat, Node>, dirs: Listings, d: nat) {
    d in dirs ==> Allocated(nodes, dirs[d]) && KindsKnown(dirs[d])
  }

  /** The directories form a tree, and the inodes are there. */
  ghost predicate TreeInOrder(nodes: map<nat, Node>, dirs: Listings, depth: map<nat, nat>) {
    TreeOk(TreeOf(dirs), depth) && AllAllocated(nodes, dirs) && SoleEntries(dirs)
  }

  /** A mounted partition in order: its directories form a tree, the open-inode list is right and has the
      root. */
  ghost predicate InUse(part: Partition, cache: Cache, root: Inode, dirs: Listings, depth: map<nat, nat>)
    reads part, part.disk, cache, cache.list
  {
    && OnDisk(part, dirs) && TreeInOrder(part.nodes, dirs, depth) && cache.Valid(part)
    && root in cache.list && root.id == 0
  }

  lemma TreeHas(dirs: Listings, d: nat)
    ensures d in dirs <==> d in TreeOf(dirs)
  {
  }

  lemma KnownNumbers(part: Partition, dirs: Listings)
    requires OnDisk(part, dirs)
    ensures dirs.Keys <= part.nodes.Keys
  {
    hide Partition.Valid, Shows, DirOk;
    forall d | d in dirs ensures d in part.nodes {
      assert Displays(part.disk.sectors, part.nodes, d, dirs[d]);
    }
  }

  lemma AllocatedOne(nodes: map<nat, Node>, dirs: Listings, d: nat)
    requires AllAllocated(nodes, dirs) && d in dirs
    ensures Allocated(nodes, dirs[d]) && KindsKnown(dirs[d])
  {
    assert EntriesAllocated(nodes, dirs, d);
  }

  lemma TreeOfUpdate(dirs: Listings, d: nat, entries: Entries)
    ensures TreeOf(dirs[d := entries]) == TreeOf(dirs)[d := DirectoryOf(entries)]
  {
    hide DirectoryOf;
  }

  lemma TreeOfLess(dirs: Listings, d: nat)
    ensures TreeOf(dirs - {d}) == TreeOf(dirs) - {d}
  {
    hide DirectoryOf;
  }

  /** The entries of a directory in order, seen as a directory of the tree. */
  lemma Seen(sectors: seq<Sector>, nodes: map<nat, Node>, d: nat, entries: Entries)
    requires Displays(sectors, nodes, d, entries)
    ensures OneEach(entries) && DirectoryOf(entries) == AsDirectory(entries)
    ensures DOTDOT in DirectoryOf(entries) && DirectoryOf(entries)[DOTDOT] == Child(ParentIn(entries), true)
    ensures forall n :: n in DirectoryOf(entries) <==> HasName(entries, n)
  {
    hide Shows, DirOk, OneEach, HasName, IsName, ByName;
    FitForTree(nodes[d], entries, d, ParentIn(entries));
    forall n ensures n in DirectoryOf(entries) <==> HasName(entries, n) {
      Looked(entries, n);
    }
  }

  /** The entry at a place, seen as a child. */
  lemma SeenAt(entries: Entries, p: (nat, nat))
    requires OneEach(entries) && p in entries
    ensures entries[p].name in DirectoryOf(entries)
    ensures DirectoryOf(entries)[entries[p].name] == Child(entries[p].id, entries[p].kind == DIRECTORY)
  {
    hide OneEach, ByName;
    Looked(entries, entries[p].name);
  }

  lemma AddedToDirectory(entries: Entries, p: (nat, nat), e: Entry)
    requires OneEach(entries) && p !in entries && !HasName(entries, e.name)
    ensures OneEach(entries[p := e])
    ensures DirectoryOf(entries[p := e]) == DirectoryOf(entries)[e.name := Child(e.id, e.kind == DIRECTORY)]
  {
    hide ByName, OneEach, HasName;
    AddedToMap(entries, p, e);
    var a, b := DirectoryOf(entries[p := e]), DirectoryOf(entries)[e.name := Child(e.id, e.kind == DIRECTORY)];
    assert a.Keys == b.Keys;
  }

  lemma RemovedFromDirectory(entries: Entries, p: (nat, nat))
    requires OneEach(entries) && p in entries
    ensures OneEach(entries - {p})
    ensures DirectoryOf(entries - {p}) == DirectoryOf(entries) - {entries[p].name}
  {
    hide ByName, OneEach;
    RemovedFromMap(entries, p);
    var a, b := DirectoryOf(entries - {p}), DirectoryOf(entries) - {entries[p].name};
    assert a.Keys == b.Keys;
  }

  /** `..` in the listing and in the tree. */
  lemma UpIsUp(sectors: seq<Sector>, nodes: map<nat, Node>, dirs: Listings, x: nat)
    requires AllDisplayed(sectors, nodes, dirs) && x in dirs
    ensures x in TreeOf(dirs) && DOTDOT in TreeOf(dirs)[x] && TreeOf(dirs)[x][DOTDOT] == Child(ParentIn(dirs[x]), true)
  {
    hide Shows, DirOk, DirectoryOf;
    assert Displays(sectors, nodes, x, dirs[x]);
    Seen(sectors, nodes, x, dirs[x]);
  }

  lemma OneOfAll(sectors: seq<Sector>, nodes: map<nat, Node>, dirs: Listings, d: nat)
    requires AllDisplayed(sectors, nodes, dirs) && d in dirs
    ensures Displays(sectors, nodes, d, dirs[d])
  {
    hide Displays;
  }

  /** search_dir_entry looks the name up in the tree. */
  method LookUp(part: Partition, inode: Inode, name: Text, ghost dirs: Listings) returns (found: bool, e: Entry)
    requires OnDisk(part, dirs) && inode.id as nat in dirs && Opened(part, inode) && name != []
    ensures found <==> name in TreeOf(dirs)[inode.id]
    ensures found ==> TreeOf(dirs)[inode.id][name] == Child(e.id, e.kind == DIRECTORY)
    ensures found ==> exists p :: p in dirs[inode.id] && dirs[inode.id][p] == e
  {
    hide Partition.Consistent, TablesIn, RecordsIn, Shows, DirOk, OneEach, HasName, DirectoryOf, OpenedIn;
    ghost var entries := dirs[inode.id];
    assert Displays(part.disk.sectors, part.nodes, inode.id, dirs[inode.id]);
    Seen(part.disk.sectors, part.nodes, inode.id, entries);
    found, e := SearchDirEntry(part, inode, name, entries);
    if found {
      ghost var p :| p in entries && entries[p] == e;
      SeenAt(entries, p);
    }
  }
}
