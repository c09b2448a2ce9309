/** fs/c14a_fs.c: where every run of calls starts: a formatted partition is mounted and its root opened. */
module FirstMounts {
  import opened Bytes
  import opened Ide
  import opened Inodes
  import opened Volumes
  import opened OpenInodes
  import opened DirData
  import opened Caches
  import opened Names
  import opened MakeDirs
  import opened Formats
  import opened Trees
  import opened TreeSteps
  import opened DiskTrees
  import opened Calls

  lemma NothingOpen(cache: Cache, nodes: map<nat, Node>)
    requires cache.list == [] && cache.opens == map[]
    ensures cache.Tracks(nodes, {})
  {
  }

  /** One directory with two entries. */
  lemma RootInOrder(sectors: seq<Sector>, nodes: map<nat, Node>) returns (depth: map<nat, nat>)
    requires 0 in nodes && Shows(sectors, nodes[0], DotEntries(0, 0)) && DirOk(nodes[0], DotEntries(0, 0), 0, 0)
    ensures var dirs: Listings := map[0 := DotEntries(0, 0)];
      AllDisplayed(sectors, nodes, dirs) && TreeInOrder(nodes, dirs, depth) && TreeOf(dirs) == RootOnly()
  {
    hide Shows, DirOk, TreeOk, DirectoryOf;
    var dirs: Listings := map[0 := DotEntries(0, 0)];
    DotKeys(0, 0);
    DotsSeen(0, 0);
    depth := RootIsTree();
    assert Displays(sectors, nodes, 0, dirs[0]);
    assert TreeOf(dirs) == RootOnly();
    forall d ensures EntriesAllocated(nodes, dirs, d) {
      assert forall p :: p in DotEntries(0, 0) ==> Dot(p);
    }
    forall d, e, p, q ensures OneOrOther(dirs, d, p, e, q) {
      assert forall p :: p in DotEntries(0, 0) ==> Dot(p);
    }
  }

  lemma OneUsed(part: Partition)
    requires part.Valid() && part.nodes.Keys == {0}
    ensures IdLeft(part.inodeMap)
  {
    hide OwnersAgree, BitmapAgrees, TablesIn, RecordsIn;
    assert !part.inodeMap[1];
  }

  /** mount_partition and open_root_dir: the partition is in use with an empty root. */
  method MountRoot(disk: Disk, start: nat, ghost sectors: nat)
    returns (part: Partition, cache: Cache, root: Inode, ghost dirs: Listings, ghost depth: map<nat, nat>)
    requires Formatted(disk.sectors, start, sectors) && BitLen(sectors) >= 8
    requires DataStart(start, sectors) + Usable(sectors) <= |disk.sectors|
    ensures fresh(part) && fresh(cache) && fresh(root) && part.disk == disk && cache.list == [root]
    ensures InUse(part, cache, root, dirs, depth) && TreeOf(dirs) == RootOnly() && IdLeft(part.inodeMap)
    ensures cache.opens == map[0 := 1] && Described(part, start, sectors)
  {
    hide Formatted, Described, BitLen, Usable, DataStart, Partition.Valid, Shows, DirOk, TreeInOrder, TreeOf,
      AllDisplayed, DotEntries, Cache.Tracks, OpenedIn, IdLeft, RootOnly;
    part := Mount(disk, start, sectors);
    cache := new Cache();
    NothingOpen(cache, part.nodes);
    root := cache.Open(part, 0, {});
    dirs := map[0 := DotEntries(0, 0)];
    depth := RootInOrder(disk.sectors, part.nodes);
    OneUsed(part);
  }
}
