/** fs/c14c_dir.c: reading a directory entry by entry. */
module DirReads {
  import opened Debug
  import opened Bytes
  import opened Ide
  import opened Inodes
  import opened Volumes
  import opened OpenInodes
  import opened FileData
  import opened DirData
  import opened Dirs

  datatype Maybe<+T> = Nothing | Just(value: T)

  type Place = (nat, nat)

  /** The live entries among the first `n` of block `k`, in order. */
  function Row(entries: Entries, k: nat, n: nat): seq<Place> {
    if n == 0 then [] else Row(entries, k, n - 1) + if (k, n - 1) in entries then [(k, n - 1)] else []
  }

  /** The live entries of the first `n` blocks, in order. */
  function Order(entries: Entries, n: nat): seq<Place> {
    if n == 0 then [] else Order(entries, n - 1) + Row(entries, n - 1, PER_SECTOR)
  }

  predicate Before(p: Place, q: Place) {
    p.0 < q.0 || (p.0 == q.0 && p.1 < q.1)
  }

  /** In the order of blocks and of entries in a block; so nothing is there twice. */
  ghost predicate Ascending(list: seq<Place>) {
    forall i, j :: 0 <= i < j < |list| ==> Before(list[i], list[j])
  }

  lemma {:induction false} RowPlaces(entries: Entries, k: nat, n: nat)
    ensures Ascending(Row(entries, k, n))
    ensures forall p :: p in Row(entries, k, n) <==> p in entries && p.0 == k && p.1 < n
  {
    if n > 0 {
      RowPlaces(entries, k, n - 1);
    }
  }

  lemma {:induction false} OrderPlaces(entries: Entries, n: nat)
    requires forall p :: p in entries ==> p.1 < PER_SECTOR
    ensures Ascending(Order(entries, n))
    ensures forall p :: p in Order(entries, n) <==> p in entries && p.0 < n
  {
    if n > 0 {
      OrderPlaces(entries, n - 1);
      RowPlaces(entries, n - 1, PER_SECTOR);
      var a, b := Order(entries, n - 1), Row(entries, n - 1, PER_SECTOR);
      var ab: seq<Place> := a + b;
      forall i, j | 0 <= i < j < |ab| ensures Before(ab[i], ab[j]) {
        assert i < |a| ==> a[i] in a;
        assert |a| <= j ==> b[j - |a|] in b;
      }
    }
  }

  function Elements(list: seq<Place>): set<Place> {
    set p | p in list
  }

  lemma {:induction false} OnceSize(list: seq<Place>)
    requires Ascending(list)
    ensures |Elements(list)| == |list|
  {
    if list != [] {
      var n := |list| - 1;
      OnceSize(list[..n]);
      assert list == list[..n] + [list[n]] && list[n] !in list[..n];
      assert Elements(list) == Elements(list[..n]) + {list[n]};
    }
  }

  /** The listing names every entry exactly once, block by block and in each from the front. */
  lemma OrderIsListing(entries: Entries)
    requires forall p :: p in entries ==> p.0 < 12 && p.1 < PER_SECTOR
    ensures Ascending(Order(entries, 12)) && Elements(Order(entries, 12)) == entries.Keys
    ensures |Order(entries, 12)| == |entries|
  {
    OrderPlaces(entries, 12);
    OnceSize(Order(entries, 12));
    assert |entries.Keys| == |entries|;
  }

  /** Entries in front of position (k, i). */
  function Seen(entries: Entries, k: nat, i: nat): nat {
    |Order(entries, k)| + |Row(entries, k, i)|
  }

  lemma {:induction false} RowPrefix(entries: Entries, k: nat, i: nat, n: nat)
    requires i <= n
    ensures Row(entries, k, i) <= Row(entries, k, n)
  {
    if i < n { RowPrefix(entries, k, i, n - 1); }
  }

  lemma {:induction false} OrderPrefix(entries: Entries, k: nat, n: nat)
    requires k <= n
    ensures Order(entries, k) <= Order(entries, n)
  {
    if k < n { OrderPrefix(entries, k, n - 1); }
  }

  /** The entry at (k, i) is the one with as many in front of it. */
  lemma PlaceOf(entries: Entries, k: nat, i: nat)
    requires k < 12 && i < PER_SECTOR && (k, i) in entries
    ensures Seen(entries, k, i) < |Order(entries, 12)| && Order(entries, 12)[Seen(entries, k, i)] == (k, i)
  {
    RowPrefix(entries, k, i + 1, PER_SECTOR);
    OrderPrefix(entries, k + 1, 12);
    var row := Row(entries, k, PER_SECTOR);
    assert row[|Row(entries, k, i)|] == (k, i);
    assert Order(entries, k + 1)[Seen(entries, k, i)] == (k, i);
  }

  /** The inner loop of dir_read: the entry at index `n` of the listing, when it is in this block. */
  method ReadBlock(buf: Sector, k: nat, n: nat, passed: nat, ghost entries: Entries)
    returns (halted: bool, r: Maybe<Entry>, cur: nat)
    requires ShowsBlock(buf, entries, k) && k < 12 && passed == Seen(entries, k, 0) <= n
    ensures !halted && (r == Nothing ==> cur == Seen(entries, k, PER_SECTOR) <= n)
    ensures r.Just? ==> n < |Order(entries, 12)| && Order(entries, 12)[n] in entries
    ensures r.Just? ==> r.value == entries[Order(entries, 12)[n]]
  {
    hide RawAt, DecodeEntry, Order;
    var i := 0;
    cur := passed;
    while i < PER_SECTOR
      invariant i <= PER_SECTOR && cur == Seen(entries, k, i) <= n
    {
      var e := DecodeEntry(RawAt(buf, i));
      assert ShowsAt(RawAt(buf, i), entries, k, i);
      if e.kind != 0 {
        if cur < n {
          cur := cur + 1;
        } else {
          if cur != n {  // ASSERT
            return true, Nothing, cur;
          }
          PlaceOf(entries, k, i);
          return false, Just(e), cur;
        }
      }
      i := i + 1;
    }
    halted, r := false, Nothing;
  }

  /** dir_read at the position behind `n` entries. */
  method DirRead(part: Partition, inode: Inode, n: nat, ghost entries: Entries) returns (halted: bool, r: Maybe<Entry>)
    requires Showing(part, inode, entries) && inode.size == ENTRY * |entries|
    ensures !halted && (r == Nothing <==> n >= |entries|)
    ensures r.Just? ==> n < |Order(entries, 12)| && Order(entries, 12)[n] in entries
    ensures r.Just? ==> r.value == entries[Order(entries, 12)[n]]
  {
    EntriesInBlocks(part, inode, entries);
    OrderIsListing(entries);
    BlockShown(part, inode, entries, 0);
    hide Showing, ShowsBlock, AllBlocks;
    var all := AllBlocks(inode.blocks);
    var k, cur := 0, 0;
    while k < 12
      invariant k <= 12 && cur == Seen(entries, k, 0) <= n
    {
      if ENTRY * n >= inode.size {
        return false, Nothing;
      }
      BlockShown(part, inode, entries, k);
      if all[k] != 0 {
        var buf := part.disk.ReadSector(all[k]);
        halted, r, cur := ReadBlock(buf, k, n, cur, entries);
        if halted || r.Just? {
          return;
        }
      } else {
        NoRow(entries, k, PER_SECTOR);
      }
      k := k + 1;
    }
    halted, r := false, Nothing;
  }

  lemma {:induction false} NoRow(entries: Entries, k: nat, n: nat)
    requires forall p :: p in entries ==> p.0 != k
    ensures Row(entries, k, n) == []
  {
    if n > 0 {
      NoRow(entries, k, n - 1);
      assert (k, n - 1) in entries ==> (k, n - 1).0 != k;
    }
  }

  /** Reading on until there is no more: every live entry once, in the order of the blocks. */
  method ListAll(part: Partition, inode: Inode, ghost entries: Entries) returns (list: seq<Entry>)
    requires Showing(part, inode, entries) && inode.size == ENTRY * |entries|
    ensures |list| == |entries| == |Order(entries, 12)|
    ensures forall i :: 0 <= i < |list| ==>
      Order(entries, 12)[i] in entries && list[i] == entries[Order(entries, 12)[i]]
  {
    hide Showing, Order;
    EntriesInBlocks(part, inode, entries);
    OrderIsListing(entries);
    list := [];
    while true
      invariant |list| <= |entries|
      invariant forall i :: 0 <= i < |list| ==>
        Order(entries, 12)[i] in entries && list[i] == entries[Order(entries, 12)[i]]
      decreases |entries| - |list|
    {
      var halted, r := DirRead(part, inode, |list|, entries);
      if r == Nothing {
        return;
      }
      list := list + [r.value];
    }
  }
}
