/** A directory is a finite map from names: sync_dir_entry adds to it, delete_dir_entry takes away,
    search_dir_entry looks up, and inode_size counts. */
module NameMaps {
  import opened Bytes
  import opened Inodes
  import opened Volumes
  import opened OpenInodes
  import opened DirData
  import opened Dirs
  import opened Paths
  import Trees

  type Listing = map<seq<byte>, Entry>

  ghost predicate OneEach(entries: Entries) {
    forall p, q :: p in entries && q in entries && p != q ==> entries[p].name != entries[q].name
  }

  /** The entries by name. */
  ghost function ByName(entries: Entries): Listing
    requires OneEach(entries)
  {
    map p | p in entries :: entries[p].name := entries[p]
  }

  lemma Looked(entries: Entries, name: seq<byte>)
    requires OneEach(entries)
    ensures HasName(entries, name) <==> name in ByName(entries)
    ensures forall p :: p in entries && entries[p].name == name ==>
      name in ByName(entries) && ByName(entries)[name] == entries[p]
  {
  }

  /** search_dir_entry answers what the map holds. */
  method Lookup(part: Partition, inode: Inode, name: seq<byte>, ghost entries: Entries) returns (found: bool, e: Entry)
    requires Showing(part, inode, entries) && OneEach(entries) && name != []
    ensures found <==> name in ByName(entries)
    ensures found ==> e == ByName(entries)[name]
  {
    hide Showing;
    found, e := SearchDirEntry(part, inode, name, entries);
    Looked(entries, name);
  }

  /** What Added says about the entries, said about the map. */
  lemma AddedToMap(entries: Entries, p: (nat, nat), e: Entry)
    requires OneEach(entries) && p !in entries && !HasName(entries, e.name)
    ensures OneEach(entries[p := e])
    ensures ByName(entries[p := e]) == ByName(entries)[e.name := e]
    ensures e.name !in ByName(entries)
  {
    hide ByName, OneEach, HasName;
    StaysUnique(entries, p, e);
    Looked(entries, e.name);
    var after, more := entries[p := e], ByName(entries)[e.name := e];
    forall n ensures n in ByName(after) <==> n in more {
      NamesAfter(entries, p, e, n);
      Looked(entries, n);
      Looked(after, n);
    }
    forall n | n in more ensures ByName(after)[n] == more[n] {
      Looked(entries, n);
      Looked(after, n);
      if n == e.name {
        assert p in after;
      } else {
        var q := PlaceOf(entries, n);
        assert q in after && after[q] == entries[q];
      }
    }
  }

  lemma StaysUnique(entries: Entries, p: (nat, nat), e: Entry)
    requires OneEach(entries) && p !in entries && !HasName(entries, e.name)
    ensures OneEach(entries[p := e])
  {
  }

  lemma NamesAfter(entries: Entries, p: (nat, nat), e: Entry, n: seq<byte>)
    requires p !in entries
    ensures HasName(entries[p := e], n) <==> n == e.name || HasName(entries, n)
  {
    var after := entries[p := e];
    assert p in after;
    if n == e.name {
    } else if HasName(entries, n) {
      var q := PlaceOf(entries, n);
      assert q in after && after[q].name == n;
    }
  }

  lemma PlaceOf(entries: Entries, n: seq<byte>) returns (p: (nat, nat))
    requires HasName(entries, n)
    ensures p in entries && entries[p].name == n
  {
    p :| p in entries && entries[p].name == n;
  }

  lemma NoOther(entries: Entries, p: (nat, nat))
    requires OneEach(entries) && p in entries
    ensures OneEach(entries - {p}) && !HasName(entries - {p}, entries[p].name)
  {
  }

  lemma UndoUpdate(less: Listing, more: Listing, n: seq<byte>, e: Entry)
    requires n !in less && more == less[n := e]
    ensures less == more - {n}
  {
  }

  lemma PutBack(entries: Entries, p: (nat, nat))
    requires p in entries
    ensures (entries - {p})[p := entries[p]] == entries
  {
  }

  /** What Removed says about the entries, said about the map. */
  lemma RemovedFromMap(entries: Entries, p: (nat, nat))
    requires OneEach(entries) && p in entries
    ensures OneEach(entries - {p}) && entries[p].name in ByName(entries)
    ensures ByName(entries - {p}) == ByName(entries) - {entries[p].name}
  {
    NoOther(entries, p);
    hide OneEach, ByName, HasName;
    var after, n := entries - {p}, entries[p].name;
    AddedToMap(after, p, entries[p]);
    PutBack(entries, p);
    UndoUpdate(ByName(after), ByName(entries), n, entries[p]);
  }

  /** There are as many names as entries. */
  lemma {:induction false} SameCount(entries: Entries)
    requires OneEach(entries)
    ensures |ByName(entries)| == |entries|
    decreases |entries|
  {
    hide OneEach, ByName, HasName;
    if entries.Keys != {} {
      var p :| p in entries.Keys;
      RemovedFromMap(entries, p);
      var n := entries[p].name;
      assert entries.Keys == (entries - {p}).Keys + {p};
      assert |entries| == |entries.Keys| && |entries - {p}| == |(entries - {p}).Keys|;
      SameCount(entries - {p});
      assert ByName(entries).Keys == ByName(entries - {p}).Keys + {n};
      assert |ByName(entries)| == |ByName(entries).Keys| && |ByName(entries - {p})| == |ByName(entries - {p}).Keys|;
    } else {
      NoNames(entries);
    }
  }

  lemma NoNames(entries: Entries)
    requires OneEach(entries) && entries.Keys == {}
    ensures |ByName(entries)| == |entries| == 0
  {
    forall n ensures n !in ByName(entries) {
      Looked(entries, n);
    }
    assert ByName(entries).Keys == {};
  }

  lemma OkIsOneEach(node: Node, entries: Entries, id: word, parent: word)
    requires DirOk(node, entries, id, parent)
    ensures OneEach(entries)
  {
    hide ValidName, NoEmptyBlock;
  }

  /** inode_size of a directory in order is the entry size times the number of names. */
  lemma SizeCounts(node: Node, entries: Entries, id: word, parent: word)
    requires DirOk(node, entries, id, parent)
    ensures OneEach(entries) && node.size == ENTRY * |ByName(entries)|
  {
    OkIsOneEach(node, entries, id, parent);
    hide Unique, NoEmptyBlock, ByName, OneEach;
    SameCount(entries);
  }

  /** What a directory is to path search. */
  ghost function AsDirectory(entries: Entries): Trees.Directory
    requires OneEach(entries)
  {
    map n | n in ByName(entries) :: Trees.Child(ByName(entries)[n].id, ByName(entries)[n].kind == DIRECTORY)
  }

  lemma NameOf(node: Node, entries: Entries, id: word, parent: word, n: seq<byte>) returns (p: (nat, nat))
    requires DirOk(node, entries, id, parent) && OneEach(entries) && n in ByName(entries)
    ensures p in entries && entries[p].name == n && ByName(entries)[n] == entries[p]
    ensures IsName(n) && (!Trees.IsDots(n) ==> !Dot(p))
  {
    Looked(entries, n);
    hide NoEmptyBlock, ByName, OneEach;
    p := PlaceOf(entries, n);
  }

  lemma OneId(node: Node, entries: Entries, id: word, parent: word, p: (nat, nat), q: (nat, nat))
    requires DirOk(node, entries, id, parent) && p in entries && q in entries && !Dot(p) && !Dot(q)
    requires entries[p].id == entries[q].id
    ensures p == q
  {
    hide NoEmptyBlock, ValidName;
  }

  /** A directory in order is one that the tree of directories is made of. */
  lemma FitForTree(node: Node, entries: Entries, id: word, parent: word)
    requires DirOk(node, entries, id, parent)
    ensures OneEach(entries)
    ensures var dir := AsDirectory(entries);
      && DOT in dir && dir[DOT] == Trees.Child(id, true) && DOTDOT in dir && dir[DOTDOT] == Trees.Child(parent, true)
      && (forall n :: n in dir ==> IsName(n))
      && forall n, m :: n in dir && m in dir && !Trees.IsDots(n) && !Trees.IsDots(m) && dir[n].id == dir[m].id ==>
           n == m
  {
    OkIsOneEach(node, entries, id, parent);
    DotsByName(node, entries, id, parent);
    hide ByName, OneEach, DirOk, HasName;
    var dir := AsDirectory(entries);
    forall n | n in dir ensures IsName(n) {
      var p := NameOf(node, entries, id, parent, n);
    }
    forall n, m | n in dir && m in dir && !Trees.IsDots(n) && !Trees.IsDots(m) && dir[n].id == dir[m].id
      ensures n == m
    {
      var p := NameOf(node, entries, id, parent, n);
      var q := NameOf(node, entries, id, parent, m);
      OneId(node, entries, id, parent, p, q);
    }
  }

  lemma DotsByName(node: Node, entries: Entries, id: word, parent: word)
    requires DirOk(node, entries, id, parent) && OneEach(entries)
    ensures DOT in ByName(entries) && ByName(entries)[DOT] == Entry(DOT, id, DIRECTORY)
    ensures DOTDOT in ByName(entries) && ByName(entries)[DOTDOT] == Entry(DOTDOT, parent, DIRECTORY)
  {
    Looked(entries, DOT);
    Looked(entries, DOTDOT);
    hide ByName, OneEach, Unique, NoEmptyBlock;
    assert entries[(0, 0)].name == DOT && entries[(0, 1)].name == DOTDOT;
  }
}
