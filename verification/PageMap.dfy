/** kernel/c12f_memory.c: the mapping of an address space as a finite map from pages to frames, on which the
    page allocator in Vm works, and the page tables that stand for it. */
module PageMaps {
  import opened Paging

  /** The number of a page or frame, by any of its addresses. */
  function PageNo(a: bv32): nat {
    (a >> 12) as nat
  }

  /** The first address of a page of the space that runs from `first` to `last`. */
  predicate InSpace(v: bv32, first: bv32, last: bv32) {
    first <= v <= last && Low(v) == 0 && Hi(v) < SELF
  }

  /** The walk of a page gives what the map says of it. */
  ghost predicate WalkAgrees(mem: Mem, dir: bv32, table: map<nat, nat>, v: bv32) {
    var t := Translate(mem, dir, v);
    if PageNo(v) in table then t.At? && PageNo(t.addr) == table[PageNo(v)] else t == Fault
  }

  /** The page tables stand for `table`, from `first` to `last`. */
  ghost predicate Represents(mem: Mem, dir: bv32, first: bv32, last: bv32, table: map<nat, nat>) {
    forall v {:trigger WalkAgrees(mem, dir, table, v)} :: InSpace(v, first, last) ==> WalkAgrees(mem, dir, table, v)
  }

  /** Entries `i` and `j` of the directory do not name one table. */
  predicate TablesDiffer(mem: Mem, dir: bv32, i: bv32, j: bv32) {
    Present(mem(Word(dir, i))) && Present(mem(Word(dir, j))) && i != j ==>
      Frame(mem(Word(dir, i))) != Frame(mem(Word(dir, j)))
  }

  /** No two directory entries of the space name one table. */
  ghost predicate OwnTables(mem: Mem, dir: bv32, first: bv32, last: bv32) {
    forall u, v {:trigger TablesDiffer(mem, dir, Hi(u), Hi(v))} ::
      InSpace(u, first, last) && InSpace(v, first, last) ==> TablesDiffer(mem, dir, Hi(u), Hi(v))
  }

  lemma PagesDiffer(u: bv32, v: bv32)
    requires Low(u) == 0 && Low(v) == 0 && u != v
    ensures u >> 12 != v >> 12 && (Hi(u) != Hi(v) || Mid(u) != Mid(v))
  {
  }

  lemma WordsCount(x: bv32, y: bv32)
    requires x as int == y as int
    ensures x == y
  {
    assert (x as int) as bv32 == x;
    assert (y as int) as bv32 == y;
  }

  lemma NumbersDiffer(u: bv32, v: bv32)
    requires Low(u) == 0 && Low(v) == 0 && u != v
    ensures PageNo(u) != PageNo(v)
  {
    hide Hi, Mid, Low;
    PagesDiffer(u, v);
    if PageNo(u) == PageNo(v) {
      WordsCount(u >> 12, v >> 12);
    }
  }

  lemma FrameItself(p: bv32, low: bv32)
    requires Frame(p) == p && low == 0
    ensures Byte(p, low) == p
  {
  }

  /** In such a space no page shares its entry with another. */
  lemma SharesNothing(mem: Mem, dir: bv32, first: bv32, last: bv32, u: bv32, v: bv32)
    requires OwnTables(mem, dir, first, last) && InSpace(u, first, last) && InSpace(v, first, last)
    requires Present(Pde(mem, dir, v))
    ensures Shares(mem, dir, u, dir, v) <==> u == v
  {
    hide Hi, Mid, Low, Frame, Word, Byte, Present, Shares;
    WhoShares(mem, dir, u, dir, v);
    if u != v {
      PagesDiffer(u, v);
      assert TablesDiffer(mem, dir, Hi(u), Hi(v));
    }
  }

  /** page_table_add is an update of the map. */
  lemma AddUpdates(mem0: Mem, mem: Mem, dirs: set<bv32>, dir: bv32, first: bv32, last: bv32, table: map<nat, nat>,
                   v: bv32, p: bv32)
    requires Represents(mem0, dir, first, last, table) && Mapped(mem0, mem, dirs, dir, v, p) && dir in dirs
    requires Frame(p) == p
    requires OwnTables(mem, dir, first, last) && InSpace(v, first, last) && Present(Pde(mem, dir, v))
    ensures Represents(mem, dir, first, last, table[PageNo(v) := PageNo(p)])
  {
    hide Hi, Mid, Low, Frame, Word, Byte, Present, Shares, Translate, PageNo, OwnTables, Pde;
    var after := table[PageNo(v) := PageNo(p)];
    forall u | InSpace(u, first, last) ensures WalkAgrees(mem, dir, after, u) {
      SharesNothing(mem, dir, first, last, u, v);
      if u == v {
        FrameItself(p, Low(v));
      } else {
        NumbersDiffer(u, v);
        assert WalkAgrees(mem0, dir, table, u);
      }
    }
  }

  /** page_table_pte_remove takes one page out of it. */
  lemma RemoveUpdates(mem0: Mem, mem: Mem, dirs: set<bv32>, dir: bv32, first: bv32, last: bv32, table: map<nat, nat>,
                      v: bv32)
    requires Represents(mem0, dir, first, last, table) && Unmapped(mem0, mem, dirs, dir, v) && dir in dirs
    requires OwnTables(mem0, dir, first, last) && InSpace(v, first, last) && Present(Pde(mem0, dir, v))
    ensures Represents(mem, dir, first, last, table - {PageNo(v)})
  {
    hide Hi, Mid, Low, Frame, Word, Byte, Present, Shares, Translate, PageNo, OwnTables, Pde;
    forall u | InSpace(u, first, last) ensures WalkAgrees(mem, dir, table - {PageNo(v)}, u) {
      SharesNothing(mem0, dir, first, last, u, v);
      if u != v {
        NumbersDiffer(u, v);
        assert WalkAgrees(mem0, dir, table, u);
      }
    }
  }

  /** A new table's frame is in no other entry. */
  lemma StillOwn(mem0: Mem, mem: Mem, dirs: set<bv32>, dir: bv32, first: bv32, last: bv32, v: bv32, f: bv32)
    requires OwnTables(mem0, dir, first, last) && OnlyEntry(mem0, mem, dirs, dir, v) && dir in dirs
    requires Pde(mem, dir, v) == Pde(mem0, dir, v) || (Pde(mem, dir, v) == Entry(f) && Unused(mem0, dirs, f))
    ensures OwnTables(mem, dir, first, last)
  {
    hide Mid, Low, Frame, Word, Present, Entry, Hi;
    forall u, w | InSpace(u, first, last) && InSpace(w, first, last) ensures TablesDiffer(mem, dir, Hi(u), Hi(w)) {
      Indexes(u);
      Indexes(w);
      if Unused(mem0, dirs, f) {
        EntryParts(f);
      }
      assert TablesDiffer(mem0, dir, Hi(u), Hi(w));
    }
  }

  /** page_table_add as Vm uses it. */
  method MapPage(m: Machine, v: bv32, p: bv32, f: bv32, ghost dirs: set<bv32>, ghost first: bv32, ghost last: bv32,
                 ghost table: map<nat, nat>)
    returns (halted: bool)
    requires Tidy(m.mem, dirs) && m.dir in dirs && Frame(p) == p && InSpace(v, first, last)
    requires !Present(Pde(m.mem, m.dir, v)) ==> Unused(m.mem, dirs, f)
    requires Represents(m.mem, m.dir, first, last, table) && OwnTables(m.mem, m.dir, first, last)
    modifies m
    ensures halted <==> PageNo(v) in table
    ensures !halted ==> Tidy(m.mem, dirs) && OwnTables(m.mem, m.dir, first, last)
    ensures !halted ==> Represents(m.mem, m.dir, first, last, table[PageNo(v) := PageNo(p)])
    ensures !halted ==> Present(Pde(m.mem, m.dir, v)) && OnlyEntry(old(m.mem), m.mem, dirs, m.dir, v)
  {
    hide Hi, Mid, Low, Frame, Word, Byte, Present, PageNo, OwnTables, Pde, Tidy, Mapped, Unused, Entry, OnlyEntry;
    ghost var mem0 := m.mem;
    assert WalkAgrees(m.mem, m.dir, table, v);
    halted := m.PageTableAdd(v, p, f, dirs);
    if !halted {
      SamePde(mem0, m.mem, dirs, m.dir, v);
      EntryParts2(m.mem, m.dir, v);
      StillOwn(mem0, m.mem, dirs, m.dir, first, last, v, f);
      AddUpdates(mem0, m.mem, dirs, m.dir, first, last, table, v, p);
    }
  }

  lemma SamePde(mem0: Mem, mem: Mem, dirs: set<bv32>, dir: bv32, v: bv32)
    requires dir in dirs
    ensures SameDirectories(mem0, mem, dirs) ==> Pde(mem, dir, v) == Pde(mem0, dir, v)
  {
    hide Hi, Word;
    Indexes(v);
  }

  lemma EntryParts2(mem: Mem, dir: bv32, v: bv32)
    ensures Translate(mem, dir, v).At? ==> Present(Pde(mem, dir, v))
  {
  }

  /** page_table_pte_remove as Vm uses it. */
  method UnmapPage(m: Machine, v: bv32, ghost dirs: set<bv32>, ghost first: bv32, ghost last: bv32,
                   ghost table: map<nat, nat>)
    requires Tidy(m.mem, dirs) && m.dir in dirs && InSpace(v, first, last) && Present(Pde(m.mem, m.dir, v))
    requires Represents(m.mem, m.dir, first, last, table) && OwnTables(m.mem, m.dir, first, last)
    modifies m
    ensures Tidy(m.mem, dirs) && OwnTables(m.mem, m.dir, first, last) && SameDirectories(old(m.mem), m.mem, dirs)
    ensures Represents(m.mem, m.dir, first, last, table - {PageNo(v)})
  {
    hide Hi, Mid, Low, Frame, Word, Byte, Present, PageNo, OwnTables, Pde, Tidy, Unmapped;
    ghost var mem0 := m.mem;
    m.PteRemove(v, dirs);
    RemoveUpdates(mem0, m.mem, dirs, m.dir, first, last, table, v);
    SamePde(mem0, m.mem, dirs, m.dir, v);
    SameOnly(mem0, m.mem, dirs, m.dir, v);
    StillOwn(mem0, m.mem, dirs, m.dir, first, last, v, 0);
  }

  lemma SameOnly(mem0: Mem, mem: Mem, dirs: set<bv32>, dir: bv32, v: bv32)
    requires SameDirectories(mem0, mem, dirs)
    ensures OnlyEntry(mem0, mem, dirs, dir, v)
  {
    hide Hi, Word;
  }
}
