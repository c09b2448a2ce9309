/** kernel/c12f_memory.c: sys_malloc and sys_free. */
module Heaps {
  import opened Debug
  import opened Bitmaps
  import opened Vm
  import opened Arenas

  /** The bytes of memory. */
  type Memory = int -> int

  function Zeroed(mem: Memory, start: nat, len: nat): Memory {
    a => if start <= a < start + len then 0 else mem(a)
  }

  function Overwritten(mem: Memory, start: nat, len: nat, bytes: Memory): Memory {
    a => if start <= a < start + len then bytes(a) else mem(a)
  }

  /** The list links live in the first eight bytes of a free block. */
  predicate InLinks(a: int, list: seq<nat>) {
    exists b :: b in list && b <= a < b + 8
  }

  /** List operations may write the links of any block on the list; `links` stands for what they put there. */
  function Linked(mem: Memory, list: seq<nat>, links: Memory): Memory {
    a => if InLinks(a, list) then links(a) else mem(a)
  }

  /** Only list links have changed. */
  ghost predicate LinksOnly(mem0: Memory, mem1: Memory, list: seq<nat>) {
    forall a :: !InLinks(a, list) ==> mem1(a) == mem0(a)
  }

  /** Every live allocation keeps its bytes. */
  ghost predicate SameBytes(mem0: Memory, mem1: Memory, headers: map<nat, Header>, live: set<nat>) {
    forall b, a :: b in live && b <= a < b + Usable(headers, b) ==> mem1(a) == mem0(a)
  }

  lemma LinksKeep(mem0: Memory, mem1: Memory, headers: map<nat, Header>, free: seq<seq<nat>>, live: set<nat>,
                  pages: set<nat>, c: nat)
    requires Agree(headers, free, live) && Spans(headers, pages) && c < CLASSES && LinksOnly(mem0, mem1, free[c])
    ensures SameBytes(mem0, mem1, headers, live)
  {
    hide PageOf, Size, Spans, SmallOk, LiveOk, Usable, IsBlock;
    forall b, a | b in live && b <= a < b + Usable(headers, b) ensures !InLinks(a, free[c]) {
      if InLinks(a, free[c]) {
        var x :| x in free[c] && x <= a < x + 8;
        FreeApart(headers, free, live, pages, c, x, b);
      }
    }
  }

  lemma LinksFit(c: nat)
    requires c < CLASSES
    ensures 16 <= Size(c)
  {
  }

  /** A block on a free list has room for its links and does not overlap a live one. */
  lemma FreeApart(headers: map<nat, Header>, free: seq<seq<nat>>, live: set<nat>, pages: set<nat>, c: nat, x: nat,
                  b: nat)
    requires Agree(headers, free, live) && Spans(headers, pages) && c < CLASSES && x in free[c] && b in live
    ensures x + 16 <= b || b + Usable(headers, b) <= x
  {
    hide PageOf, Spans, BlockAt, PerArena, IsBlock, Size;
    assert LiveOk(headers, x) && LiveOk(headers, b);
    assert SmallOk(PageOf(x), c, headers[PageOf(x)].count, free[c], live);
    assert x != b;
    Apart(headers, pages, x, b);
    LinksFit(c);
  }

  /** Nothing but `len` bytes from `start` on has changed. */
  ghost predicate OnlyIn(mem0: Memory, mem1: Memory, start: int, len: nat) {
    forall a :: !(start <= a < start + len) ==> mem1(a) == mem0(a)
  }

  /** Pages that were not mapped hold no live allocation. */
  lemma NewPagesKeep(mem0: Memory, mem1: Memory, headers: map<nat, Header>, free: seq<seq<nat>>, live: set<nat>,
                     pages: set<nat>, p: nat, n: nat)
    requires Agree(headers, free, live) && Spans(headers, pages) && PageRange(p, n) !! pages
    requires OnlyIn(mem0, mem1, 4096 * p, 4096 * n)
    ensures SameBytes(mem0, mem1, headers, live)
  {
    hide PageOf, Size, SmallOk, ListOk, LiveOk, Usable, IsBlock, Spans;
    forall b, a | b in live && b <= a < b + Usable(headers, b) ensures mem1(a) == mem0(a) {
      LiveInside(headers, b);
      MappedApart(headers, pages, PageOf(b), p, n);
    }
  }

  lemma MappedApart(headers: map<nat, Header>, pages: set<nat>, q: nat, p: nat, n: nat)
    requires Spans(headers, pages) && q in headers && PageRange(p, n) !! pages && 0 < Span(headers[q])
    ensures q + Span(headers[q]) <= p || p + n <= q || n == 0
  {
    var m := if p < q then q else p;
    assert Within(m, p, n) ==> m in PageRange(p, n);
    assert Within(m, q, Span(headers[q])) ==> m in PageRange(q, Span(headers[q]));
  }

  /** Clearing a block that was on a list. */
  lemma ZeroKeeps(mem0: Memory, mem1: Memory, headers: map<nat, Header>, free: seq<seq<nat>>, live: set<nat>,
                  pages: set<nat>, bk: nat)
    requires Agree(headers, free, live) && Spans(headers, pages) && bk in live
    requires OnlyIn(mem0, mem1, bk, Usable(headers, bk))
    ensures SameBytes(mem0, mem1, headers, live - {bk})
  {
    hide PageOf, Size, SmallOk, ListOk, Usable, IsBlock, Spans, LiveOk;
    forall b, a | b in live - {bk} && b <= a < b + Usable(headers, b) ensures mem1(a) == mem0(a) {
      Apart(headers, pages, b, bk);
    }
  }

  /** Counts do not matter to what a pointer may use. */
  lemma UsableKept(headers: map<nat, Header>, p: nat, n: nat, live: set<nat>, mem0: Memory, mem1: Memory)
    requires p in headers && headers[p].Small? && SameBytes(mem0, mem1, headers[p := Small(headers[p].cls, n)], live)
    ensures SameBytes(mem0, mem1, headers, live)
    ensures forall b :: Usable(headers[p := Small(headers[p].cls, n)], b) == Usable(headers, b)
  {
    hide PageOf, Size;
  }

  lemma FewerBytes(mem0: Memory, mem1: Memory, headers: map<nat, Header>, live: set<nat>, fewer: set<nat>)
    requires SameBytes(mem0, mem1, headers, live) && fewer <= live
    ensures SameBytes(mem0, mem1, headers, fewer)
  {
    hide Usable;
  }

  lemma Unchanged(mem: Memory, headers: map<nat, Header>, live: set<nat>)
    ensures SameBytes(mem, mem, headers, live)
  {
  }

  lemma SameBytesTwice(mem0: Memory, mem1: Memory, mem2: Memory, headers: map<nat, Header>, live: set<nat>)
    requires SameBytes(mem0, mem1, headers, live) && SameBytes(mem1, mem2, headers, live)
    ensures SameBytes(mem0, mem2, headers, live)
  {
    hide Usable;
  }

  /** A list without some of its blocks, the others in their order. */
  function Minus(list: seq<nat>, gone: seq<nat>): seq<nat> {
    if list == [] then []
    else if list[0] in gone then Minus(list[1..], gone)
    else [list[0]] + Minus(list[1..], gone)
  }

  lemma MinusOne(list: seq<nat>, gone: seq<nat>, b: nat)
    ensures Minus(list, gone + [b]) == Without(Minus(list, gone), b)
  {
    if list != [] {
      MinusOne(list[1..], gone, b);
      assert list[0] in gone + [b] <==> list[0] in gone || list[0] == b;
      if list[0] !in gone {
        assert Minus(list, gone)[1..] == Minus(list[1..], gone);
      }
    }
  }

  lemma MinusNone(list: seq<nat>, gone: seq<nat>)
    requires forall b :: b in list ==> b !in gone
    ensures Minus(list, gone) == list
  {
    if list != [] {
      MinusNone(list[1..], gone);
    }
  }

  lemma MinusJoined(a: seq<nat>, b: seq<nat>, gone: seq<nat>)
    ensures Minus(a + b, gone) == Minus(a, gone) + Minus(b, gone)
  {
    if a == [] {
      assert a + b == b;
    } else {
      assert (a + b)[1..] == a[1..] + b;
      MinusJoined(a[1..], b, gone);
    }
  }

  lemma MinusAll(list: seq<nat>, gone: seq<nat>)
    requires forall b :: b in list ==> b in gone
    ensures Minus(list, gone) == []
  {
  }

  /** The smallest class that holds `size` bytes. */
  function ClassOf(size: nat): (c: nat)
    requires 0 < size <= 1024
    ensures c < CLASSES && size <= Size(c) && (c > 0 ==> Size(c - 1) < size)
  {
    if size <= 16 then 0 else if size <= 32 then 1 else if size <= 64 then 2 else if size <= 128 then 3
    else if size <= 256 then 4 else if size <= 512 then 5 else 6
  }

  /** The pages of a large arena. */
  function PagesFor(size: nat): (n: nat)
    ensures n > 0 && size + HEADER <= 4096 * n < size + HEADER + 4096
  {
    (size + HEADER + 4095) / 4096
  }

  /** The descriptors and arenas of the kernel or of one process. */
  class Heap {
    const space: AddressSpace
    const poolSize: nat
    var free: seq<seq<nat>>
    var headers: map<nat, Header>
    ghost var live: set<nat>
    ghost var mem: Memory

    /** block_desc_init */
    constructor (space: AddressSpace, poolSize: nat, ghost mem: Memory)
      requires space.Valid()
      ensures this.space == space && this.poolSize == poolSize && Valid() && live == {}
    {
      this.space := space;
      this.poolSize := poolSize;
      free := [[], [], [], [], [], [], []];
      headers := map[];
      live := {};
      this.mem := mem;
    }

    ghost predicate Consistent()
      reads this, space, space.kernel, space.user
    {
      space.Valid() && Agree(headers, free, live) && Spans(headers, space.table.Keys)
    }

    ghost predicate Valid()
      reads this, space, space.kernel, space.user
    {
      Consistent() && NoneEmpty(headers)
    }

    /** A small allocation finds the list of its class empty. */
    ghost predicate NeedsPage(size: nat)
      reads this
    {
      0 < size <= 1024 && |free| == CLASSES && free[ClassOf(size)] == []
    }

    /** Where sys_malloc does not return. */
    ghost predicate Stops(size: nat)
      reads this, space, space.kernel, space.user
    {
      if size > 1024 then space.Stuck(PagesFor(size)) || (!space.inKernel && space.NoRun(PagesFor(size)))
      else NeedsPage(size) && space.Stuck(1)
    }

    /** sys_malloc; 0 stands for NULL. Without room for a large allocation the code goes on with a null
        arena: a kernel thread gets the address behind its header, a process faults. */
    method Malloc(size: nat, ghost links: Memory) returns (r: Run<nat>)
      requires Valid()
      requires 1024 < size < poolSize && PagesFor(size) < 3840 ==>
        Contained(space.vmap, space.behind, PagesFor(size))
      modifies this`free, this`headers, this`live, this`mem, space.kernel, space.user, space`vmap, space`table,
        space`tables, space`taken
      ensures r.Done? ==> Valid()
      ensures r == Halted <==> 0 < size < poolSize && old(Stops(size))
      ensures r == Done(0) <==> !(0 < size < poolSize) || (size <= 1024 && old(NeedsPage(size) && space.NoRun(1)))
      ensures r == Done(HEADER) <==> 1024 < size < poolSize && space.inKernel && old(space.NoRun(PagesFor(size)))
      ensures r == Done(0) ==> unchanged(this, space, space.kernel, space.user)
      ensures r == Done(HEADER) ==> Nothing()
      ensures r.Done? && r.value != 0 && r.value != HEADER ==> Allocated(r.value, size)
      ensures 0 < size <= 1024 && size < poolSize && old(free)[ClassOf(size)] != [] ==>
        r == Done(old(free)[ClassOf(size)][0])
      ensures r.Done? && r.value != 0 && size <= 1024 ==> Handed(ClassOf(size))
      ensures r.Done? && r.value != 0 && r.value != HEADER && size > 1024 ==> HandedPages(r.value, PagesFor(size))
    {
      hide Handed, HandedPages, Contained, FirstRun, Valid, Allocated, Nothing, PagesFor, AddressSpace.Stuck,
        AddressSpace.NoRun;
      ListForEach();
      if !(0 < size < poolSize) {
        return Done(0);
      }
      if size > 1024 {
        r := MallocLarge(PagesFor(size), size, links);
      } else {
        var c := 0;
        while c < CLASSES && size > Size(c)
          invariant c <= ClassOf(size)
        {
          c := c + 1;
        }
        r := MallocSmall(c, size, links);
      }
    }

    lemma ListForEach()
      requires Valid()
      ensures |free| == CLASSES
    {
    }

    /** The promise of a successful allocation. */
    twostate predicate Allocated(b: nat, size: nat)
      reads this
    {
      && b !in old(live) && live == old(live) + {b} && size <= Usable(headers, b)
      && SameBytes(old(mem), mem, old(headers), old(live))
      && forall a :: b <= a < b + Usable(headers, b) ==> mem(a) == 0
    }

    /** The first block of a list went out; the address space changed only if the list was empty, by the first
        free page, which then became an arena. */
    twostate predicate Handed(c: nat)
      requires c < CLASSES
      reads this, space, space.kernel, space.user
    {
      |old(free)| == CLASSES &&
      if old(free)[c] != [] then
        && unchanged(space, space.kernel, space.user)
        && free == old(free)[c := old(free)[c][1..]]
        && var p := PageOf(old(free)[c][0]);
          && p in old(headers) && old(headers)[p].Small? && old(headers)[p].cls == c && old(headers)[p].count > 0
          && headers == old(headers)[p := Small(c, old(headers)[p].count - 1)]
      else
        && FirstRun(old(space.vmap), 1, 0) >= 0
        && var p := space.vbegin + FirstRun(old(space.vmap), 1, 0);
          && p !in old(headers) && headers == old(headers)[p := Small(c, PerArena(c) - 1)]
          && free == old(free)[c := Blocks(p, c, PerArena(c))[1..]] && live == old(live) + {BlockAt(p, c, 0)}
          && Extends(old(space.table), space.table, p, 1) && PageRange(p, 1) !! old(space.table).Keys
    }

    /** A run of pages became a large arena. */
    twostate predicate HandedPages(b: nat, n: nat)
      reads this, space, space.kernel, space.user
    {
      && free == old(free) && FirstRun(old(space.vmap), n, 0) >= 0
      && var p := space.vbegin + FirstRun(old(space.vmap), n, 0);
        && b == 4096 * p + HEADER && p !in old(headers) && headers == old(headers)[p := Large(n)]
        && Extends(old(space.table), space.table, p, n) && PageRange(p, n) !! old(space.table).Keys
    }

    /** Writing the header of an arena at address 0 hurts no allocation. */
    twostate predicate Nothing()
      reads this, space, space.kernel, space.user
    {
      && unchanged(this`free, this`headers, this`live, space, space.kernel, space.user)
      && SameBytes(old(mem), mem, headers, live)
    }

    /** No block lies in page 0. */
    lemma NotNull(b: nat)
      requires Consistent() && PageOf(b) in headers
      ensures b != 0 && b != HEADER
    {
      var p := PageOf(b);
      assert Within(p, p, Span(headers[p])) && p in PageRange(p, Span(headers[p]));
    }

    method MallocSmall(c: nat, size: nat, ghost links: Memory) returns (r: Run<nat>)
      requires Valid() && c < CLASSES && size <= Size(c)
      modifies this`free, this`headers, this`live, this`mem, space.kernel, space.user, space`vmap, space`table,
        space`tables, space`taken
      ensures r.Done? ==> Valid()
      ensures r == Halted <==> old(free)[c] == [] && old(space.Stuck(1))
      ensures r == Done(0) <==> old(free)[c] == [] && old(space.NoRun(1))
      ensures r == Done(0) ==> unchanged(this, space, space.kernel, space.user)
      ensures r.Done? && r.value != 0 ==> r.value != HEADER && Allocated(r.value, size)
      ensures old(free)[c] != [] ==> r == Done(old(free)[c][0])
      ensures r.Done? && r.value != 0 ==> Handed(c)
    {
      hide Size, Extends, BlockAt, PageOf, PerArena, Agree, Spans, SameBytes, IsBlock;
      ghost var mem0, headers0 := mem, headers;
      PagesOfList(headers, free, live, c);
      Unchanged(mem, headers, live);
      if free[c] == [] {
        var ready := NewArenaPage(c, links);
        if ready.Halted? {
          return Halted;
        }
        if !ready.value {
          return Done(0);
        }
      }
      ghost var mem1, headers1 := mem, headers;
      var bk := TakeBlock(c, links);
      SmallDone(headers0, headers1, headers, c, mem0, mem1, mem, old(live), bk);
      NotNull(bk);
      r := Done(bk);
    }

    method MallocLarge(n: nat, size: nat, ghost links: Memory) returns (r: Run<nat>)
      requires Valid() && 0 < n && size + HEADER <= 4096 * n
      requires n < 3840 ==> Contained(space.vmap, space.behind, n)
      modifies this`headers, this`live, this`mem, space.kernel, space.user, space`vmap, space`table, space`tables,
        space`taken
      ensures r.Done? ==> Valid()
      ensures r == Halted <==> old(space.Stuck(n)) || (!space.inKernel && old(space.NoRun(n)))
      ensures r == Done(HEADER) <==> space.inKernel && old(space.NoRun(n))
      ensures r.Done? ==> if r.value == HEADER then Nothing() else r.value != 0 && Allocated(r.value, size)
      ensures r.Done? && r.value != HEADER ==> HandedPages(r.value, n)
    {
      hide Size, PageOf, PerArena, Agree, Spans, FramesAgree, PagesAgree, FirstRun, RegionsOf, Fresh, SameBytes,
        Usable;
      var page := space.MallocPage(n);
      if page == Halted {
        return Halted;
      }
      if page == Done(0) {
        if !space.inKernel {  // page fault: a process has nothing at address 0
          return Halted;
        }
        HeaderAtZero(headers, free, live, mem, links);
        mem := Overwritten(mem, 0, HEADER, links);
        return Done(HEADER);
      }
      var ar := page.value;
      ghost var mem0, headers0 := mem, headers;
      mem := Overwritten(Zeroed(mem, 4096 * ar, 4096 * n), 4096 * ar, HEADER, links);
      headers := headers[ar := Large(n)];
      live := live + {4096 * ar + HEADER};
      LargeDone(headers0, free, old(live), old(space.table), space.table, ar, n, mem0, mem);
      r := Done(4096 * ar + HEADER);
    }

    /** Taking every block of an arena off its list; each of them is there. */
    method DrainList(p: nat, c: nat, ghost links: Memory) returns (halted: bool)
      requires c < CLASSES == |free| && Distinct(free[c]) && forall b :: IsBlock(b, p, c) ==> b in free[c]
      modifies this`free, this`mem
      ensures !halted && |free| == CLASSES && free == old(free)[c := free[c]] && Distinct(free[c])
      ensures forall b :: b in free[c] <==> b in old(free)[c] && !IsBlock(b, p, c)
      ensures free[c] == Minus(old(free)[c], Blocks(p, c, PerArena(c)))
      ensures LinksOnly(old(mem), mem, old(free)[c])
    {
      hide Size, PerArena, PageOf, BlockAt, InLinks, Distinct, IsBlock, Minus, Without;
      ghost var list0 := free[c];
      MinusNone(list0, Blocks(p, c, 0));
      var i := 0;
      while i < PerArena(c)
        invariant i <= PerArena(c) && |free| == CLASSES && free == old(free)[c := free[c]] && Distinct(free[c])
        invariant forall b :: b in free[c] <==> b in list0 && b !in Blocks(p, c, i)
        invariant free[c] == Minus(list0, Blocks(p, c, i))
        invariant LinksOnly(old(mem), mem, list0)
      {
        var bk := BlockAt(p, c, i);
        StillListed(p, c, i);
        if bk !in free[c] {  // ASSERT
          return true;
        }
        WithoutDistinct(free[c], bk);
        free := free[c := Without(free[c], bk)];
        mem := Linked(mem, free[c], links);
        FewerLinks(free[c], list0);
        MinusOne(list0, Blocks(p, c, i), BlockAt(p, c, i));
        i := i + 1;
      }
      BlocksDistinct(p, c, PerArena(c));
      halted := false;
    }

    /** An arena is gone and its pages with it. */
    twostate predicate GivenBack(p: nat)
      reads this, space
    {
      && p in old(headers) && headers == old(headers) - {p}
      && space.table == old(space.table) - PageRange(p, Span(old(headers)[p]))
    }

    method FreeLarge(b: nat) returns (halted: bool)
      requires Valid() && b in live && PageOf(b) in headers && headers[PageOf(b)].Large?
      modifies this`headers, this`live, space.kernel, space.user, space`vmap, space`table
      ensures halted <==> Region(PageOf(b) + Span(old(headers)[PageOf(b)])) !in space.tables
      ensures !halted ==> Valid() && live == old(live) - {b}
      ensures !halted ==> GivenBack(PageOf(b))
    {
      hide Size, PerArena, PageOf, BlockAt, IsBlock, Agree, SmallOk, ListOk, FramesAgree, PagesAgree, Region;
      var ar := PageOf(b);
      LiveHeader(headers, free, live, b);
      LargeDropped(headers, free, live, ar);
      PagesMapped(headers, space.table.Keys, ar);
      SpansDropped(headers, space.table, ar);
      halted := space.MfreePage(ar, headers[ar].count);
      if halted {
        return;
      }
      headers := headers - {ar};
      live := live - {b};
    }

    /** Putting a block back on its list and counting it. */
    method PutBlock(b: nat, ghost links: Memory)
      requires Consistent() && b in live && PageOf(b) in headers && headers[PageOf(b)].Small?
      modifies this`free, this`headers, this`live, this`mem
      ensures Consistent() && live == old(live) - {b} && SameBytes(old(mem), mem, old(headers), live)
      ensures old(headers)[PageOf(b)].cls < CLASSES
      ensures var h := old(headers)[PageOf(b)]; headers == old(headers)[PageOf(b) := Small(h.cls, h.count + 1)]
      ensures var c := old(headers)[PageOf(b)].cls; free == old(free)[c := old(free)[c] + [b]]
    {
      hide Size, PerArena, PageOf, BlockAt, IsBlock, Agree, Spans, SameBytes, InLinks, LinksOnly, Usable;
      var ar := PageOf(b);
      var c, n := headers[ar].cls, headers[ar].count;
      ghost var mem0, headers0 := mem, headers;
      LiveHeader(headers, free, live, b);
      Pushed(headers, free, live, b);
      Append(c, b, links);
      headers := headers[ar := Small(c, n + 1)];
      live := live - {b};
      SpansKept(headers0, space.table.Keys, ar, c, n + 1);
      LinksKeep(mem0, mem, headers, free, live, space.table.Keys, c);
      UsableKept(headers0, ar, n + 1, live, mem0, mem);
    }

    /** Giving an arena without live blocks back. */
    method ReleaseArena(ar: nat, ghost links: Memory) returns (halted: bool)
      requires Consistent() && NoneEmpty(headers - {ar})
      requires ar in headers && headers[ar].Small? && headers[ar].cls < CLASSES
      requires headers[ar].count == PerArena(headers[ar].cls)
      modifies this`free, this`headers, this`mem, space.kernel, space.user, space`vmap, space`table
      ensures halted <==> Region(ar + 1) !in space.tables
      ensures !halted ==> Valid() && SameBytes(old(mem), mem, old(headers), live) && GivenBack(ar)
      ensures !halted ==> var c := old(headers)[ar].cls;
        |old(free)| == CLASSES && free == old(free)[c := Minus(old(free)[c], Blocks(ar, c, PerArena(c)))]
    {
      hide Minus, Size, PerArena, PageOf, BlockAt, IsBlock, Spans, SameBytes, InLinks, LinksOnly, FramesAgree,
        PagesAgree, Region, SmallOk, LiveOk, Usable, Distinct;
      var c := headers[ar].cls;
      ghost var mem0, free0 := mem, free;
      ListOfFullArena(headers, free, live, ar);
      halted := DrainList(ar, c, links);
      LinksKeep(mem0, mem, headers, free0, live, space.table.Keys, c);
      Dropped(headers, free0, live, ar, free[c]);
      PagesMapped(headers, space.table.Keys, ar);
      SpansDropped(headers, space.table, ar);
      halted := space.MfreePage(ar, 1);
      if !halted {
        headers := headers - {ar};
      }
    }

    method FreeSmall(b: nat, ghost links: Memory) returns (halted: bool)
      requires Valid() && b in live && PageOf(b) in headers && headers[PageOf(b)].Small?
      modifies this`free, this`headers, this`live, this`mem, space.kernel, space.user, space`vmap, space`table
      ensures halted <==> old(Releases(headers, b)) && Region(PageOf(b) + 1) !in space.tables
      ensures !halted ==> Valid() && live == old(live) - {b} && SameBytes(old(mem), mem, old(headers), live)
      ensures old(headers)[PageOf(b)].cls < CLASSES
      ensures !halted ==> Returned(b)
    {
      hide Minus, Size, PerArena, PageOf, BlockAt, IsBlock, Agree, Spans, SameBytes, InLinks, LinksOnly, FramesAgree,
        PagesAgree, Region, Usable;
      LiveHeader(headers, free, live, b);
      ghost var mem0, headers0, free0, c := mem, headers, free, headers[PageOf(b)].cls;
      PutBlock(b, links);
      var ar := PageOf(b);
      if headers[ar].count == PerArena(headers[ar].cls) {
        ghost var mem1 := mem;
        halted := ReleaseArena(ar, links);
        if !halted {
          SameBytesAfterPut(mem0, mem1, mem, headers0, ar, live);
          assert headers == headers0 - {ar};
          assert free == free0[c := Minus(free0[c] + [b], Blocks(ar, c, PerArena(c)))];
        }
      } else {
        halted := false;
      }
    }

    /** A small block is the last of its list, unless its arena went: then none of the arena's is on it. */
    twostate predicate Returned(b: nat)
      reads this, space, space.kernel, space.user
    {
      var p := PageOf(b);
      && p in old(headers) && old(headers)[p].Small? && old(headers)[p].cls < CLASSES == |old(free)|
      && var c := old(headers)[p].cls;
        if old(Releases(headers, b)) then
          GivenBack(p) && free == old(free)[c := Minus(old(free)[c] + [b], Blocks(p, c, PerArena(c)))]
        else
          && free == old(free)[c := old(free)[c] + [b]]
          && headers == old(headers)[p := Small(c, old(headers)[p].count + 1)]
          && unchanged(space, space.kernel, space.user)
    }

    /** sys_free. Releasing an arena's page stops in mfree_page when the page behind it has no table. */
    method Free(b: nat, ghost links: Memory) returns (halted: bool)
      requires Valid() && b in live
      modifies this`free, this`headers, this`live, this`mem, space.kernel, space.user, space`vmap, space`table
      ensures halted <==>
        old(Releases(headers, b)) && Region(PageOf(b) + Span(old(headers)[PageOf(b)])) !in space.tables
      ensures !halted ==> Valid() && live == old(live) - {b} && SameBytes(old(mem), mem, old(headers), live)
      ensures PageOf(b) in old(headers)
      ensures !halted ==>
        if old(headers)[PageOf(b)].Large? then GivenBack(PageOf(b)) && free == old(free) else Returned(b)
    {
      hide GivenBack, Returned, Size, PerArena, PageOf, BlockAt, InLinks, IsBlock, Agree, Spans, SameBytes, NoneEmpty;
      LiveHeader(headers, free, live, b);
      if headers[PageOf(b)].Large? {
        halted := FreeLarge(b);
        Unchanged(mem, old(headers), live);
      } else {
        halted := FreeSmall(b, links);
      }
    }

    /** A new arena for a class whose list is empty; false when malloc_page finds no page. */
    method NewArenaPage(c: nat, ghost links: Memory) returns (r: Run<bool>)
      requires Valid() && c < CLASSES && free[c] == []
      modifies this`free, this`headers, this`mem, space.kernel, space.user, space`vmap, space`table, space`tables,
        space`taken
      ensures (r == Halted <==> old(space.Stuck(1))) && (r == Done(false) <==> old(space.NoRun(1)))
      ensures r.Done? && r.value ==> Consistent() && free[c] != [] && PageOf(free[c][0]) !in old(headers)
      ensures r.Done? && r.value ==> headers == old(headers)[PageOf(free[c][0]) := Small(c, PerArena(c))]
      ensures r.Done? && r.value ==> SameBytes(old(mem), mem, old(headers), live)
      ensures r.Done? && r.value ==>
        && FirstRun(old(space.vmap), 1, 0) >= 0
        && var p := space.vbegin + FirstRun(old(space.vmap), 1, 0);
          && p !in old(headers) && free == old(free)[c := Blocks(p, c, PerArena(c))] && PageOf(free[c][0]) == p
          && Extends(old(space.table), space.table, p, 1) && PageRange(p, 1) !! old(space.table).Keys
      ensures r.Done? && !r.value ==> unchanged(this, space, space.kernel, space.user)
    {
      hide Size, PageOf, PerArena, Agree, Spans, FramesAgree, PagesAgree, FirstRun, RegionsOf, Fresh, SameBytes;
      r := Halted;
      var page := space.MallocPage(1);
      if page == Halted {
        return Halted;
      }
      if page == Done(0) {
        return Done(false);
      }
      var ar := page.value;
      ghost var mem0, headers0, free0 := mem, headers, free;
      mem := Overwritten(Zeroed(mem, 4096 * ar, 4096), 4096 * ar, HEADER, links);
      headers := headers[ar := Small(c, PerArena(c))];
      ghost var mem1 := mem;
      ArenaPage(headers0, free0, live, old(space.table), space.table, ar, c, mem0, mem1);
      var halted := FillList(ar, c, links);
      ArenaFilled(headers0, headers, free, live, space.table.Keys, ar, c, mem0, mem1, mem);
      r := Done(true);
    }

    /** Taking the first block of a list: list_pop, memset, and the count of its arena. */
    method TakeBlock(c: nat, ghost links: Memory) returns (bk: nat)
      requires Consistent() && c < CLASSES && free[c] != []
      modifies this`free, this`headers, this`live, this`mem
      ensures Consistent() && bk !in old(live) && live == old(live) + {bk} && bk == old(free[c])[0]
      ensures PageOf(bk) in old(headers) && old(headers)[PageOf(bk)].Small? && old(headers)[PageOf(bk)].cls == c
      ensures old(headers)[PageOf(bk)].count > 0
      ensures headers == old(headers)[PageOf(bk) := Small(c, old(headers)[PageOf(bk)].count - 1)]
      ensures free == old(free)[c := old(free)[c][1..]]
      ensures SameBytes(old(mem), mem, old(headers), old(live))
      ensures forall a :: bk <= a < bk + Size(c) ==> mem(a) == 0
    {
      hide Size, PageOf, Spans, ListOk, SmallOk, LiveOk, InLinks, IsBlock, Usable;
      ghost var headers0, live0, mem0 := headers, live, mem;
      Popped(headers, free, live, c);
      bk := free[c][0];
      free := free[c := free[c][1..]];
      mem := Linked(mem, free[c], links);
      ghost var mem1 := mem;
      mem := Zeroed(mem, bk, Size(c));
      var ar := PageOf(bk);
      headers := headers[ar := Small(c, headers[ar].count - 1)];
      live := live + {bk};
      TakenKeeps(mem0, mem1, mem, headers0, headers, free, live0, bk, c, space.table.Keys);
    }

    /** list_append of one block. */
    method Append(c: nat, bk: nat, ghost links: Memory)
      requires c < CLASSES && |free| == CLASSES
      modifies this`free, this`mem
      ensures free == old(free)[c := old(free)[c] + [bk]]
      ensures LinksOnly(old(mem), mem, free[c])
    {
      free := free[c := free[c] + [bk]];
      mem := Linked(mem, free[c], links);
    }

    /** Making the list entries of a new arena; no block is on the list before its turn. */
    method FillList(p: nat, c: nat, ghost links: Memory) returns (halted: bool)
      requires c < CLASSES && |free| == CLASSES && forall b :: b in free[c] ==> PageOf(b) != p
      modifies this`free, this`mem
      ensures !halted && free == old(free)[c := old(free)[c] + Blocks(p, c, PerArena(c))]
      ensures LinksOnly(old(mem), mem, free[c])
    {
      hide Size, PerArena, PageOf, BlockAt, InLinks;
      ghost var list0 := free[c];
      var i := 0;
      assert list0 + Blocks(p, c, 0) == list0;
      while i < PerArena(c)
        invariant i <= PerArena(c) && free == old(free)[c := list0 + Blocks(p, c, i)]
        invariant LinksOnly(old(mem), mem, free[c])
      {
        var bk := BlockAt(p, c, i);
        NotYetListed(list0, p, c, i);
        if bk in free[c] {  // ASSERT
          return true;
        }
        ghost var list := free[c];
        Append(c, bk, links);
        assert free[c] == list0 + Blocks(p, c, i + 1);
        LinksGrow(list, bk);
        i := i + 1;
      }
      halted := false;
    }
  }

  /** Arenas and page table after a new arena came and went. */
  lemma ArenaUndone(headers0: map<nat, Header>, headers: map<nat, Header>, table0: map<nat, nat>, table: map<nat, nat>,
                    p: nat, h: Header)
    requires p !in headers0 && headers == headers0[p := h]
    requires Extends(table0, table, p, Span(h)) && PageRange(p, Span(h)) !! table0.Keys
    ensures headers - {p} == headers0 && table - PageRange(p, Span(h)) == table0
  {
    TakenBack(table0, table, p, Span(h));
  }

  lemma LargeHeader(p: nat)
    ensures PageOf(4096 * p + HEADER) == p
  {
  }

  lemma RotatedList(headers0: map<nat, Header>, headers1: map<nat, Header>, headers2: map<nat, Header>,
                    free0: seq<seq<nat>>, free1: seq<seq<nat>>, free2: seq<seq<nat>>, c: nat, b: nat)
    requires c < CLASSES == |free0| && free0[c] != [] && b == free0[c][0] && NoneEmpty(headers0)
    requires var p := PageOf(b);
      && p in headers0 && headers0[p].Small? && headers0[p].cls == c && headers0[p].count > 0
      && headers1 == headers0[p := Small(c, headers0[p].count - 1)] && free1 == free0[c := free0[c][1..]]
    ensures !Releases(headers1, b)
    ensures
      && free2 == free1[c := free1[c] + [b]]
      && headers2 == headers1[PageOf(b) := Small(c, headers1[PageOf(b)].count + 1)]
      ==> headers2 == headers0 && free2 == free0[c := free0[c][1..] + [b]]
  {
    hide PageOf, PerArena;
  }

  lemma EmptyListAgain(free0: seq<seq<nat>>, free1: seq<seq<nat>>, p: nat, c: nat)
    requires c < CLASSES == |free0| && free0[c] == [] && free1 == free0[c := Blocks(p, c, PerArena(c))[1..]]
    ensures PageOf(BlockAt(p, c, 0)) == p
    ensures free1[c := Minus(free1[c] + [BlockAt(p, c, 0)], Blocks(p, c, PerArena(c)))] == free0
  {
    hide PerArena, BlockAt, PageOf, Minus;
    BlockInPage(p, c, 0);
    MinusAll(free1[c] + [BlockAt(p, c, 0)], Blocks(p, c, PerArena(c)));
  }

  /** Bytes of what was live before, over an allocation and a release. */
  lemma BytesBack(headers0: map<nat, Header>, headers1: map<nat, Header>, free: seq<seq<nat>>, live: set<nat>, p: nat,
                  h: Header, mem0: Memory, mem1: Memory, mem2: Memory)
    requires Agree(headers0, free, live) && headers1 == headers0[p := h]
    requires p in headers0 ==> headers0[p].Small? && h.Small? && h.cls == headers0[p].cls
    requires SameBytes(mem0, mem1, headers0, live) && SameBytes(mem1, mem2, headers1, live)
    ensures SameBytes(mem0, mem2, headers0, live)
  {
    hide PageOf, Size;
    PagesOfList(headers0, free, live, 0);
    forall b | b in live ensures Usable(headers1, b) == Usable(headers0, b) {}
  }

  /** sys_malloc and then sys_free of what it gave: live blocks, arenas and mapping are as before. The free lists
      are too, but for a list that had blocks: its first one is now its last. */
  method MallocThenFree(heap: Heap, size: nat, ghost links: Memory) returns (ok: bool)
    requires heap.Valid() && 0 < size < heap.poolSize
    requires 1024 < size && PagesFor(size) < 3840 ==>
      Contained(heap.space.vmap, heap.space.behind, PagesFor(size))
    modifies heap`free, heap`headers, heap`live, heap`mem, heap.space.kernel, heap.space.user, heap.space`vmap,
      heap.space`table, heap.space`tables, heap.space`taken
    ensures |old(heap.free)| == CLASSES
    ensures ok <==>
      || (size <= 1024 && old(heap.free)[ClassOf(size)] != [])
      || var n := if size <= 1024 then 1 else PagesFor(size);
        && !old(heap.space.Stuck(n)) && !old(heap.space.NoRun(n))
        && Region(heap.space.vbegin + FirstRun(old(heap.space.vmap), n, 0) + n) in heap.space.tables
    ensures ok ==> heap.Valid() && heap.live == old(heap.live) && heap.headers == old(heap.headers)
    ensures ok ==> heap.space.table == old(heap.space.table)
    ensures ok ==> SameBytes(old(heap.mem), heap.mem, old(heap.headers), old(heap.live))
    ensures ok ==>
      heap.free == if size > 1024 || old(heap.free)[ClassOf(size)] == [] then old(heap.free)
                   else
                     var c := ClassOf(size);
                     old(heap.free)[c := old(heap.free)[c][1..] + [old(heap.free)[c][0]]]
  {
    hide Agree, Spans, NoneEmpty, FramesAgree, PagesAgree, AddressSpace.Stuck, AddressSpace.NoRun, FirstRun, Contained,
      SameBytes, PageRange, Extends, Region, Size, PerArena, BlockAt, Blocks, Usable, Minus, PageOf, PagesFor, ClassOf;
    heap.ListForEach();
    ghost var headers0, table0, free0, live0, mem0 := heap.headers, heap.space.table, heap.free, heap.live, heap.mem;
    var r := heap.Malloc(size, links);
    if r == Halted || r == Done(0) || r == Done(HEADER) {
      return false;
    }
    var b := r.value;
    ghost var headers1, table1, free1, mem1 := heap.headers, heap.space.table, heap.free, heap.mem;
    ghost var n := if size <= 1024 then 1 else PagesFor(size);
    ghost var p := heap.space.vbegin + FirstRun(old(heap.space.vmap), n, 0);
    var halted := heap.Free(b, links);
    if size > 1024 {
      LargeHeader(p);
    } else if free0[ClassOf(size)] == [] {
      EmptyListAgain(free0, free1, p, ClassOf(size));
    } else {
      RotatedList(headers0, headers1, heap.headers, free0, free1, heap.free, ClassOf(size), b);
    }
    ok := !halted;
    if ok {
      assert live0 + {b} - {b} == live0;
      BytesBack(headers0, headers1, free0, live0, PageOf(b), headers1[PageOf(b)], mem0, mem1, heap.mem);
      if size > 1024 || free0[ClassOf(size)] == [] {
        ArenaUndone(headers0, headers1, table0, table1, p, headers1[p]);
      }
    }
  }

  lemma HeaderAtZero(headers: map<nat, Header>, free: seq<seq<nat>>, live: set<nat>, mem: Memory, links: Memory)
    requires Agree(headers, free, live)
    ensures SameBytes(mem, Overwritten(mem, 0, HEADER, links), headers, live)
  {
    hide PageOf, Size, SmallOk, ListOk, LiveOk, Usable, IsBlock;
    forall b, a | b in live && b <= a < b + Usable(headers, b) ensures Overwritten(mem, 0, HEADER, links)(a) == mem(a) {
      LiveInside(headers, b);
    }
  }

  lemma SpansKept(headers: map<nat, Header>, pages: set<nat>, p: nat, c: nat, n: nat)
    requires Spans(headers, pages) && p in headers && headers[p].Small?
    ensures Spans(headers[p := Small(c, n)], pages)
  {
    hide PageRange;
  }

  lemma TakenKeeps(mem0: Memory, mem1: Memory, mem2: Memory, headers0: map<nat, Header>, headers: map<nat, Header>,
                   free: seq<seq<nat>>, live0: set<nat>, bk: nat, c: nat, pages: set<nat>)
    requires Spans(headers0, pages) && PageOf(bk) in headers0 && headers0[PageOf(bk)].Small?
    requires headers0[PageOf(bk)].cls == c < CLASSES
    requires headers0[PageOf(bk)].count > 0
    requires headers == headers0[PageOf(bk) := Small(c, headers0[PageOf(bk)].count - 1)]
    requires Agree(headers, free, live0 + {bk}) && bk !in live0
    requires LinksOnly(mem0, mem1, free[c]) && OnlyIn(mem1, mem2, bk, Size(c))
    ensures Spans(headers, pages) && SameBytes(mem0, mem2, headers0, live0)
  {
    hide Size, PageOf, Spans, ListOk, SmallOk, LiveOk, InLinks, IsBlock, SameBytes;
    SpansKept(headers0, pages, PageOf(bk), c, headers0[PageOf(bk)].count - 1);
    LinksKeep(mem0, mem1, headers, free, live0 + {bk}, pages, c);
    assert Usable(headers, bk) == Size(c);
    ZeroKeeps(mem1, mem2, headers, free, live0 + {bk}, pages, bk);
    assert live0 + {bk} - {bk} == live0;
    FewerBytes(mem0, mem1, headers, live0 + {bk}, live0);
    SameBytesTwice(mem0, mem1, mem2, headers, live0);
    UsableKept(headers0, PageOf(bk), headers0[PageOf(bk)].count - 1, live0, mem0, mem2);
  }

  lemma ArenaPage(headers: map<nat, Header>, free: seq<seq<nat>>, live: set<nat>, table0: map<nat, nat>,
                  table: map<nat, nat>,
                  p: nat, c: nat, mem0: Memory, mem1: Memory)
    requires Agree(headers, free, live) && Spans(headers, table0.Keys) && c < CLASSES
    requires Extends(table0, table, p, 1) && PageRange(p, 1) !! table0.Keys && OnlyIn(mem0, mem1, 4096 * p, 4096)
    ensures p !in headers && |free| == CLASSES && forall b :: b in free[c] ==> PageOf(b) != p
    ensures forall b :: b in live ==> PageOf(b) in headers
    ensures SameBytes(mem0, mem1, headers, live)
    ensures Agree(headers[p := Small(c, PerArena(c))], free[c := free[c] + Blocks(p, c, PerArena(c))], live)
    ensures Spans(headers[p := Small(c, PerArena(c))], table.Keys)
  {
    hide Size, PageOf, PerArena, Agree, SameBytes;
    NewPagesKeep(mem0, mem1, headers, free, live, table0.Keys, p, 1);
    SpansGrown(headers, table0.Keys, table.Keys, p, Small(c, PerArena(c)));
    NewArena(headers, free, live, p, c);
    PagesOfList(headers, free, live, c);
  }

  lemma PagesOfList(headers: map<nat, Header>, free: seq<seq<nat>>, live: set<nat>, c: nat)
    requires Agree(headers, free, live) && c < CLASSES
    ensures |free| == CLASSES && forall b :: b in free[c] ==> PageOf(b) in headers
    ensures forall b :: b in live ==> PageOf(b) in headers
  {
  }

  lemma ArenaHasBlocks(c: nat)
    requires c < CLASSES
    ensures 0 < PerArena(c)
  {
  }

  lemma SpansGrown(headers: map<nat, Header>, pages0: set<nat>, pages: set<nat>, p: nat, h: Header)
    requires Spans(headers, pages0) && 0 < Span(h) && PageRange(p, Span(h)) !! pages0
    requires pages == pages0 + PageRange(p, Span(h))
    ensures p !in headers && Spans(headers[p := h], pages)
  {
    assert Within(p, p, Span(h)) && p in PageRange(p, Span(h));
    forall q | q in headers ensures q in pages0 {
      assert Within(q, q, Span(headers[q])) && q in PageRange(q, Span(headers[q]));
    }
  }

  lemma ArenaFilled(headers0: map<nat, Header>, headers: map<nat, Header>, free: seq<seq<nat>>, live: set<nat>,
                    pages: set<nat>,
                    p: nat, c: nat, mem0: Memory, mem1: Memory, mem2: Memory)
    requires Agree(headers, free, live) && Spans(headers, pages) && c < CLASSES == |free|
    requires p !in headers0 && headers == headers0[p := Small(c, PerArena(c))] && free[c] == Blocks(p, c, PerArena(c))
    requires forall b :: b in live ==> PageOf(b) in headers0
    requires SameBytes(mem0, mem1, headers0, live) && LinksOnly(mem1, mem2, free[c])
    ensures SameBytes(mem0, mem2, headers0, live) && PageOf(free[c][0]) == p
  {
    hide Size, PageOf, PerArena, Agree, Spans, InLinks;
    LinksKeep(mem1, mem2, headers, free, live, pages, c);
    BlocksDistinct(p, c, PerArena(c));
    ArenaHasBlocks(c);
    assert free[c][0] in Blocks(p, c, PerArena(c));
    forall b | b in live ensures Usable(headers, b) == Usable(headers0, b) {}
  }

  lemma SmallDone(headers0: map<nat, Header>, headers1: map<nat, Header>, headers: map<nat, Header>, c: nat,
                  mem0: Memory, mem1: Memory, mem2: Memory, live: set<nat>, bk: nat)
    requires NoneEmpty(headers0) && c < CLASSES && PageOf(bk) in headers1 && headers1[PageOf(bk)].Small?
    requires
      || headers1 == headers0
      || (PageOf(bk) !in headers0 && headers1 == headers0[PageOf(bk) := Small(c, PerArena(c))])
    requires headers1[PageOf(bk)].cls == c && headers1[PageOf(bk)].count > 0
    requires headers == headers1[PageOf(bk) := Small(c, headers1[PageOf(bk)].count - 1)]
    requires SameBytes(mem0, mem1, headers0, live) && SameBytes(mem1, mem2, headers1, live)
    requires forall b :: b in live ==> PageOf(b) in headers0
    ensures NoneEmpty(headers) && Usable(headers, bk) == Size(c) && SameBytes(mem0, mem2, headers0, live)
  {
    hide Size, PageOf, PerArena;
    forall b | b in live ensures Usable(headers1, b) == Usable(headers0, b) {}
  }

  lemma LargeDone(headers: map<nat, Header>, free: seq<seq<nat>>, live: set<nat>, table0: map<nat, nat>,
                  table: map<nat, nat>,
                  p: nat, n: nat, mem0: Memory, mem1: Memory)
    requires Agree(headers, free, live) && Spans(headers, table0.Keys) && NoneEmpty(headers) && 0 < n
    requires Extends(table0, table, p, n) && PageRange(p, n) !! table0.Keys && OnlyIn(mem0, mem1, 4096 * p, 4096 * n)
    ensures p !in headers
    ensures var b := 4096 * p + HEADER; var after := headers[p := Large(n)];
      && b !in live && Usable(after, b) == 4096 * n - HEADER && SameBytes(mem0, mem1, headers, live)
      && Agree(after, free, live + {b}) && Spans(after, table.Keys) && NoneEmpty(after)
  {
    hide Size, PageOf, PerArena, Agree, SameBytes;
    NewPagesKeep(mem0, mem1, headers, free, live, table0.Keys, p, n);
    SpansGrown(headers, table0.Keys, table.Keys, p, Large(n));
    LargeAdded(headers, free, live, p, n);
  }

  /** A free releases its arena when it is a large one or when the last live block goes. */
  predicate Releases(headers: map<nat, Header>, b: nat)
  {
    PageOf(b) in headers &&
    match headers[PageOf(b)]
    case Large(_) => true
    case Small(c, n) => c < CLASSES && n + 1 == PerArena(c)
  }

  lemma LiveHeader(headers: map<nat, Header>, free: seq<seq<nat>>, live: set<nat>, b: nat)
    requires Agree(headers, free, live) && b in live
    ensures PageOf(b) in headers && LiveOk(headers, b) && |free| == CLASSES
  {
    assert LiveOk(headers, b);
  }

  lemma PagesMapped(headers: map<nat, Header>, pages: set<nat>, p: nat)
    requires Spans(headers, pages) && p in headers
    ensures 0 < Span(headers[p]) && forall q :: q in PageRange(p, Span(headers[p])) ==> q in pages
  {
  }

  lemma SpansDropped(headers: map<nat, Header>, table: map<nat, nat>, p: nat)
    requires Spans(headers, table.Keys) && p in headers
    ensures Spans(headers - {p}, (table - PageRange(p, Span(headers[p]))).Keys)
  {
    hide PageRange;
  }

  lemma ListOfFullArena(headers: map<nat, Header>, free: seq<seq<nat>>, live: set<nat>, p: nat)
    requires Agree(headers, free, live) && p in headers && headers[p].Small?
    requires headers[p].count == PerArena(headers[p].cls)
    ensures |free| == CLASSES && headers[p].cls < CLASSES && Distinct(free[headers[p].cls])
    ensures forall b :: IsBlock(b, p, headers[p].cls) ==> b in free[headers[p].cls]
  {
    hide Size, PerArena, PageOf, BlockAt, IsBlock;
    FullArena(p, headers[p].cls, free[headers[p].cls], live);
  }

  lemma SameBytesAfterPut(mem0: Memory, mem1: Memory, mem2: Memory, headers0: map<nat, Header>, ar: nat, live: set<nat>)
    requires ar in headers0 && headers0[ar].Small? && SameBytes(mem0, mem1, headers0, live)
    requires SameBytes(mem1, mem2, headers0[ar := Small(headers0[ar].cls, headers0[ar].count + 1)], live)
    ensures SameBytes(mem0, mem2, headers0, live)
  {
    hide SameBytes, Usable, PageOf, Size;
    UsableKept(headers0, ar, headers0[ar].count + 1, live, mem1, mem2);
    SameBytesTwice(mem0, mem1, mem2, headers0, live);
  }

  lemma StillListed(p: nat, c: nat, i: nat)
    requires c < CLASSES && i < PerArena(c)
    ensures BlockAt(p, c, i) !in Blocks(p, c, i) && IsBlock(BlockAt(p, c, i), p, c)
    ensures Blocks(p, c, i + 1) == Blocks(p, c, i) + [BlockAt(p, c, i)]
    ensures forall b :: b in Blocks(p, c, i + 1) <==> b in Blocks(p, c, i) || b == BlockAt(p, c, i)
  {
    hide Size, PerArena, PageOf, BlockAt;
    BlocksDistinct(p, c, i + 1);
    assert Blocks(p, c, i + 1) == Blocks(p, c, i) + [BlockAt(p, c, i)];
  }

  lemma FewerLinks(list: seq<nat>, more: seq<nat>)
    requires forall b :: b in list ==> b in more
    ensures forall a :: InLinks(a, list) ==> InLinks(a, more)
  {
  }

  lemma NotYetListed(list0: seq<nat>, p: nat, c: nat, i: nat)
    requires c < CLASSES && i < PerArena(c) && forall b :: b in list0 ==> PageOf(b) != p
    ensures BlockAt(p, c, i) !in list0 + Blocks(p, c, i)
    ensures Blocks(p, c, i + 1) == Blocks(p, c, i) + [BlockAt(p, c, i)]
  {
    hide Size, PerArena, PageOf, BlockAt;
    BlockInPage(p, c, i);
    BlocksDistinct(p, c, i + 1);
    assert Blocks(p, c, i + 1) == Blocks(p, c, i) + [BlockAt(p, c, i)];
  }

  lemma LinksGrow(list: seq<nat>, bk: nat)
    ensures forall a :: InLinks(a, list) ==> InLinks(a, list + [bk])
  {
    forall a | InLinks(a, list) ensures InLinks(a, list + [bk]) {
      var b :| b in list && b <= a < b + 8;
      assert b in list + [bk];
    }
  }
}
