/** kernel/c12f_memory.c: frame pools, virtual page bitmaps and the mapping between them. Addresses
    are page and frame numbers; Paging shows what the page tables do with them. */
module Vm {
  import opened Debug
  import opened Bitmaps

  const USER_TOP := 0xBFFFF  // the page of the user stack

  /** The directory entry of a page: one page table maps 1024 pages. */
  function Region(p: nat): nat {
    p / 1024
  }

  /** A bit is set exactly when its frame is in use. */
  ghost predicate PoolAgrees(bits: seq<bool>, begin: nat, used: set<nat>) {
    forall j :: 0 <= j < |bits| ==> (bits[j] <==> begin + j in used)
  }

  predicate InPool(f: nat, begin: nat, bits: seq<bool>) {
    begin <= f < begin + |bits|
  }

  lemma TakenAgrees(bits: seq<bool>, begin: nat, used: set<nat>, f: nat)
    requires PoolAgrees(bits, begin, used) && InPool(f, begin, bits)
    ensures PoolAgrees(bits[f - begin := true], begin, used + {f})
  {
  }

  lemma ElsewhereAgrees(bits: seq<bool>, begin: nat, used: set<nat>, f: nat)
    requires PoolAgrees(bits, begin, used) && !InPool(f, begin, bits)
    ensures PoolAgrees(bits, begin, used + {f}) && PoolAgrees(bits, begin, used - {f})
  {
  }

  lemma GivenBackAgrees(bits: seq<bool>, begin: nat, used: set<nat>, f: nat)
    requires PoolAgrees(bits, begin, used) && InPool(f, begin, bits)
    ensures PoolAgrees(bits[f - begin := false], begin, used - {f})
  {
  }

  class Pool {
    const begin: nat
    var bits: seq<bool>

    constructor (begin: nat, bits: seq<bool>)
      ensures this.begin == begin && this.bits == bits
    {
      this.begin := begin;
      this.bits := bits;
    }

    /** palloc: with no frame left the ASSERT of the scan stops the kernel. */
    method Palloc() returns (halted: bool, f: nat)
      modifies this
      ensures halted <==> FreeIn(old(bits)) == {}
      ensures halted ==> bits == old(bits)
      ensures |bits| == |old(bits)|
      ensures !halted ==> InPool(f, begin, old(bits)) && !old(bits)[f - begin] && bits == old(bits)[f - begin := true]
      ensures !halted ==> forall b :: 0 <= b < f - begin ==> old(bits)[b]
      ensures !halted ==> |FreeIn(bits)| == |FreeIn(old(bits))| - 1
    {
      NothingFree(bits);
      var b := FirstClear(bits, 0);
      if b == |bits| {
        return true, 0;
      }
      TakeFree(bits, b);
      bits := bits[b := true];
      halted, f := false, begin + b;
    }
  }

  ghost predicate Injective(table: map<nat, nat>) {
    forall p, q :: p in table && q in table && p != q ==> table[p] != table[q]
  }

  /** The frames of both pools, the mapping of one address space and everybody else's frames agree. */
  ghost predicate FramesAgree(kbits: seq<bool>, kbegin: nat, ubits: seq<bool>, ubegin: nat, inKernel: bool,
                              table: map<nat, nat>, tables: set<nat>, taken: set<nat>) {
    && 0x102 <= kbegin && kbegin + |kbits| <= ubegin
    && PoolAgrees(kbits, kbegin, taken + table.Values) && PoolAgrees(ubits, ubegin, taken + table.Values)
    && taken !! table.Values && Injective(table)
    && (forall p :: p in table ==> Region(p) in tables)
    && forall p :: p in table ==> if inKernel then InPool(table[p], kbegin, kbits) else InPool(table[p], ubegin, ubits)
  }

  lemma MapOne(kbits: seq<bool>, kbegin: nat, ubits: seq<bool>, ubegin: nat, inKernel: bool,
               table: map<nat, nat>, tables: set<nat>, taken: set<nat>, p: nat, f: nat)
    requires FramesAgree(kbits, kbegin, ubits, ubegin, inKernel, table, tables, taken) && p !in table
    requires Region(p) in tables
    requires if inKernel then InPool(f, kbegin, kbits) && !kbits[f - kbegin]
             else InPool(f, ubegin, ubits) && !ubits[f - ubegin]
    ensures f !in taken + table.Values
    ensures FramesAgree(if inKernel then kbits[f - kbegin := true] else kbits, kbegin,
                        if inKernel then ubits else ubits[f - ubegin := true], ubegin,
                        inKernel, table[p := f], tables, taken)
  {
    hide Injective, Region;
    var after := table[p := f];
    Extended(table, p, f);
    assert taken + after.Values == taken + table.Values + {f};
    if inKernel {
      TakenAgrees(kbits, kbegin, taken + table.Values, f);
      ElsewhereAgrees(ubits, ubegin, taken + table.Values, f);
    } else {
      TakenAgrees(ubits, ubegin, taken + table.Values, f);
      ElsewhereAgrees(kbits, kbegin, taken + table.Values, f);
    }
  }

  lemma Extended(table: map<nat, nat>, p: nat, f: nat)
    requires p !in table && f !in table.Values && Injective(table)
    ensures table[p := f].Values == table.Values + {f} && Injective(table[p := f])
  {
    var after := table[p := f];
    forall g | g in table.Values + {f} ensures g in after.Values {
      if g == f {
        assert after[p] == f;
      } else {
        var q :| q in table && table[q] == g;
        assert after[q] == g;
      }
    }
  }

  lemma TableOne(kbits: seq<bool>, kbegin: nat, ubits: seq<bool>, ubegin: nat, inKernel: bool,
                 table: map<nat, nat>, tables: set<nat>, taken: set<nat>, r: nat, f: nat)
    requires FramesAgree(kbits, kbegin, ubits, ubegin, inKernel, table, tables, taken)
    requires InPool(f, kbegin, kbits) && !kbits[f - kbegin]
    ensures f !in taken + table.Values
    ensures FramesAgree(kbits[f - kbegin := true], kbegin, ubits, ubegin, inKernel, table, tables + {r}, taken + {f})
  {
    hide Injective, Region;
    assert taken + {f} + table.Values == taken + table.Values + {f};
    TakenAgrees(kbits, kbegin, taken + table.Values, f);
    ElsewhereAgrees(ubits, ubegin, taken + table.Values, f);
  }

  lemma Shrunk(table: map<nat, nat>, p: nat)
    requires p in table && Injective(table)
    ensures (table - {p}).Values == table.Values - {table[p]} && Injective(table - {p})
  {
    var after := table - {p};
    forall g | g in table.Values - {table[p]} ensures g in after.Values {
      var q :| q in table && table[q] == g;
      assert after[q] == g;
    }
  }

  lemma UnmapOne(kbits: seq<bool>, kbegin: nat, ubits: seq<bool>, ubegin: nat, inKernel: bool,
                 table: map<nat, nat>, tables: set<nat>, taken: set<nat>, p: nat)
    requires FramesAgree(kbits, kbegin, ubits, ubegin, inKernel, table, tables, taken) && p in table
    ensures table[p] >= ubegin <==> !inKernel
    ensures FramesAgree(if inKernel then kbits[table[p] - kbegin := false] else kbits, kbegin,
                        if inKernel then ubits else ubits[table[p] - ubegin := false], ubegin,
                        inKernel, table - {p}, tables, taken)
  {
    hide Injective, Region;
    var f := table[p];
    Shrunk(table, p);
    assert taken + (table - {p}).Values == taken + table.Values - {f};
    if inKernel {
      GivenBackAgrees(kbits, kbegin, taken + table.Values, f);
      ElsewhereAgrees(ubits, ubegin, taken + table.Values, f);
    } else {
      GivenBackAgrees(ubits, ubegin, taken + table.Values, f);
      ElsewhereAgrees(kbits, kbegin, taken + table.Values, f);
    }
  }

  /** A virtual bit is set exactly when its page is reserved. */
  ghost predicate PagesAgree(vmap: seq<bool>, vbegin: nat, pages: set<nat>) {
    && (forall i :: 0 <= i < |vmap| ==> (vmap[i] <==> vbegin + i in pages))
    && forall p :: p in pages ==> InPool(p, vbegin, vmap)
  }

  function Filled(s: seq<bool>, start: int, n: nat, value: bool): (r: seq<bool>)
    ensures |r| == |s|
  {
    seq(|s|, i requires 0 <= i < |s| => if start <= i < start + n then value else s[i])
  }

  predicate Within(p: nat, v: nat, n: nat) {
    v <= p < v + n
  }

  function PageRange(v: nat, n: nat): set<nat> {
    set p: nat | p < v + n && Within(p, v, n)
  }

  function RegionsOf(v: nat, n: nat): set<nat> {
    set p: nat | v <= p < v + n :: Region(p)
  }

  /** How many page tables are missing for `n` pages from `v` on. */
  function Missing(tables: set<nat>, v: nat, n: nat): nat {
    if n == 0 then 0
    else Missing(tables, v, n - 1) + if Region(v + n - 1) in tables + RegionsOf(v, n - 1) then 0 else 1
  }

  lemma MissingGrows(tables: set<nat>, v: nat, i: nat, n: nat)
    requires i <= n
    ensures Missing(tables, v, i) <= Missing(tables, v, n)
  {
  }

  /** `n` more pages from `v` on, and nothing else, are mapped. */
  ghost predicate Extends(table0: map<nat, nat>, table: map<nat, nat>, v: nat, n: nat) {
    && table.Keys == table0.Keys + PageRange(v, n)
    && forall p :: p in table0 ==> table[p] == table0[p]
  }

  lemma RunIsUnmapped(vmap: seq<bool>, vbegin: nat, pages: set<nat>, n: nat)
    requires PagesAgree(vmap, vbegin, pages) && FirstRun(vmap, n, 0) != -1
    ensures PageRange(vbegin + FirstRun(vmap, n, 0), n) !! pages
  {
    var v := vbegin + FirstRun(vmap, n, 0);
    forall p | p in PageRange(v, n) ensures p !in pages {
      assert Within(p, v, n) && !vmap[p - vbegin];
    }
  }

  lemma RunReserved(vmap: seq<bool>, vbegin: nat, table0: map<nat, nat>, table: map<nat, nat>, n: nat)
    requires PagesAgree(vmap, vbegin, table0.Keys) && FirstRun(vmap, n, 0) != -1
    requires Extends(table0, table, vbegin + FirstRun(vmap, n, 0), n)
    ensures PagesAgree(Filled(vmap, FirstRun(vmap, n, 0), n, true), vbegin, table.Keys)
  {
    var v, after := vbegin + FirstRun(vmap, n, 0), Filled(vmap, FirstRun(vmap, n, 0), n, true);
    forall i | 0 <= i < |after| ensures after[i] <==> vbegin + i in table.Keys {
      assert vbegin + i in PageRange(v, n) <==> Within(vbegin + i, v, n);
    }
  }

  /** The frames of `n` pages from `v` on are none of `used`. */
  ghost predicate Fresh(table: map<nat, nat>, used: set<nat>, v: nat, n: nat) {
    forall p :: p in PageRange(v, n) && p in table ==> table[p] !in used
  }

  lemma MappedNothing(table: map<nat, nat>, used: set<nat>, tables: set<nat>, v: nat)
    ensures Extends(table, table, v, 0) && Fresh(table, used, v, 0) && tables + RegionsOf(v, 0) == tables
    ensures Missing(tables, v, 0) == 0
  {
    assert PageRange(v, 0) == {};
    assert RegionsOf(v, 0) == {};
  }

  /** What the round for page `v + i` needs to know. */
  lemma MappedOne(table0: map<nat, nat>, table: map<nat, nat>, used: set<nat>, tables: set<nat>, v: nat, i: nat, n: nat)
    requires Extends(table0, table, v, i) && i < n && PageRange(v, n) !! table0.Keys
    ensures v + i !in table && v + i !in table0
    ensures tables + RegionsOf(v, i + 1) == tables + RegionsOf(v, i) + {Region(v + i)}
    ensures Missing(tables, v, i + 1)
         == Missing(tables, v, i) + if Region(v + i) in tables + RegionsOf(v, i) then 0 else 1
    ensures Missing(tables, v, i + 1) <= Missing(tables, v, n)
  {
    MissingGrows(tables, v, i + 1, n);
    assert Within(v + i, v, n) && v + i in PageRange(v, n);
    assert !Within(v + i, v, i);
    assert RegionsOf(v, i + 1) == RegionsOf(v, i) + {Region(v + i)};
  }

  lemma ExtendOne(table0: map<nat, nat>, before: map<nat, nat>, table: map<nat, nat>, used0: set<nat>, v: nat, i: nat)
    requires Extends(table0, before, v, i) && Fresh(before, used0, v, i) && v + i !in before && v + i !in table0
    requires v + i in table && table == before[v + i := table[v + i]] && table[v + i] !in used0
    ensures Extends(table0, table, v, i + 1) && Fresh(table, used0, v, i + 1) && before.Values <= table.Values
  {
    forall p ensures p in PageRange(v, i + 1) <==> p in PageRange(v, i) || p == v + i {
      assert Within(p, v, i + 1) <==> Within(p, v, i) || p == v + i;
    }
    forall g | g in before.Values ensures g in table.Values {
      var q :| q in before && before[q] == g;
      assert table[q] == g;
    }
  }

  lemma InRange(table: map<nat, nat>, v: nat, n: nat, i: nat)
    requires i < n && forall p :: p in PageRange(v, n) ==> p in table
    ensures v + i in table && v + i in table - PageRange(v, i)
    ensures table - PageRange(v, i + 1) == table - PageRange(v, i) - {v + i}
    ensures i + 1 < n ==> v + i + 1 in table - PageRange(v, i + 1)
  {
    assert Within(v + i, v, n) && v + i in PageRange(v, n) && !Within(v + i, v, i);
    if i + 1 < n { assert Within(v + i + 1, v, n) && v + i + 1 in PageRange(v, n) && !Within(v + i + 1, v, i + 1); }
    forall p ensures p in PageRange(v, i + 1) <==> p in PageRange(v, i) || p == v + i {
      assert Within(p, v, i + 1) <==> Within(p, v, i) || p == v + i;
    }
  }

  lemma RangeInMap(vmap: seq<bool>, vbegin: nat, table: map<nat, nat>, v: nat, n: nat)
    requires PagesAgree(vmap, vbegin, table.Keys) && 0 < n && forall p :: p in PageRange(v, n) ==> p in table
    ensures vbegin <= v && v + n <= vbegin + |vmap| && v in table && table - PageRange(v, 0) == table
  {
    assert Within(v, v, n) && v in PageRange(v, n);
    assert Within(v + n - 1, v, n) && v + n - 1 in PageRange(v, n);
    assert PageRange(v, 0) == {};
  }

  lemma RunReleased(vmap: seq<bool>, vbegin: nat, table: map<nat, nat>, v: nat, n: nat)
    requires PagesAgree(vmap, vbegin, table.Keys) && vbegin <= v
    ensures PagesAgree(Filled(vmap, v - vbegin, n, false), vbegin, (table - PageRange(v, n)).Keys)
  {
    var after := Filled(vmap, v - vbegin, n, false);
    forall i | 0 <= i < |after| ensures after[i] <==> vbegin + i in (table - PageRange(v, n)).Keys {
      assert vbegin + i in PageRange(v, n) <==> Within(vbegin + i, v, n);
    }
  }

  /** The run search of bitmap_scan also probes the bit behind the map. The run it finds is one of the map's when
      that bit is set, when the map has a run, or when it does not end in n - 1 free bits. */
  predicate Contained(vmap: seq<bool>, behind: bool, n: nat) {
    n == 1 || behind || FirstRun(vmap, n, 0) != -1 || !FreeRun(vmap, |vmap| - (n - 1), n - 1)
  }

  /** And in no other case. */
  lemma ContainedExactly(vmap: seq<bool>, behind: bool, n: nat)
    requires n > 1
    ensures FirstRun(vmap + [behind], n, 0) == FirstRun(vmap, n, 0) <==> Contained(vmap, behind, n)
  {
    var w := vmap + [behind];
    var r := FirstRun(w, n, 0);
    assert w[..|w| - 1] == vmap && w[|w| - 1] == behind;
    FirstRunUnique(w, n, r);
    ScanStaysInside(w, n, r);
    FirstRunUnique(vmap, n, r);
    if i :| FreeRun(vmap, i, n) {
      assert FirstRun(vmap, n, 0) != -1;
    }
  }

  lemma FirstRunOfOne(vmap: seq<bool>)
    requires FirstClear(vmap, 0) < |vmap|
    ensures FirstRun(vmap, 1, 0) == FirstClear(vmap, 0)
  {
    var r := FirstClear(vmap, 0);
    assert FreeRun(vmap, r, 1);
    forall i | i < r ensures !FreeRun(vmap, i, 1) {
      if 0 <= i {
        TakenBitBreaksRun(vmap, i, i, 1);
      }
    }
    FirstRunUnique(vmap, 1, r);
  }

  /** One address space and the two pools. */
  class AddressSpace {
    const kernel: Pool
    const user: Pool
    const inKernel: bool
    const vbegin: nat
    var vmap: seq<bool>
    var behind: bool  // the bit of memory behind the map
    var table: map<nat, nat>
    var tables: set<nat>  // the directory entries that are present
    ghost var taken: set<nat>  // frames that are not pages of this space

    constructor (kernel: Pool, user: Pool, inKernel: bool, vbegin: nat, vmap: seq<bool>, behind: bool,
                 table: map<nat, nat>, tables: set<nat>, ghost taken: set<nat>)
      ensures this.kernel == kernel && this.user == user && this.inKernel == inKernel && this.vbegin == vbegin
      ensures this.vmap == vmap && this.behind == behind && this.table == table
      ensures this.tables == tables && this.taken == taken
    {
      this.kernel := kernel;
      this.user := user;
      this.inKernel := inKernel;
      this.vbegin := vbegin;
      this.vmap := vmap;
      this.behind := behind;
      this.table := table;
      this.tables := tables;
      this.taken := taken;
    }

    ghost predicate Frames()
      reads this, kernel, user
    {
      && kernel != user && 0 < vbegin
      && FramesAgree(kernel.bits, kernel.begin, user.bits, user.begin, inKernel, table, tables, taken)
      && (inKernel ==> forall p :: vbegin <= p <= vbegin + |vmap| ==> Region(p) in tables)
    }

    ghost predicate Valid()
      reads this, kernel, user
    {
      Frames() && PagesAgree(vmap, vbegin, table.Keys)
    }

    twostate predicate SameSizes()
      reads this, kernel, user
    {
      |vmap| == |old(vmap)| && |kernel.bits| == |old(kernel.bits)| && |user.bits| == |old(user.bits)|
    }

    function Pages(): Pool {
      if inKernel then kernel else user
    }

    /** palloc for the page, then page_table_add, which takes a frame for a missing table first. */
    method MapPage(p: nat) returns (halted: bool)
      requires Frames() && p !in table && InPool(p, vbegin, vmap)
      modifies kernel, user, this`table, this`tables, this`taken
      ensures halted <==>
        || old(FreeIn(Pages().bits)) == {}
        || (Region(p) !in old(tables) && old(FreeIn(kernel.bits)) == {})
      ensures SameSizes()
      ensures !halted ==> Frames() && p in table && table == old(table)[p := table[p]]
      ensures !halted ==> table[p] !in old(taken) + old(table).Values + taken
      ensures !halted ==> tables == old(tables) + {Region(p)} && old(taken) <= taken
      ensures !halted ==> |FreeIn(Pages().bits)| == |old(FreeIn(Pages().bits))| - 1
      ensures !halted && !inKernel ==>
        |FreeIn(kernel.bits)| == |old(FreeIn(kernel.bits))| - if Region(p) in old(tables) then 0 else 1
    {
      hide FramesAgree, FreeIn, Region;
      var f;
      halted, f := Pages().Palloc();
      if halted {
        return;
      }
      if Region(p) !in tables {
        var t;
        halted, t := kernel.Palloc();
        if halted {
          return;
        }
        TableOne(old(kernel.bits), kernel.begin, old(user.bits), user.begin, inKernel, table, tables, taken, Region(p),
                 t);
        tables, taken := tables + {Region(p)}, taken + {t};
        MapOne(kernel.bits, kernel.begin, old(user.bits), user.begin, inKernel, table, tables, taken, p, f);
      } else {
        MapOne(old(kernel.bits), kernel.begin, old(user.bits), user.begin, inKernel, table, tables, taken, p, f);
      }
      table := table[p := f];
    }

    /** vaddr_get; page 0 stands for NULL. */
    method VaddrGet(n: nat) returns (r: Run<nat>)
      requires 0 < n && 0 < vbegin && Contained(vmap, behind, n)
      modifies this`vmap
      ensures r == Halted <==> FreeIn(old(vmap)) == {} || Refused(old(vmap), n)
      ensures |vmap| == |old(vmap)| && (r == Done(0) ==> vmap == old(vmap))
      ensures r.Done? && r.value != 0 ==> vmap == Filled(old(vmap), FirstRun(old(vmap), n, 0), n, true)
      ensures r.Done? ==> r.value == if FirstRun(old(vmap), n, 0) == -1 then 0 else vbegin + FirstRun(old(vmap), n, 0)
    {
      NothingFree(vmap);
      if FirstClear(vmap, 0) == |vmap| {
        return Halted;
      }
      var start := FirstClear(vmap, 0);
      if n > 1 {
        start := FirstRun(vmap + [behind], n, 0);
        ContainedExactly(vmap, behind, n);
      } else {
        FirstRunOfOne(vmap);
      }
      if start == -1 {
        return Done(0);
      }
      SetBits(start, n, true);
      if !inKernel && vbegin + start >= USER_TOP {  // ASSERT
        return Halted;
      }
      r := Done(vbegin + start);
    }

    /** The ASSERT on where a user allocation starts. */
    predicate Refused(vmap: seq<bool>, n: nat) {
      !inKernel && FirstRun(vmap, n, 0) != -1 && vbegin + FirstRun(vmap, n, 0) >= USER_TOP
    }

    /** The bit loops of vaddr_get and vaddr_remove. */
    method SetBits(start: nat, n: nat, value: bool)
      requires start + n <= |vmap|
      modifies this`vmap
      ensures vmap == Filled(old(vmap), start, n, value)
    {
      var counting := 0;
      while counting < n
        invariant counting <= n && vmap == Filled(old(vmap), start, counting, value)
      {
        vmap := vmap[start + counting := value];
        counting := counting + 1;
      }
    }

    /** Too few frames for `n` pages from `v` on, or for the tables they need. */
    ghost predicate Short(pages: set<nat>, kernelPages: set<nat>, tables: set<nat>, v: nat, n: nat) {
      |pages| < n || (!inKernel && |kernelPages| < Missing(tables, v, n))
    }

    /** Where malloc_page stops the kernel: an ASSERT fails, or there are too few frames. */
    ghost predicate Stuck(n: nat)
      reads this, kernel, user
    {
      || !(0 < n < 3840) || FreeIn(vmap) == {} || Refused(vmap, n)
      || (FirstRun(vmap, n, 0) != -1 &&
          Short(FreeIn(Pages().bits), FreeIn(kernel.bits), tables, vbegin + FirstRun(vmap, n, 0), n))
    }

    /** Where it answers NULL: there is a free page, but no run of `n`. */
    ghost predicate NoRun(n: nat)
      reads this
    {
      0 < n < 3840 && FreeIn(vmap) != {} && FirstRun(vmap, n, 0) == -1
    }

    /** The mapping loop of malloc_page. */
    method MapPages(v: nat, n: nat) returns (halted: bool)
      requires Frames() && vbegin <= v && v + n <= vbegin + |vmap| && PageRange(v, n) !! table.Keys
      modifies kernel, user, this`table, this`tables, this`taken
      ensures halted <==> Short(old(FreeIn(Pages().bits)), old(FreeIn(kernel.bits)), old(tables), v, n)
      ensures SameSizes()
      ensures !halted ==> Frames() && old(taken) <= taken && tables == old(tables) + RegionsOf(v, n)
      ensures !halted ==> Extends(old(table), table, v, n) && Fresh(table, old(taken) + old(table).Values, v, n)
    {
      hide FramesAgree, FreeIn, Region, Pages, Extends, Fresh, RegionsOf, PageRange, Missing;
      ghost var table0, taken0, tables0 := table, taken, tables;
      ghost var used0 := taken + table.Values;
      MappedNothing(table0, used0, tables0, v);
      var i := 0;
      while i < n
        invariant SameSizes()
        invariant i <= n && Frames() && taken0 <= taken && tables == tables0 + RegionsOf(v, i)
        invariant Extends(table0, table, v, i) && Fresh(table, used0, v, i) && used0 <= taken + table.Values
        invariant |FreeIn(Pages().bits)| == |old(FreeIn(Pages().bits))| - i
        invariant !inKernel ==> |FreeIn(kernel.bits)| == |old(FreeIn(kernel.bits))| - Missing(tables0, v, i)
      {
        ghost var before, used := table, taken + table.Values;
        MappedOne(table0, table, used0, tables0, v, i, n);
        halted := MapPage(v + i);
        if halted {
          return;
        }
        ExtendOne(table0, before, table, used0, v, i);
        i := i + 1;
      }
      halted := false;
    }

    /** malloc_page: a first-fit run of pages, each with a frame of its own that nobody used before, from
        the pool of this address space. */
    method MallocPage(n: nat) returns (r: Run<nat>)
      requires Valid() && (0 < n < 3840 ==> Contained(vmap, behind, n))
      modifies kernel, user, this`vmap, this`table, this`tables, this`taken
      ensures r == Done(0) <==> old(NoRun(n))
      ensures r == Done(0) ==> unchanged(this, kernel, user)
      ensures SameSizes()
      ensures r == Halted <==> old(Stuck(n))
      ensures r.Done? && r.value != 0 ==> Valid() && r.value == vbegin + FirstRun(old(vmap), n, 0)
      ensures r.Done? && r.value != 0 ==> Extends(old(table), table, r.value, n)
      ensures r.Done? && r.value != 0 ==> PageRange(r.value, n) !! old(table).Keys
      ensures r.Done? && r.value != 0 ==> old(taken) <= taken && tables == old(tables) + RegionsOf(r.value, n)
      ensures r.Done? && r.value != 0 ==> Fresh(table, old(taken) + old(table).Values, r.value, n)
    {
      hide FramesAgree, FreeIn, Region, Short, Extends, Filled, Fresh, Contained;
      if !(0 < n < 3840) {  // ASSERT
        return Halted;
      }
      r := VaddrGet(n);
      if r == Halted || r == Done(0) {
        return;
      }
      RunIsUnmapped(old(vmap), vbegin, table.Keys, n);
      var halted := MapPages(r.value, n);
      if halted {
        return Halted;
      }
      RunReserved(old(vmap), vbegin, old(table), table, n);
    }

    method Pfree(f: nat)
      requires
        || user.begin <= f < user.begin + |user.bits|
        || (kernel.begin <= f < kernel.begin + |kernel.bits| && f < user.begin)
      requires kernel != user
      modifies kernel, user
      ensures kernel.bits == if f >= user.begin then old(kernel.bits) else old(kernel.bits)[f - kernel.begin := false]
      ensures user.bits == if f >= user.begin then old(user.bits)[f - user.begin := false] else old(user.bits)
    {
      if f >= user.begin {
        user.bits := user.bits[f - user.begin := false];
      } else {
        kernel.bits := kernel.bits[f - kernel.begin := false];
      }
    }

    /** One round of the loops of mfree_page. */
    method UnmapPage(p: nat)
      requires Frames() && p in table
      modifies kernel, user, this`table
      ensures Frames() && table == old(table) - {p} && SameSizes()
      ensures if inKernel then kernel.begin <= old(table)[p] < user.begin else user.begin <= old(table)[p]
    {
      hide Injective, PoolAgrees, Region;
      UnmapOne(kernel.bits, kernel.begin, user.bits, user.begin, inKernel, table, tables, taken, p);
      Pfree(table[p]);
      table := table - {p};
    }

    /** mfree_page of pages that are mapped. After the last page it still reads the entry of the page
        behind it, which faults when that page has no table. */
    method MfreePage(v: nat, n: nat) returns (halted: bool)
      requires Valid() && 0 < n && forall p :: p in PageRange(v, n) ==> p in table
      modifies kernel, user, this`vmap, this`table
      ensures halted <==> Region(v + n) !in tables
      ensures SameSizes()
      ensures !halted ==> Valid() && table == old(table) - PageRange(v, n)
    {
      hide FramesAgree, Region, Filled, PageRange, PagesAgree;
      ghost var table0 := table;
      RangeInMap(vmap, vbegin, table, v, n);
      MappedFrame(v);
      var f := table[v];
      if f < 0x102 {  // ASSERT
        return true;
      }
      var counting := 0;
      while counting < n
        invariant counting <= n && Frames() && table == table0 - PageRange(v, counting)
        invariant counting < n ==> v + counting in table && f == table[v + counting]
        invariant SameSizes() && vmap == old(vmap) && (0 < counting ==> Region(v + counting) in tables)
      {
        InRange(table0, v, n, counting);
        UnmapPage(v + counting);
        counting := counting + 1;
        if counting < n {
          MappedFrame(v + counting);
        }
        if Region(v + counting) !in tables {  // page fault
          return true;
        }
        if v + counting in table {
          f := table[v + counting];
        }
      }
      SetBits(v - vbegin, n, false);
      RunReleased(old(vmap), vbegin, table0, v, n);
      halted := false;
    }

    lemma MappedFrame(p: nat)
      requires Frames() && p in table
      ensures table[p] >= 0x102 && Region(p) in tables
    {
    }
  }

  lemma SamePages(vmap: seq<bool>, vmap1: seq<bool>, vbegin: nat, pages: set<nat>)
    requires PagesAgree(vmap, vbegin, pages) && PagesAgree(vmap1, vbegin, pages) && |vmap1| == |vmap|
    ensures vmap1 == vmap
  {
  }

  lemma TakenBack(table0: map<nat, nat>, table: map<nat, nat>, v: nat, n: nat)
    requires Extends(table0, table, v, n) && PageRange(v, n) !! table0.Keys
    ensures table - PageRange(v, n) == table0
  {
  }

  /** A pool is as it was, but for the frames `more`. */
  ghost predicate Restored(bits0: seq<bool>, bits: seq<bool>, begin: nat, more: set<nat>) {
    |bits| == |bits0| && forall j :: 0 <= j < |bits| ==> (bits[j] <==> bits0[j] || begin + j in more)
  }

  lemma SameFrames(k0: seq<bool>, k1: seq<bool>, kbegin: nat, u0: seq<bool>, u1: seq<bool>, ubegin: nat, inKernel: bool,
                   table: map<nat, nat>, tables0: set<nat>, tables1: set<nat>, taken0: set<nat>, taken1: set<nat>)
    requires FramesAgree(k0, kbegin, u0, ubegin, inKernel, table, tables0, taken0) && |k1| == |k0| && |u1| == |u0|
    requires FramesAgree(k1, kbegin, u1, ubegin, inKernel, table, tables1, taken1) && taken0 <= taken1
    ensures Restored(k0, k1, kbegin, taken1 - taken0) && Restored(u0, u1, ubegin, taken1 - taken0)
  {
  }

  /** Freeing what was just allocated restores the bitmaps and the mapping, but for the frames that
      went into new page tables. */
  method MallocThenFree(space: AddressSpace, n: nat) returns (ok: bool)
    requires space.Valid() && (0 < n < 3840 ==> Contained(space.vmap, space.behind, n))
    modifies space.kernel, space.user, space`vmap, space`table, space`tables, space`taken
    ensures ok <==>
      && !old(space.Stuck(n)) && !old(space.NoRun(n))
      && Region(space.vbegin + FirstRun(old(space.vmap), n, 0) + n) in space.tables
    ensures ok ==> space.Valid() && space.table == old(space.table) && space.vmap == old(space.vmap)
    ensures ok ==> old(space.taken) <= space.taken
    ensures ok ==>
      Restored(old(space.kernel.bits), space.kernel.bits, space.kernel.begin, space.taken - old(space.taken))
    ensures ok ==> Restored(old(space.user.bits), space.user.bits, space.user.begin, space.taken - old(space.taken))
  {
    hide FramesAgree, PagesAgree, AddressSpace.Short, Region, RegionsOf, FreeIn, PageRange, Fresh;
    ghost var table0 := space.table;
    var r := space.MallocPage(n);
    if r == Halted || r == Done(0) {
      return false;
    }
    ghost var table1 := space.table;
    var halted := space.MfreePage(r.value, n);
    if halted {
      return false;
    }
    TakenBack(old(space.table), table1, r.value, n);
    SamePages(old(space.vmap), space.vmap, space.vbegin, space.table.Keys);
    SameFrames(old(space.kernel.bits), space.kernel.bits, space.kernel.begin,
               old(space.user.bits), space.user.bits, space.user.begin,
               space.inKernel, table0, old(space.tables), space.tables, old(space.taken), space.taken);
    ok := true;
  }

  const U16 := 0x1_0000
  const U32 := 0x1_0000_0000
  const USED := 0x20_0000  // the low megabyte and the page tables

  datatype Layout = Layout(kernelBegin: nat, kernelBits: nat, userBegin: nat, userBits: nat)

  /** mem_pool_init: the pools for a machine with `bytes` bytes of memory. The page count goes through
      an unsigned short, and partial bytes of the bitmaps are dropped. */
  function PoolLayout(bytes: nat): Layout
    requires bytes < U32
  {
    var freeMem := (bytes + U32 - USED) % U32;
    var allPages := freeMem / 4096 % U16;
    var kernelPages := allPages / 2;
    var userPages := allPages - kernelPages;
    Layout(USED / 4096, kernelPages / 8 * 8, USED / 4096 + kernelPages, userPages / 8 * 8)
  }

  /** The pools never overlap, and they lie inside the memory exactly when the machine has the two
      megabytes that are in use from the start. */
  lemma PoolsFit(bytes: nat)
    requires bytes < U32
    ensures var l := PoolLayout(bytes);
      && l.kernelBegin + l.kernelBits <= l.userBegin
      && (l.userBegin + l.userBits <= bytes / 4096 <==> bytes >= USED)
  {
    if bytes < USED {
      assert (bytes + U32 - USED) / 4096 == bytes / 4096 + 1048064;
    } else {
      assert (bytes + U32 - USED) % U32 == bytes - USED;
    }
  }

  /** The free pages are halved, the odd one going to the user, and each pool loses fewer than eight frames at
      its end. That is all that is lost exactly below 258 megabytes, where the count of pages fits 16 bits. */
  lemma PoolsHalved(bytes: nat)
    requires USED <= bytes < U32
    ensures var l, pages := PoolLayout(bytes), (bytes - USED) / 4096 % U16;
      && l.kernelBegin == 0x200 && l.userBegin == 0x200 + pages / 2
      && 0 <= l.userBegin - (l.kernelBegin + l.kernelBits) < 8 && l.kernelBits % 8 == 0
      && 0 <= pages - pages / 2 - l.userBits < 8 && l.userBits % 8 == 0
      && (bytes / 4096 - (l.userBegin + l.userBits) < 8 <==> bytes < 258 * 0x10_0000)
  {
    var free := bytes - USED;
    assert (bytes + U32 - USED) % U32 == free;
    assert bytes / 4096 == 0x200 + free / 4096;
    var pages := free / 4096;
    assert pages == pages / U16 * U16 + pages % U16;
  }

  const K_HEAP_START := 0xC0100  // the page of 0xC0100000

  /** The loader's directory entries but for the one that names the directory itself. */
  function LoaderRegions(): set<nat> {
    set r: nat | r < 1023 && FromLoader(r)
  }

  predicate FromLoader(r: nat) {
    r == 0 || 768 <= r
  }

  lemma HeapMapped(n: nat)
    requires n < U16 / 2
    ensures forall p :: K_HEAP_START <= p <= K_HEAP_START + n ==> Region(p) in LoaderRegions()
  {
    forall p | K_HEAP_START <= p <= K_HEAP_START + n ensures Region(p) in LoaderRegions() {
      assert 768 <= p / 1024 < 1023 && FromLoader(p / 1024);
    }
  }

  lemma LayoutSmall(bytes: nat)
    requires bytes < U32
    ensures PoolLayout(bytes).kernelBits < U16 / 2 && 0x102 <= PoolLayout(bytes).kernelBegin
  {
  }

  /** mem_pool_init: two empty pools and the kernel's pages, in agreement from the start. */
  method MemPoolInit(bytes: nat, behind: bool) returns (space: AddressSpace)
    requires bytes < U32
    ensures fresh(space) && fresh(space.kernel) && fresh(space.user) && space.Valid() && space.inKernel
    ensures space.table == map[]
    ensures space.vbegin == 0xC0000 + 0x100 && |space.vmap| == PoolLayout(bytes).kernelBits
    ensures var l := PoolLayout(bytes);
      && space.kernel.begin == l.kernelBegin && |space.kernel.bits| == l.kernelBits && space.user.begin == l.userBegin
      && |space.user.bits| == l.userBits
    ensures true !in space.kernel.bits && true !in space.user.bits && true !in space.vmap
  {
    hide Region, PoolLayout, LoaderRegions;
    var l := PoolLayout(bytes);
    LayoutSmall(bytes);
    PoolsFit(bytes);
    HeapMapped(l.kernelBits);
    var kernel := new Pool(l.kernelBegin, Clear(l.kernelBits));
    var user := new Pool(l.userBegin, Clear(l.userBits));
    space := new AddressSpace(kernel, user, true, K_HEAP_START, Clear(l.kernelBits), behind, map[], LoaderRegions(),
                              {});
    assert {} + space.table.Values == {};
  }

  /** bitmap_init */
  function Clear(n: nat): (s: seq<bool>)
    ensures |s| == n && true !in s
  {
    seq(n, _ => false)
  }
}
