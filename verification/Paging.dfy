/** kernel/c12f_memory.c and user/c12e_process.c: two-level page tables reached through themselves.
    The walk is that of section 4.3 of the Intel SDM, volume 3A, for 4-KByte pages. */
module Paging {
  import opened Debug

  /** Physical memory, by the address of each aligned 32-bit word. */
  type Mem = bv32 -> bv32

  const SELF: bv32 := 0x3ff    // the directory entry that points back at the directory
  const KERNEL: bv32 := 0x300  // the first directory entry of the kernel's gigabyte

  function Hi(v: bv32): bv32 {
    v >> 22
  }

  function Mid(v: bv32): bv32 {
    (v >> 12) & 0x3ff
  }

  function Low(v: bv32): bv32 {
    v & 0xfff
  }

  function Frame(w: bv32): bv32 {
    w & 0xfffff000
  }

  predicate Present(w: bv32) {
    w & 1 == 1
  }

  /** A present entry for the frame `p`. */
  function Entry(p: bv32): bv32 {
    p | 7  // PG_US_U | PG_RW_W | PG_P_1
  }

  /** Word `i` of the page at `frame`. */
  function Word(frame: bv32, i: bv32): bv32 {
    frame | (i << 2)
  }

  /** The byte at offset `low` of the page at `frame`. */
  function Byte(frame: bv32, low: bv32): bv32 {
    frame | low
  }

  function Pde(mem: Mem, dir: bv32, v: bv32): bv32 {
    mem(Word(dir, Hi(v)))
  }

  function PteAddr(mem: Mem, dir: bv32, v: bv32): bv32 {
    Word(Frame(Pde(mem, dir, v)), Mid(v))
  }

  datatype Phys = Fault | At(addr: bv32)

  function Translate(mem: Mem, dir: bv32, v: bv32): Phys {
    if !Present(Pde(mem, dir, v)) then Fault
    else if !Present(mem(PteAddr(mem, dir, v))) then Fault
    else At(Byte(Frame(mem(PteAddr(mem, dir, v))), Low(v)))
  }

  const ALL: bv32 := 7  // present, and open to writing and to user code

  predicate Allows(w: bv32) {
    w & ALL == ALL
  }

  function Both(x: bv32, y: bv32): bv32 {
    x & y & ALL
  }

  /** What both levels of the walk allow: bit 0 stands for presence, bit 1 for writing, bit 2 for user code. */
  function Granted(mem: Mem, dir: bv32, v: bv32): bv32 {
    if Translate(mem, dir, v) == Fault then 0 else Both(Pde(mem, dir, v), mem(PteAddr(mem, dir, v)))
  }

  /** Directory entries allow everything; the table entries decide. */
  ghost predicate OpenDirectories(mem: Mem, dirs: set<bv32>) {
    forall d, i :: d in dirs && i < 1024 && Present(mem(Word(d, i))) ==> Allows(mem(Word(d, i)))
  }

  /** The pages that share the entry of `v` are open to writing and to user code, and all others as before. */
  ghost predicate Opened(mem0: Mem, mem1: Mem, dirs: set<bv32>, dir: bv32, v: bv32) {
    forall d, u :: d in dirs && Hi(u) < SELF ==>
      Granted(mem1, d, u) == if Shares(mem1, d, u, dir, v) then ALL else Granted(mem0, d, u)
  }

  /** pte_ptr */
  function PtePtr(v: bv32): bv32 {
    0xffc00000 + ((v & 0xffc00000) >> 10) + ((v & 0x003ff000) >> 12) * 4
  }

  /** pde_ptr */
  function PdePtr(v: bv32): bv32 {
    0xfffff000 + ((v & 0xffc00000) >> 22) * 4
  }

  ghost predicate SelfMapped(mem: Mem, dir: bv32) {
    Frame(dir) == dir && Present(mem(Word(dir, SELF))) && Frame(mem(Word(dir, SELF))) == dir
  }

  lemma PtePtrParts(v: bv32)
    ensures Hi(PtePtr(v)) == SELF && Mid(PtePtr(v)) == Hi(v) && Low(PtePtr(v)) == Mid(v) << 2
  {
  }

  lemma PdePtrParts(v: bv32)
    ensures Hi(PdePtr(v)) == SELF && Mid(PdePtr(v)) == SELF && Low(PdePtr(v)) == Hi(v) << 2
  {
  }

  /** The walk of pde_ptr(v) ends at the directory entry the walk of `v` uses. */
  lemma PdePtrWalk(mem: Mem, dir: bv32, v: bv32)
    requires SelfMapped(mem, dir)
    ensures Translate(mem, dir, PdePtr(v)) == At(Word(dir, Hi(v)))
  {
    PdePtrParts(v);
  }

  /** The walk of pte_ptr(v) ends at the table entry the walk of `v` uses, and faults when there is
      no table. */
  lemma PtePtrWalk(mem: Mem, dir: bv32, v: bv32)
    requires SelfMapped(mem, dir)
    ensures Translate(mem, dir, PtePtr(v)) == if Present(Pde(mem, dir, v)) then At(PteAddr(mem, dir, v)) else Fault
  {
    PtePtrParts(v);
  }

  lemma WordParts(d: bv32, i: bv32)
    requires Frame(d) == d && i < 1024
    ensures Frame(Word(d, i)) == d && Low(Word(d, i)) == i << 2
  {
  }

  lemma WordsDiffer(d: bv32, i: bv32, e: bv32, j: bv32)
    requires Frame(d) == d && Frame(e) == e && i < 1024 && j < 1024
    ensures Word(d, i) == Word(e, j) <==> d == e && i == j
  {
  }

  lemma Indexes(v: bv32)
    ensures Hi(v) < 1024 && Mid(v) < 1024
  {
  }

  lemma FrameTwice(w: bv32)
    ensures Frame(Frame(w)) == Frame(w)
  {
  }

  lemma EntryParts(p: bv32)
    requires Frame(p) == p
    ensures Frame(Entry(p)) == p && Present(Entry(p))
  {
  }

  lemma EntryAllows(p: bv32)
    requires Frame(p) == p
    ensures Allows(Entry(p))
  {
  }

  lemma BothAllow(x: bv32, y: bv32)
    requires Allows(x) && Allows(y)
    ensures Both(x, y) == ALL
  {
  }

  /** Every directory maps itself, and no directory serves as a page table. */
  ghost predicate Tidy(mem: Mem, dirs: set<bv32>) {
    && (forall d :: d in dirs ==> SelfMapped(mem, d))
    && forall d, i :: d in dirs && i < SELF && Present(mem(Word(d, i))) ==> Frame(mem(Word(d, i))) !in dirs
  }

  /** A frame that is neither a directory nor a page table. */
  ghost predicate Unused(mem: Mem, dirs: set<bv32>, f: bv32) {
    && Frame(f) == f && f !in dirs
    && forall d, i :: d in dirs && i < SELF && Present(mem(Word(d, i))) ==> Frame(mem(Word(d, i))) != f
  }

  /** The walk of `u` in `d` and the walk of `v` in `dir` use the same table entry. */
  predicate Shares(mem: Mem, d: bv32, u: bv32, dir: bv32, v: bv32) {
    Present(Pde(mem, d, u)) && PteAddr(mem, d, u) == PteAddr(mem, dir, v)
  }

  /** In every address space, exactly the pages that share the entry of `v` now show frame `p`. */
  ghost predicate Mapped(mem0: Mem, mem1: Mem, dirs: set<bv32>, dir: bv32, v: bv32, p: bv32) {
    forall d, u :: d in dirs && Hi(u) < SELF ==>
      Translate(mem1, d, u) == if Shares(mem1, d, u, dir, v) then At(Byte(p, Low(u))) else Translate(mem0, d, u)
  }

  ghost predicate SameDirectories(mem0: Mem, mem1: Mem, dirs: set<bv32>) {
    forall d, i :: d in dirs && i < 1024 ==> mem1(Word(d, i)) == mem0(Word(d, i))
  }

  function Stored(mem: Mem, at: bv32, w: bv32): Mem {
    a => if a == at then w else mem(a)
  }

  lemma EntrySeen(mem: Mem, after: Mem, d: bv32, u: bv32, dir: bv32, v: bv32, p: bv32)
    requires Pde(after, d, u) == Pde(mem, d, u) && Pde(after, dir, v) == Pde(mem, dir, v) && Frame(p) == p
    requires forall a :: after(a) == if a == PteAddr(mem, dir, v) then Entry(p) else mem(a)
    ensures Translate(after, d, u) == if Shares(after, d, u, dir, v) then At(Byte(p, Low(u))) else Translate(mem, d, u)
  {
    hide Hi, Mid, Low, Frame, Word, Byte, Present, Entry;
    EntryParts(p);
  }

  lemma EntryGrants(mem: Mem, after: Mem, d: bv32, u: bv32, dir: bv32, v: bv32, p: bv32)
    requires Pde(after, d, u) == Pde(mem, d, u) && Pde(after, dir, v) == Pde(mem, dir, v) && Frame(p) == p
    requires Present(Pde(mem, d, u)) ==> Allows(Pde(mem, d, u))
    requires forall a :: after(a) == if a == PteAddr(mem, dir, v) then Entry(p) else mem(a)
    ensures Granted(after, d, u) == if Shares(after, d, u, dir, v) then ALL else Granted(mem, d, u)
  {
    hide Hi, Mid, Low, Frame, Word, Byte, Present, Entry, Allows, Both;
    EntryParts(p);
    EntryAllows(p);
    if Present(Pde(mem, d, u)) {
      BothAllow(Pde(mem, d, u), Entry(p));
    }
  }

  /** Writing an entry of a table that exists opens its page. */
  lemma SetOpens(mem: Mem, after: Mem, dirs: set<bv32>, dir: bv32, v: bv32, p: bv32)
    requires Tidy(mem, dirs) && dir in dirs && Hi(v) < SELF && Frame(p) == p && Present(Pde(mem, dir, v))
    requires OpenDirectories(mem, dirs) && SameDirectories(mem, after, dirs)
    requires forall a :: after(a) == if a == PteAddr(mem, dir, v) then Entry(p) else mem(a)
    ensures OpenDirectories(after, dirs) && Opened(mem, after, dirs, dir, v)
  {
    hide Hi, Mid, Low, Frame, Word, Byte, Present, Entry, Tidy, Allows, Both;
    Indexes(v);
    forall d, u | d in dirs && Hi(u) < SELF
      ensures Granted(after, d, u) == if Shares(after, d, u, dir, v) then ALL else Granted(mem, d, u)
    {
      Indexes(u);
      hide Granted, Shares, PteAddr;
      EntryGrants(mem, after, d, u, dir, v, p);
    }
  }

  lemma EntryElsewhere(mem: Mem, dirs: set<bv32>, dir: bv32, v: bv32, d: bv32, i: bv32)
    requires Tidy(mem, dirs) && dir in dirs && Hi(v) < SELF && Present(Pde(mem, dir, v)) && d in dirs && i < 1024
    ensures PteAddr(mem, dir, v) != Word(d, i)
  {
    hide Hi, Mid, Low, Frame, Word, Present;
    FrameTwice(Pde(mem, dir, v));
    Indexes(v);
    WordsDiffer(d, i, Frame(Pde(mem, dir, v)), Mid(v));
  }

  /** Writing an entry of a table that exists. */
  lemma SetEntry(mem: Mem, after: Mem, dirs: set<bv32>, dir: bv32, v: bv32, p: bv32)
    requires Tidy(mem, dirs) && dir in dirs && Hi(v) < SELF && Frame(p) == p && Present(Pde(mem, dir, v))
    requires forall a :: after(a) == if a == PteAddr(mem, dir, v) then Entry(p) else mem(a)
    ensures SameDirectories(mem, after, dirs) && Mapped(mem, after, dirs, dir, v, p)
  {
    hide Hi, Mid, Low, Frame, Word, Byte, Present, Entry, Tidy;
    forall d, i | d in dirs && i < 1024 ensures after(Word(d, i)) == mem(Word(d, i)) {
      EntryElsewhere(mem, dirs, dir, v, d, i);
    }
    Indexes(v);
    forall d, u | d in dirs && Hi(u) < SELF
      ensures Translate(after, d, u)
           == if Shares(after, d, u, dir, v) then At(Byte(p, Low(u))) else Translate(mem, d, u)
    {
      Indexes(u);
      hide Translate, Shares, PteAddr;
      EntrySeen(mem, after, d, u, dir, v, p);
    }
  }

  lemma StaysTidy(mem: Mem, after: Mem, dirs: set<bv32>)
    requires Tidy(mem, dirs) && SameDirectories(mem, after, dirs)
    ensures Tidy(after, dirs)
  {
    hide Frame, Word, Present;
  }

  function Absent(w: bv32): (r: bv32)
    ensures !Present(r)
  {
    w & 0xfffffffe
  }

  /** Nothing but the present bit goes. */
  lemma AbsentKeeps(w: bv32)
    ensures Frame(Absent(w)) == Frame(w) && Absent(w) | 1 == w | 1 && Absent(w) & 1 == 0
  {
  }

  /** In every address space, exactly the pages that share the entry of `v` are gone. */
  ghost predicate Unmapped(mem0: Mem, mem1: Mem, dirs: set<bv32>, dir: bv32, v: bv32) {
    forall d, u :: d in dirs && Hi(u) < SELF ==>
      Translate(mem1, d, u) == if Shares(mem0, d, u, dir, v) then Fault else Translate(mem0, d, u)
  }

  /** What is left keeps what it allowed. */
  lemma ClearedGrants(mem: Mem, after: Mem, dirs: set<bv32>, dir: bv32, v: bv32, w: bv32)
    requires Tidy(mem, dirs) && dir in dirs && Hi(v) < SELF && Present(Pde(mem, dir, v)) && !Present(w)
    requires SameDirectories(mem, after, dirs)
    requires forall a :: after(a) == if a == PteAddr(mem, dir, v) then w else mem(a)
    ensures forall d, u :: d in dirs && Hi(u) < SELF ==>
      Granted(after, d, u) == if Shares(mem, d, u, dir, v) then 0 else Granted(mem, d, u)
  {
    hide Hi, Mid, Low, Frame, Word, Byte, Present, Tidy, Both;
    forall d, u | d in dirs && Hi(u) < SELF
      ensures Granted(after, d, u) == if Shares(mem, d, u, dir, v) then 0 else Granted(mem, d, u)
    {
      Indexes(u);
    }
  }

  lemma ClearEntry(mem: Mem, after: Mem, dirs: set<bv32>, dir: bv32, v: bv32, w: bv32)
    requires Tidy(mem, dirs) && dir in dirs && Hi(v) < SELF && Present(Pde(mem, dir, v)) && !Present(w)
    requires forall a :: after(a) == if a == PteAddr(mem, dir, v) then w else mem(a)
    ensures SameDirectories(mem, after, dirs) && Unmapped(mem, after, dirs, dir, v)
  {
    hide Hi, Mid, Low, Frame, Word, Byte, Present, Tidy;
    forall d, i | d in dirs && i < 1024 ensures after(Word(d, i)) == mem(Word(d, i)) {
      EntryElsewhere(mem, dirs, dir, v, d, i);
    }
    forall d, u | d in dirs && Hi(u) < SELF
      ensures Translate(after, d, u) == if Shares(mem, d, u, dir, v) then Fault else Translate(mem, d, u)
    {
      Indexes(u);
    }
  }

  /** What the new-table branch leaves before it writes the entry: an empty table at `f`. */
  ghost predicate TableAdded(mem: Mem, after: Mem, dir: bv32, v: bv32, f: bv32) {
    && after(Word(dir, Hi(v))) == Entry(f)
    && (forall j :: j < 1024 ==> after(Word(f, j)) == 0)
    && forall a :: a != Word(dir, Hi(v)) && Frame(a) != f ==> after(a) == mem(a)
  }

  lemma DirectoriesAfter(mem: Mem, after: Mem, dirs: set<bv32>, dir: bv32, v: bv32, f: bv32, d: bv32, i: bv32)
    requires Tidy(mem, dirs) && dir in dirs && Hi(v) < SELF && f !in dirs && TableAdded(mem, after, dir, v, f)
    requires d in dirs && i < 1024
    ensures after(Word(d, i)) == if d == dir && i == Hi(v) then Entry(f) else mem(Word(d, i))
  {
    hide Hi, Mid, Low, Frame, Word, Byte, Present, Entry;
    WordParts(d, i);
    Indexes(v);
    WordsDiffer(d, i, dir, Hi(v));
  }

  lemma EmptyTable(mem: Mem, after: Mem, dirs: set<bv32>, dir: bv32, v: bv32, f: bv32, d: bv32, u: bv32)
    requires Tidy(mem, dirs) && dir in dirs && Hi(v) < SELF && !Present(Pde(mem, dir, v)) && Unused(mem, dirs, f)
    requires TableAdded(mem, after, dir, v, f) && d in dirs && Hi(u) < SELF
    ensures Translate(after, d, u) == Translate(mem, d, u)
  {
    hide Hi, Mid, Low, Frame, Word, Byte, Entry;
    EntryParts(f);
    Indexes(u);
    DirectoriesAfter(mem, after, dirs, dir, v, f, d, Hi(u));
    FrameTwice(Pde(mem, d, u));
    WordParts(Frame(Pde(mem, d, u)), Mid(u));
    Indexes(v);
    WordsDiffer(Frame(Pde(mem, d, u)), Mid(u), dir, Hi(v));
  }

  /** Of all directories only the entry of `v` in `dir` may differ. */
  ghost predicate OnlyEntry(mem0: Mem, mem1: Mem, dirs: set<bv32>, dir: bv32, v: bv32) {
    forall d, i :: d in dirs && i < 1024 && !(d == dir && i == Hi(v)) ==> mem1(Word(d, i)) == mem0(Word(d, i))
  }

  lemma NewTable(mem: Mem, after: Mem, dirs: set<bv32>, dir: bv32, v: bv32, f: bv32)
    requires Tidy(mem, dirs) && dir in dirs && Hi(v) < SELF && !Present(Pde(mem, dir, v)) && Unused(mem, dirs, f)
    requires TableAdded(mem, after, dir, v, f)
    ensures Tidy(after, dirs) && Present(Pde(after, dir, v)) && Pde(after, dir, v) == Entry(f)
    ensures forall d, u :: d in dirs && Hi(u) < SELF ==> Translate(after, d, u) == Translate(mem, d, u)
    ensures OnlyEntry(mem, after, dirs, dir, v)
  {
    hide Hi, Mid, Low, Frame, Word, Byte, Present, Entry, Translate;
    EntryParts(f);
    Indexes(v);
    forall d, i | d in dirs && i < 1024
      ensures after(Word(d, i)) == if d == dir && i == Hi(v) then Entry(f) else mem(Word(d, i))
    {
      DirectoriesAfter(mem, after, dirs, dir, v, f, d, i);
    }
    forall d, u | d in dirs && Hi(u) < SELF ensures Translate(after, d, u) == Translate(mem, d, u) {
      EmptyTable(mem, after, dirs, dir, v, f, d, u);
    }
  }

  /** A table that is still empty opens nothing. */
  lemma NewTableGrants(mem: Mem, after: Mem, dirs: set<bv32>, dir: bv32, v: bv32, f: bv32)
    requires Tidy(mem, dirs) && dir in dirs && Hi(v) < SELF && !Present(Pde(mem, dir, v)) && Unused(mem, dirs, f)
    requires TableAdded(mem, after, dir, v, f) && OpenDirectories(mem, dirs)
    ensures OpenDirectories(after, dirs)
    ensures forall d, u :: d in dirs && Hi(u) < SELF ==> Granted(after, d, u) == Granted(mem, d, u)
  {
    hide Hi, Mid, Low, Frame, Word, Byte, Present, Entry, Allows, Both;
    EntryAllows(f);
    Indexes(v);
    forall d, i | d in dirs && i < 1024
      ensures after(Word(d, i)) == if d == dir && i == Hi(v) then Entry(f) else mem(Word(d, i))
    {
      DirectoriesAfter(mem, after, dirs, dir, v, f, d, i);
    }
    forall d, u | d in dirs && Hi(u) < SELF ensures Granted(after, d, u) == Granted(mem, d, u) {
      EmptyTable(mem, after, dirs, dir, v, f, d, u);
      OtherEntry(mem, after, dirs, dir, v, f, d, u);
    }
  }

  /** A page that is there keeps both its entries. */
  lemma OtherEntry(mem: Mem, after: Mem, dirs: set<bv32>, dir: bv32, v: bv32, f: bv32, d: bv32, u: bv32)
    requires Tidy(mem, dirs) && dir in dirs && Hi(v) < SELF && !Present(Pde(mem, dir, v)) && Unused(mem, dirs, f)
    requires TableAdded(mem, after, dir, v, f) && d in dirs && Hi(u) < SELF
    ensures Translate(mem, d, u) != Fault ==>
      Pde(after, d, u) == Pde(mem, d, u) && after(PteAddr(after, d, u)) == mem(PteAddr(mem, d, u))
  {
    hide Hi, Mid, Low, Frame, Word, Byte, Entry;
    Indexes(u);
    DirectoriesAfter(mem, after, dirs, dir, v, f, d, Hi(u));
    FrameTwice(Pde(mem, d, u));
    WordParts(Frame(Pde(mem, d, u)), Mid(u));
    Indexes(v);
    WordsDiffer(Frame(Pde(mem, d, u)), Mid(u), dir, Hi(v));
  }

  lemma AddedThenOpened(mem0: Mem, mem1: Mem, mem2: Mem, dirs: set<bv32>, dir: bv32, v: bv32)
    requires forall d, u :: d in dirs && Hi(u) < SELF ==> Granted(mem1, d, u) == Granted(mem0, d, u)
    requires Opened(mem1, mem2, dirs, dir, v)
    ensures Opened(mem0, mem2, dirs, dir, v)
  {
    hide Hi, Mid, Low, Frame, Word, Byte, Present, Granted, Shares;
  }

  lemma AddedThenSet(mem0: Mem, mem1: Mem, mem2: Mem, dirs: set<bv32>, dir: bv32, v: bv32, p: bv32)
    requires forall d, u :: d in dirs && Hi(u) < SELF ==> Translate(mem1, d, u) == Translate(mem0, d, u)
    requires Mapped(mem1, mem2, dirs, dir, v, p)
    ensures Mapped(mem0, mem2, dirs, dir, v, p)
  {
    hide Hi, Mid, Low, Frame, Word, Byte, Present, Translate, Shares;
  }

  /** The words of the page memset clears, seen through the self-map. */
  function Cleared(v: bv32, j: bv32): bv32 {
    (PtePtr(v) & 0xfffff000) | (j << 2)
  }

  lemma ClearedParts(v: bv32, j: bv32)
    requires j < 1024
    ensures Hi(Cleared(v, j)) == SELF && Mid(Cleared(v, j)) == Hi(v) && Low(Cleared(v, j)) == j << 2
  {
  }

  lemma ByteIsWord(frame: bv32, j: bv32)
    ensures Byte(frame, j << 2) == Word(frame, j)
  {
  }

  /** Each word of the page that memset clears is a word of the new table. */
  lemma ClearedWalk(mem: Mem, dir: bv32, v: bv32, f: bv32, j: bv32)
    requires SelfMapped(mem, dir) && Frame(f) == f && mem(Word(dir, Hi(v))) == Entry(f) && j < 1024
    ensures Translate(mem, dir, Cleared(v, j)) == At(Word(f, j))
  {
    hide Hi, Mid, Low, Frame, Word, Byte, Present, Entry, Cleared;
    ClearedParts(v, j);
    EntryParts(f);
    ByteIsWord(f, j);
  }

  lemma PdeStored(mem0: Mem, mem: Mem, dir: bv32, v: bv32, f: bv32)
    requires SelfMapped(mem0, dir) && Hi(v) < SELF
    requires mem == Stored(mem0, Word(dir, Hi(v)), Entry(f))
    ensures SelfMapped(mem, dir) && mem(Word(dir, Hi(v))) == Entry(f)
  {
    hide Hi, Mid, Low, Word, Frame, Present, Entry;
    WordsDiffer(dir, Hi(v), dir, SELF);
  }

  lemma DirectoryWord(dir: bv32, v: bv32)
    requires Frame(dir) == dir
    ensures Frame(Word(dir, Hi(v))) == dir
  {
    Indexes(v);
    WordParts(dir, Hi(v));
  }

  lemma TidyDirectory(mem: Mem, dirs: set<bv32>, dir: bv32)
    requires Tidy(mem, dirs) && dir in dirs
    ensures SelfMapped(mem, dir) && Frame(dir) == dir
  {
  }

  lemma StillMapped(mem0: Mem, mem: Mem, dir: bv32, v: bv32, f: bv32)
    requires SelfMapped(mem0, dir) && mem0(Word(dir, Hi(v))) == Entry(f) && dir != f
    requires forall a :: Frame(a) != f ==> mem(a) == mem0(a)
    ensures SelfMapped(mem, dir) && mem(Word(dir, Hi(v))) == Entry(f)
  {
    hide Hi, Mid, Low, Word, Frame, Present, Entry;
    Indexes(v);
    WordParts(dir, Hi(v));
    WordParts(dir, SELF);
  }

  /** The kernel's part of every directory is there and the same in all of them. */
  ghost predicate KernelShared(mem: Mem, dirs: set<bv32>) {
    && (forall d, i :: d in dirs && KERNEL <= i < SELF ==> Present(mem(Word(d, i))))
    && forall d, e, i :: d in dirs && e in dirs && KERNEL <= i < SELF ==> mem(Word(d, i)) == mem(Word(e, i))
  }

  /** All address spaces translate the kernel's range alike. */
  lemma KernelTranslates(mem: Mem, dirs: set<bv32>, d: bv32, e: bv32, v: bv32)
    requires KernelShared(mem, dirs) && d in dirs && e in dirs && KERNEL <= Hi(v) < SELF
    ensures Translate(mem, d, v) == Translate(mem, e, v)
  {
    hide Hi, Mid, Low, Frame, Word, Byte, Present;
  }

  /** Kernel tables exist from boot, so adding a page never gives a directory a new kernel entry. */
  lemma StaysShared(mem0: Mem, mem1: Mem, dirs: set<bv32>, dir: bv32, v: bv32)
    requires KernelShared(mem0, dirs) && dir in dirs && Hi(v) < SELF && OnlyEntry(mem0, mem1, dirs, dir, v)
    requires Present(Pde(mem0, dir, v)) ==> SameDirectories(mem0, mem1, dirs)
    ensures KernelShared(mem1, dirs)
  {
    hide Hi, Mid, Low, Frame, Word, Byte, Present;
    forall d, i | d in dirs && KERNEL <= i < SELF ensures mem1(Word(d, i)) == mem0(Word(d, i)) {}
  }

  /** Two pages share their table entry exactly when their directory entries name the same table and
      their middle bits agree. */
  lemma WhoShares(mem: Mem, d: bv32, u: bv32, dir: bv32, v: bv32)
    ensures Shares(mem, d, u, dir, v) <==>
      Present(Pde(mem, d, u)) && Frame(Pde(mem, d, u)) == Frame(Pde(mem, dir, v)) && Mid(u) == Mid(v)
  {
    hide Hi, Mid, Low, Frame, Word, Byte, Present;
    FrameTwice(Pde(mem, d, u));
    FrameTwice(Pde(mem, dir, v));
    Indexes(u);
    Indexes(v);
    WordsDiffer(Frame(Pde(mem, d, u)), Mid(u), Frame(Pde(mem, dir, v)), Mid(v));
  }

  /** Directory entries 0 and 768 name the same table, so whatever is mapped in the first four
      megabytes of the kernel also appears at the bottom of the address space. */
  lemma LowMirror(mem: Mem, dir: bv32, v: bv32)
    requires Hi(v) == KERNEL && mem(Word(dir, 0)) == mem(Word(dir, KERNEL))
    ensures Translate(mem, dir, v & 0x003fffff) == Translate(mem, dir, v)
  {
    assert Hi(v & 0x003fffff) == 0 && Mid(v & 0x003fffff) == Mid(v) && Low(v & 0x003fffff) == Low(v);
  }

  const BOOT_DIR: bv32 := 0x100000

  /** What the loader writes into the kernel's directory. */
  function BootEntry(i: bv32): bv32
    requires i < 1024
  {
    if i == 0 || i == KERNEL then Entry(0x101000)
    else if i == SELF then Entry(BOOT_DIR)
    else if i > KERNEL then Entry(0x102000 + ((i - 0x301) << 12))
    else 0
  }

  lemma BootEntryFrame(i: bv32)
    requires i < 1024
    ensures Present(BootEntry(i)) <==> i == 0 || i >= KERNEL
    ensures Present(BootEntry(i)) && i < SELF ==> Frame(BootEntry(i)) != BOOT_DIR
    ensures Frame(BootEntry(SELF)) == BOOT_DIR && Frame(BOOT_DIR) == BOOT_DIR
    ensures i == 0 || i >= KERNEL ==> Allows(BootEntry(i))
  {
  }

  /** The kernel's tables lie one behind the other, from behind the directory to the end of the second megabyte;
      entry 0 names the first one. */
  lemma BootTables(i: bv32)
    requires KERNEL <= i < SELF
    ensures Frame(BootEntry(i)) == 0x101000 + ((i - KERNEL) << 12) && BOOT_DIR < Frame(BootEntry(i)) < 0x200000
    ensures Frame(BootEntry(0)) == Frame(BootEntry(KERNEL))
  {
  }

  /** The loader maps the first megabyte to itself, at the bottom and again at the start of the kernel's range,
      open to writing and to user code. */
  lemma BootGrants(mem: Mem, v: bv32)
    requires forall i :: i < 1024 ==> mem(Word(BOOT_DIR, i)) == BootEntry(i)
    requires forall i :: i < 256 ==> mem(Word(0x101000, i)) == Entry(i << 12)
    requires (Hi(v) == 0 || Hi(v) == KERNEL) && Mid(v) < 256
    ensures Translate(mem, BOOT_DIR, v) == At(v & 0xfffff) && Granted(mem, BOOT_DIR, v) == ALL
  {
    hide Hi, Mid, Low, Frame, Word, Byte, Present, Entry, BootEntry, Both, Allows;
    Indexes(v);
    LowMegabyte(v);
    BothAllow(BootEntry(Hi(v)), Entry(Mid(v) << 12));
  }

  lemma LowMegabyte(v: bv32)
    requires (Hi(v) == 0 || Hi(v) == KERNEL) && Mid(v) < 256
    ensures Frame(BootEntry(Hi(v))) == 0x101000 && Allows(BootEntry(Hi(v))) && Present(BootEntry(Hi(v)))
    ensures Allows(Entry(Mid(v) << 12)) && Present(Entry(Mid(v) << 12))
    ensures Byte(Frame(Entry(Mid(v) << 12)), Low(v)) == v & 0xfffff
  {
  }

  /** The loader's directory is where every run starts. */
  lemma BootIsTidy(mem: Mem)
    requires forall i :: i < 1024 ==> mem(Word(BOOT_DIR, i)) == BootEntry(i)
    ensures Tidy(mem, {BOOT_DIR}) && KernelShared(mem, {BOOT_DIR}) && OpenDirectories(mem, {BOOT_DIR})
  {
    hide Frame, Word, Present, Entry, BootEntry, Allows;
    BootEntryFrame(SELF);
    forall i | i < 1024
      ensures Present(mem(Word(BOOT_DIR, i))) <==> i == 0 || i >= KERNEL
      ensures i == 0 || i >= KERNEL ==> Allows(mem(Word(BOOT_DIR, i)))
      ensures Present(mem(Word(BOOT_DIR, i))) && i < SELF ==> Frame(mem(Word(BOOT_DIR, i))) != BOOT_DIR
    {
      BootEntryFrame(i);
    }
  }

  /** What create_page_dir leaves in the page it took. */
  ghost predicate NewDirectory(mem: Mem, after: Mem, dir: bv32, nd: bv32) {
    && (forall i :: i < KERNEL ==> after(Word(nd, i)) == 0)
    && (forall i :: KERNEL <= i < SELF ==> after(Word(nd, i)) == mem(Word(dir, i)))
    && after(Word(nd, SELF)) == Entry(nd)
    && forall a :: Frame(a) != nd ==> after(a) == mem(a)
  }

  lemma DirectoryAdded(mem: Mem, after: Mem, dirs: set<bv32>, dir: bv32, nd: bv32)
    requires Tidy(mem, dirs) && KernelShared(mem, dirs) && dir in dirs && Unused(mem, dirs, nd)
    requires NewDirectory(mem, after, dir, nd)
    ensures Tidy(after, dirs + {nd}) && KernelShared(after, dirs + {nd})
  {
    hide Frame, Word, Entry, Present;
    EntryParts(nd);
    assert !Present(0) by { NothingThere(); }
    forall d, i | d in dirs && i < 1024 ensures after(Word(d, i)) == mem(Word(d, i)) {
      WordParts(d, i);
    }
  }

  /** The new directory allows what the one in use does in the kernel's range, and nothing below it. */
  lemma NewDirectoryGrants(mem: Mem, after: Mem, dirs: set<bv32>, dir: bv32, nd: bv32, v: bv32)
    requires Tidy(mem, dirs) && dir in dirs && Unused(mem, dirs, nd) && NewDirectory(mem, after, dir, nd)
    requires Hi(v) < SELF
    ensures Hi(v) < KERNEL ==> Translate(after, nd, v) == Fault && Granted(after, nd, v) == 0
    ensures Hi(v) >= KERNEL ==>
      Translate(after, nd, v) == Translate(mem, dir, v) && Granted(after, nd, v) == Granted(mem, dir, v)
  {
    hide Hi, Mid, Low, Frame, Word, Byte, Present, Entry, Both;
    Indexes(v);
    NothingThere();
    FrameTwice(Pde(mem, dir, v));
    WordParts(Frame(Pde(mem, dir, v)), Mid(v));
  }

  lemma NewDirectoryOpen(mem: Mem, after: Mem, dirs: set<bv32>, dir: bv32, nd: bv32)
    requires Tidy(mem, dirs) && dir in dirs && Unused(mem, dirs, nd) && NewDirectory(mem, after, dir, nd)
    requires OpenDirectories(mem, dirs)
    ensures OpenDirectories(after, dirs + {nd})
  {
    hide Frame, Word, Entry, Present, Allows;
    EntryAllows(nd);
    NothingThere();
    forall d, i | d in dirs && i < 1024 ensures after(Word(d, i)) == mem(Word(d, i)) {
      WordParts(d, i);
    }
  }

  lemma NothingThere()
    ensures !Present(0)
  {
  }

  /** Word `i` of the page at virtual address `page`. */
  function WordOf(page: bv32, i: bv32): bv32 {
    page + i * 4
  }

  lemma WordOfParts(page: bv32, i: bv32)
    requires Low(page) == 0 && i < 1024
    ensures Hi(WordOf(page, i)) == Hi(page) && Mid(WordOf(page, i)) == Mid(page) && Low(WordOf(page, i)) == i << 2
  {
  }

  lemma WordOfDirectory(i: bv32)
    requires i < 1024
    ensures Hi(WordOf(0xfffff000, i)) == SELF && Mid(WordOf(0xfffff000, i)) == SELF
    ensures Low(WordOf(0xfffff000, i)) == i << 2
  {
  }

  lemma PageStart(f: bv32, low: bv32)
    requires Frame(f) == f && low == 0
    ensures Byte(f, low) == f
  {
  }

  /** A page of words sits in its frame word by word. */
  lemma PageWalk(mem: Mem, dir: bv32, page: bv32, f: bv32, i: bv32)
    requires Translate(mem, dir, page) == At(f) && Low(page) == 0 && i < 1024
    ensures Translate(mem, dir, WordOf(page, i)) == At(Word(f, i))
  {
    hide Hi, Mid, Low, Frame, Word, Byte, Present, WordOf;
    WordOfParts(page, i);
    FrameTwice(mem(PteAddr(mem, dir, page)));
    PageStart(Frame(mem(PteAddr(mem, dir, page))), Low(page));
    ByteIsWord(f, i);
  }

  /** Addresses 0xfffff000 and up show the directory in use. */
  lemma DirectoryWalk(mem: Mem, dir: bv32, i: bv32)
    requires SelfMapped(mem, dir) && i < 1024
    ensures Translate(mem, dir, WordOf(0xfffff000, i)) == At(Word(dir, i))
  {
    hide Hi, Mid, Low, Frame, Word, Byte, Present, WordOf;
    WordOfDirectory(i);
    ByteIsWord(dir, i);
  }

  lemma FramePlusLow(w: bv32, v: bv32)
    ensures Frame(w) + Low(v) == Byte(Frame(w), Low(v))
  {
  }

  /** Stores into the unused frame `nd` change neither the directory in use nor the mapping of `page`. */
  lemma StillThere(mem0: Mem, mem: Mem, dirs: set<bv32>, dir: bv32, page: bv32, nd: bv32)
    requires Tidy(mem0, dirs) && dir in dirs && Hi(page) < SELF
    requires Translate(mem0, dir, page) == At(nd) && Unused(mem0, dirs, nd)
    requires forall a :: Frame(a) != nd ==> mem(a) == mem0(a)
    ensures SelfMapped(mem, dir) && Translate(mem, dir, page) == At(nd) && Present(Pde(mem, dir, page))
  {
    hide Hi, Mid, Low, Frame, Word, Byte, Present;
    Indexes(page);
    WordParts(dir, Hi(page));
    WordParts(dir, SELF);
    FrameTwice(Pde(mem0, dir, page));
    WordParts(Frame(Pde(mem0, dir, page)), Mid(page));
  }

  lemma UnusedWords(mem: Mem, dirs: set<bv32>, dir: bv32, nd: bv32, i: bv32)
    requires Unused(mem, dirs, nd) && dir in dirs && Tidy(mem, dirs) && i < 1024
    ensures Frame(Word(nd, i)) == nd && Frame(Word(dir, i)) == dir != nd
    ensures forall j :: j < 1024 && j != i ==> Word(nd, j) != Word(nd, i)
  {
    hide Hi, Mid, Low, Word, Frame, Byte, Present;
    WordParts(nd, i);
    WordParts(dir, i);
    forall j | j < 1024 && j != i ensures Word(nd, j) != Word(nd, i) {
      WordsDiffer(nd, j, nd, i);
    }
  }

  lemma SelfEntryStored(mem0: Mem, mem1: Mem, mem: Mem, dirs: set<bv32>, dir: bv32, nd: bv32)
    requires Unused(mem0, dirs, nd) && dir in dirs && Tidy(mem0, dirs)
    requires forall i :: i < 1024 ==> mem0(Word(nd, i)) == 0
    requires forall j :: KERNEL <= j < 1024 ==> mem1(Word(nd, j)) == mem0(Word(dir, j))
    requires forall j :: j < KERNEL ==> mem1(Word(nd, j)) == mem0(Word(nd, j))
    requires forall a :: Frame(a) != nd ==> mem1(a) == mem0(a)
    requires mem == Stored(mem1, Word(nd, SELF), Entry(nd))
    ensures NewDirectory(mem0, mem, dir, nd)
  {
    UnusedWords(mem0, dirs, dir, nd, SELF);
    hide Hi, Mid, Low, Word, Frame, Byte, Present, Entry, Tidy, Unused;
  }

  /** The first `i` words of frame `f` are zero. */
  ghost predicate ZeroBelow(mem: Mem, f: bv32, i: bv32) {
    forall j :: j < i ==> mem(Word(f, j)) == 0
  }

  lemma OneMoreZero(mem1: Mem, mem: Mem, f: bv32, i: bv32)
    requires Frame(f) == f && i < 1024 && ZeroBelow(mem1, f, i) && mem == Stored(mem1, Word(f, i), 0)
    ensures ZeroBelow(mem, f, i + 1)
  {
    hide Word, Frame;
    forall j | j < i + 1 ensures mem(Word(f, j)) == 0 {
      WordsDiffer(f, j, f, i);
    }
  }

  /** The memory, and the directory that CR3 points to. */
  class Machine {
    var mem: Mem
    const dir: bv32

    constructor (mem: Mem, dir: bv32)
      ensures this.mem == mem && this.dir == dir
    {
      this.mem := mem;
      this.dir := dir;
    }

    method Load(va: bv32) returns (w: bv32)
      requires Translate(mem, dir, va).At?
      ensures w == mem(Translate(mem, dir, va).addr)
    {
      w := mem(Translate(mem, dir, va).addr);
    }

    method Store(va: bv32, w: bv32)
      requires Translate(mem, dir, va).At?
      modifies this
      ensures mem == Stored(old(mem), old(Translate(mem, dir, va).addr), w)
    {
      mem := Stored(mem, Translate(mem, dir, va).addr, w);
    }

    /** memset over the new table, through the self-map. */
    method ClearTable(v: bv32, f: bv32)
      requires SelfMapped(mem, dir) && Frame(f) == f != dir && mem(Word(dir, Hi(v))) == Entry(f)
      modifies this
      ensures forall j :: j < 1024 ==> mem(Word(f, j)) == 0
      ensures forall a :: Frame(a) != f ==> mem(a) == old(mem)(a)
    {
      hide Hi, Mid, Low, Frame, Word, Byte, Present, Entry, Cleared, Translate, SelfMapped, Stored;
      ghost var mem0 := mem;
      var i: bv32 := 0;
      while i < 1024
        invariant i <= 1024 && ZeroBelow(mem, f, i)
        invariant forall a :: Frame(a) != f ==> mem(a) == mem0(a)
        decreases 1024 - i
      {
        ClearOne(v, f, i, mem0);
        i := i + 1;
      }
    }

    method ClearOne(v: bv32, f: bv32, i: bv32, ghost mem0: Mem)
      requires SelfMapped(mem0, dir) && Frame(f) == f != dir && mem0(Word(dir, Hi(v))) == Entry(f) && i < 1024
      requires ZeroBelow(mem, f, i) && forall a :: Frame(a) != f ==> mem(a) == mem0(a)
      modifies this
      ensures ZeroBelow(mem, f, i + 1) && forall a :: Frame(a) != f ==> mem(a) == mem0(a)
    {
      hide Hi, Mid, Low, Frame, Word, Byte, Present, Entry, Cleared, Translate, SelfMapped, ZeroBelow;
      ghost var mem1 := mem;
      StillMapped(mem0, mem, dir, v, f);
      ClearedWalk(mem, dir, v, f, i);
      WordParts(f, i);
      Store(Cleared(v, i), 0);
      OneMoreZero(mem1, mem, f, i);
    }

    /** The new-table branch up to the table entry. */
    method AddTable(v: bv32, f: bv32, ghost dirs: set<bv32>)
      requires Tidy(mem, dirs) && dir in dirs && Hi(v) < SELF
      requires !Present(Pde(mem, dir, v)) && Unused(mem, dirs, f)
      modifies this
      ensures Tidy(mem, dirs) && Present(Pde(mem, dir, v)) && Pde(mem, dir, v) == Entry(f)
      ensures forall d, u :: d in dirs && Hi(u) < SELF ==> Translate(mem, d, u) == Translate(old(mem), d, u)
      ensures OpenDirectories(old(mem), dirs) ==> OpenDirectories(mem, dirs)
      ensures OpenDirectories(old(mem), dirs) ==>
        forall d, u :: d in dirs && Hi(u) < SELF ==> Granted(mem, d, u) == Granted(old(mem), d, u)
      ensures OnlyEntry(old(mem), mem, dirs, dir, v)
      ensures forall a :: Frame(a) != f && a != Word(dir, Hi(v)) ==> mem(a) == old(mem)(a)
    {
      hide Hi, Mid, Low, Frame, Word, Byte, Present, Entry, Translate, SelfMapped, OnlyEntry, OpenDirectories, Granted;
      ghost var mem0 := mem;
      PdePtrWalk(mem, dir, v);
      Store(PdePtr(v), Entry(f));
      PdeStored(mem0, mem, dir, v, f) by { TidyDirectory(mem0, dirs, dir); }
      ClearTable(v, f);
      DirectoryWord(dir, v) by { TidyDirectory(mem0, dirs, dir); }
      NewTable(mem0, mem, dirs, dir, v, f);
      if OpenDirectories(mem0, dirs) {
        NewTableGrants(mem0, mem, dirs, dir, v, f);
      }
    }

    /** Storing into the table entry, through the self-map. */
    method SetPte(v: bv32, p: bv32, ghost dirs: set<bv32>)
      requires Tidy(mem, dirs) && dir in dirs && Hi(v) < SELF && Frame(p) == p && Present(Pde(mem, dir, v))
      modifies this
      ensures Tidy(mem, dirs) && SameDirectories(old(mem), mem, dirs) && Mapped(old(mem), mem, dirs, dir, v, p)
      ensures OpenDirectories(old(mem), dirs) ==>
        OpenDirectories(mem, dirs) && Opened(old(mem), mem, dirs, dir, v)
      ensures PteAddr(mem, dir, v) == PteAddr(old(mem), dir, v)
      ensures forall a :: a != PteAddr(mem, dir, v) ==> mem(a) == old(mem)(a)
    {
      hide Hi, Mid, Low, Frame, Word, Byte, Present, Entry, Translate, Tidy, Mapped, Opened, OpenDirectories;
      PtePtrWalk(mem, dir, v) by { TidyDirectory(mem, dirs, dir); }
      Indexes(v);
      Store(PtePtr(v), Entry(p));
      SetEntry(old(mem), mem, dirs, dir, v, p);
      if OpenDirectories(old(mem), dirs) {
        SetOpens(old(mem), mem, dirs, dir, v, p);
      }
      StaysTidy(old(mem), mem, dirs);
    }

    /** page_table_add; `f` is the frame palloc answers when a page table is missing. */
    method PageTableAdd(v: bv32, p: bv32, f: bv32, ghost dirs: set<bv32>) returns (halted: bool)
      requires Tidy(mem, dirs) && dir in dirs && Hi(v) < SELF && Frame(p) == p
      requires !Present(Pde(mem, dir, v)) ==> Unused(mem, dirs, f)
      modifies this
      ensures halted <==> old(Translate(mem, dir, v)).At?
      ensures !halted ==> Tidy(mem, dirs) && Mapped(old(mem), mem, dirs, dir, v, p)
      ensures !halted ==> Translate(mem, dir, v) == At(Byte(p, Low(v)))
      ensures !halted && OpenDirectories(old(mem), dirs) ==>
        && OpenDirectories(mem, dirs) && Opened(old(mem), mem, dirs, dir, v) && Granted(mem, dir, v) == ALL
      ensures !halted ==> OnlyEntry(old(mem), mem, dirs, dir, v)
      ensures !halted && old(Present(Pde(mem, dir, v))) ==> SameDirectories(old(mem), mem, dirs)
      ensures !halted && !old(Present(Pde(mem, dir, v))) ==> Pde(mem, dir, v) == Entry(f)
      ensures forall a :: mem(a) != old(mem)(a) ==>
        || a == PteAddr(mem, dir, v)
        || (!old(Present(Pde(mem, dir, v))) && (a == Word(dir, Hi(v)) || Frame(a) == f))
    {
      hide Hi, Mid, Low, Frame, Word, Byte, Present, Entry, Tidy, OpenDirectories, Granted;
      ghost var mem0 := mem;
      TidyDirectory(mem, dirs, dir);
      PdePtrWalk(mem, dir, v);
      PtePtrWalk(mem, dir, v);
      var pde := Load(PdePtr(v));
      if !Present(pde) {
        AddTable(v, f, dirs);
        TidyDirectory(mem, dirs, dir);
        PtePtrWalk(mem, dir, v);
      }
      var pte := Load(PtePtr(v));
      if Present(pte) {  // ASSERT
        return true;
      }
      ghost var mem1 := mem;
      SetPte(v, p, dirs);
      AddedThenSet(mem0, mem1, mem, dirs, dir, v, p);
      if OpenDirectories(mem0, dirs) {
        AddedThenOpened(mem0, mem1, mem, dirs, dir, v);
      }
      halted := false;
    }

    /** addr_v2p */
    method AddrV2p(v: bv32) returns (r: bv32)
      requires SelfMapped(mem, dir) && Present(Pde(mem, dir, v))
      ensures Translate(mem, dir, v).At? ==> Translate(mem, dir, v) == At(r)
    {
      hide Hi, Mid, Low, Frame, Word, Byte, Present, SelfMapped;
      PtePtrWalk(mem, dir, v);
      var pte := Load(PtePtr(v));
      FramePlusLow(pte, v);
      r := Frame(pte) + Low(v);
    }

    /** create_page_dir, given the zeroed page at `page` that get_kernel_pages answers. */
    method CreatePageDir(page: bv32, ghost nd: bv32, ghost dirs: set<bv32>)
      requires Tidy(mem, dirs) && KernelShared(mem, dirs) && dir in dirs
      requires Low(page) == 0 && Hi(page) < SELF && Translate(mem, dir, page) == At(nd) && Unused(mem, dirs, nd)
      requires forall i :: i < 1024 ==> mem(Word(nd, i)) == 0
      modifies this
      ensures NewDirectory(old(mem), mem, dir, nd)
      ensures Tidy(mem, dirs + {nd}) && KernelShared(mem, dirs + {nd})
      ensures OpenDirectories(old(mem), dirs) ==> OpenDirectories(mem, dirs + {nd})
      ensures forall v :: Hi(v) < KERNEL ==> Translate(mem, nd, v) == Fault && Granted(mem, nd, v) == 0
      ensures forall v :: KERNEL <= Hi(v) < SELF ==>
        Translate(mem, nd, v) == Translate(old(mem), dir, v) && Granted(mem, nd, v) == Granted(old(mem), dir, v)
    {
      hide Hi, Mid, Low, Frame, Word, Byte, Present, Entry, SelfMapped, Tidy, KernelShared, Translate, WordOf, Unused,
        OpenDirectories, Granted;
      ghost var mem0 := mem;
      CopyKernelHalf(page, nd, dirs);
      StillThere(mem0, mem, dirs, dir, page, nd);
      var phys := AddrV2p(page);
      PageWalk(mem, dir, page, nd, SELF);
      ghost var mem1 := mem;
      Store(WordOf(page, SELF), Entry(phys));
      SelfEntryStored(mem0, mem1, mem, dirs, dir, nd);
      DirectoryAdded(mem0, mem, dirs, dir, nd);
      forall v | Hi(v) < SELF
        ensures Hi(v) < KERNEL ==> Translate(mem, nd, v) == Fault && Granted(mem, nd, v) == 0
        ensures Hi(v) >= KERNEL ==>
          Translate(mem, nd, v) == Translate(mem0, dir, v) && Granted(mem, nd, v) == Granted(mem0, dir, v)
      {
        NewDirectoryGrants(mem0, mem, dirs, dir, nd, v);
      }
      if OpenDirectories(mem0, dirs) {
        NewDirectoryOpen(mem0, mem, dirs, dir, nd);
      }
    }

    /** The memcpy of directory entries 768 to 1023. */
    method CopyKernelHalf(page: bv32, ghost nd: bv32, ghost dirs: set<bv32>)
      requires Tidy(mem, dirs) && dir in dirs
      requires Low(page) == 0 && Hi(page) < SELF && Translate(mem, dir, page) == At(nd) && Unused(mem, dirs, nd)
      modifies this
      ensures forall j :: KERNEL <= j < 1024 ==> mem(Word(nd, j)) == old(mem)(Word(dir, j))
      ensures forall j :: j < KERNEL ==> mem(Word(nd, j)) == old(mem)(Word(nd, j))
      ensures forall a :: Frame(a) != nd ==> mem(a) == old(mem)(a)
    {
      hide Hi, Mid, Low, Frame, Word, Byte, Present, Entry, SelfMapped, Tidy, Translate, WordOf, Unused;
      ghost var mem0 := mem;
      var i := KERNEL;
      while i < 1024
        invariant KERNEL <= i <= 1024
        invariant forall j :: KERNEL <= j < i ==> mem(Word(nd, j)) == mem0(Word(dir, j))
        invariant forall j :: j < KERNEL ==> mem(Word(nd, j)) == mem0(Word(nd, j))
        invariant forall a :: Frame(a) != nd ==> mem(a) == mem0(a)
        decreases 1024 - i
      {
        CopyOne(page, i, nd, dirs, mem0);
        i := i + 1;
      }
    }

    method CopyOne(page: bv32, i: bv32, ghost nd: bv32, ghost dirs: set<bv32>, ghost mem0: Mem)
      requires Tidy(mem0, dirs) && dir in dirs && i < 1024
      requires Low(page) == 0 && Hi(page) < SELF && Translate(mem0, dir, page) == At(nd) && Unused(mem0, dirs, nd)
      requires forall a :: Frame(a) != nd ==> mem(a) == mem0(a)
      modifies this
      ensures mem == Stored(old(mem), Word(nd, i), mem0(Word(dir, i)))
      ensures forall a :: Frame(a) != nd ==> mem(a) == mem0(a)
      ensures forall j :: j < 1024 && j != i ==> mem(Word(nd, j)) == old(mem)(Word(nd, j))
    {
      hide Hi, Mid, Low, Frame, Word, Byte, Present, Entry, SelfMapped, Tidy, Translate, WordOf, Unused;
      StillThere(mem0, mem, dirs, dir, page, nd);
      DirectoryWalk(mem, dir, i);
      PageWalk(mem, dir, page, nd, i);
      UnusedWords(mem0, dirs, dir, nd, i);
      var w := Load(WordOf(0xfffff000, i));
      Store(WordOf(page, i), w);
    }

    /** page_table_pte_remove */
    method PteRemove(v: bv32, ghost dirs: set<bv32>)
      requires Tidy(mem, dirs) && dir in dirs && Hi(v) < SELF && Present(Pde(mem, dir, v))
      modifies this
      ensures Tidy(mem, dirs) && SameDirectories(old(mem), mem, dirs) && Unmapped(old(mem), mem, dirs, dir, v)
      ensures Translate(mem, dir, v) == Fault
      ensures forall d, u :: d in dirs && Hi(u) < SELF ==>
        Granted(mem, d, u) == if Shares(old(mem), d, u, dir, v) then 0 else Granted(old(mem), d, u)
      ensures var e := PteAddr(old(mem), dir, v);
        forall a :: mem(a) == if a == e then Absent(old(mem)(a)) else old(mem)(a)
    {
      hide Hi, Mid, Low, Frame, Word, Byte, Present, Absent, Tidy, SameDirectories, Granted;
      ghost var mem0 := mem;
      TidyDirectory(mem, dirs, dir);
      PtePtrWalk(mem, dir, v);
      var pte := Load(PtePtr(v));
      Store(PtePtr(v), Absent(pte));
      ClearEntry(mem0, mem, dirs, dir, v, Absent(pte));
      ClearedGrants(mem0, mem, dirs, dir, v, Absent(pte));
      StaysTidy(mem0, mem, dirs);
    }
  }
}
