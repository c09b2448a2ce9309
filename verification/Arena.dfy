/** kernel/c12f_memory.c: arenas, their blocks, and what the free lists and counts must agree on. */
module Arenas {
  import opened Vm

  const HEADER := 12  // sizeof(struct arena)
  const CLASSES := 7

  /** The block sizes of block_desc_init. */
  function Size(c: nat): nat
    requires c < CLASSES
  {
    if c == 0 then 16 else if c == 1 then 32 else if c == 2 then 64 else if c == 3 then 128
    else if c == 4 then 256 else if c == 5 then 512 else 1024
  }

  function PerArena(c: nat): (n: nat)
    requires c < CLASSES
    ensures n > 0
  {
    (4096 - HEADER) / Size(c)
  }

  /** block2arena, as a page number. */
  function PageOf(a: nat): nat {
    a / 4096
  }

  /** arena2block */
  function BlockAt(page: nat, c: nat, i: nat): nat
    requires c < CLASSES
  {
    4096 * page + HEADER + i * Size(c)
  }

  lemma Offsets(c: nat, i: nat, j: nat)
    requires c < CLASSES && i < j <= PerArena(c)
    ensures i * Size(c) + Size(c) <= j * Size(c) <= 4096 - HEADER
  {
  }

  /** block2arena inverts arena2block, and every block lies behind the header inside its page. */
  lemma BlockInPage(page: nat, c: nat, i: nat)
    requires c < CLASSES && i < PerArena(c)
    ensures PageOf(BlockAt(page, c, i)) == page
    ensures 4096 * page + HEADER <= BlockAt(page, c, i) && BlockAt(page, c, i) + Size(c) <= 4096 * page + 4096
  {
    Offsets(c, i, PerArena(c));
  }

  lemma BlocksApart(page: nat, c: nat, i: nat, j: nat)
    requires c < CLASSES && i < j < PerArena(c)
    ensures BlockAt(page, c, i) + Size(c) <= BlockAt(page, c, j)
  {
    Offsets(c, i, j);
  }

  datatype Header = Small(cls: nat, count: nat) | Large(count: nat)

  function Span(h: Header): nat {
    if h.Small? then 1 else h.count
  }

  predicate IsBlock(b: nat, page: nat, c: nat) {
    c < CLASSES && exists i :: 0 <= i < PerArena(c) && b == BlockAt(page, c, i)
  }

  /** The blocks of one arena on a free list. */
  function FreeAt(list: seq<nat>, page: nat): set<nat> {
    set b | b in list && PageOf(b) == page
  }

  ghost predicate Distinct(list: seq<nat>) {
    forall i, j :: 0 <= i < j < |list| ==> list[i] != list[j]
  }

  /** Every block on a list belongs to an arena of the list's class. */
  ghost predicate ListOk(headers: map<nat, Header>, list: seq<nat>, c: nat) {
    Distinct(list) && forall b :: b in list ==>
      PageOf(b) in headers && headers[PageOf(b)].Small? && headers[PageOf(b)].cls == c && IsBlock(b, PageOf(b), c)
  }

  /** An arena of small blocks counts its blocks on the list, and hands out exactly the others. */
  ghost predicate SmallOk(page: nat, c: nat, count: nat, list: seq<nat>, live: set<nat>) {
    c < CLASSES && count == |FreeAt(list, page)| && forall b :: IsBlock(b, page, c) ==> (b in list <==> b !in live)
  }

  ghost predicate LiveOk(headers: map<nat, Header>, b: nat) {
    PageOf(b) in headers &&
    match headers[PageOf(b)]
    case Small(c, _) => IsBlock(b, PageOf(b), c)
    case Large(_) => b == 4096 * PageOf(b) + HEADER
  }

  ghost predicate Agree(headers: map<nat, Header>, free: seq<seq<nat>>, live: set<nat>) {
    && |free| == CLASSES
    && (forall c :: 0 <= c < CLASSES ==> ListOk(headers, free[c], c))
    && (forall p :: p in headers && headers[p].Small? ==>
          headers[p].cls < CLASSES && SmallOk(p, headers[p].cls, headers[p].count, free[headers[p].cls], live))
    && (forall p :: p in headers && headers[p].Large? ==> 0 < headers[p].count && 4096 * p + HEADER in live)
    && forall b :: b in live ==> LiveOk(headers, b)
  }

  /** Between calls no arena is entirely free. */
  ghost predicate NoneEmpty(headers: map<nat, Header>) {
    forall p :: p in headers && headers[p].Small? ==>
      headers[p].cls < CLASSES && headers[p].count < PerArena(headers[p].cls)
  }

  /** The arenas' pages are mapped and do not overlap. */
  ghost predicate Spans(headers: map<nat, Header>, pages: set<nat>) {
    && (forall p :: p in headers ==> 0 < Span(headers[p]) && PageRange(p, Span(headers[p])) <= pages)
    && forall p, q :: p in headers && q in headers && p != q ==>
         PageRange(p, Span(headers[p])) !! PageRange(q, Span(headers[q]))
  }

  function Blocks(page: nat, c: nat, n: nat): (s: seq<nat>)
    requires c < CLASSES
    ensures |s| == n && forall i :: 0 <= i < n ==> s[i] == BlockAt(page, c, i)
  {
    seq(n, i requires 0 <= i < n => BlockAt(page, c, i))
  }

  lemma BlocksDistinct(page: nat, c: nat, n: nat)
    requires c < CLASSES && n <= PerArena(c)
    ensures Distinct(Blocks(page, c, n))
    ensures forall b :: b in Blocks(page, c, n) ==> PageOf(b) == page && IsBlock(b, page, c)
    ensures n == PerArena(c) ==> forall b :: IsBlock(b, page, c) ==> b in Blocks(page, c, n)
  {
    hide Size, PageOf, PerArena, BlockAt;
    forall i, j | 0 <= i < j < n ensures Blocks(page, c, n)[i] != Blocks(page, c, n)[j] {
      BlocksApart(page, c, i, j);
      SizePositive(c);
    }
    forall b | b in Blocks(page, c, n) ensures PageOf(b) == page && IsBlock(b, page, c) {
      var i :| 0 <= i < n && b == BlockAt(page, c, i);
      BlockInPage(page, c, i);
    }
    forall b | IsBlock(b, page, c) && n == PerArena(c) ensures b in Blocks(page, c, n) {
      var i :| 0 <= i < PerArena(c) && b == BlockAt(page, c, i);
      assert Blocks(page, c, n)[i] == b;
    }
  }

  lemma SizePositive(c: nat)
    requires c < CLASSES
    ensures 0 < Size(c)
  {
  }

  function Elements(list: seq<nat>): set<nat> {
    set b | b in list
  }

  lemma {:induction false} DistinctSize(list: seq<nat>)
    requires Distinct(list)
    ensures |Elements(list)| == |list|
  {
    if list != [] {
      var n := |list| - 1;
      DistinctSize(list[..n]);
      assert list == list[..n] + [list[n]];
      assert Elements(list) == Elements(list[..n]) + {list[n]};
      assert list[n] !in list[..n];
    }
  }

  lemma BlockPage(b: nat, page: nat, c: nat)
    requires IsBlock(b, page, c)
    ensures PageOf(b) == page
  {
    var i :| 0 <= i < PerArena(c) && b == BlockAt(page, c, i);
    BlockInPage(page, c, i);
  }

  /** An arena whose blocks neither left nor joined its list stays in order. */
  lemma SmallFrame(page: nat, c: nat, count: nat, list0: seq<nat>, live0: set<nat>, list1: seq<nat>, live1: set<nat>)
    requires SmallOk(page, c, count, list0, live0)
    requires forall b :: PageOf(b) == page ==> (b in list1 <==> b in list0) && (b in live1 <==> b in live0)
    ensures SmallOk(page, c, count, list1, live1)
  {
    hide PageOf, IsBlock, Size;
    assert FreeAt(list1, page) == FreeAt(list0, page);
    forall b | IsBlock(b, page, c) ensures b in list1 <==> b !in live1 {
      BlockPage(b, page, c);
    }
  }

  lemma ListJoined(headers: map<nat, Header>, list: seq<nat>, after: map<nat, Header>, blocks: seq<nat>, c: nat, p: nat)
    requires ListOk(headers, list, c) && p !in headers && Distinct(blocks) && c < CLASSES
    requires after == headers[p := Small(c, PerArena(c))]
    requires forall b :: b in blocks ==> PageOf(b) == p && IsBlock(b, p, c)
    ensures ListOk(after, list + blocks, c)
  {
    hide PageOf, IsBlock, PerArena;
    forall i, j | 0 <= i < j < |list + blocks| ensures (list + blocks)[i] != (list + blocks)[j] {
      assert i < |list| ==> list[i] in list;
      assert |list| <= j ==> blocks[j - |list|] in blocks;
    }
  }

  lemma NewArena(headers: map<nat, Header>, free: seq<seq<nat>>, live: set<nat>, p: nat, c: nat)
    requires Agree(headers, free, live) && p !in headers && c < CLASSES
    ensures Agree(headers[p := Small(c, PerArena(c))], free[c := free[c] + Blocks(p, c, PerArena(c))], live)
  {
    hide Size, PageOf, PerArena, BlockAt, IsBlock, SmallOk, Blocks;
    var blocks := Blocks(p, c, PerArena(c));
    var list := free[c] + blocks;
    BlocksDistinct(p, c, PerArena(c));
    ListJoined(headers, free[c], headers[p := Small(c, PerArena(c))], blocks, c, p);
    forall q | q in headers && headers[q].Small? && headers[q].cls == c
      ensures SmallOk(q, c, headers[q].count, list, live)
    {
      SmallFrame(q, c, headers[q].count, free[c], live, list, live);
    }
    AllFree(p, c, list, live);
  }

  /** An arena with all its blocks on the list. */
  lemma AllFree(p: nat, c: nat, list: seq<nat>, live: set<nat>)
    requires c < CLASSES && forall b :: b in Blocks(p, c, PerArena(c)) ==> b in list
    requires forall b :: b in list && PageOf(b) == p ==> b in Blocks(p, c, PerArena(c))
    requires forall b :: b in live ==> PageOf(b) != p
    ensures SmallOk(p, c, PerArena(c), list, live)
  {
    hide Size, PageOf, PerArena, BlockAt, IsBlock;
    BlocksDistinct(p, c, PerArena(c));
    assert FreeAt(list, p) == Elements(Blocks(p, c, PerArena(c)));
    DistinctSize(Blocks(p, c, PerArena(c)));
    forall b | IsBlock(b, p, c) ensures b in list && b !in live {
      BlockPage(b, p, c);
    }
  }

  lemma RestOf(list: seq<nat>)
    requires Distinct(list) && list != []
    ensures Distinct(list[1..]) && forall x :: x in list[1..] <==> x in list && x != list[0]
  {
    assert list == [list[0]] + list[1..];
  }

  /** Another count in a header leaves every list in order. */
  lemma ListsRecounted(headers: map<nat, Header>, list: seq<nat>, c: nat, p: nat, count: nat)
    requires ListOk(headers, list, c) && p in headers && headers[p].Small?
    ensures ListOk(headers[p := Small(headers[p].cls, count)], list, c)
  {
    hide PageOf, IsBlock;
  }

  /** Every other arena of small blocks, when the first block of list `c` is handed out. */
  lemma OtherArenas(headers: map<nat, Header>, free: seq<seq<nat>>, live: set<nat>, c: nat, q: nat)
    requires Agree(headers, free, live) && c < CLASSES && free[c] != [] && q in headers && headers[q].Small?
    requires q != PageOf(free[c][0])
    ensures headers[q].cls < CLASSES
    ensures SmallOk(q, headers[q].cls, headers[q].count, free[c := free[c][1..]][headers[q].cls], live + {free[c][0]})
  {
    hide PageOf, IsBlock, SmallOk;
    RestOf(free[c]);
    var d := headers[q].cls;
    SmallFrame(q, d, headers[q].count, free[d], live, free[c := free[c][1..]][d], live + {free[c][0]});
  }

  /** The first block of a list is free, in an arena that counts it. */
  lemma FirstFree(headers: map<nat, Header>, free: seq<seq<nat>>, live: set<nat>, c: nat)
    requires Agree(headers, free, live) && c < CLASSES && free[c] != []
    ensures var b := free[c][0]; var p := PageOf(b);
      && p in headers && headers[p].Small? && headers[p].cls == c && headers[p].count > 0 && IsBlock(b, p, c)
      && b !in live
      && SmallOk(p, c, headers[p].count - 1, free[c][1..], live + {b}) && ListOk(headers, free[c][1..], c)
  {
    hide PageOf, IsBlock, SmallOk;
    assert free[c][0] in free[c];
    TookBlock(PageOf(free[c][0]), c, headers[PageOf(free[c][0])].count, free[c], live);
    RestOf(free[c]);
  }

  lemma LiveRecounted(headers: map<nat, Header>, b: nat, p: nat, count: nat)
    requires LiveOk(headers, b) && p in headers && headers[p].Small?
    ensures LiveOk(headers[p := Small(headers[p].cls, count)], b)
  {
    hide PageOf, IsBlock;
  }

  lemma Popped(headers: map<nat, Header>, free: seq<seq<nat>>, live: set<nat>, c: nat)
    requires Agree(headers, free, live) && c < CLASSES && free[c] != []
    ensures var b := free[c][0]; var p := PageOf(b);
      && p in headers && headers[p].Small? && headers[p].cls == c && headers[p].count > 0
      && IsBlock(b, p, c) && b !in live
      && Agree(headers[p := Small(c, headers[p].count - 1)], free[c := free[c][1..]], live + {b})
  {
    hide PageOf, IsBlock, SmallOk, ListOk, LiveOk;
    var list, b := free[c], free[c][0];
    var p := PageOf(b);
    FirstFree(headers, free, live, c);
    var after, free1 := headers[p := Small(c, headers[p].count - 1)], free[c := list[1..]];
    forall d | 0 <= d < CLASSES ensures ListOk(after, free1[d], d) {
      ListsRecounted(headers, free1[d], d, p, headers[p].count - 1);
    }
    forall q | q in headers && headers[q].Small? && q != p
      ensures headers[q].cls < CLASSES
      ensures SmallOk(q, headers[q].cls, headers[q].count, free1[headers[q].cls], live + {b})
    {
      OtherArenas(headers, free, live, c, q);
    }
    forall x | x in live + {b} ensures LiveOk(after, x) {
      if x in live {
        LiveRecounted(headers, x, p, headers[p].count - 1);
      } else {
        NowLive(after, b, p, c);
      }
    }
  }

  lemma NowLive(headers: map<nat, Header>, b: nat, p: nat, c: nat)
    requires p == PageOf(b) && p in headers && headers[p].Small? && headers[p].cls == c && IsBlock(b, p, c)
    ensures LiveOk(headers, b)
  {
    hide PageOf, IsBlock;
  }

  lemma TookBlock(p: nat, c: nat, count: nat, list: seq<nat>, live: set<nat>)
    requires SmallOk(p, c, count, list, live) && Distinct(list) && list != [] && PageOf(list[0]) == p
    requires IsBlock(list[0], p, c)
    ensures count > 0 && list[0] !in live && SmallOk(p, c, count - 1, list[1..], live + {list[0]})
  {
    hide Size, PageOf, PerArena, BlockAt, IsBlock;
    var b := list[0];
    assert FreeAt(list, p) == FreeAt(list[1..], p) + {b} && b !in FreeAt(list[1..], p);
  }

  lemma HeaderPage(q: nat)
    ensures PageOf(4096 * q + HEADER) == q
  {
  }

  lemma ReturnedBlock(p: nat, c: nat, count: nat, list: seq<nat>, live: set<nat>, b: nat)
    requires SmallOk(p, c, count, list, live) && Distinct(list) && PageOf(b) == p && IsBlock(b, p, c) && b in live
    ensures Distinct(list + [b]) && SmallOk(p, c, count + 1, list + [b], live - {b})
  {
    hide Size, PageOf, PerArena, BlockAt, IsBlock;
    assert b !in list;
    assert FreeAt(list + [b], p) == FreeAt(list, p) + {b};
  }

  lemma Pushed(headers: map<nat, Header>, free: seq<seq<nat>>, live: set<nat>, b: nat)
    requires Agree(headers, free, live) && b in live && PageOf(b) in headers && headers[PageOf(b)].Small?
    ensures headers[PageOf(b)].cls < CLASSES
    ensures var p := PageOf(b); var c := headers[p].cls;
      Agree(headers[p := Small(c, headers[p].count + 1)], free[c := free[c] + [b]], live - {b})
  {
    hide Size, PageOf, PerArena, BlockAt, IsBlock, SmallOk;
    var p := PageOf(b);
    var c := headers[p].cls;
    var list := free[c];
    assert LiveOk(headers, b);
    ReturnedBlock(p, c, headers[p].count, list, live, b);
    forall q: nat ensures PageOf(4096 * q + HEADER) == q {
      HeaderPage(q);
    }
    forall q | q in headers && headers[q].Small? && q != p
      ensures SmallOk(q, headers[q].cls, headers[q].count,
                      if headers[q].cls == c then list + [b] else free[headers[q].cls], live - {b})
    {
      SmallFrame(q, headers[q].cls, headers[q].count, free[headers[q].cls], live,
                 if headers[q].cls == c then list + [b] else free[headers[q].cls], live - {b});
    }
  }

  /** The list without one element. */
  function Without(list: seq<nat>, b: nat): (r: seq<nat>)
    ensures forall x :: x in r <==> x in list && x != b
  {
    if list == [] then []
    else if list[0] == b then Without(list[1..], b)
    else [list[0]] + Without(list[1..], b)
  }

  lemma WithoutDistinct(list: seq<nat>, b: nat)
    requires Distinct(list)
    ensures Distinct(Without(list, b))
  {
    if list != [] {
      WithoutDistinct(list[1..], b);
      assert list[0] !in list[1..];
    }
  }

  /** When an arena's count reaches its number of blocks, all of them are on the list. */
  lemma FullArena(p: nat, c: nat, list: seq<nat>, live: set<nat>)
    requires c < CLASSES && SmallOk(p, c, PerArena(c), list, live)
    requires forall b :: b in list && PageOf(b) == p ==> IsBlock(b, p, c)
    ensures forall b :: IsBlock(b, p, c) ==> b in list && b !in live
  {
    hide Size, PageOf, PerArena, BlockAt, IsBlock;
    BlocksDistinct(p, c, PerArena(c));
    var all := Elements(Blocks(p, c, PerArena(c)));
    DistinctSize(Blocks(p, c, PerArena(c)));
    assert FreeAt(list, p) <= all;
    Subset(FreeAt(list, p), all);
    forall b | IsBlock(b, p, c) ensures b in list {
      assert b in all;
    }
  }

  lemma Subset(a: set<nat>, b: set<nat>)
    requires a <= b && |a| == |b|
    ensures a == b
  {
    assert b == a + (b - a);
    assert |b| == |a| + |b - a|;
  }

  /** Another list keeps its order when arena `p` goes: none of its blocks is there. */
  lemma ListWithout(headers: map<nat, Header>, list: seq<nat>, c: nat, p: nat)
    requires ListOk(headers, list, c) && forall b :: b in list ==> PageOf(b) != p
    ensures ListOk(headers - {p}, list, c)
  {
    hide PageOf, IsBlock, Distinct;
  }

  lemma OtherClass(headers: map<nat, Header>, list: seq<nat>, c: nat, p: nat, b: nat)
    requires ListOk(headers, list, c) && p in headers && headers[p].Small? && b in list
    requires headers[p].cls != c || !IsBlock(b, p, c)
    ensures PageOf(b) != p
  {
    hide PageOf, IsBlock, Distinct;
  }

  lemma LiveWithout(headers: map<nat, Header>, b: nat, p: nat)
    requires LiveOk(headers, b) && PageOf(b) != p
    ensures LiveOk(headers - {p}, b)
  {
    hide PageOf, IsBlock;
  }

  /** The other arenas of the class keep their blocks on the list. */
  lemma SmallWithout(q: nat, c: nat, count: nat, all: seq<nat>, list: seq<nat>, live: set<nat>, p: nat)
    requires SmallOk(q, c, count, all, live) && q != p
    requires forall b :: b in list <==> b in all && !IsBlock(b, p, c)
    ensures SmallOk(q, c, count, list, live)
  {
    hide PageOf, IsBlock, SmallOk;
    forall b | PageOf(b) == q ensures b in list <==> b in all {
      if IsBlock(b, p, c) { BlockPage(b, p, c); }
    }
    SmallFrame(q, c, count, all, live, list, live);
  }

  lemma NoneLive(headers: map<nat, Header>, live: set<nat>, p: nat, c: nat, count: nat, list: seq<nat>)
    requires c < CLASSES && SmallOk(p, c, count, list, live) && count == PerArena(c) && ListOk(headers, list, c)
    requires p in headers && headers[p] == Small(c, count) && forall b :: b in live ==> LiveOk(headers, b)
    ensures forall b :: b in live ==> PageOf(b) != p
  {
    hide PerArena, IsBlock, SmallOk, PageOf, Distinct;
    FullArena(p, c, list, live);
    forall b | b in live ensures PageOf(b) != p {
      assert LiveOk(headers, b);
    }
  }

  lemma Dropped(headers: map<nat, Header>, free: seq<seq<nat>>, live: set<nat>, p: nat, list: seq<nat>)
    requires Agree(headers, free, live) && p in headers && headers[p].Small?
    requires headers[p].count == PerArena(headers[p].cls)
    requires Distinct(list) && forall b :: b in list <==> b in free[headers[p].cls] && !IsBlock(b, p, headers[p].cls)
    ensures Agree(headers - {p}, free[headers[p].cls := list], live)
  {
    hide PerArena, IsBlock, SmallOk, PageOf, LiveOk, Distinct;
    var c, less, free1 := headers[p].cls, headers - {p}, free[headers[p].cls := list];
    NoneLive(headers, live, p, c, headers[p].count, free[c]);
    forall d | 0 <= d < CLASSES ensures ListOk(less, free1[d], d) {
      forall b | b in free1[d] ensures PageOf(b) != p {
        OtherClass(headers, free[d], d, p, b);
      }
      ListWithout(headers, free1[d], d, p);
    }
    hide ListOk;
    forall q | q in less && less[q].Small?
      ensures less[q].cls < CLASSES && SmallOk(q, less[q].cls, less[q].count, free1[less[q].cls], live)
    {
      if less[q].cls == c {
        SmallWithout(q, c, less[q].count, free[c], list, live, p);
      }
    }
    forall b | b in live ensures LiveOk(less, b) {
      LiveWithout(headers, b, p);
    }
  }

  lemma LargeAdded(headers: map<nat, Header>, free: seq<seq<nat>>, live: set<nat>, p: nat, n: nat)
    requires Agree(headers, free, live) && p !in headers && 0 < n
    ensures 4096 * p + HEADER !in live && PageOf(4096 * p + HEADER) == p
    ensures Agree(headers[p := Large(n)], free, live + {4096 * p + HEADER})
  {
    hide Size, PerArena, BlockAt, IsBlock, SmallOk, PageOf;
    var b := 4096 * p + HEADER;
    forall q: nat ensures PageOf(4096 * q + HEADER) == q {
      HeaderPage(q);
    }
    forall q | q in headers && headers[q].Small?
      ensures SmallOk(q, headers[q].cls, headers[q].count, free[headers[q].cls], live + {b})
    {
      SmallFrame(q, headers[q].cls, headers[q].count, free[headers[q].cls], live, free[headers[q].cls], live + {b});
    }
  }

  lemma LargeDropped(headers: map<nat, Header>, free: seq<seq<nat>>, live: set<nat>, p: nat)
    requires Agree(headers, free, live) && p in headers && headers[p].Large?
    ensures Agree(headers - {p}, free, live - {4096 * p + HEADER})
  {
    hide Size, PerArena, BlockAt, IsBlock, SmallOk, PageOf;
    var b := 4096 * p + HEADER;
    forall q: nat ensures PageOf(4096 * q + HEADER) == q {
      HeaderPage(q);
    }
    forall q | q in headers && headers[q].Small?
      ensures SmallOk(q, headers[q].cls, headers[q].count, free[headers[q].cls], live - {b})
    {
      SmallFrame(q, headers[q].cls, headers[q].count, free[headers[q].cls], live, free[headers[q].cls], live - {b});
    }
    forall x | x in live - {b} ensures LiveOk(headers - {p}, x) {
      assert LiveOk(headers, x);
    }
  }

  /** Bytes a caller may use behind a live pointer. */
  function Usable(headers: map<nat, Header>, b: nat): nat {
    if PageOf(b) !in headers then 0
    else match headers[PageOf(b)]
      case Small(c, _) => if c < CLASSES then Size(c) else 0
      case Large(n) => if n > 0 then 4096 * n - HEADER else 0
  }

  ghost predicate HeadersOk(headers: map<nat, Header>) {
    forall p :: p in headers ==> if headers[p].Small? then headers[p].cls < CLASSES else 0 < headers[p].count
  }

  lemma LiveInside(headers: map<nat, Header>, a: nat)
    requires HeadersOk(headers) && LiveOk(headers, a)
    ensures PageOf(a) in headers && 4096 * PageOf(a) + HEADER <= a && 0 < Span(headers[PageOf(a)])
    ensures a + Usable(headers, a) <= 4096 * (PageOf(a) + Span(headers[PageOf(a)]))
  {
    hide PageOf, Size;
    var p := PageOf(a);
    if headers[p].Small? {
      var i :| 0 <= i < PerArena(headers[p].cls) && a == BlockAt(p, headers[p].cls, i);
      BlockInPage(p, headers[p].cls, i);
    }
  }

  /** Two blocks, free or not, never overlap. */
  lemma Apart(headers: map<nat, Header>, pages: set<nat>, a: nat, b: nat)
    requires HeadersOk(headers) && LiveOk(headers, a) && LiveOk(headers, b) && Spans(headers, pages) && a != b
    ensures a + Usable(headers, a) <= b || b + Usable(headers, b) <= a
  {
    hide PageOf, Size, BlockAt, PerArena, IsBlock, Usable, Span, Spans;
    LiveInside(headers, a);
    LiveInside(headers, b);
    if PageOf(a) == PageOf(b) {
      SamePageApart(headers, a, b);
    } else {
      SpansApart(headers, pages, PageOf(a), PageOf(b));
    }
  }

  /** Live allocations never overlap, and each lies behind the header in the pages of its arena. */
  lemma LiveApart(headers: map<nat, Header>, free: seq<seq<nat>>, live: set<nat>, pages: set<nat>, a: nat, b: nat)
    requires Agree(headers, free, live) && Spans(headers, pages) && a in live && b in live && a != b
    ensures a + Usable(headers, a) <= b || b + Usable(headers, b) <= a
    ensures 4096 * PageOf(a) + HEADER <= a && a + Usable(headers, a) <= 4096 * (PageOf(a) + Span(headers[PageOf(a)]))
  {
    hide PageOf, Usable, Spans, ListOk, SmallOk;
    assert LiveOk(headers, a) && LiveOk(headers, b);
    Apart(headers, pages, a, b);
    LiveInside(headers, a);
  }

  lemma SamePageApart(headers: map<nat, Header>, a: nat, b: nat)
    requires LiveOk(headers, a) && LiveOk(headers, b) && a != b && PageOf(a) == PageOf(b)
    ensures a + Usable(headers, a) <= b || b + Usable(headers, b) <= a
  {
    hide PageOf, Size, BlockAt;
    var p := PageOf(a);
    var c := headers[p].cls;
    var i :| 0 <= i < PerArena(c) && a == BlockAt(p, c, i);
    var j :| 0 <= j < PerArena(c) && b == BlockAt(p, c, j);
    if i < j { BlocksApart(p, c, i, j); } else { BlocksApart(p, c, j, i); }
  }

  lemma SpansApart(headers: map<nat, Header>, pages: set<nat>, p: nat, q: nat)
    requires Spans(headers, pages) && p in headers && q in headers && p != q
    requires 0 < Span(headers[p]) && 0 < Span(headers[q])
    ensures p + Span(headers[p]) <= q || q + Span(headers[q]) <= p
  {
    var m := if p < q then q else p;
    assert Within(m, p, Span(headers[p])) ==> m in PageRange(p, Span(headers[p]));
    assert Within(m, q, Span(headers[q])) ==> m in PageRange(q, Span(headers[q]));
  }
}
