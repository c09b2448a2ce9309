/** Directory entries: 24 bytes each, 21 in a sector, and what the blocks of a directory show. */
module DirData {
  import opened Bytes
  import opened Ide
  import opened Inodes
  import opened Volumes
  import opened FileData
  import opened Paths

  const ENTRY := 24       // sizeof(struct dir_entry)
  const PER_SECTOR := 21
  const REGULAR: word := 1    // FT_REGULAR
  const DIRECTORY: word := 2  // FT_DIRECTORY

  datatype Entry = Entry(name: seq<byte>, id: word, kind: word)

  /** A C string: the bytes before the first zero. */
  function CString(bs: seq<byte>): (s: seq<byte>)
    ensures |s| <= |bs| && s == bs[..|s|] && (|s| < |bs| ==> bs[|s|] == 0) && 0 !in s
  {
    if bs == [] || bs[0] == 0 then [] else [bs[0]] + CString(bs[1..])
  }

  function WordBytes(w: word): (bs: seq<byte>)
    ensures |bs| == 4
  {
    [Digit(w, 0), Digit(w, 1), Digit(w, 2), Digit(w, 3)]
  }

  lemma WordBytesBack(w: word, before: seq<byte>, after: seq<byte>)
    ensures WordAt(before + WordBytes(w) + after, |before|) == w
  {
    DigitsRecompose(w);
    var bs := before + WordBytes(w) + after;
    assert bs[|before|] == Digit(w, 0) && bs[|before| + 1] == Digit(w, 1);
    assert bs[|before| + 2] == Digit(w, 2) && bs[|before| + 3] == Digit(w, 3);
  }

  function Zeros(n: nat): (z: seq<byte>)
    ensures |z| == n
  {
    seq(n, _ => 0)
  }

  /** create_dir_entry: the name is copied into 16 zero bytes; exactly 16 are let through. */
  function EncodeEntry(e: Entry): (raw: seq<byte>)
    requires |e.name| <= 16
    ensures |raw| == ENTRY
  {
    e.name + Zeros(16 - |e.name|) + WordBytes(e.id) + WordBytes(e.kind)
  }

  /** How the code reads an entry: the name up to the first zero, wherever that is. */
  function DecodeEntry(raw: seq<byte>): Entry
    requires |raw| == ENTRY
  {
    Entry(CString(raw), WordAt(raw, 16), WordAt(raw, 20))
  }

  predicate ValidName(name: seq<byte>) {
    0 < |name| < 16 && 0 !in name && 47 !in name
  }

  lemma {:induction false} CStringStops(s: seq<byte>, rest: seq<byte>)
    requires 0 !in s && (rest == [] || rest[0] == 0)
    ensures CString(s + rest) == s
  {
    if s != [] {
      var all := s + rest;
      assert all[0] == s[0] && s[0] in s && all[1..] == s[1..] + rest && s == [s[0]] + s[1..];
      CStringStops(s[1..], rest);
    } else {
      assert s + rest == rest;
    }
  }

  /** An entry reads back as it was written when its name leaves room for the zero; a name of 16
      characters runs on into the inode number, unless that starts with a zero byte. */
  lemma EntryRoundTrip(e: Entry)
    requires 0 !in e.name && |e.name| <= 16
    ensures DecodeEntry(EncodeEntry(e)) == e <==> |e.name| < 16 || e.id % 256 == 0
  {
    var tail := Zeros(16 - |e.name|) + WordBytes(e.id) + WordBytes(e.kind);
    assert EncodeEntry(e) == e.name + tail;
    assert EncodeEntry(e) == (e.name + Zeros(16 - |e.name|)) + WordBytes(e.id) + WordBytes(e.kind);
    WordBytesBack(e.id, e.name + Zeros(16 - |e.name|), WordBytes(e.kind));
    assert EncodeEntry(e) == (e.name + Zeros(16 - |e.name|) + WordBytes(e.id)) + WordBytes(e.kind) + [];
    WordBytesBack(e.kind, e.name + Zeros(16 - |e.name|) + WordBytes(e.id), []);
    if |e.name| < 16 || e.id % 256 == 0 {
      assert tail[0] == 0;
      CStringStops(e.name, tail);
    } else {
      assert EncodeEntry(e)[16] == Digit(e.id, 0) != 0;
      assert |CString(EncodeEntry(e))| != 16;
    }
  }

  /** Entry `i` of a sector. */
  function RawAt(s: Sector, i: nat): (raw: seq<byte>)
    requires i < PER_SECTOR
    ensures |raw| == ENTRY
  {
    s[ENTRY * i..ENTRY * i + ENTRY]
  }

  function PutRaw(s: Sector, i: nat, raw: seq<byte>): Sector
    requires i < PER_SECTOR && |raw| == ENTRY
  {
    Spliced(s, ENTRY * i, raw)
  }

  lemma PutThenAt(s: Sector, i: nat, raw: seq<byte>, j: nat)
    requires i < PER_SECTOR && |raw| == ENTRY && j < PER_SECTOR
    ensures RawAt(PutRaw(s, i, raw), j) == if j == i then raw else RawAt(s, j)
  {
    var t := PutRaw(s, i, raw);
    if i < j {
      assert t[ENTRY * j..ENTRY * j + ENTRY] == s[ENTRY * j..ENTRY * j + ENTRY];
    } else if j < i {
      assert t[ENTRY * j..ENTRY * j + ENTRY] == s[ENTRY * j..ENTRY * j + ENTRY];
    }
  }

  /** Name, number and kind are where the structure has them, and no other byte of the sector changes. */
  lemma EntryBytes(s: Sector, i: nat, e: Entry)
    requires i < PER_SECTOR && |e.name| <= 16
    ensures var t := PutRaw(s, i, EncodeEntry(e));
      && t[24 * i..24 * i + |e.name|] == e.name && (forall k :: 24 * i + |e.name| <= k < 24 * i + 16 ==> t[k] == 0)
      && WordAt(t, 24 * i + 16) == e.id && WordAt(t, 24 * i + 20) == e.kind
      && forall k :: 0 <= k < 512 && !(24 * i <= k < 24 * i + 24) ==> t[k] == s[k]
  {
    hide WordBytes, WordAt;
    var t, front := PutRaw(s, i, EncodeEntry(e)), e.name + Zeros(16 - |e.name|);
    var before := s[..24 * i] + front;
    assert t == before + WordBytes(e.id) + (WordBytes(e.kind) + s[24 * i + 24..]);
    WordBytesBack(e.id, before, WordBytes(e.kind) + s[24 * i + 24..]);
    assert t == (before + WordBytes(e.id)) + WordBytes(e.kind) + s[24 * i + 24..];
    WordBytesBack(e.kind, before + WordBytes(e.id), s[24 * i + 24..]);
  }

  function BlankSector(): Sector {
    Zeros(512)
  }

  lemma BlankEntries(i: nat)
    requires i < PER_SECTOR
    ensures RawAt(BlankSector(), i) == Zeros(ENTRY)
    ensures DecodeEntry(Zeros(ENTRY)) == Entry([], 0, 0)
  {
  }

  type Entries = map<(nat, nat), Entry>

  /** What entry `i` of block `k` must show: a live entry, or an unused one without name and number. */
  ghost predicate ShowsAt(raw: seq<byte>, entries: Entries, k: nat, i: nat)
    requires |raw| == ENTRY
  {
    var e := DecodeEntry(raw);
    if e.kind != 0 then (k, i) in entries && entries[(k, i)] == e else (k, i) !in entries && e.name == [] && e.id == 0
  }

  ghost predicate ShowsBlock(sector: Sector, entries: Entries, k: nat) {
    forall i :: 0 <= i < PER_SECTOR ==> ShowsAt(RawAt(sector, i), entries, k, i)
  }

  /** The directory in inode `node` shows exactly `entries`. */
  ghost predicate Shows(sectors: seq<Sector>, node: Node, entries: Entries) {
    && |node.slots| == SLOTS && node.slots[TABLE_SLOT] == 0
    && (forall k :: 0 <= k < 12 && Block(node, k) != 0 ==>
          Block(node, k) < |sectors| && ShowsBlock(sectors[Block(node, k)], entries, k))
    && forall p :: p in entries ==> p.0 < 12 && p.1 < PER_SECTOR && Block(node, p.0) != 0
  }

  /** The blocks of a directory are all different. */
  ghost predicate Separate(node: Node) {
    && |node.slots| == SLOTS
    && forall j, k :: 0 <= j < 12 && 0 <= k < 12 && j != k && Block(node, j) != 0 ==> Block(node, j) != Block(node, k)
  }

  lemma OwnedSeparate(nodes: map<nat, Node>, owners: map<nat, Owner>, id: nat)
    requires OwnersAgree(nodes, owners) && id in nodes
    ensures Separate(nodes[id])
  {
    forall j, k | 0 <= j < 12 && 0 <= k < 12 && j != k && Block(nodes[id], j) != 0
      ensures Block(nodes[id], j) != Block(nodes[id], k)
    {
      BlocksDistinct(nodes, owners, id, j, k);
    }
  }

  lemma SizeDoesNotShow(sectors: seq<Sector>, node: Node, entries: Entries, size: word)
    requires Shows(sectors, node, entries)
    ensures Shows(sectors, node.(size := size), entries)
  {
    forall k | 0 <= k < 12 ensures Block(node.(size := size), k) == Block(node, k) {}
  }

  /** Other sectors do not matter. */
  lemma ShowsFrame(s0: seq<Sector>, s1: seq<Sector>, node: Node, entries: Entries)
    requires Shows(s0, node, entries) && |s1| == |s0|
    requires forall k :: 0 <= k < 12 && Block(node, k) != 0 && Block(node, k) < |s0| ==>
      s1[Block(node, k)] == s0[Block(node, k)]
    ensures Shows(s1, node, entries)
  {
    hide ShowsBlock;
  }

  /** A directory that a call left alone shows the same. */
  lemma KeptShows(nodes0: map<nat, Node>, s0: seq<Sector>, nodes: map<nat, Node>, s1: seq<Sector>, ids: set<nat>,
                  d: nat, entries: Entries)
    requires OthersKept(nodes0, s0, nodes, s1, ids) && d in nodes0 && d !in ids && Shows(s0, nodes0[d], entries)
    ensures d in nodes && nodes[d] == nodes0[d] && Shows(s1, nodes[d], entries)
  {
    hide ShowsBlock;
    forall k | 0 <= k < 12 ensures Block(nodes0[d], k) == Slot(nodes0, d, k) {}
    ShowsFrame(s0, s1, nodes0[d], entries);
  }

  /** A block shows the same when its entries are the same. */
  lemma BlockFrame(sector: Sector, entries: Entries, after: Entries, k: nat)
    requires ShowsBlock(sector, entries, k)
    requires forall i :: 0 <= i < PER_SECTOR ==>
      ((k, i) in after <==> (k, i) in entries) && ((k, i) in entries ==> after[(k, i)] == entries[(k, i)])
    ensures ShowsBlock(sector, after, k)
  {
    hide RawAt, DecodeEntry;
    forall i | 0 <= i < PER_SECTOR ensures ShowsAt(RawAt(sector, i), after, k, i) {
      assert ShowsAt(RawAt(sector, i), entries, k, i);
    }
  }

  lemma BlockPut(sector: Sector, entries: Entries, k: nat, i: nat, raw: seq<byte>, after: Entries)
    requires ShowsBlock(sector, entries, k) && i < PER_SECTOR && |raw| == ENTRY && ShowsAt(raw, after, k, i)
    requires forall p :: p != (k, i) ==> (p in after <==> p in entries) && (p in entries ==> after[p] == entries[p])
    ensures ShowsBlock(PutRaw(sector, i, raw), after, k)
  {
    hide RawAt, PutRaw, DecodeEntry;
    forall j | 0 <= j < PER_SECTOR ensures ShowsAt(RawAt(PutRaw(sector, i, raw), j), after, k, j) {
      PutThenAt(sector, i, raw, j);
      assert ShowsAt(RawAt(sector, j), entries, k, j);
    }
  }

  /** Writing one entry of a block. */
  lemma ShowsPut(sectors: seq<Sector>, node: Node, entries: Entries, k: nat, i: nat, raw: seq<byte>, after: Entries)
    requires Shows(sectors, node, entries) && Separate(node) && k < 12 && i < PER_SECTOR && Block(node, k) != 0
    requires |raw| == ENTRY && ShowsAt(raw, after, k, i) && Block(node, k) < |sectors|
    requires forall p :: p != (k, i) ==> (p in after <==> p in entries) && (p in entries ==> after[p] == entries[p])
    ensures Shows(sectors[Block(node, k) := PutRaw(sectors[Block(node, k)], i, raw)], node, after)
  {
    hide RawAt, PutRaw, ShowsAt, ShowsBlock;
    var b := Block(node, k);
    BlockPut(sectors[b], entries, k, i, raw, after);
    forall k1 | 0 <= k1 < 12 && k1 != k && Block(node, k1) != 0
      ensures ShowsBlock(sectors[Block(node, k1)], after, k1)
    {
      BlockFrame(sectors[Block(node, k1)], entries, after, k1);
    }
  }

  lemma BlankBlock(entries: Entries, k: nat)
    requires forall i :: (k, i) !in entries
    ensures ShowsBlock(BlankSector(), entries, k)
  {
    hide RawAt, DecodeEntry;
    forall i | 0 <= i < PER_SECTOR ensures ShowsAt(RawAt(BlankSector(), i), entries, k, i) {
      BlankEntries(i);
    }
  }

  /** A new block with one entry in front. */
  lemma ShowsGrow(sectors: seq<Sector>, node: Node, entries: Entries, k: nat, lba: word, e: Entry)
    requires Shows(sectors, node, entries) && k < 12 && Block(node, k) == 0 && 0 < lba < |sectors|
    requires forall j :: 0 <= j < 12 ==> Block(node, j) != lba
    requires e.kind != 0 && |e.name| <= 16 && DecodeEntry(EncodeEntry(e)) == e
    ensures Shows(sectors[lba := PutRaw(BlankSector(), 0, EncodeEntry(e))],
                  node.(slots := node.slots[k := lba]), entries[(k, 0) := e])
  {
    hide RawAt, PutRaw, DecodeEntry, EncodeEntry, ShowsBlock;
    var n1, after := node.(slots := node.slots[k := lba]), entries[(k, 0) := e];
    forall k1 | 0 <= k1 < 12 ensures Block(n1, k1) == if k1 == k then lba else Block(node, k1) {}
    forall i ensures (k, i) !in entries {
      if (k, i) in entries { assert false; }
    }
    BlankBlock(entries, k);
    BlockPut(BlankSector(), entries, k, 0, EncodeEntry(e), after);
    forall k1 | 0 <= k1 < 12 && k1 != k && Block(node, k1) != 0
      ensures ShowsBlock(sectors[Block(node, k1)], after, k1)
    {
      BlockFrame(sectors[Block(node, k1)], entries, after, k1);
    }
  }

  /** A block leaves with all its entries. */
  lemma ShowsShrink(sectors: seq<Sector>, node: Node, entries: Entries, k: nat, after: Entries)
    requires Shows(sectors, node, entries) && k < 12
    requires forall p :: p in after <==> p in entries && p.0 != k
    requires forall p :: p in after ==> after[p] == entries[p]
    ensures Shows(sectors, node.(slots := node.slots[k := 0]), after)
  {
    hide ShowsBlock;
    var n1 := node.(slots := node.slots[k := 0]);
    forall k1 | 0 <= k1 < 12 ensures Block(n1, k1) == if k1 == k then 0 else Block(node, k1) {}
    forall k1 | 0 <= k1 < 12 && k1 != k && Block(node, k1) != 0
      ensures ShowsBlock(sectors[Block(node, k1)], after, k1)
    {
      BlockFrame(sectors[Block(node, k1)], entries, after, k1);
    }
  }

  predicate Dot(p: (nat, nat)) {
    p == (0, 0) || p == (0, 1)
  }

  /** Entries sit in blocks that exist, have valid names, and no two share a name or an inode number. */
  ghost predicate Unique(node: Node, entries: Entries)
    requires |node.slots| == SLOTS
  {
    && (forall p :: p in entries ==> p.0 < 12 && p.1 < PER_SECTOR && Block(node, p.0) != 0 && entries[p].kind != 0)
    && (forall p :: p in entries && !Dot(p) ==> ValidName(entries[p].name))
    && (forall p, q :: p in entries && q in entries && p != q ==> entries[p].name != entries[q].name)
    && forall p, q :: p in entries && q in entries && p != q && !Dot(p) && !Dot(q) ==> entries[p].id != entries[q].id
  }

  predicate InBlock(entries: Entries, k: int) {
    exists p :: p in entries && p.0 == k
  }

  /** Every block but the first holds an entry. */
  ghost predicate NoEmptyBlock(node: Node, entries: Entries)
    requires |node.slots| == SLOTS
  {
    forall k :: 1 <= k < 12 && Block(node, k) != 0 ==> InBlock(entries, k)
  }

  /** A directory in order: `.` and `..` in front, and a size that counts the entries. */
  ghost predicate DirOk(node: Node, entries: Entries, id: word, parent: word) {
    && |node.slots| == SLOTS && node.size == ENTRY * |entries|
    && (0, 0) in entries && entries[(0, 0)] == Entry(DOT, id, DIRECTORY)
    && (0, 1) in entries && entries[(0, 1)] == Entry(DOTDOT, parent, DIRECTORY)
    && Unique(node, entries) && NoEmptyBlock(node, entries)
  }

  ghost predicate HasName(entries: Entries, name: seq<byte>) {
    exists p :: p in entries && entries[p].name == name
  }

  lemma UniqueAdded(node: Node, entries: Entries, p: (nat, nat), e: Entry, after: Node)
    requires |node.slots| == |after.slots| == SLOTS && Unique(node, entries) && p !in entries && p.0 < 12
    requires p.1 < PER_SECTOR
    requires e.kind != 0 && ValidName(e.name) && !HasName(entries, e.name) && !Dot(p)
    requires forall q :: q in entries && !Dot(q) ==> entries[q].id != e.id
    requires forall k :: 0 <= k < 12 ==> (Block(node, k) != 0 || k == p.0) ==> Block(after, k) != 0
    ensures Unique(after, entries[p := e])
  {
    hide ValidName;
  }

  lemma BlocksUsedAdded(node: Node, entries: Entries, p: (nat, nat), e: Entry, after: Node)
    requires |node.slots| == |after.slots| == SLOTS && NoEmptyBlock(node, entries)
    requires forall k :: 0 <= k < 12 && k != p.0 ==> Block(after, k) == Block(node, k)
    ensures NoEmptyBlock(after, entries[p := e])
  {
    var more := entries[p := e];
    forall k | 1 <= k < 12 && Block(after, k) != 0 ensures InBlock(more, k) {
      if k == p.0 {
        assert p in more;
      } else {
        assert InBlock(entries, k);
        var q :| q in entries && q.0 == k;
        assert q in more;
      }
    }
  }

  /** Adding an entry whose name and inode number are new. */
  lemma EntryAdded(node: Node, entries: Entries, id: word, parent: word, p: (nat, nat), e: Entry, after: Node)
    requires DirOk(node, entries, id, parent) && p !in entries && p.0 < 12 && p.1 < PER_SECTOR
    requires e.kind != 0 && ValidName(e.name) && !HasName(entries, e.name)
    requires forall q :: q in entries && !Dot(q) ==> entries[q].id != e.id
    requires |after.slots| == SLOTS && after.size == node.size + ENTRY && Block(after, p.0) != 0
    requires forall k :: 0 <= k < 12 && k != p.0 ==> Block(after, k) == Block(node, k)
    ensures DirOk(after, entries[p := e], id, parent)
  {
    hide ValidName, HasName, Unique, NoEmptyBlock;
    assert entries[p := e].Keys == entries.Keys + {p};
    UniqueAdded(node, entries, p, e, after);
    BlocksUsedAdded(node, entries, p, e, after);
  }

  lemma BlocksUsedRemoved(node: Node, entries: Entries, p: (nat, nat), after: Node)
    requires |node.slots| == |after.slots| == SLOTS && NoEmptyBlock(node, entries)
    requires forall k :: 0 <= k < 12 && k != p.0 ==> Block(after, k) == Block(node, k)
    requires p.0 < 12 && Block(after, p.0) != 0 && p.0 != 0 ==> exists q :: q in entries && q.0 == p.0 && q != p
    ensures NoEmptyBlock(after, entries - {p})
  {
    var fewer := entries - {p};
    forall k | 1 <= k < 12 && Block(after, k) != 0 ensures InBlock(fewer, k) {
      if k == p.0 {
        var q :| q in entries && q.0 == p.0 && q != p;
        assert q in fewer;
      } else {
        assert InBlock(entries, k);
        var q :| q in entries && q.0 == k;
        assert q in fewer;
      }
    }
  }

  lemma UniqueRemoved(node: Node, entries: Entries, p: (nat, nat), after: Node)
    requires |node.slots| == |after.slots| == SLOTS && Unique(node, entries)
    requires forall k :: 0 <= k < 12 && k != p.0 ==> Block(after, k) == Block(node, k)
    requires p.0 < 12 && (Block(after, p.0) == 0 ==> forall q :: q in entries && q.0 == p.0 ==> q == p)
    ensures Unique(after, entries - {p})
  {
    hide ValidName;
    var fewer := entries - {p};
    forall q | q in fewer ensures q in entries && fewer[q] == entries[q] && Block(after, q.0) != 0 {}
  }

  /** Removing an entry; its block goes too when nothing else is in it and it is not the first. */
  lemma EntryRemoved(node: Node, entries: Entries, id: word, parent: word, p: (nat, nat), after: Node)
    requires DirOk(node, entries, id, parent) && p in entries && !Dot(p) && p.0 < 12
    requires |after.slots| == SLOTS && after.size == node.size - ENTRY
    requires forall k :: 0 <= k < 12 && k != p.0 ==> Block(after, k) == Block(node, k)
    requires Block(after, p.0) == 0 <==> p.0 != 0 && forall q :: q in entries && q.0 == p.0 ==> q == p
    ensures DirOk(after, entries - {p}, id, parent)
  {
    hide ValidName, NoEmptyBlock, Unique;
    assert (entries - {p}).Keys == entries.Keys - {p};
    BlocksUsedRemoved(node, entries, p, after);
    UniqueRemoved(node, entries, p, after);
  }

  /** dir_is_empty looks at the size only: that is enough. */
  lemma EmptyBySize(node: Node, entries: Entries, id: word, parent: word)
    requires DirOk(node, entries, id, parent)
    ensures node.size == 2 * ENTRY <==> entries.Keys == {(0, 0), (0, 1)}
    ensures node.size == 2 * ENTRY ==> forall k :: 1 <= k < 12 ==> Block(node, k) == 0
  {
    var dots := {(0, 0), (0, 1)};
    assert dots <= entries.Keys && |dots| == 2 && |entries| == |entries.Keys|;
    if |entries| == 2 {
      SameSize(dots, entries.Keys);
      forall k | 1 <= k < 12 ensures Block(node, k) == 0 {
        assert Block(node, k) != 0 ==> InBlock(entries, k);
      }
    }
  }

  lemma SameSize(a: set<(nat, nat)>, b: set<(nat, nat)>)
    requires a <= b && |a| == |b|
    ensures a == b
  {
    assert b == a + (b - a);
    assert |b| == |a| + |b - a|;
  }

  /** The places of a directory: 12 blocks with 21 entries each. */
  function RowPlaces(k: nat, n: nat): (s: set<(nat, nat)>)
    ensures |s| <= n && forall i :: 0 <= i < n ==> (k, i) in s
  {
    if n == 0 then {} else RowPlaces(k, n - 1) + {(k, n - 1)}
  }

  function Places(n: nat): (s: set<(nat, nat)>)
    ensures |s| <= PER_SECTOR * n && forall k, i :: 0 <= k < n && 0 <= i < PER_SECTOR ==> (k, i) in s
  {
    if n == 0 then {} else Places(n - 1) + RowPlaces(n - 1, PER_SECTOR)
  }

  lemma FewEntries(node: Node, entries: Entries, id: word, parent: word)
    requires DirOk(node, entries, id, parent)
    ensures |entries| <= 252 && node.size % ENTRY == 0
  {
    hide Places, RowPlaces, ValidName;
    forall p | p in entries ensures p in Places(12) {
      assert p == (p.0, p.1);
    }
    var rest := Places(12) - entries.Keys;
    assert Places(12) == entries.Keys + rest && |Places(12)| == |entries.Keys| + |rest|;
  }
}