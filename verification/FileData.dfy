/** What the slots of an inode mean: the bytes of a regular file, and the ways file_write may let
    the slots grow. */
module FileData {
  import opened Bytes
  import opened Ide
  import opened Inodes
  import opened Volumes

  /** The address of block `k` of a file, 0 when it has none. */
  function Block(node: Node, k: nat): word
    requires |node.slots| == SLOTS && k < MAX_BLOCKS
  {
    node.slots[SlotOf(k)]
  }

  /** Exactly the first `used` blocks exist, and the indirect table exists when they need it. */
  ghost predicate Shape(node: Node, used: nat) {
    && |node.slots| == SLOTS && used <= MAX_BLOCKS
    && (forall k :: 0 <= k < MAX_BLOCKS ==> (Block(node, k) != 0 <==> k < used))
    && (node.slots[TABLE_SLOT] != 0 <==> used > TABLE_SLOT)
  }

  /** The blocks a file of `size` bytes has once its first block is there: one more than it fills. */
  function Used(size: nat): nat {
    size / 512 + 1
  }

  /** A regular file: no block before the first write, Used(size) of them from then on. */
  ghost predicate RegularFile(node: Node) {
    && |node.slots| == SLOTS && node.size < 512 * MAX_BLOCKS
    && if node.slots[0] == 0 then node.size == 0 && Shape(node, 0) else Shape(node, Used(node.size))
  }

  /** Byte `o` of block `k`. */
  function BlockByte(sectors: seq<Sector>, node: Node, k: nat, o: nat): byte
    requires |node.slots| == SLOTS && k < MAX_BLOCKS && o < 512
  {
    if Block(node, k) < |sectors| then sectors[Block(node, k)][o] else 0
  }

  /** The file's bytes: its blocks in order, cut to its size. */
  function Contents(sectors: seq<Sector>, node: Node): (c: seq<byte>)
    requires |node.slots| == SLOTS && node.size <= 512 * MAX_BLOCKS
    ensures |c| == node.size
  {
    seq(node.size, i requires 0 <= i < node.size => BlockByte(sectors, node, i / 512, i % 512))
  }

  /** `c` is what the blocks hold, block by block. */
  ghost predicate Holds(sectors: seq<Sector>, node: Node, c: seq<byte>) {
    && |node.slots| == SLOTS && |c| == node.size <= 512 * MAX_BLOCKS
    && forall k, o :: 0 <= k < MAX_BLOCKS && 0 <= o < 512 && 512 * k + o < |c| ==>
         BlockByte(sectors, node, k, o) == c[512 * k + o]
  }

  lemma DivMod(k: nat, o: nat)
    requires o < 512
    ensures (512 * k + o) / 512 == k && (512 * k + o) % 512 == o
  {
  }

  lemma ContentsHold(sectors: seq<Sector>, node: Node, c: seq<byte>)
    requires |node.slots| == SLOTS && node.size <= 512 * MAX_BLOCKS
    ensures Holds(sectors, node, c) <==> c == Contents(sectors, node)
  {
    if c == Contents(sectors, node) {
      forall k, o | 0 <= k < MAX_BLOCKS && 0 <= o < 512 && 512 * k + o < |c|
        ensures BlockByte(sectors, node, k, o) == c[512 * k + o]
      {
        DivMod(k, o);
      }
    }
    if Holds(sectors, node, c) {
      forall i | 0 <= i < |c| ensures c[i] == Contents(sectors, node)[i] {
        assert BlockByte(sectors, node, i / 512, i % 512) == c[512 * (i / 512) + i % 512];
      }
    }
  }

  /** Two disks and two inodes show the same bytes when they agree on the blocks the bytes are in. */
  lemma HoldsFrame(s0: seq<Sector>, n0: Node, s1: seq<Sector>, n1: Node, c: seq<byte>)
    requires Holds(s0, n0, c) && |n1.slots| == SLOTS && n1.size == n0.size && |s1| == |s0|
    requires forall k :: 0 <= k < MAX_BLOCKS && 512 * k < |c| ==>
      Block(n1, k) == Block(n0, k) && (Block(n0, k) < |s0| ==> s1[Block(n0, k)] == s0[Block(n0, k)])
    ensures Holds(s1, n1, c)
  {
    forall k, o | 0 <= k < MAX_BLOCKS && 0 <= o < 512 && 512 * k + o < |c|
      ensures BlockByte(s1, n1, k, o) == c[512 * k + o]
    {
      assert BlockByte(s0, n0, k, o) == c[512 * k + o];
      assert 512 * k < |c|;
    }
  }

  /** Putting a chunk behind the last byte, into the block that byte's successor belongs to. */
  lemma AppendChunk(s0: seq<Sector>, node: Node, c: seq<byte>, k: nat, off: nat, sector: Sector, chunk: seq<byte>)
    requires Holds(s0, node, c) && k < MAX_BLOCKS && off < 512 && |c| == 512 * k + off && off + |chunk| <= 512
    requires Block(node, k) < |s0|
    requires forall j :: 0 <= j < k ==> Block(node, j) != Block(node, k)
    requires sector[..off] == s0[Block(node, k)][..off] && sector[off..off + |chunk|] == chunk
    ensures |c + chunk| < U32
    ensures Holds(s0[Block(node, k) := sector], node.(size := |c + chunk|), c + chunk)
  {
    var s1, n1, d := s0[Block(node, k) := sector], node.(size := |c + chunk|), c + chunk;
    forall j, o | 0 <= j < MAX_BLOCKS && 0 <= o < 512 && 512 * j + o < |d|
      ensures BlockByte(s1, n1, j, o) == d[512 * j + o]
    {
      if j < k {
        assert BlockByte(s0, node, j, o) == c[512 * j + o];
      } else {
        assert j == k;
        if o < off {
          assert BlockByte(s0, node, k, o) == c[512 * k + o];
          assert sector[..off][o] == s0[Block(node, k)][..off][o];
        } else {
          assert sector[off..off + |chunk|][o - off] == chunk[o - off];
        }
      }
    }
  }

  /** Inode `id` may have gained blocks `has` up to `idx`; nothing else has moved. */
  ghost predicate Growing(nodes0: map<nat, Node>, owners0: map<nat, Owner>, nodes: map<nat, Node>,
                          owners: map<nat, Owner>,
                          id: nat, has: nat, idx: nat) {
    && id in nodes0 && nodes.Keys == nodes0.Keys && has <= idx <= MAX_BLOCKS
    && |nodes0[id].slots| == |nodes[id].slots| == SLOTS && nodes[id].size == nodes0[id].size
    && (forall i :: i in nodes && i != id ==> nodes[i] == nodes0[i])
    && (forall l :: l in owners0 ==> l in owners && owners[l] == owners0[l])
    && forall k :: 0 <= k < MAX_BLOCKS ==>
         if has <= k < idx then Block(nodes[id], k) != 0 else Block(nodes[id], k) == Block(nodes0[id], k)
  }

  lemma GrowOne(nodes0: map<nat, Node>, owners0: map<nat, Owner>, nodes: map<nat, Node>, owners: map<nat, Owner>,
                id: nat, has: nat, idx: nat, l: word)
    requires Growing(nodes0, owners0, nodes, owners, id, has, idx) && idx < MAX_BLOCKS
    requires l != 0 && l !in owners
    ensures Growing(nodes0, owners0, WithSlot(nodes, id, SlotOf(idx), l), owners[l := Owner(id, SlotOf(idx))],
                    id, has, idx + 1)
  {
    var after := WithSlot(nodes, id, SlotOf(idx), l);
    forall k | 0 <= k < MAX_BLOCKS ensures Block(after[id], k) == if k == idx then l else Block(nodes[id], k) {}
  }

  lemma GrowTable(nodes0: map<nat, Node>, owners0: map<nat, Owner>, nodes: map<nat, Node>, owners: map<nat, Owner>,
                  id: nat, has: nat, idx: nat, l: word)
    requires Growing(nodes0, owners0, nodes, owners, id, has, idx)
    requires l != 0 && l !in owners
    ensures Growing(nodes0, owners0, WithSlot(nodes, id, TABLE_SLOT, l), owners[l := Owner(id, TABLE_SLOT)],
                    id, has, idx)
  {
    var after := WithSlot(nodes, id, TABLE_SLOT, l);
    forall k | 0 <= k < MAX_BLOCKS ensures Block(after[id], k) == Block(nodes[id], k) {}
  }

  /** Only data blocks of inode `id` differ between two disks. */
  ghost predicate OnlyDataOf(id: nat, owners: map<nat, Owner>, s0: seq<Sector>, s1: seq<Sector>) {
    && |s0| == |s1|
    && forall l :: 0 <= l < |s0| && !(l in owners && owners[l].id == id && owners[l].slot != TABLE_SLOT) ==>
         s1[l] == s0[l]
  }

  lemma TablesKept(id: nat, nodes: map<nat, Node>, owners: map<nat, Owner>, s0: seq<Sector>, s1: seq<Sector>,
                   stale: set<nat>)
    requires OwnersAgree(nodes, owners) && OnlyDataOf(id, owners, s0, s1) && TablesIn(s0, nodes, stale)
    ensures TablesIn(s1, nodes, stale)
  {
    forall i | i in nodes && i !in stale ensures TableReadsBack(s1, nodes[i]) {
      var t := Slot(nodes, i, TABLE_SLOT);
      if t != 0 { assert owners[t] == Owner(i, TABLE_SLOT); }
    }
  }

  /** The blocks of one inode are all different. */
  lemma BlocksDistinct(nodes: map<nat, Node>, owners: map<nat, Owner>, id: nat, j: nat, k: nat)
    requires OwnersAgree(nodes, owners) && id in nodes && j < MAX_BLOCKS && k < MAX_BLOCKS && j != k
    requires Block(nodes[id], j) != 0
    ensures Block(nodes[id], j) != Block(nodes[id], k)
  {
    assert Block(nodes[id], j) == Slot(nodes, id, SlotOf(j)) && Block(nodes[id], k) == Slot(nodes, id, SlotOf(k));
  }

  /** Between two moments inode `id` kept its size and its blocks, every other inode kept
      everything, and no sector changed but bitmaps, free blocks and the table of `id`. */
  ghost predicate Kept(nodes0: map<nat, Node>, owners0: map<nat, Owner>, s0: seq<Sector>,
                       nodes: map<nat, Node>, owners: map<nat, Owner>, s1: seq<Sector>, id: nat, from: nat,
                       start: nat) {
    && id in nodes0 && nodes.Keys == nodes0.Keys
    && |nodes0[id].slots| == |nodes[id].slots| == SLOTS && nodes[id].size == nodes0[id].size
    && (forall i :: i in nodes && i != id ==> nodes[i] == nodes0[i])
    && (forall l :: l in owners0 ==> l in owners && owners[l] == owners0[l])
    && (forall k :: 0 <= k < MAX_BLOCKS && Block(nodes0[id], k) != 0 ==> Block(nodes[id], k) == Block(nodes0[id], k))
    && |s0| == |s1|
    && (forall l :: l in owners0 && l < |s0| && owners0[l] != Owner(id, TABLE_SLOT) ==> s1[l] == s0[l])
    && (forall l :: from <= l < start && l < |s0| ==> s1[l] == s0[l])
  }

  lemma KeptTwice(nodes0: map<nat, Node>, owners0: map<nat, Owner>, s0: seq<Sector>,
                  nodes1: map<nat, Node>, owners1: map<nat, Owner>, s1: seq<Sector>,
                  nodes2: map<nat, Node>, owners2: map<nat, Owner>, s2: seq<Sector>, id: nat, from: nat, start: nat)
    requires Kept(nodes0, owners0, s0, nodes1, owners1, s1, id, from, start)
    requires Kept(nodes1, owners1, s1, nodes2, owners2, s2, id, from, start)
    ensures Kept(nodes0, owners0, s0, nodes2, owners2, s2, id, from, start)
  {
    forall k | 0 <= k < MAX_BLOCKS && Block(nodes0[id], k) != 0
      ensures Block(nodes2[id], k) == Block(nodes0[id], k)
    {
      assert Block(nodes1[id], k) == Block(nodes0[id], k);
    }
  }

  /** The bytes of inode `id` survive: its data blocks are where they were and hold what they held. */
  lemma KeptHolds(nodes0: map<nat, Node>, owners0: map<nat, Owner>, s0: seq<Sector>,
                  nodes: map<nat, Node>, owners: map<nat, Owner>, s1: seq<Sector>, id: nat, from: nat,
                  start: nat, c: seq<byte>)
    requires Kept(nodes0, owners0, s0, nodes, owners, s1, id, from, start) && OwnersAgree(nodes0, owners0)
    requires RegularFile(nodes0[id]) && Holds(s0, nodes0[id], c)
    ensures Holds(s1, nodes[id], c)
  {
    forall k | 0 <= k < MAX_BLOCKS && 512 * k < |c|
      ensures Block(nodes[id], k) == Block(nodes0[id], k)
      ensures Block(nodes0[id], k) < |s0| ==> s1[Block(nodes0[id], k)] == s0[Block(nodes0[id], k)]
    {
      assert Block(nodes0[id], k) == Slot(nodes0, id, SlotOf(k));
    }
    HoldsFrame(s0, nodes0[id], s1, nodes[id], c);
  }

  /** Any other inode's file reads the same when its blocks were left alone. */
  lemma OtherContents(nodes: map<nat, Node>, owners: map<nat, Owner>, s0: seq<Sector>, s1: seq<Sector>, i: nat)
    requires OwnersAgree(nodes, owners) && i in nodes && RegularFile(nodes[i]) && |s0| == |s1|
    requires forall l :: l in owners && l < |s0| && owners[l].id == i ==> s1[l] == s0[l]
    ensures Contents(s1, nodes[i]) == Contents(s0, nodes[i])
  {
    var c := Contents(s0, nodes[i]);
    ContentsHold(s0, nodes[i], c);
    forall k | 0 <= k < MAX_BLOCKS && 512 * k < |c|
      ensures Block(nodes[i], k) < |s0| ==> s1[Block(nodes[i], k)] == s0[Block(nodes[i], k)]
    {
      assert Block(nodes[i], k) == Slot(nodes, i, SlotOf(k));
    }
    HoldsFrame(s0, nodes[i], s1, nodes[i], c);
    ContentsHold(s1, nodes[i], c);
  }

  /** What a write to inode `id` leaves alone: every other inode, and every block another inode owns. */
  ghost predicate Untouched(nodes0: map<nat, Node>, owners0: map<nat, Owner>, s0: seq<Sector>,
                            nodes: map<nat, Node>, owners: map<nat, Owner>, s1: seq<Sector>, id: nat) {
    && nodes.Keys == nodes0.Keys && |s1| == |s0|
    && (forall i :: i in nodes && i != id ==> nodes[i] == nodes0[i])
    && (forall l :: l in owners0 ==> l in owners && owners[l] == owners0[l])
    && forall l :: l in owners0 && l < |s0| && owners0[l].id != id ==> s1[l] == s0[l]
  }

  /** What a call leaves alone when it works on the inodes `ids`: every other inode, and every sector in
      another inode's slots. */
  ghost predicate OthersKept(nodes0: map<nat, Node>, s0: seq<Sector>, nodes: map<nat, Node>, s1: seq<Sector>,
                             ids: set<nat>) {
    && |s1| == |s0|
    && (forall i :: i in nodes0 && i !in ids ==> i in nodes && nodes[i] == nodes0[i])
    && forall i, s :: i !in ids && Slot(nodes0, i, s) != 0 && Slot(nodes0, i, s) < |s0| ==>
         s1[Slot(nodes0, i, s)] == s0[Slot(nodes0, i, s)]
  }

  /** One call after another. */
  lemma KeptThen(nodes0: map<nat, Node>, s0: seq<Sector>, nodes1: map<nat, Node>, s1: seq<Sector>,
                 nodes2: map<nat, Node>, s2: seq<Sector>, a: set<nat>, b: set<nat>)
    requires OthersKept(nodes0, s0, nodes1, s1, a) && OthersKept(nodes1, s1, nodes2, s2, b)
    ensures OthersKept(nodes0, s0, nodes2, s2, a + b)
  {
    forall i, s | i !in a + b && Slot(nodes0, i, s) != 0 && Slot(nodes0, i, s) < |s0|
      ensures s2[Slot(nodes0, i, s)] == s0[Slot(nodes0, i, s)]
    {
      assert Slot(nodes1, i, s) == Slot(nodes0, i, s);
    }
  }

  /** Inodes that did not exist need no exception. */
  lemma KeptOld(nodes0: map<nat, Node>, s0: seq<Sector>, nodes: map<nat, Node>, s1: seq<Sector>, ids: set<nat>,
                fewer: set<nat>)
    requires OthersKept(nodes0, s0, nodes, s1, ids) && forall i :: i in ids && i in nodes0 ==> i in fewer
    ensures OthersKept(nodes0, s0, nodes, s1, fewer)
  {
  }

  /** A call that leaves the data area alone. */
  lemma KeptData(nodes0: map<nat, Node>, owners0: map<nat, Owner>, s0: seq<Sector>, nodes: map<nat, Node>,
                 s1: seq<Sector>,
                 start: nat, ids: set<nat>)
    requires OwnersAgree(nodes0, owners0) && SameFrom(s0, s1, start) && forall l :: l in owners0 ==> start <= l
    requires forall i :: i in nodes0 && i !in ids ==> i in nodes && nodes[i] == nodes0[i]
    ensures OthersKept(nodes0, s0, nodes, s1, ids)
  {
  }

  /** A call that changes one sector of the data area, which no other inode owns. */
  lemma KeptBut(nodes0: map<nat, Node>, owners0: map<nat, Owner>, s0: seq<Sector>, nodes: map<nat, Node>,
                s1: seq<Sector>,
                start: nat, at: nat, id: nat)
    requires OwnersAgree(nodes0, owners0) && SameBut(s0, s1, start, at) && forall l :: l in owners0 ==> start <= l
    requires at in owners0 ==> owners0[at].id == id
    requires forall i :: i in nodes0 && i != id ==> i in nodes && nodes[i] == nodes0[i]
    ensures OthersKept(nodes0, s0, nodes, s1, {id})
  {
  }

  lemma KeptUntouched(nodes0: map<nat, Node>, owners0: map<nat, Owner>, s0: seq<Sector>, nodes: map<nat, Node>,
                      owners: map<nat, Owner>, s1: seq<Sector>, id: nat)
    requires Untouched(nodes0, owners0, s0, nodes, owners, s1, id) && OwnersAgree(nodes0, owners0)
    ensures OthersKept(nodes0, s0, nodes, s1, {id})
  {
  }

  /** Every other file reads the same. */
  lemma KeptReads(nodes0: map<nat, Node>, owners0: map<nat, Owner>, s0: seq<Sector>, nodes: map<nat, Node>,
                  s1: seq<Sector>,
                  ids: set<nat>, i: nat)
    requires OthersKept(nodes0, s0, nodes, s1, ids) && OwnersAgree(nodes0, owners0)
    requires i in nodes0 && i !in ids && RegularFile(nodes0[i])
    ensures i in nodes && nodes[i] == nodes0[i] && Contents(s1, nodes[i]) == Contents(s0, nodes0[i])
  {
    forall k, o | 0 <= k < MAX_BLOCKS && 0 <= o < 512 && 512 * k < nodes0[i].size
      ensures BlockByte(s1, nodes0[i], k, o) == BlockByte(s0, nodes0[i], k, o)
    {
      assert Block(nodes0[i], k) == Slot(nodes0, i, SlotOf(k)) != 0;
    }
  }

  /** Behind the bitmaps, at most the sector `at` has changed. */
  ghost predicate SameBut(s0: seq<Sector>, s1: seq<Sector>, from: nat, at: nat) {
    |s0| == |s1| && forall l :: from <= l < |s0| && l != at ==> s1[l] == s0[l]
  }
}
