/** Whole runs of file_write and file_read on one file. */
module FileRuns {
  import opened Debug
  import opened Bytes
  import opened Bitmaps
  import opened Ide
  import opened Inodes
  import opened Volumes
  import opened OpenInodes
  import opened FileData
  import opened Files
  import opened FileWrites
  import opened FileReads

  function Joined(bufs: seq<seq<byte>>): seq<byte> {
    if bufs == [] then [] else Joined(bufs[..|bufs| - 1]) + bufs[|bufs| - 1]
  }

  function Sum(counts: seq<nat>): nat {
    if counts == [] then 0 else Sum(counts[..|counts| - 1]) + counts[|counts| - 1]
  }

  lemma JoinedPrefix(bufs: seq<seq<byte>>, i: nat)
    requires i <= |bufs|
    ensures |Joined(bufs[..i])| <= |Joined(bufs)|
  {
    if i < |bufs| {
      JoinedPrefix(bufs[..|bufs| - 1], i);
      assert bufs[..|bufs| - 1][..i] == bufs[..i];
    } else {
      assert bufs[..i] == bufs;
    }
  }

  /** Two writes need together what one write of both buffers would. */
  lemma NeededTwice(node0: Node, node: Node, a: nat, b: nat)
    requires |node0.slots| == |node.slots| == SLOTS && node0.size == 0 && node.size == a && node.slots[0] != 0
    ensures Needed(node0, a) + Needed(node, b) == Needed(node0, a + b)
  {
  }

  lemma NeededGrows(node: Node, a: nat, b: nat)
    requires |node.slots| == SLOTS && a <= b
    ensures Needed(node, a) <= Needed(node, b)
  {
  }

  /** Blocks taken by the writes so far. */
  ghost predicate Taken(free0: nat, free: nat, node0: Node, node: Node, i: nat, written: nat)
    requires |node0.slots| == |node.slots| == SLOTS
  {
    if i == 0 then free == free0 && node == node0
    else free == free0 - Needed(node0, written) && node.slots[0] != 0
  }

  lemma NothingTaken(free0: nat, node0: Node)
    requires |node0.slots| == SLOTS
    ensures Taken(free0, free0, node0, node0, 0, 0)
  {
  }

  lemma TakenSoFar(free0: nat, free: nat, node0: Node, node: Node, i: nat, written: nat)
    requires |node0.slots| == |node.slots| == SLOTS && i > 0
    ensures Taken(free0, free, node0, node, i, written) <==>
      free == free0 - Needed(node0, written) && node.slots[0] != 0
  {
  }

  lemma TakenNext(free0: nat, free: nat, node0: Node, node: Node, i: nat, a: nat, b: nat, total: nat)
    requires |node0.slots| == |node.slots| == SLOTS && node0.size == 0 && node.size == a
    requires Taken(free0, free, node0, node, i, a)
    requires a + b <= total && (i == 0 ==> a == 0)
    ensures free < Needed(node, b) ==> free0 < Needed(node0, total)
    ensures free >= Needed(node, b) ==> free - Needed(node, b) == free0 - Needed(node0, a + b)
  {
    hide Needed;
    NeededGrows(node0, a + b, total);
    if i > 0 {
      NeededTwice(node0, node, a, b);
    }
  }

  /** Writing buffers one after another to an empty file; it stops when the partition has too few blocks
      for all of them. */
  method WriteAll(part: Partition, file: File, bufs: seq<seq<byte>>) returns (halted: bool)
    requires part.Valid() && Opened(part, file.inode) && RegularFile(part.nodes[file.inode.id]) && file.inode.size == 0
    requires |Joined(bufs)| < 71680
    modifies part, part.disk, file`pos, file.inode`blocks, file.inode`size
    ensures halted <==> bufs != [] && |old(part.FreeBlocks())| < Needed(old(part.nodes[file.inode.id]), |Joined(bufs)|)
    ensures !halted ==> part.Valid() && Opened(part, file.inode) && RegularFile(part.nodes[file.inode.id])
    ensures !halted ==> Contents(part.disk.sectors, part.nodes[file.inode.id]) == Joined(bufs)
  {
    hide Partition.Valid, RegularFile, Contents, Untouched, Needed, Wrap, FreeIn, Taken;
    var i := 0;
    ghost var node0, free0 := part.nodes[file.inode.id], |part.FreeBlocks()|;
    SizeBound(node0);
    NothingTaken(free0, node0);
    while i < |bufs|
      invariant i <= |bufs| && part.Valid() && Opened(part, file.inode) && RegularFile(part.nodes[file.inode.id])
      invariant file.inode.size < 512 * MAX_BLOCKS && |part.nodes[file.inode.id].slots| == SLOTS
      invariant Taken(free0, |part.FreeBlocks()|, node0, part.nodes[file.inode.id], i, |Joined(bufs[..i])|)
      invariant Contents(part.disk.sectors, part.nodes[file.inode.id]) == Joined(bufs[..i])
    {
      assert bufs[..i + 1][..i] == bufs[..i];
      JoinedPrefix(bufs, i + 1);
      TakenNext(free0, |part.FreeBlocks()|, node0, part.nodes[file.inode.id], i, |Joined(bufs[..i])|, |bufs[i]|,
                |Joined(bufs)|);
      var r := Write(part, file, bufs[i]);
      if r.Halted? {
        return true;
      }
      SizeBound(part.nodes[file.inode.id]);
      i := i + 1;
      TakenSoFar(free0, |part.FreeBlocks()|, node0, part.nodes[file.inode.id], i, |Joined(bufs[..i])|);
    }
    assert bufs[..i] == bufs;
    if i > 0 {
      TakenSoFar(free0, |part.FreeBlocks()|, node0, part.nodes[file.inode.id], i, |Joined(bufs)|);
    }
    halted := false;
  }

  /** Reading from the start in pieces of the given sizes; a piece behind the end adds nothing. */
  method ReadAll(part: Partition, file: File, counts: seq<nat>) returns (halted: bool, out: seq<byte>)
    requires part.Valid() && Opened(part, file.inode) && RegularFile(part.nodes[file.inode.id])
    requires file.inode.size < READ_LIMIT && forall i :: 0 <= i < |counts| ==> counts[i] <= U32 - READ_LIMIT
    modifies file`pos
    ensures !halted
    ensures var c := Contents(part.disk.sectors, part.nodes[file.inode.id]);
      out == c[..Transfer(|c|, 0, Sum(counts))]
  {
    hide Partition.Valid, RegularFile, Contents;
    ghost var c := Contents(part.disk.sectors, part.nodes[file.inode.id]);
    file.pos := 0;  // sys_lseek to the start
    out := [];
    var i := 0;
    while i < |counts|
      invariant i <= |counts| && file.pos == |out| == Transfer(|c|, 0, Sum(counts[..i])) && out == c[..file.pos]
    {
      ghost var before := file.pos;
      assert counts[..i + 1][..i] == counts[..i];
      var r, buf := Read(part, file, counts[i]);
      if r.Halted? {
        return true, out;
      }
      assert c[..before] + c[before..file.pos] == c[..file.pos];
      out := out + buf;
      i := i + 1;
    }
    assert counts[..i] == counts;
    halted := false;
  }

  /** Whatever is written to a new file in whatever pieces comes back when it is read from the start in
      whatever pieces, unless the partition runs out of blocks on the way. */
  method WriteThenRead(part: Partition, file: File, bufs: seq<seq<byte>>,
                       counts: seq<nat>) returns (halted: bool, out: seq<byte>)
    requires part.Valid() && Opened(part, file.inode) && RegularFile(part.nodes[file.inode.id]) && file.inode.size == 0
    requires |Joined(bufs)| < READ_LIMIT && forall i :: 0 <= i < |counts| ==> counts[i] <= U32 - READ_LIMIT
    modifies part, part.disk, file`pos, file.inode`blocks, file.inode`size
    ensures halted <==> bufs != [] && |old(part.FreeBlocks())| < Needed(old(part.nodes[file.inode.id]), |Joined(bufs)|)
    ensures !halted && Sum(counts) >= |Joined(bufs)| ==> out == Joined(bufs)
    ensures !halted ==> out <= Joined(bufs)
  {
    hide Partition.Valid, RegularFile, Contents, Needed, FreeIn;
    out := [];
    SizeBound(part.nodes[file.inode.id]);
    halted := WriteAll(part, file, bufs);
    if !halted {
      halted, out := ReadAll(part, file, counts);
    }
  }
}
