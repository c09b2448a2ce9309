/** fs/c14c_inode.c: the list of open inodes. */
module Caches {
  import opened Bytes
  import opened Ide
  import opened Inodes
  import opened Volumes
  import opened OpenInodes

  ghost predicate Distinct<T>(s: seq<T>) {
    forall i, j :: 0 <= i < j < |s| ==> s[i] != s[j]
  }

  /** The open counts are what `opens` says, and nothing else is open. */
  ghost predicate Counted(ids: seq<nat>, counts: seq<nat>, opens: map<nat, nat>) {
    && |counts| == |ids| && Distinct(ids)
    && (forall i :: 0 <= i < |ids| ==> ids[i] in opens && counts[i] == opens[ids[i]] > 0)
    && forall id :: id in opens ==> id in ids
  }

  /** Opening an inode once more. */
  function Opening(opens: map<nat, nat>, id: nat): map<nat, nat> {
    opens[id := if id in opens then opens[id] + 1 else 1]
  }

  /** Closing it once; after the last close it is gone. */
  function Closing(opens: map<nat, nat>, id: nat): map<nat, nat> {
    if id in opens && opens[id] > 1 then opens[id := opens[id] - 1] else opens - {id}
  }

  /** What is opened and then closed is as before. */
  lemma OpenThenClose(opens: map<nat, nat>, id: nat)
    requires id in opens ==> opens[id] > 0
    ensures Closing(Opening(opens, id), id) == opens
  {
    assert id !in opens ==> opens[id := 1] - {id} == opens;
  }

  /** Also when another inode is opened in between. */
  lemma OtherOpenThenClose(opens: map<nat, nat>, id: nat, other: nat)
    requires id != other && (id in opens ==> opens[id] > 0)
    ensures Closing(Opening(Opening(opens, id), other), id) == Opening(opens, other)
    ensures id in Closing(Opening(Opening(opens, id), other), id) <==> id in opens
  {
    assert id !in opens ==> Opening(Opening(opens, id), other) - {id} == Opening(opens, other);
  }

  lemma CountedHit(ids: seq<nat>, counts: seq<nat>, opens: map<nat, nat>, k: nat)
    requires Counted(ids, counts, opens) && k < |ids|
    ensures Counted(ids, counts[k := counts[k] + 1], Opening(opens, ids[k]))
  {
  }

  lemma CountedMiss(ids: seq<nat>, counts: seq<nat>, opens: map<nat, nat>, id: nat)
    requires Counted(ids, counts, opens) && id !in ids
    ensures Counted([id] + ids, [1] + counts, Opening(opens, id))
  {
    assert id !in opens;
  }

  lemma CountedLess(ids: seq<nat>, counts: seq<nat>, opens: map<nat, nat>, k: nat)
    requires Counted(ids, counts, opens) && k < |ids| && counts[k] > 1
    ensures Counted(ids, counts[k := counts[k] - 1], Closing(opens, ids[k]))
  {
  }

  lemma DistinctGone<T>(s: seq<T>, k: nat)
    requires Distinct(s) && k < |s|
    ensures Distinct(s[..k] + s[k + 1..]) && s[k] !in s[..k] + s[k + 1..]
    ensures forall x :: x in s[..k] + s[k + 1..] <==> x in s && x != s[k]
  {
    forall x | x in s && x != s[k] ensures x in s[..k] + s[k + 1..] {
      var i :| 0 <= i < |s| && s[i] == x;
      assert (s[..k] + s[k + 1..])[if i < k then i else i - 1] == x;
    }
  }

  lemma GoneAt<T>(s: seq<T>, k: nat, i: nat)
    requires k < |s| && i + 1 < |s|
    ensures (s[..k] + s[k + 1..])[i] == s[if i < k then i else i + 1]
  {
  }

  lemma CountedOne(ids: seq<nat>, counts: seq<nat>, opens: map<nat, nat>, k: nat, j: nat)
    requires Counted(ids, counts, opens) && k < |ids| && counts[k] == 1 && j < |ids| && j != k
    ensures ids[j] in Closing(opens, ids[k]) && counts[j] == Closing(opens, ids[k])[ids[j]] > 0
  {
    assert ids[if j < k then j else k] != ids[if j < k then k else j];
  }

  lemma CountedGone(ids: seq<nat>, counts: seq<nat>, opens: map<nat, nat>, k: nat)
    requires Counted(ids, counts, opens) && k < |ids| && counts[k] == 1
    ensures Counted(ids[..k] + ids[k + 1..], counts[..k] + counts[k + 1..], Closing(opens, ids[k]))
  {
    var fewer, left := ids[..k] + ids[k + 1..], counts[..k] + counts[k + 1..];
    DistinctGone(ids, k);
    StillListed(ids, counts, opens, k);
    hide Distinct, Closing;
    forall i | 0 <= i < |fewer|
      ensures fewer[i] in Closing(opens, ids[k]) && left[i] == Closing(opens, ids[k])[fewer[i]] > 0
    {
      GoneAt(ids, k, i);
      GoneAt(counts, k, i);
      CountedOne(ids, counts, opens, k, if i < k then i else i + 1);
    }
  }

  lemma StillListed(ids: seq<nat>, counts: seq<nat>, opens: map<nat, nat>, k: nat)
    requires Counted(ids, counts, opens) && k < |ids| && counts[k] == 1
    ensures forall id :: id in Closing(opens, ids[k]) ==> id in ids[..k] + ids[k + 1..]
  {
    hide Distinct;
    forall id | id in opens && id != ids[k] ensures id in ids[..k] + ids[k + 1..] {
      var i :| 0 <= i < |ids| && ids[i] == id;
      GoneAt(ids, k, if i < k then i else i - 1);
    }
  }

  ghost function Ids(list: seq<Inode>): (ids: seq<nat>)
    reads list
    decreases |list|
    ensures |ids| == |list| && forall i :: 0 <= i < |list| ==> ids[i] == list[i].id
  {
    if list == [] then [] else [list[0].id] + Ids(list[1..])
  }

  ghost function Counts(list: seq<Inode>): (counts: seq<nat>)
    reads list
    decreases |list|
    ensures |counts| == |list| && forall i :: 0 <= i < |list| ==> counts[i] == list[i].openCount
  {
    if list == [] then [] else [list[0].openCount] + Counts(list[1..])
  }

  class Cache {
    var list: seq<Inode>
    ghost var opens: map<nat, nat>

    constructor ()
      ensures list == [] && opens == map[]
    {
      list := [];
      opens := map[];
    }

    /** Each id is in the list at most once, with as many openings as there were opens less closes, and
        every inode in it shows the current fields, but for the inodes `gone`. */
    ghost predicate Tracks(nodes: map<nat, Node>, gone: set<nat>)
      reads this, list
    {
      && Distinct(list) && Counted(Ids(list), Counts(list), opens)
      && forall x :: x in list && x.id as nat !in gone ==> OpenedIn(nodes, x)
    }

    ghost predicate ValidBut(part: Partition, gone: set<nat>)
      reads this, list, part
    {
      Tracks(part.nodes, gone)
    }

    ghost predicate Valid(part: Partition)
      reads this, list, part
    {
      ValidBut(part, {})
    }

    /** The search of inode_open. */
    method Find(id: nat) returns (k: nat)
      ensures k <= |list| && (k < |list| ==> list[k].id == id) && forall j :: 0 <= j < k ==> list[j].id != id
    {
      k := 0;
      while k < |list|
        invariant k <= |list| && forall j :: 0 <= j < k ==> list[j].id != id
      {
        if list[k].id == id {
          return;
        }
        k := k + 1;
      }
    }

    /** inode_open of an inode that is in the list. */
    method Hit(part: Partition, inode: Inode, ghost k: nat, ghost gone: set<nat>)
      requires ValidBut(part, gone) && k < |list| && list[k] == inode
      modifies inode`openCount, this`opens
      ensures ValidBut(part, gone) && opens == Opening(old(opens), inode.id)
    {
      hide Distinct, Counted;
      CountedHit(Ids(list), Counts(list), opens, k);
      Bump(inode, k, inode.openCount + 1);
      opens := Opening(opens, inode.id);
    }

    /** list_push of an inode that nobody has open. */
    method Push(part: Partition, inode: Inode, ghost gone: set<nat>)
      requires ValidBut(part, gone) && inode !in list && Opened(part, inode) && inode.openCount == 1
      requires forall j :: 0 <= j < |list| ==> list[j].id != inode.id
      modifies this
      ensures ValidBut(part, gone) && opens == Opening(old(opens), inode.id) && list == [inode] + old(list)
    {
      hide Distinct, Counted, OpenedIn, Ids, Counts;
      ghost var list0 := list;
      CountedMiss(Ids(list), Counts(list), opens, inode.id);
      list := [inode] + list;
      opens := Opening(opens, inode.id);
      FrontTracks(part.nodes, gone, inode, list0);
    }

    /** inode_open */
    method Open(part: Partition, id: nat, ghost gone: set<nat>) returns (inode: Inode)
      requires ValidBut(part, gone) && part.Valid() && id in part.nodes && id !in gone
      modifies this, list`openCount
      ensures ValidBut(part, gone) && inode in list && inode.id == id && Opened(part, inode)
      ensures opens == Opening(old(opens), id)
      ensures if id in old(opens) then list == old(list) else fresh(inode) && list == [inode] + old(list)
    {
      hide Distinct, Counted, Partition.Valid, OpenedIn, Ids, Counts;
      OpenListed(part, gone, id);
      var k := Find(id);
      if k < |list| {
        inode := list[k];
        Hit(part, inode, k, gone);
      } else {
        inode := FromDisk(part, id);
        Push(part, inode, gone);
      }
    }

    /** Only the open count of element `k` changes. */
    method Bump(inode: Inode, ghost k: nat, count: nat)
      requires k < |list| && list[k] == inode && Distinct(list)
      modifies inode`openCount
      ensures inode.openCount == count && Ids(list) == old(Ids(list)) && Counts(list) == old(Counts(list))[k := count]
    {
      hide Ids, Counts;
      ghost var ids, counts := Ids(list), Counts(list);
      inode.openCount := count;
      SameLists(ids, counts[k := count]);
    }

    lemma FrontTracks(nodes: map<nat, Node>, gone: set<nat>, inode: Inode, list0: seq<Inode>)
      requires list == [inode] + list0 && Distinct(list0) && inode !in list0 && OpenedIn(nodes, inode)
      requires Counted([inode.id] + Ids(list0), [inode.openCount] + Counts(list0), opens)
      requires forall x :: x in list0 && x.id as nat !in gone ==> OpenedIn(nodes, x)
      ensures Tracks(nodes, gone)
    {
      hide Distinct, Counted, OpenedIn, Ids, Counts;
      assert list[1..] == list0;
      FrontDistinct(list);
      assert forall x :: x in list ==> x == inode || x in list0;
    }

    lemma FrontDistinct(after: seq<Inode>)
      requires after != [] && Distinct(after[1..]) && after[0] !in after[1..]
      ensures Distinct(after)
      ensures Ids(after) == [after[0].id] + Ids(after[1..])
      ensures Counts(after) == [after[0].openCount] + Counts(after[1..])
    {
      forall i, j | 0 <= i < j < |after| ensures after[i] != after[j] {
        assert after[j] == after[1..][j - 1];
        assert i > 0 ==> after[i] == after[1..][i - 1];
      }
    }

    /** The part of inode_open that misses the list. */
    method FromDisk(part: Partition, id: nat) returns (inode: Inode)
      requires part.Valid() && id in part.nodes
      ensures fresh(inode) && inode.id == id && inode.openCount == 1 && Opened(part, inode)
    {
      assert id < 256 && |part.nodes[id].slots| == SLOTS;
      inode := Load(part.disk, part.inodeTableLba, id);
      DecodeEncode(Record(id, part.nodes[id]));
    }

    /** inode_close when the inode stays open. */
    method Less(part: Partition, inode: Inode, ghost k: nat, ghost gone: set<nat>)
      requires ValidBut(part, gone) && k < |list| && list[k] == inode && inode.openCount > 1
      modifies inode`openCount, this`opens
      ensures ValidBut(part, gone) && opens == Closing(old(opens), inode.id)
    {
      hide Distinct, Counted;
      CountedLess(Ids(list), Counts(list), opens, k);
      Bump(inode, k, inode.openCount - 1);
      opens := Closing(opens, inode.id);
    }

    /** inode_close for the last time. */
    method Last(part: Partition, inode: Inode, k: nat, ghost gone: set<nat>)
      requires ValidBut(part, gone) && k < |list| && list[k] == inode && inode.openCount == 1
      modifies this
      ensures ValidBut(part, gone) && opens == Closing(old(opens), inode.id)
      ensures list == old(list)[..k] + old(list)[k + 1..]
    {
      hide Distinct, Counted, OpenedIn, Ids, Counts;
      ghost var after := list[..k] + list[k + 1..];
      CountedGone(Ids(list), Counts(list), opens, k);
      DistinctGone(list, k);
      ListGone(list, k);
      list := list[..k] + list[k + 1..];
      opens := Closing(opens, inode.id);
    }

    lemma ListGone(list: seq<Inode>, k: nat)
      requires k < |list|
      ensures Ids(list[..k] + list[k + 1..]) == Ids(list)[..k] + Ids(list)[k + 1..]
      ensures Counts(list[..k] + list[k + 1..]) == Counts(list)[..k] + Counts(list)[k + 1..]
    {
      hide Ids, Counts;
      var after := list[..k] + list[k + 1..];
      forall i | 0 <= i < |after| ensures Ids(after)[i] == (Ids(list)[..k] + Ids(list)[k + 1..])[i] {
        GoneAt(list, k, i);
        GoneAt(Ids(list), k, i);
      }
      forall i | 0 <= i < |after| ensures Counts(after)[i] == (Counts(list)[..k] + Counts(list)[k + 1..])[i] {
        GoneAt(list, k, i);
        GoneAt(Counts(list), k, i);
      }
    }

    /** inode_close */
    method Close(part: Partition, inode: Inode, ghost gone: set<nat>)
      requires ValidBut(part, gone) && inode in list
      modifies this, inode`openCount
      ensures ValidBut(part, gone) && opens == Closing(old(opens), inode.id)
      ensures if inode.id as nat in opens then list == old(list) else
              exists k :: 0 <= k < |old(list)| && old(list)[k] == inode && list == old(list)[..k] + old(list)[k + 1..]
    {
      hide Distinct, Counted, OpenedIn, Ids, Counts;
      var k := Find(inode.id);
      ListedOnce(list, opens, k, inode);
      if inode.openCount == 1 {
        Last(part, inode, k, gone);
      } else {
        Less(part, inode, k, gone);
      }
    }

    lemma ListedOnce(list: seq<Inode>, opens: map<nat, nat>, k: nat, inode: Inode)
      requires inode in list && Counted(Ids(list), Counts(list), opens)
      requires k <= |list| && (k < |list| ==> list[k].id == inode.id)
      requires forall j :: 0 <= j < k ==> list[j].id != inode.id
      ensures k < |list| && list[k] == inode && inode.openCount > 0
      ensures inode.id as nat in opens && opens[inode.id as nat] == inode.openCount
    {
      hide Ids, Counts;
      var i :| 0 <= i < |list| && list[i] == inode;
      assert Ids(list)[i] == inode.id;
      assert k < |list| && Ids(list)[k] == inode.id;
    }

    /** An inode that came to the front of the list and left it again. */
    lemma FrontLeaves(before: seq<Inode>, after: seq<Inode>, inode: Inode, k: nat)
      requires Distinct([inode] + before) && k <= |before| && ([inode] + before)[k] == inode
      requires after == ([inode] + before)[..k] + ([inode] + before)[k + 1..]
      ensures after == before
    {
      assert ([inode] + before)[0] == inode;
    }

    /** What has been opened once since. */
    ghost predicate OpenedSince(opens0: map<nat, nat>, list0: seq<Inode>, inode: Inode)
      reads this, inode`id
    {
      && inode in list && opens == Opening(opens0, inode.id)
      && (inode.id as nat in opens0 ==> opens0[inode.id as nat] > 0)
      && if inode.id as nat in opens0 then list == list0 else list == [inode] + list0
    }

    /** The close that goes with an open. */
    method Reclose(part: Partition, inode: Inode, ghost opens0: map<nat, nat>, ghost list0: seq<Inode>,
                   ghost gone: set<nat>)
      requires ValidBut(part, gone) && OpenedSince(opens0, list0, inode)
      modifies this, inode`openCount
      ensures ValidBut(part, gone) && opens == opens0 && list == list0
    {
      hide Counted, Ids, Counts, OpenedIn, Opening, Closing;
      OpenThenClose(opens0, inode.id);
      ghost var list1 := list;
      assert Distinct(list1);
      Close(part, inode, gone);
      if inode.id as nat !in opens0 {
        ghost var k :| 0 <= k < |list1| && list1[k] == inode && list == list1[..k] + list1[k + 1..];
        FrontLeaves(list0, list, inode, k);
      }
    }

    /** The close that goes with an open, after another inode came in front. */
    method CloseBehind(part: Partition, front: Inode, inode: Inode, ghost opens0: map<nat, nat>,
                       ghost list0: seq<Inode>)
      requires Valid(part) && inode in list && front.id != inode.id
      requires (inode.id as nat in opens0 ==> opens0[inode.id as nat] > 0)
      requires front.id as nat !in opens0 && opens == Opening(Opening(opens0, inode.id), front.id)
      requires list == [front] + if inode.id as nat in opens0 then list0 else [inode] + list0
      modifies this, inode`openCount
      ensures Valid(part) && opens == Opening(opens0, front.id) && list == [front] + list0
    {
      hide Counted, Ids, Counts, OpenedIn;
      OtherOpenThenClose(opens0, inode.id, front.id);
      ghost var list1 := list;
      assert Distinct(list1);
      Close(part, inode, {});
      if inode.id as nat !in opens0 {
        ghost var k :| 0 <= k < |list1| && list1[k] == inode && list == list1[..k] + list1[k + 1..];
        SecondLeaves(front, inode, list0, list, k);
      }
    }

    lemma SecondLeaves(front: Inode, inode: Inode, before: seq<Inode>, after: seq<Inode>, k: nat)
      requires Distinct([front] + ([inode] + before)) && k < |before| + 2 && ([front] + ([inode] + before))[k] == inode
      requires after == ([front] + ([inode] + before))[..k] + ([front] + ([inode] + before))[k + 1..]
      ensures after == [front] + before
    {
      assert ([front] + ([inode] + before))[1] == inode;
    }

    /** A number is open exactly when it is in the list. */
    lemma OpenListed(part: Partition, gone: set<nat>, id: nat)
      requires ValidBut(part, gone)
      ensures id in opens <==> exists x :: x in list && x.id as nat == id
    {
      hide Opened, Ids, Counts, Distinct;
      if id in opens {
        var i :| 0 <= i < |list| && Ids(list)[i] == id;
        assert list[i] in list && list[i].id as nat == id;
      }
      if x: Inode :| x in list && x.id as nat == id {
        var i :| 0 <= i < |list| && list[i] == x;
        assert Ids(list)[i] == id;
      }
    }

    /** With an exception for inode `id`, the list is right altogether exactly when `id` is not open. */
    lemma ValidIffClosed(part: Partition, id: nat)
      requires ValidBut(part, {id}) && id !in part.nodes
      ensures Valid(part) <==> id !in opens
    {
      hide Distinct, Counted;
      OpenListed(part, {id}, id);
    }

    lemma Positive(nodes: map<nat, Node>, gone: set<nat>, id: nat)
      requires Tracks(nodes, gone)
      ensures id in opens ==> opens[id] > 0
    {
      hide Ids, Counts, OpenedIn;
      if id in opens {
        var i :| 0 <= i < |list| && Ids(list)[i] == id;
        assert Counts(list)[i] == opens[id];
      }
    }

    /** What is open exists. */
    lemma OpenExists(part: Partition)
      requires Valid(part)
      ensures opens.Keys <= part.nodes.Keys
    {
      hide Distinct, Ids, Counts;
      forall id | id in opens ensures id in part.nodes {
        var i :| 0 <= i < |list| && Ids(list)[i] == id;
        assert list[i] in list;
      }
    }

    /** dir_close does nothing to the root's own handle. */
    method DirClose(part: Partition, atRoot: bool, cur: Inode, ghost opens0: map<nat, nat>, ghost list0: seq<Inode>,
                    ghost gone: set<nat>)
      requires ValidBut(part, gone) && Held(atRoot, cur, opens0, list0)
      modifies this, cur`openCount
      ensures ValidBut(part, gone) && opens == opens0 && list == list0
    {
      hide Tracks;
      if !atRoot {
        Reclose(part, cur, opens0, list0, gone);
      }
    }

    /** Going from one directory to another: dir_close and dir_open. */
    method GoTo(part: Partition, atRoot: bool, cur: Inode, id: nat, ghost opens0: map<nat, nat>,
                ghost list0: seq<Inode>)
      returns (next: Inode)
      requires part.Valid() && Valid(part) && id in part.nodes
      requires Held(atRoot, cur, opens0, list0)
      modifies this, cur`openCount, list0`openCount
      ensures Valid(part) && OpenedSince(opens0, list0, next) && next.id == id && Opened(part, next)
      ensures next in list0 || fresh(next)
    {
      hide Distinct, Counted, Ids, Counts, OpenedIn, Opening, Partition.Valid;
      DirClose(part, atRoot, cur, opens0, list0, {});
      Positive(part.nodes, {}, id);
      next := Open(part, id, {});
    }

    /** Opening one directory before the one at hand is closed: dir_open and dir_close. */
    method OpenNext(part: Partition, atRoot: bool, cur: Inode, id: nat, ghost opens0: map<nat, nat>,
                    ghost list0: seq<Inode>)
      returns (next: Inode)
      requires part.Valid() && Valid(part) && id in part.nodes && Held(atRoot, cur, opens0, list0)
      modifies this, list`openCount
      ensures Valid(part) && OpenedSince(opens0, list0, next) && next.id == id
      ensures next in list0 || next == cur || fresh(next)
    {
      hide Counted, Ids, Counts, OpenedIn, Opening, Closing, Partition.Valid;
      ghost var opens1, list1 := opens, list;
      PositiveBefore(part.nodes, atRoot, cur, id, opens0, list0);
      next := Open(part, id, {});
      assert Distinct(list);
      if !atRoot {
        ghost var list2 := list;
        OtherOpenThenClose(opens0, cur.id, if id == cur.id then id + 1 else id);
        OpenThenClose(opens1, cur.id);
        OpeningHas(opens0, cur.id);
        OpeningHas(opens1, id);
        SameNumber(part.nodes, next, cur);
        Close(part, cur, {});
        if cur.id as nat !in opens {
          ghost var k :| 0 <= k < |list2| && list2[k] == cur && list == list2[..k] + list2[k + 1..];
          if id in opens0 {
            FrontLeaves(list0, list, cur, k);
          } else {
            SecondLeaves(next, cur, list0, list, k);
          }
        }
      }
    }

    lemma OpeningHas(before: map<nat, nat>, id: nat)
      ensures Opening(before, id).Keys == before.Keys + {id}
    {
    }

    lemma SameNumber(nodes: map<nat, Node>, x: Inode, y: Inode)
      requires Tracks(nodes, {}) && x in list && y in list
      ensures x.id == y.id <==> x == y
    {
      hide Ids, Counts, OpenedIn;
      OneNumber(Ids(list));
    }

    lemma PositiveBefore(nodes: map<nat, Node>, atRoot: bool, cur: Inode, id: nat, opens0: map<nat, nat>,
                         list0: seq<Inode>)
      requires Tracks(nodes, {}) && Held(atRoot, cur, opens0, list0)
      ensures id in opens0 ==> opens0[id] > 0
      ensures id in opens ==> opens[id] > 0
      ensures cur.id as nat in opens ==> opens[cur.id as nat] > 0
    {
      hide Tracks;
      Positive(nodes, {}, id);
      Positive(nodes, {}, cur.id);
    }

    /** A directory is at hand: the root's own handle, or one opened since. */
    ghost predicate Held(atRoot: bool, cur: Inode, opens0: map<nat, nat>, list0: seq<Inode>)
      reads this, cur`id
    {
      if atRoot then opens == opens0 && list == list0 && cur in list else OpenedSince(opens0, list0, cur)
    }

    lemma ShowsFields(part: Partition, x: Inode)
      requires Valid(part) && x in list
      ensures Opened(part, x)
    {
      hide Distinct, Counted, Ids, Counts;
    }

    /** After inode `id` is released, the list may still name it. */
    lemma Forgets(nodes: map<nat, Node>, id: nat)
      requires Tracks(nodes, {})
      ensures Tracks(nodes - {id}, {id})
    {
      hide Distinct, Counted, Ids, Counts;
    }

    lemma SameLists(ids: seq<nat>, counts: seq<nat>)
      requires |ids| == |counts| == |list|
      requires forall j :: 0 <= j < |list| ==> list[j].id == ids[j] && list[j].openCount == counts[j]
      ensures Ids(list) == ids && Counts(list) == counts
    {
    }

    /** Another call changed inode `inode` and nothing else of what the list shows. */
    lemma Follows(nodes0: map<nat, Node>, nodes: map<nat, Node>, inode: Inode, ids: seq<nat>, counts: seq<nat>,
                  gone: set<nat>)
      requires Distinct(list) && Counted(ids, counts, opens)
      requires |ids| == |counts| == |list|
      requires forall j :: 0 <= j < |list| ==> list[j].id == ids[j] && list[j].openCount == counts[j]
      requires forall x :: x in list && x != inode && x.id as nat !in gone ==> OpenedIn(nodes0, x)
      requires inode in list && OpenedIn(nodes, inode)
      requires forall i :: i in nodes0 && i != inode.id ==> i in nodes && nodes[i] == nodes0[i]
      ensures Tracks(nodes, gone)
    {
      SameLists(ids, counts);
      OneNumber(ids);
    }

    lemma OneNumber(ids: seq<nat>)
      requires Distinct(ids) && |ids| == |list| && forall j :: 0 <= j < |list| ==> list[j].id == ids[j]
      ensures forall x, y :: x in list && y in list && x.id == y.id ==> x == y
    {
      forall x, y | x in list && y in list && x.id == y.id ensures x == y {
        var i :| 0 <= i < |list| && list[i] == x;
        var j :| 0 <= j < |list| && list[j] == y;
        assert ids[i] == ids[j];
      }
    }
  }

  /** file_create pushes without a search. When the number is in the list already, left there by an
      inode that was released while it was open, it is then in the list twice. */
  lemma PushedTwice(ids: seq<nat>, counts: seq<nat>, id: nat, more: map<nat, nat>)
    requires id in ids
    ensures !Counted([id] + ids, counts, more)
  {
    var i :| 0 <= i < |ids| && ids[i] == id;
    assert ([id] + ids)[0] == ([id] + ids)[i + 1];
  }
}
