/** lib/list.c: doubly linked lists through elements that live inside other records, between two
    sentinels that belong to the list. */
module Lists {
  class Elem {
    var prev: Elem?
    var next: Elem?

    constructor ()
    {
      prev := null;
      next := null;
    }
  }

  ghost predicate Distinct(nodes: seq<Elem>) {
    forall i, j :: 0 <= i < j < |nodes| ==> nodes[i] != nodes[j]
  }

  /** Neighbours point at each other. */
  ghost predicate Linked(nodes: seq<Elem>)
    reads nodes
  {
    && Distinct(nodes)
    && forall i :: 0 <= i < |nodes| - 1 ==> nodes[i].next == nodes[i + 1] && nodes[i + 1].prev == nodes[i]
  }

  lemma Inserted(nodes: seq<Elem>, elem: Elem, k: nat, after: seq<Elem>)
    requires k + 1 < |nodes| && after == nodes[..k + 1] + [elem] + nodes[k + 1..]
    ensures forall i :: 0 <= i < |after| ==>
      after[i] == if i <= k then nodes[i] else if i == k + 1 then elem else nodes[i - 1]
    ensures Distinct(nodes) && elem !in nodes ==> Distinct(after)
  {
  }

  lemma Cut(nodes: seq<Elem>, k: nat, after: seq<Elem>)
    requires k + 2 < |nodes| && after == nodes[..k + 1] + nodes[k + 2..]
    ensures forall i :: 0 <= i < |after| ==> after[i] == if i <= k then nodes[i] else nodes[i + 1]
    ensures Distinct(nodes) ==> Distinct(after)
  {
  }

  class List {
    const head: Elem
    const tail: Elem
    ghost var elems: seq<Elem>

    ghost function Nodes(): seq<Elem>
      reads this
    {
      [head] + elems + [tail]
    }

    ghost predicate Valid()
      reads this, Nodes()
    {
      Linked(Nodes())
    }

    /** list_init */
    constructor ()
      ensures Valid() && elems == [] && fresh(head) && fresh(tail)
    {
      head := new Elem();
      tail := new Elem();
      elems := [];
      new;
      head.prev := null;
      head.next := tail;
      tail.prev := head;
      tail.next := null;
    }

    ghost function NodeAt(i: nat): Elem
      requires i < |elems| + 2
      reads this
    {
      Nodes()[i]
    }

    /** list_insert_before, where `before` is element `k` or the tail. */
    method InsertBefore(before: Elem, elem: Elem, ghost k: nat)
      requires Valid() && k <= |elems| && before == NodeAt(k + 1) && elem !in Nodes()
      modifies this`elems, elem, before`prev, NodeAt(k)`next
      ensures Valid() && elems == old(elems[..k] + [elem] + elems[k..])
    {
      ghost var nodes := Nodes();
      assert nodes[k + 1].prev == nodes[k];
      before.prev.next := elem;
      elem.prev := before.prev;
      elem.next := before;
      before.prev := elem;
      elems := elems[..k] + [elem] + elems[k..];
      ghost var after := Nodes();
      assert after == nodes[..k + 1] + [elem] + nodes[k + 1..];
      Inserted(nodes, elem, k, after);
      forall i | 0 <= i < |after| - 1 ensures after[i].next == after[i + 1] && after[i + 1].prev == after[i] {
        if i > k + 1 { assert nodes[i - 1].next == nodes[i]; }
      }
    }

    /** list_push */
    method Push(elem: Elem)
      requires Valid() && elem !in Nodes()
      modifies this`elems, elem, head`next, NodeAt(1)`prev
      ensures Valid() && elems == [elem] + old(elems)
    {
      assert NodeAt(0).next == NodeAt(1);
      InsertBefore(head.next, elem, 0);
    }

    /** list_append */
    method Append(elem: Elem)
      requires Valid() && elem !in Nodes()
      modifies this`elems, elem, tail`prev, NodeAt(|elems|)`next
      ensures Valid() && elems == old(elems) + [elem]
    {
      InsertBefore(tail, elem, |elems|);
    }

    /** list_remove of element `k`. */
    method Remove(elem: Elem, ghost k: nat)
      requires Valid() && k < |elems| && elem == elems[k]
      modifies this`elems, NodeAt(k)`next, NodeAt(k + 2)`prev
      ensures Valid() && elems == old(elems[..k] + elems[k + 1..])
    {
      ghost var nodes := Nodes();
      assert nodes[k + 1] == elem && nodes[k].next == nodes[k + 1] && nodes[k + 2].prev == nodes[k + 1];
      assert nodes[k + 1].next == nodes[k + 2] && nodes[k + 1].prev == nodes[k];
      elem.prev.next := elem.next;
      elem.next.prev := elem.prev;
      elems := elems[..k] + elems[k + 1..];
      ghost var after := Nodes();
      assert after == nodes[..k + 1] + nodes[k + 2..];
      Cut(nodes, k, after);
      forall i | 0 <= i < |after| - 1 ensures after[i].next == after[i + 1] && after[i + 1].prev == after[i] {
        if i > k { assert nodes[i + 1].next == nodes[i + 2]; }
      }
    }

    /** list_pop */
    method Pop() returns (elem: Elem)
      requires Valid() && elems != []
      modifies this`elems, head`next, NodeAt(2)`prev
      ensures Valid() && old(elems) == [elem] + elems
    {
      assert NodeAt(0).next == NodeAt(1);
      elem := head.next;
      Remove(elem, 0);
    }

    /** elem_find */
    method Find(elem: Elem) returns (found: bool)
      requires Valid() && elem != tail
      ensures found <==> elem in elems
    {
      assert NodeAt(0).next == NodeAt(1);
      var e := head.next;
      ghost var k := 0;
      while e != tail
        invariant k <= |elems| && e == NodeAt(k + 1) && elem !in elems[..k]
        decreases |elems| - k
      {
        assert NodeAt(k + 1) == elems[k];
        if e == elem {
          return true;
        }
        assert Nodes()[k + 1].next == Nodes()[k + 2];
        e := e.next;
        k := k + 1;
      }
      assert k == |elems| by { assert Nodes()[k + 1] == Nodes()[|elems| + 1]; }
      found := false;
    }

    /** list_len */
    method Len() returns (n: nat)
      requires Valid()
      ensures n == |elems|
    {
      assert NodeAt(0).next == NodeAt(1);
      var e := head.next;
      n := 0;
      while e != tail
        invariant n <= |elems| && e == NodeAt(n + 1)
        decreases |elems| - n
      {
        assert Nodes()[n + 1].next == Nodes()[n + 2];
        e := e.next;
        n := n + 1;
      }
      assert Nodes()[n + 1] == Nodes()[|elems| + 1];
    }

    /** list_empty */
    method Empty() returns (r: bool)
      requires Valid()
      ensures r <==> elems == []
    {
      assert NodeAt(0).next == NodeAt(1) && Nodes()[|elems| + 1] == tail;
      r := head.next == tail;
    }
  }
}
