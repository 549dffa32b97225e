/** The intrusive doubly linked rings of zeOS/list.c. */
module Rings {
  import opened Layout

  /** A `struct list_head`. A ring has one node that is its head; the others are
      embedded in a task, and `slot` is the task that `list_entry` finds from the
      node's address (-1 for a queue head). */
  class ListHead {
    var next: ListHead?
    var prev: ListHead?
    const slot: int

    constructor (slot: int)
      ensures this.slot == slot && next == null && prev == null
    {
      this.slot := slot;
      next, prev := null, null;
    }
  }

  /** The k-th node on the way round the ring: the head, the entries, the head again. */
  ghost function At(head: ListHead, q: seq<ListHead>, k: nat): ListHead
    requires k <= |q| + 1
  {
    if k == 0 || k == |q| + 1 then head else q[k - 1]
  }

  /** Taking one element out of a sequence without repetitions. */
  lemma Shortened<T>(q: seq<T>, i: nat, r: seq<T>)
    requires Distinct(q) && i < |q| && r == q[..i] + q[i + 1..]
    ensures Distinct(r)
    ensures forall t :: t in r <==> t in q && t != q[i]
  {
    assert forall k :: 0 <= k < i ==> r[k] == q[k];
    assert forall k :: i <= k < |r| ==> r[k] == q[k + 1];
    forall t | t in q && t != q[i] ensures t in r {
      var k :| 0 <= k < |q| && q[k] == t;
      assert r[if k < i then k else k - 1] == t;
    }
    forall t | t in r ensures t in q && t != q[i] {
      var k :| 0 <= k < |r| && r[k] == t;
      assert r[k] == q[if k < i then k else k + 1];
    }
  }

  /** `head` heads a ring whose entries are exactly `q`, in that order; next and prev
      are inverse all the way round. */
  ghost predicate Ring(head: ListHead, q: seq<ListHead>)
    reads head, q
  {
    && head !in q
    && Distinct(q)
    && forall k :: 0 <= k <= |q| ==> Link(head, q, k)
  }

  /** The k-th node and its successor point at each other. */
  ghost predicate Link(head: ListHead, q: seq<ListHead>, k: nat)
    requires k <= |q|
    reads head, q
  {
    At(head, q, k).next == At(head, q, k + 1) && At(head, q, k + 1).prev == At(head, q, k)
  }

  /** The second ring has no node of the first. */
  ghost predicate Disjoint(head: ListHead, q: seq<ListHead>, head': ListHead, q': seq<ListHead>) {
    && head' != head && head' !in q
    && forall j :: 0 <= j < |q'| ==> q'[j] != head && q'[j] !in q
  }

  /** INIT_LIST_HEAD */
  method InitListHead(list: ListHead)
    modifies list
    ensures Ring(list, [])
  {
    list.next := list;
    list.prev := list;
  }

  /** __list_add: four assignments, correct even when prev and next are the same node. */
  method ListAddBetween(node: ListHead, prev: ListHead, next: ListHead)
    requires node != prev && node != next
    modifies node, prev, next
    ensures next.prev == node && node.next == next && node.prev == prev && prev.next == node
    ensures prev != next ==> prev.prev == old(prev.prev) && next.next == old(next.next)
  {
    next.prev := node;
    node.next := next;
    node.prev := prev;
    prev.next := node;
  }

  method ListAdd(node: ListHead, head: ListHead, ghost q: seq<ListHead>)
    requires Ring(head, q) && node != head && node !in q
    modifies node, head, q
    ensures Ring(head, [node] + q)
  {
    assert Link(head, q, 0);
    ListAddBetween(node, head, head.next);
    ghost var r := [node] + q;
    forall k | 0 <= k <= |r| ensures Link(head, r, k) {
      if k >= 2 {
        assert old(Link(head, q, k - 1));
      }
    }
  }

  method ListAddTail(node: ListHead, head: ListHead, ghost q: seq<ListHead>)
    requires Ring(head, q) && node != head && node !in q
    modifies node, head, q
    ensures Ring(head, q + [node])
  {
    assert Link(head, q, |q|);
    ListAddBetween(node, head.prev, head);
    ghost var r := q + [node];
    forall k | 0 <= k <= |r| ensures Link(head, r, k) {
      if k < |q| {
        assert old(Link(head, q, k));
      }
    }
  }

  /** list_del, for an entry that is the i-th of the ring. */
  method ListDel(entry: ListHead, ghost head: ListHead, ghost q: seq<ListHead>, ghost i: nat)
    requires Ring(head, q) && i < |q| && q[i] == entry
    modifies head, q
    ensures Ring(head, q[..i] + q[i + 1..])
    ensures entry.next == null && entry.prev == null
  {
    assert Link(head, q, i) && Link(head, q, i + 1);
    var prev, next := entry.prev, entry.next;
    next.prev := prev;
    prev.next := next;
    entry.next := null;
    entry.prev := null;
    ghost var r := q[..i] + q[i + 1..];
    Shortened(q, i, r);
    forall k | 0 <= k <= |r| ensures Link(head, r, k) {
      assert old(Link(head, q, if k < i then k else k + 1));
    }
  }

  /** list_empty decides emptiness of the sequence the ring represents. */
  method ListEmpty(head: ListHead, ghost q: seq<ListHead>) returns (empty: bool)
    requires Ring(head, q)
    ensures empty <==> q == []
  {
    assert Link(head, q, 0);
    empty := head.next == head;
  }

  /** list_first */
  method ListFirst(head: ListHead, ghost q: seq<ListHead>) returns (first: ListHead)
    requires Ring(head, q)
    ensures first == if q == [] then head else q[0]
  {
    assert Link(head, q, 0);
    first := head.next;
  }
}
