/** The free, ready and priority queues of zeOS/sched.c: three rings over one pool
    of ten task nodes. */
module TaskQueues {
  import opened Layout
  import opened Rings

  datatype QueueId = Free | Ready | Priority

  /** Where update_process_state_rr sends a task; a null destination is no queue. */
  datatype Destination = Nowhere | To(id: QueueId)

  /** What the three rings represent: task slots in queue order. */
  datatype Queues = Queues(free: seq<nat>, ready: seq<nat>, prio: seq<nat>) {
    function Get(id: QueueId): seq<nat> {
      match id
      case Free => free
      case Ready => ready
      case Priority => prio
    }

    function Set(id: QueueId, q: seq<nat>): Queues {
      match id
      case Free => this.(free := q)
      case Ready => this.(ready := q)
      case Priority => this.(prio := q)
    }

    ghost predicate Holds(s: nat) {
      s in free || s in ready || s in prio
    }

    /** The queues after slot `s` has left the one it is in. */
    function Without(s: nat): Queues {
      Queues(Remove(free, s), Remove(ready, s), Remove(prio, s))
    }

    /** No slot is queued twice, in one queue or in two. */
    ghost predicate WellQueued() {
      && Slots(free) && Slots(ready) && Slots(prio)
      && Distinct(free) && Distinct(ready) && Distinct(prio)
      && Apart(free, ready) && Apart(free, prio) && Apart(ready, prio)
    }
  }

  /** Drops the first occurrence of `s`. */
  function Remove(q: seq<nat>, s: nat): (r: seq<nat>)
    ensures s !in q ==> r == q
  {
    if q == [] then [] else if q[0] == s then q[1..] else [q[0]] + Remove(q[1..], s)
  }

  lemma {:induction false} RemoveAt(q: seq<nat>, i: nat)
    requires i < |q| && Distinct(q)
    ensures Remove(q, q[i]) == q[..i] + q[i + 1..]
  {
    if i > 0 {
      RemoveAt(q[1..], i - 1);
      assert q[1..][..i - 1] == q[1..i] && q[1..][i..] == q[i + 1..];
    }
  }

  ghost function Others(id: QueueId): (QueueId, QueueId) {
    match id
    case Free => (Ready, Priority)
    case Ready => (Free, Priority)
    case Priority => (Free, Ready)
  }

  ghost predicate Slots(q: seq<nat>) {
    forall i :: 0 <= i < |q| ==> q[i] < NR_TASKS
  }

  ghost predicate Apart(q: seq<nat>, r: seq<nat>) {
    forall s :: s in q ==> s !in r
  }

  lemma Extended(q: seq<nat>, r: seq<nat>, s: nat)
    requires Slots(q) && Distinct(q) && s !in q && s < NR_TASKS
    requires r == [s] + q || r == q + [s]
    ensures Slots(r) && Distinct(r)
    ensures forall t: nat :: t in r <==> t in q || t == s
  {
  }

  lemma QueuedOnceMore(v: Queues, id: QueueId, q: seq<nat>, s: nat)
    requires v.WellQueued() && s < NR_TASKS && !v.Holds(s)
    requires q == [s] + v.Get(id) || q == v.Get(id) + [s]
    ensures v.Set(id, q).WellQueued()
    ensures forall t: nat :: v.Set(id, q).Holds(t) <==> v.Holds(t) || t == s
  {
    Extended(v.Get(id), q, s);
  }

  lemma QueuedOnceLess(v: Queues, id: QueueId, i: nat)
    requires v.WellQueued() && i < |v.Get(id)|
    ensures v.Set(id, v.Get(id)[..i] + v.Get(id)[i + 1..]).WellQueued()
    ensures forall t: nat :: v.Set(id, v.Get(id)[..i] + v.Get(id)[i + 1..]).Holds(t) <==> v.Holds(t) && t != v.Get(id)[i]
  {
    var q := v.Get(id);
    var r := q[..i] + q[i + 1..];
    Shortened(q, i, r);
    assert q[i] in q;
    assert Slots(r) by {
      assert forall k :: 0 <= k < i ==> r[k] == q[k];
      assert forall k :: i <= k < |r| ==> r[k] == q[k + 1];
    }
  }

  lemma HeadTaken(v: Queues, id: QueueId)
    requires v.WellQueued() && v.Get(id) != []
    ensures v.Get(id)[0] < NR_TASKS
    ensures v.Set(id, v.Get(id)[1..]).WellQueued()
    ensures forall t: nat :: v.Set(id, v.Get(id)[1..]).Holds(t) <==> v.Holds(t) && t != v.Get(id)[0]
    ensures forall t: nat :: t in v.Get(id) <==> t == v.Get(id)[0] || t in v.Get(id)[1..]
  {
    var q := v.Get(id);
    assert q[..0] + q[1..] == q[1..] && q == [q[0]] + q[1..];
    QueuedOnceLess(v, id, 0);
  }

  /** Deleting the first task of a queue leaves the rest of it. */
  lemma WithoutHead(v: Queues, id: QueueId)
    requires v.WellQueued() && v.Get(id) != []
    ensures v.Without(v.Get(id)[0]) == v.Set(id, v.Get(id)[1..])
    ensures !v.Without(v.Get(id)[0]).Holds(v.Get(id)[0])
  {
    var q := v.Get(id);
    assert q[..0] + q[1..] == q[1..];
    WithoutQueued(v, id, 0);
    QueuedOnceLess(v, id, 0);
  }

  lemma WithoutQueued(v: Queues, id: QueueId, i: nat)
    requires v.WellQueued() && i < |v.Get(id)|
    ensures v.Without(v.Get(id)[i]) == v.Set(id, v.Get(id)[..i] + v.Get(id)[i + 1..])
  {
    RemoveAt(v.Get(id), i);
    assert v.Get(id)[i] in v.Get(id);
  }

  class TaskRings {
    const nodes: seq<ListHead>
    const freequeue: ListHead
    const readyqueue: ListHead
    const priorityqueue: ListHead
    ghost var view: Queues

    ghost function Repr(): set<object> {
      {this, freequeue, readyqueue, priorityqueue} + set n | n in nodes
    }

    function Head(id: QueueId): ListHead {
      match id
      case Free => freequeue
      case Ready => readyqueue
      case Priority => priorityqueue
    }

    /** The thirteen list heads are different objects, and a node knows its task. */
    ghost predicate Placed() {
      && |nodes| == NR_TASKS
      && (forall s :: 0 <= s < NR_TASKS ==> nodes[s].slot == s)
      && freequeue.slot == -1 && readyqueue.slot == -1 && priorityqueue.slot == -1
      && freequeue != readyqueue && freequeue != priorityqueue && readyqueue != priorityqueue
    }

    ghost function Nodes(q: seq<nat>): (r: seq<ListHead>)
      requires Placed() && Slots(q)
      ensures |r| == |q| && forall i :: 0 <= i < |q| ==> r[i] == nodes[q[i]] && r[i] in nodes
      ensures forall s :: 0 <= s < NR_TASKS && s !in q ==> nodes[s] !in r
    {
      seq(|q|, i requires 0 <= i < |q| => nodes[q[i]])
    }

    ghost predicate Linked(id: QueueId)
      requires Placed() && Slots(view.Get(id))
      reads this, Repr()
    {
      Ring(Head(id), Nodes(view.Get(id)))
    }

    ghost predicate Valid()
      reads this, Repr()
    {
      && Placed()
      && view.WellQueued()
      && Linked(Free) && Linked(Ready) && Linked(Priority)
      && forall s :: 0 <= s < NR_TASKS && !view.Holds(s) ==> nodes[s].next == null && nodes[s].prev == null
    }

    lemma LinkedNode(id: QueueId, i: nat)
      requires Placed() && Slots(view.Get(id)) && i < |view.Get(id)| && Linked(id)
      ensures nodes[view.Get(id)[i]].next != null
    {
      var q := Nodes(view.Get(id));
      assert Link(Head(id), q, i + 1);
    }

    lemma RingsDisjoint(id: QueueId, id': QueueId)
      requires Placed() && view.WellQueued() && id != id'
      ensures Disjoint(Head(id), Nodes(view.Get(id)), Head(id'), Nodes(view.Get(id')))
    {
      var q, q' := Nodes(view.Get(id)), Nodes(view.Get(id'));
      forall j | 0 <= j < |q'| ensures q'[j] != Head(id) && q'[j] !in q {
        assert view.Get(id')[j] in view.Get(id');
      }
    }

    lemma NodeOffRing(id: QueueId, s: nat)
      requires Placed() && view.WellQueued() && s < NR_TASKS && !view.Holds(s)
      ensures nodes[s] !in [Head(id)] + Nodes(view.Get(id))
    {
    }

    /** A task is in no ring exactly when both its links are NULL. */
    lemma UnlinkedIffInNoRing(s: nat)
      requires Valid() && s < NR_TASKS
      ensures (nodes[s].next == null && nodes[s].prev == null) <==> !view.Holds(s)
    {
      if view.Holds(s) {
        var id := if s in view.free then Free else if s in view.ready then Ready else Priority;
        var i :| 0 <= i < |view.Get(id)| && view.Get(id)[i] == s;
        LinkedNode(id, i);
      }
    }

    /** The static storage of the task vector and of the three queue heads. */
    constructor ()
      ensures Placed() && fresh(Repr())
      ensures view == Queues([], [], [])
      ensures forall s :: 0 <= s < NR_TASKS ==> nodes[s].next == null && nodes[s].prev == null
    {
      var f := new ListHead(-1);
      var r := new ListHead(-1);
      var p := new ListHead(-1);
      freequeue, readyqueue, priorityqueue := f, r, p;
      var ns: seq<ListHead> := [];
      while |ns| < NR_TASKS
        invariant |ns| <= NR_TASKS
        invariant forall s :: 0 <= s < |ns| ==> fresh(ns[s]) && ns[s].slot == s && ns[s].next == null && ns[s].prev == null
      {
        var n := new ListHead(|ns|);
        ns := ns + [n];
      }
      nodes := ns;
      view := Queues([], [], []);
    }

    /** INIT_LIST_HEAD of the three queues. */
    method InitRings()
      requires Placed() && view == Queues([], [], [])
      requires forall s :: 0 <= s < NR_TASKS ==> nodes[s].next == null && nodes[s].prev == null
      modifies Repr()
      ensures Valid() && view == old(view)
    {
      InitListHead(freequeue);
      InitListHead(readyqueue);
      InitListHead(priorityqueue);
    }

    /** init_sched: three empty rings, then every task pushed at the front of the free ring. */
    method InitQueues()
      requires Placed() && view == Queues([], [], [])
      requires forall s :: 0 <= s < NR_TASKS ==> nodes[s].next == null && nodes[s].prev == null
      modifies Repr()
      ensures Valid()
      ensures view == Queues([9, 8, 7, 6, 5, 4, 3, 2, 1, 0], [], [])
    {
      InitRings();
      hide Valid;
      for i := 0 to NR_TASKS
        invariant Valid()
        invariant view.ready == [] && view.prio == [] && |view.free| == i
        invariant forall k :: 0 <= k < i ==> view.free[k] == i - 1 - k
      {
        Push(Free, i);
      }
    }

    /** The task's node belongs to no ring, so list operations leave its links alone. */
    ghost predicate Off(t: nat, head: ListHead, q: seq<ListHead>)
      requires Placed() && t < NR_TASKS
    {
      nodes[t] != head && nodes[t] !in q
    }

    lemma UnqueuedNodesOff(id: QueueId)
      requires Placed() && view.WellQueued()
      ensures forall t: nat :: t < NR_TASKS && !view.Holds(t) ==> Off(t, Head(id), Nodes(view.Get(id)))
    {
    }

    /** Tasks outside the queues have no links. */
    ghost predicate UnqueuedUnlinked()
      requires Placed()
      reads this, Repr()
    {
      forall t: nat :: t < NR_TASKS && !view.Holds(t) ==> nodes[t].next == null && nodes[t].prev == null
    }

    /** The ring of one queue and those of the other two, which have none of its nodes. */
    ghost predicate RingsBeside(id: QueueId, q: seq<ListHead>)
      requires Placed() && Slots(view.Get(Others(id).0)) && Slots(view.Get(Others(id).1))
      reads this, Repr(), q
    {
      var (i2, i3) := Others(id);
      Ring(Head(id), q) && Ring(Head(i2), Nodes(view.Get(i2))) && Ring(Head(i3), Nodes(view.Get(i3)))
    }

    lemma ValidParts(id: QueueId)
      requires Valid()
      ensures Placed() && view.WellQueued() && UnqueuedUnlinked() && Slots(view.Get(id))
      ensures Slots(view.Get(Others(id).0)) && Slots(view.Get(Others(id).1))
      ensures RingsBeside(id, Nodes(view.Get(id)))
      ensures var (i2, i3) := Others(id);
              && Disjoint(Head(id), Nodes(view.Get(id)), Head(i2), Nodes(view.Get(i2)))
              && Disjoint(Head(id), Nodes(view.Get(id)), Head(i3), Nodes(view.Get(i3)))
    {
      RingsDisjoint(id, Others(id).0);
      RingsDisjoint(id, Others(id).1);
    }

    /** After a list operation on the ring of queue `id`: the queue is now `r`. */
    ghost method Relink(id: QueueId, r: seq<nat>)
      requires Placed() && view.Set(id, r).WellQueued() && Slots(r)
      requires Slots(view.Get(Others(id).0)) && Slots(view.Get(Others(id).1)) && RingsBeside(id, Nodes(r))
      requires forall t: nat :: t < NR_TASKS && !view.Set(id, r).Holds(t) ==> nodes[t].next == null && nodes[t].prev == null
      modifies this`view
      ensures Valid() && view == old(view).Set(id, r)
    {
      view := view.Set(id, r);
    }

    lemma NodesTaken(q: seq<nat>, i: nat)
      requires Placed() && Slots(q) && i < |q| && Slots(q[..i] + q[i + 1..])
      ensures Nodes(q[..i] + q[i + 1..]) == Nodes(q)[..i] + Nodes(q)[i + 1..]
    {
    }

    lemma NodesEntered(q: seq<nat>, r: seq<nat>, s: nat)
      requires Placed() && Slots(q) && s < NR_TASKS && (r == [s] + q || r == q + [s])
      ensures Slots(r)
      ensures r == [s] + q ==> Nodes(r) == [nodes[s]] + Nodes(q)
      ensures r == q + [s] ==> Nodes(r) == Nodes(q) + [nodes[s]]
    {
    }

    /** list_add of a task: it goes to the front of the queue. */
    method Push(id: QueueId, s: nat)
      requires Valid() && s < NR_TASKS && !view.Holds(s)
      modifies Repr()
      ensures Valid()
      ensures view == old(view).Set(id, [s] + old(view).Get(id))
    {
      hide Valid, Queues.WellQueued, Queues.Get, Queues.Set, Ring, Others, Queues.Holds, Nodes, Slots;
      ghost var q := view.Get(id);
      ghost var r := [s] + q;
      ValidParts(id);
      QueuedOnceMore(view, id, r, s);
      NodesEntered(q, r, s);
      NodeOffRing(id, s);
      NodeOffRing(Others(id).0, s);
      NodeOffRing(Others(id).1, s);
      UnqueuedNodesOff(id);
      ListAdd(nodes[s], Head(id), Nodes(q));
      Relink(id, r);
    }

    /** list_add_tail of a task: it goes to the back of the queue. */
    method Append(id: QueueId, s: nat)
      requires Valid() && s < NR_TASKS && !view.Holds(s)
      modifies Repr()
      ensures Valid()
      ensures view == old(view).Set(id, old(view).Get(id) + [s])
    {
      hide Valid, Queues.WellQueued, Queues.Get, Queues.Set, Ring, Others, Queues.Holds, Nodes, Slots;
      ghost var q := view.Get(id);
      ghost var r := q + [s];
      ValidParts(id);
      QueuedOnceMore(view, id, r, s);
      NodesEntered(q, r, s);
      NodeOffRing(id, s);
      NodeOffRing(Others(id).0, s);
      NodeOffRing(Others(id).1, s);
      UnqueuedNodesOff(id);
      ListAddTail(nodes[s], Head(id), Nodes(q));
      Relink(id, r);
    }

    lemma Locate(s: nat) returns (id: QueueId, i: nat)
      requires view.Holds(s)
      ensures i < |view.Get(id)| && view.Get(id)[i] == s
    {
      id := if s in view.free then Free else if s in view.ready then Ready else Priority;
      i :| 0 <= i < |view.Get(id)| && view.Get(id)[i] == s;
    }

    /** list_del of a task: it leaves the queue it is in, and both its links become NULL. */
    method Delete(s: nat)
      requires Valid() && s < NR_TASKS && view.Holds(s)
      modifies Repr()
      ensures Valid()
      ensures view == old(view).Without(s)
      ensures forall t: nat :: view.Holds(t) <==> old(view).Holds(t) && t != s
    {
      hide Valid, Queues.WellQueued, Queues.Without, Queues.Get, Queues.Set, Ring, Others, Queues.Holds, Slots, Remove;
      ghost var id, i := Locate(s);
      ValidParts(id);
      ghost var r := DeletedQueue(id, i);
      UnqueuedNodesOff(id);
      ListDel(nodes[s], Head(id), Nodes(view.Get(id)), i);
      Relink(id, r);
    }

    /** The queue without its i-th task. */
    lemma DeletedQueue(id: QueueId, i: nat) returns (r: seq<nat>)
      requires Placed() && view.WellQueued() && i < |view.Get(id)|
      ensures var s := view.Get(id)[i];
              && view.Without(s) == view.Set(id, r) && view.Set(id, r).WellQueued()
              && (forall t: nat :: view.Set(id, r).Holds(t) <==> view.Holds(t) && t != s)
      ensures Slots(r) && Nodes(r) == Nodes(view.Get(id))[..i] + Nodes(view.Get(id))[i + 1..]
    {
      var q := view.Get(id);
      r := q[..i] + q[i + 1..];
      WithoutQueued(view, id, i);
      QueuedOnceLess(view, id, i);
      assert Slots(r) by {
        assert view.Set(id, r).Get(id) == r;
      }
      NodesTaken(q, i);
    }

    /** list_empty of a queue. */
    method IsEmpty(id: QueueId) returns (empty: bool)
      requires Valid()
      ensures empty <==> view.Get(id) == []
    {
      assert Linked(id);
      empty := ListEmpty(Head(id), Nodes(view.Get(id)));
    }

    /** list_head_to_task_struct of list_first. */
    method First(id: QueueId) returns (s: nat)
      requires Valid() && view.Get(id) != []
      ensures s == view.Get(id)[0] && s < NR_TASKS && view.Holds(s)
    {
      assert Linked(id);
      var first := ListFirst(Head(id), Nodes(view.Get(id)));
      s := first.slot;
      assert s in view.Get(id);
    }

    /** list_first, list_head_to_task_struct and list_del: the first task leaves its queue. */
    method TakeFirst(id: QueueId) returns (s: nat)
      requires Valid() && view.Get(id) != []
      modifies Repr()
      ensures Valid() && s == old(view).Get(id)[0] && s < NR_TASKS
      ensures view == old(view).Set(id, old(view).Get(id)[1..]) && !view.Holds(s)
    {
      WithoutHead(view, id);
      s := First(id);
      Delete(s);
    }

    /** The `list` field when fork copies one task structure over another: both tasks
        are in no ring, so the copied links are NULL. */
    method CopyLinks(from: nat, to: nat)
      requires Valid() && from < NR_TASKS && to < NR_TASKS && !view.Holds(from) && !view.Holds(to)
      modifies Repr()
      ensures Valid() && view == old(view)
    {
      nodes[to].next := nodes[from].next;
      nodes[to].prev := nodes[from].prev;
    }

    /** update_process_state_rr: the links decide whether the task must leave a ring first. */
    method UpdateProcessState(s: nat, dst: Destination)
      requires Valid() && s < NR_TASKS
      modifies Repr()
      ensures Valid()
      ensures view == match dst
                      case Nowhere => old(view).Without(s)
                      case To(id) => old(view).Without(s).Set(id, old(view).Without(s).Get(id) + [s])
    {
      UnlinkedIffInNoRing(s);
      if !(nodes[s].prev == null && nodes[s].next == null) {
        Delete(s);
      } else {
        assert view == view.Without(s);
      }
      if dst.To? {
        Append(dst.id, s);
      }
    }
  }
}
