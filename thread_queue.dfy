/**
 * The thread queue of the mp6 scheduler (class thread_node): a singly linked FIFO list
 * of threads with append at the tail, removal at the head and removal of a given thread.
 * The head and tail pointers are static members, so every thread_node object works on
 * the same list; the model keeps that one list as one ThreadList object whose `queue`
 * holds the threads from head to tail.
 *
 * Links / Walk / AddAsWritten / DeleteAsWritten model the node-level pointer structure as
 * the source leaves it, to exhibit what delete_thread_node does to the head and tail
 * pointers; ThreadList is the queue with those pointers kept right.
 */
module ThreadQueue {
  import opened Wrappers

  /** A thread, identified as the source compares threads: by its address. */
  type Thread = nat

  /** The first position of t in q, if any. */
  function FirstIndex(q: seq<Thread>, t: Thread): (r: Option<nat>)
    ensures r.Some? ==> r.value < |q| && q[r.value] == t && t !in q[..r.value]
    ensures r.None? <==> t !in q
  {
    if q == [] then None
    else if q[0] == t then Some(0)
    else match FirstIndex(q[1..], t)
      case None => None
      case Some(i) =>
        assert q[..i + 1] == [q[0]] + q[1..][..i];
        Some(i + 1)
  }

  /** q without its first occurrence of t; q itself when t does not occur. */
  function Without(q: seq<Thread>, t: Thread): (r: seq<Thread>)
    ensures t in q ==> |r| == |q| - 1 && multiset(r) == multiset(q) - multiset{t}
    ensures t !in q ==> r == q
    ensures multiset(q)[t] <= 1 ==> t !in r
  {
    match FirstIndex(q, t)
    case None => q
    case Some(i) =>
      assert q == q[..i] + [t] + q[i + 1..];
      q[..i] + q[i + 1..]
  }

  /** The threads that n successive get_front_thread calls return from queue q. */
  function Served(q: seq<Thread>, n: nat): (r: seq<Thread>)
    requires n <= |q|
    ensures |r| == n
  {
    if n == 0 then [] else [q[0]] + Served(q[1..], n - 1)
  }

  /**
   * FIFO order: the threads queued before later ones are served first, in the order in
   * which they were added, whatever is added after them.
   */
  lemma {:induction false} ServedInOrder(q: seq<Thread>, later: seq<Thread>, n: nat)
    requires n <= |q|
    ensures Served(q + later, n) == q[..n]
  {
    if n > 0 {
      assert (q + later)[1..] == q[1..] + later;
      ServedInOrder(q[1..], later, n - 1);
      assert q[..n] == [q[0]] + q[1..][..n - 1];
    }
  }

  /** The list shared by every thread_node: threads from head_list to tail_list. */
  class ThreadList {
    var queue: seq<Thread>

    /** Both static pointers start out null. */
    constructor ()
      ensures queue == []
    {
      queue := [];
    }

    /** add_thread_node: a new node at the tail (head and tail both, on an empty list). */
    method AddThreadNode(t: Thread)
      modifies this
      ensures queue == old(queue) + [t]
    {
      queue := queue + [t];
    }

    /** empty: the head pointer is null. */
    method Empty() returns (e: bool)
      ensures e <==> queue == []
    {
      e := |queue| == 0;
    }

    /**
     * get_front_thread: the head's thread is returned and the head moves to the next
     * node. The source dereferences the head unchecked, so the queue must not be empty.
     */
    method GetFrontThread() returns (front: Thread)
      requires queue != []
      modifies this
      ensures [front] + queue == old(queue)
    {
      front := queue[0];
      queue := queue[1..];
    }

    /**
     * delete_thread_node: the walk from the head stops at the first node holding t and
     * unlinks it; without such a node, or on an empty list, nothing changes.
     */
    method DeleteThreadNode(t: Thread)
      modifies this
      ensures queue == Without(old(queue), t)
    {
      var i := 0;
      while i < |queue|
        invariant i <= |queue| && queue == old(queue)
        invariant t !in queue[..i]
      {
        if queue[i] == t {
          assert FirstIndex(queue, t) == Some(i) by {
            FirstIndexUnique(queue, t, i);
          }
          queue := queue[..i] + queue[i + 1..];
          return;
        }
        assert queue[..i + 1] == queue[..i] + [queue[i]];
        i := i + 1;
      }
      assert queue[..i] == queue;
    }
  }

  /** The first occurrence is the only position with t and no t before it. */
  lemma FirstIndexUnique(q: seq<Thread>, t: Thread, i: nat)
    requires i < |q| && q[i] == t && t !in q[..i]
    ensures FirstIndex(q, t) == Some(i)
  {
  }

  // ---------------------------------------------------------------------------
  // The node-level list as the source manipulates it
  // ---------------------------------------------------------------------------

  /** A node in memory: its thread and its next pointer. */
  datatype Node = Node(thread: Thread, next: Option<nat>)

  /** The static head and tail pointers and the nodes not yet deleted, by address. */
  datatype Links = Links(head: Option<nat>, tail: Option<nat>, nodes: map<nat, Node>)

  /** The threads met by following next pointers from p, for at most fuel nodes. */
  function Walk(nodes: map<nat, Node>, p: Option<nat>, fuel: nat): (r: seq<Thread>)
    ensures |r| <= fuel
    decreases fuel
  {
    if fuel == 0 || p.None? || p.value !in nodes then []
    else [nodes[p.value].thread] + Walk(nodes, nodes[p.value].next, fuel - 1)
  }

  /** The queue the list holds: its threads from the head. */
  function Contents(l: Links): (r: seq<Thread>)
    ensures |r| <= |l.nodes|
  {
    Walk(l.nodes, l.head, |l.nodes|)
  }

  /** The head pointer refers to a node that has been deleted. */
  predicate HeadDangles(l: Links)
  {
    l.head.Some? && l.head.value !in l.nodes
  }

  /**
   * add_thread_node as written, with the new node at address `addr`: on an empty list
   * head and tail become it, otherwise the tail's next pointer is set and the tail
   * moves. A tail that was deleted is written through into freed memory, which no
   * live node sees.
   */
  function AddAsWritten(l: Links, t: Thread, addr: nat): (r: Links)
    requires addr !in l.nodes
    ensures r.tail == Some(addr) && addr in r.nodes && r.nodes[addr] == Node(t, None)
  {
    if l.head.None? then
      Links(Some(addr), Some(addr), l.nodes[addr := Node(t, None)])
    else
      var linked :=
        if l.tail.Some? && l.tail.value in l.nodes
        then l.nodes[l.tail.value := l.nodes[l.tail.value].(next := Some(addr))]
        else l.nodes;
      Links(l.head, Some(addr), linked[addr := Node(t, None)])
  }

  /**
   * The loop of delete_thread_node as written: `prev` stays at the head until the walk
   * has passed the head; on a match the predecessor takes the match's next pointer and
   * the match is deleted. Neither head_list nor tail_list is ever updated.
   */
  function DeleteWalk(l: Links, t: Thread, current: Option<nat>, prev: nat, fuel: nat): (r: Links)
    ensures r.head == l.head && r.tail == l.tail
    decreases fuel
  {
    if fuel == 0 || current.None? || current.value !in l.nodes || prev !in l.nodes then l
    else
      var c := current.value;
      if l.nodes[c].thread == t then
        var relinked := l.nodes[prev := l.nodes[prev].(next := l.nodes[c].next)];
        l.(nodes := relinked - {c})
      else
        DeleteWalk(l, t, l.nodes[c].next, if current != l.head then c else prev, fuel - 1)
  }

  /** delete_thread_node as written: nothing on an empty list, else the walk from the head. */
  function DeleteAsWritten(l: Links, t: Thread): (r: Links)
    ensures r.head == l.head && r.tail == l.tail
  {
    if l.head.None? || l.tail.None? then l
    else DeleteWalk(l, t, l.head, l.head.value, |l.nodes|)
  }

  /**
   * Deleting the thread at the head (here the only one) frees the head node but leaves
   * head_list pointing at it: empty() then answers false and get_front_thread reads
   * freed memory, where Without gives the empty queue.
   */
  lemma DeleteHeadLeavesHeadDangling()
    ensures var l := Links(Some(1), Some(1), map[1 := Node(7, None)]);
      && Contents(l) == [7]
      && HeadDangles(DeleteAsWritten(l, 7))
      && Without(Contents(l), 7) == []
  {
    var l := Links(Some(1), Some(1), map[1 := Node(7, None)]);
    assert Walk(l.nodes, None, 0) == [];
    assert Contents(l) == [7];
    assert DeleteAsWritten(l, 7).nodes == map[];
  }

  /**
   * Deleting the thread at the tail unlinks it but leaves tail_list on the freed node;
   * a thread added next is linked after that freed node and never reached from the
   * head: the queue [7, 8] loses 9 after delete(8), add(9).
   */
  lemma DeleteTailLosesNextAdd()
    ensures var l := Links(Some(1), Some(2), map[1 := Node(7, Some(2)), 2 := Node(8, None)]);
      && Contents(l) == [7, 8]
      && Contents(AddAsWritten(DeleteAsWritten(l, 8), 9, 3)) == [7]
      && Without(Contents(l), 8) + [9] == [7, 9]
  {
    var l := Links(Some(1), Some(2), map[1 := Node(7, Some(2)), 2 := Node(8, None)]);
    assert |l.nodes| == 2 by {
      assert l.nodes.Keys == {1, 2};
    }
    assert Walk(l.nodes, Some(2), 1) == [8];
    assert Contents(l) == [7, 8];
    var d := DeleteAsWritten(l, 8);
    assert d.nodes == map[1 := Node(7, None)];
    var a := AddAsWritten(d, 9, 3);
    assert a.nodes == map[1 := Node(7, None), 3 := Node(9, None)];
    assert |a.nodes| == 2 by {
      assert a.nodes.Keys == {1, 3};
    }
    assert Walk(a.nodes, None, 1) == [];
    assert Contents(a) == [7];
  }
}
