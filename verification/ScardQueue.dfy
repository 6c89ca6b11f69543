/** The linked list of waiting smart card requests, as its two critical sections change it. */
module ScardQueue {
  import opened Wrappers
  import opened ScardPool

  class Node {
    const data: Request
    var next: Node?

    constructor (r: Request)
      ensures data == r && next == null
    {
      data := r;
      next := null;
    }
  }

  /** The node at a place of the list, or null beyond its end. */
  function At(nodes: seq<Node>, i: nat): Node? { if i < |nodes| then nodes[i] else null }

  class Queue {
    var queueFirst: Node?
    var queueLast: Node?

    /** The nodes on the list, the first one first. */
    ghost var nodes: seq<Node>

    ghost predicate Valid()
      reads this, nodes
    {
      && (forall i, j :: 0 <= i < j < |nodes| ==> nodes[i] != nodes[j])
      && (forall i {:trigger nodes[i]} :: 0 <= i < |nodes| ==> nodes[i].next == At(nodes, i + 1))
      && queueFirst == At(nodes, 0)
      && queueLast == (if nodes == [] then null else nodes[|nodes| - 1])
    }

    ghost function Contents(): (s: seq<Request>)
      reads this
      ensures |s| == |nodes|
    {
      seq(|nodes|, i requires 0 <= i < |nodes| reads this => nodes[i].data)
    }

    constructor ()
      ensures Valid() && Contents() == []
    {
      queueFirst, queueLast, nodes := null, null, [];
    }

    /** SC_addToQueue, with the lock held. */
    method Add(r: Request)
      requires Valid()
      modifies this, nodes
      ensures Valid() && Contents() == old(Contents()) + [r]
      ensures |nodes| == |old(nodes)| + 1 && nodes[..|old(nodes)|] == old(nodes) && fresh(nodes[|old(nodes)|])
    {
      var data := new Node(r);
      if queueLast != null {
        queueLast.next := data;
      }
      queueLast := data;
      if queueFirst == null {
        queueFirst := data;
      }
      nodes := nodes + [data];
    }

    /** SC_getNextInQueue, with the lock held and a request waiting. */
    method Next() returns (r: Node)
      requires Valid() && queueFirst != null
      modifies this, nodes
      ensures Valid() && r.next == null && r !in nodes
      ensures old(Contents()) == [r.data] + Contents()
    {
      ghost var was := nodes;
      r := queueFirst;
      assert r == was[0];
      queueFirst := queueFirst.next;
      assert queueFirst == At(was, 1);
      if queueFirst == null {
        queueLast := null;
      }
      r.next := null;
      nodes := was[1..];
      forall i | 0 <= i < |nodes|
        ensures nodes[i].next == At(nodes, i + 1)
      {
        assert nodes[i] == was[i + 1] && was[i + 1] != was[0];
      }
    }
  }
}
