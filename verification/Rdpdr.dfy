/** The list of waiting device requests as the program links it, and the walks that take elements out
    while they go along it. */
module Rdpdr {
  import opened Bits
  import opened Wrappers
  import opened RdpdrSpec

  class Node {
    var req: Request
    var next: Node?

    constructor (r: Request)
      ensures req == r && next == null
    {
      req, next := r, null;
    }
  }

  function At(nodes: seq<Node>, i: nat): Node? { if i < |nodes| then nodes[i] else null }

  ghost predicate Linked(nodes: seq<Node>)
    reads set i | 0 <= i < |nodes| :: nodes[i]`next
  {
    forall i {:trigger nodes[i]} :: 0 <= i < |nodes| ==> nodes[i].next == At(nodes, i + 1)
  }

  ghost function Requests(nodes: seq<Node>): (r: seq<Request>)
    reads set i | 0 <= i < |nodes| :: nodes[i]`req
    ensures |r| == |nodes| && forall i :: 0 <= i < |r| ==> r[i] == nodes[i].req
  {
    if nodes == [] then [] else Requests(nodes[..|nodes| - 1]) + [nodes[|nodes| - 1].req]
  }

  lemma LinkedAt(nodes: seq<Node>, i: nat)
    requires Linked(nodes) && i < |nodes|
    ensures nodes[i].next == At(nodes, i + 1)
  {
  }

  lemma RequestsLess(nodes: seq<Node>, k: nat)
    requires k < |nodes|
    ensures Requests(Less(nodes, k)) == Less(Requests(nodes), k)
  {
    hide Requests;
    var a, b := Requests(Less(nodes, k)), Less(Requests(nodes), k);
    forall i | 0 <= i < |a| ensures a[i] == b[i] {
      assert Less(nodes, k)[i] == nodes[if i < k then i else i + 1];
    }
  }

  /** The element after one of those left, once element k is gone. */
  lemma Neighbours(was: seq<Node>, k: nat, i: nat)
    requires k < |was| && i <= |was| - 1
    ensures var nodes := Less(was, k);
            var j := if i < k then i else i + 1;
            && At(nodes, i) == At(was, j)
            && (i < |nodes| ==> At(nodes, i + 1) == if j + 1 == k then At(was, k + 1) else At(was, j + 1))
    ensures At(Less(was, k), k) == At(was, k + 1)
    ensures At(was, 0) == was[0]
  {
  }

  lemma Relinked(was: seq<Node>, k: nat)
    requires k < |was|
    requires forall i {:trigger was[i]} :: 0 <= i < |was| && i != k ==>
      was[i].next == if i + 1 == k then At(was, k + 1) else At(was, i + 1)
    ensures Linked(Less(was, k))
  {
    var nodes := Less(was, k);
    forall i | 0 <= i < |nodes| ensures nodes[i].next == At(nodes, i + 1) {
      Neighbours(was, k, i);
      assert nodes[i] == was[if i < k then i else i + 1];
    }
  }

  lemma Seen(nodes: seq<Node>, k: nat)
    ensures k < |nodes| ==> At(nodes, k) == nodes[k]
    ensures At(nodes, k) == null <==> k >= |nodes|
    ensures k + 1 < |nodes| ==> At(nodes, k + 1) == nodes[k + 1]
    ensures At(nodes, k + 1) == null <==> k + 1 >= |nodes|
  {
  }

  lemma FirstAt(nodes: seq<Node>)
    ensures At(nodes, 0) == null <==> nodes == []
    ensures nodes != [] ==> At(nodes, 0) == nodes[0]
  {
  }

  // The walk, one turn at a time.

  lemma Begun(list: seq<Request>, sent: seq<Completion>, w: World)
    ensures Walk(list[..0], list[0..], sent, w) == Walk([], list, sent, w)
    ensures list == [] ==> Walk([], list, sent, w) == Pass(list, sent)
  {
    assert list[0..] == list && list[..0] == [];
  }

  lemma KeptStep(was: seq<Request>, now: seq<Request>, k: nat, sent: seq<Completion>, w: World)
    requires k < |was| == |now| && Visit(was[k], w) == Kept(now[k]) && now[..k] == was[..k]
             && now[k + 1..] == was[k + 1..]
    ensures Walk(was[..k], was[k..], sent, w) == Walk(now[..k + 1], now[k + 1..], sent, w)
    ensures k + 1 == |now| ==> Walk(was[..k], was[k..], sent, w) == Pass(now, sent)
  {
    assert now[..k + 1] == was[..k] + [now[k]] && was[k..][1..] == now[k + 1..];
    assert k + 1 == |now| ==> now[..k + 1] == now && now[k + 1..] == [];
  }

  lemma Dropped(was: seq<Request>, now: seq<Request>, k: nat)
    requires k < |was| == |now| && now[..k] == was[..k] && now[k + 1..] == was[k + 1..]
    ensures Less(now, k) == Less(was, k)
  {
  }

  lemma FinishedStep(was: seq<Request>, k: nat, c: Completion, sent: seq<Completion>, w: World)
    requires k < |was| && Visit(was[k], w) == Finished(c)
    ensures var now := Less(was, k);
            var result := Walk(was[..k], was[k..], sent, w);
            && (k == 0 || k + 1 == |was| ==> result == Pass(now, sent + [c]))
            && (0 < k < |now| ==> result == Walk(now[..k + 1], now[k + 1..], sent + [c], w))
            && (0 < k && k + 1 == |now| ==> result == Pass(now, sent + [c]))
  {
    var now, rest := Less(was, k), was[k..];
    assert rest[1..] == was[k + 1..];
    if k == 0 {
      assert now == rest[1..];
    } else if k + 1 == |was| {
      assert now == was[..k];
    } else {
      assert now[..k + 1] == was[..k] + [rest[1]] && now[k + 1..] == rest[2..];
      if k + 1 == |now| {
        assert now[..k + 1] == now && now[k + 1..] == [];
      }
    }
  }

  class AsyncList {
    var first: Node?
    var sent: seq<Completion>
    ghost var nodes: seq<Node>

    ghost predicate Valid()
      reads this`first, this`nodes, set i | 0 <= i < |nodes| :: nodes[i]`next
    {
      Apart(nodes) && Linked(nodes) && first == At(nodes, 0)
    }

    ghost function Value(): Pass
      reads this`sent, this`nodes, set i | 0 <= i < |nodes| :: nodes[i]`req
    {
      Pass(Requests(nodes), sent)
    }

    constructor ()
      ensures Valid() && Value() == Pass([], [])
    {
      first, sent, nodes := null, [], [];
    }

    /** rdpdr_remove_iorequest: the element after the one that went, or null when that was the first. */
    method Remove(prev: Node?, iorq: Node, ghost k: nat) returns (r: Node?)
      requires Valid() && k < |nodes| && nodes[k] == iorq && prev == (if k > 0 then nodes[k - 1] else null)
      modifies this`first, this`nodes, set i | 0 <= i < |nodes| :: nodes[i]`next
      ensures Valid() && nodes == Less(old(nodes), k) && Requests(nodes) == Less(old(Requests(nodes)), k)
      ensures r == if k > 0 then At(nodes, k) else null
    {
      ghost var was := nodes;
      hide Apart, Requests, At;
      LinkedAt(was, k);
      Neighbours(was, k, 0);
      ApartLess(was, k);
      RequestsLess(was, k);
      forall i | 0 <= i < |was| && k > 0 ensures was[i] == was[k - 1] <==> i == k - 1 {
        Same(was, i, k - 1);
      }
      if prev != null {
        prev.next := iorq.next;
        r := prev.next;
      } else {
        first := iorq.next;
        r := null;
      }
      Relinked(was, k);
      nodes := Less(was, k);
    }

    lemma RequestsSet(r: seq<Request>, k: nat, d: Request)
      requires Apart(nodes) && k < |nodes| && |r| == |nodes|
      requires forall i :: 0 <= i < |nodes| ==> nodes[i].req == if i == k then d else r[i]
      ensures Requests(nodes) == r[k := d]
    {
      hide Requests;
    }

    /** A field of one element is assigned. */
    method Assign(node: Node, r: Request, ghost k: nat)
      requires Apart(nodes) && k < |nodes| && nodes[k] == node
      modifies node`req
      ensures Requests(nodes) == old(Requests(nodes))[k := r]
    {
      hide Apart, Requests;
      ghost var was := Requests(nodes);
      forall i | 0 <= i < |nodes| ensures nodes[i] == node <==> i == k {
        Same(nodes, i, k);
      }
      node.req := r;
      RequestsSet(was, k, r);
    }

    /** One element is tried, if its device is ready. */
    method Try(node: Node, w: World, ghost k: nat) returns (finished: bool)
      requires Apart(nodes) && k < |nodes| && nodes[k] == node
      modifies node`req, this`sent
      ensures Requests(nodes)[..k] == old(Requests(nodes))[..k]
              && Requests(nodes)[k + 1..] == old(Requests(nodes))[k + 1..]
      ensures match Visit(old(node.req), w)
              case Kept(r) => !finished && Requests(nodes)[k] == r && sent == old(sent)
              case Finished(c) => finished && sent == old(sent) + [c]
    {
      hide Apart, Requests;
      finished := false;
      var r := node.req;
      if r.fd != 0 {
        if r.major.Control? {
          if w.sel.events(r) {
            sent := sent + [Completion(r.device, r.id, SUCCESS, 4, w.does(r).data)];
            finished := true;
          }
        } else if (r.major.Read? && w.sel.readable(r.fd)) || (r.major.Write? && w.sel.writable(r.fd)) {
          var o := w.does(r);
          var d := r;
          if (w.wide && o.result > 0) || (!w.wide && 0 < o.result < 0x8000_0000) {
            d := d.(partial := (d.partial + o.result) % WORD, offset := (d.offset + o.result) % WORD);
            if d.major.Read? {
              d := d.(data := d.data + o.data);
            }
          }
          Assign(node, d, k);
          if d.partial == d.length || o.result == 0 {
            sent := sent + [Completion(d.device, d.id, o.status, d.partial, if d.major.Read? then SoFar(d) else [0])];
            finished := true;
          }
        }
      }
    }

    /** The main walk of _rdpdr_check_fds. */
    method CheckFds(w: World)
      requires Valid()
      modifies this`first, this`sent, this`nodes, nodes
      ensures Valid() && Value() == Walk([], old(Requests(nodes)), old(sent), w)
      ensures forall i :: 0 <= i < |nodes| ==> nodes[i] in old(nodes)
    {
      hide Apart, Linked, Requests, Visit, At;
      var iorq, prev: Node? := first, null;
      ghost var k: nat := 0;
      ghost var result := Walk([], Requests(nodes), sent, w);
      Begun(Requests(nodes), sent, w);
      FirstAt(nodes);
      while iorq != null
        invariant Valid() && forall i :: 0 <= i < |nodes| ==> nodes[i] in old(nodes)
        invariant iorq != null ==> k < |nodes| && iorq == nodes[k] && prev == (if k > 0 then nodes[k - 1] else null)
        invariant iorq != null ==> Walk(Requests(nodes)[..k], Requests(nodes)[k..], sent, w) == result
        invariant iorq == null ==> Pass(Requests(nodes), sent) == result
        decreases if iorq != null then |nodes| - k else 0
      {
        iorq, prev, k := CheckOne(iorq, prev, w, k, result);
      }
    }

    /** One turn of the walk. */
    method CheckOne(cur: Node, before: Node?, w: World, ghost k: nat, ghost result: Pass)
        returns (iorq: Node?, prev: Node?, ghost next: nat)
      requires Valid() && k < |nodes| && cur == nodes[k] && before == (if k > 0 then nodes[k - 1] else null)
      requires Walk(Requests(nodes)[..k], Requests(nodes)[k..], sent, w) == result
      modifies this`first, this`sent, this`nodes, nodes
      ensures Valid() && forall i :: 0 <= i < |nodes| ==> nodes[i] in old(nodes)
      ensures iorq != null ==>
        next < |nodes| && iorq == nodes[next] && prev == (if next > 0 then nodes[next - 1] else null)
      ensures iorq != null ==> Walk(Requests(nodes)[..next], Requests(nodes)[next..], sent, w) == result
      ensures iorq == null ==> Pass(Requests(nodes), sent) == result
      ensures iorq != null ==> |nodes| - next < |old(nodes)| - k
    {
      hide Apart, Linked, Requests, Visit, Walk;
      ghost var was := Requests(nodes);
      ghost var sent0 := sent;
      iorq, prev, next := cur, before, k;
      var finished := Try(cur, w, k);
      if finished {
        ghost var c := sent[|sent0|];
        Dropped(was, Requests(nodes), k);
        FinishedStep(was, k, c, sent0, w);
        iorq := Remove(before, cur, k);
        Seen(nodes, k);
      } else {
        KeptStep(was, Requests(nodes), k, sent, w);
        Seen(nodes, k);
      }
      prev := iorq;
      if iorq != null {
        LinkedAt(nodes, k);
        iorq := iorq.next;
        next := k + 1;
      }
    }

    /** The walk to the first request that matches, and the element before it. */
    method FindMatch(fd: nat, major: Option<Major>) returns (prev: Node?, iorq: Node?, ghost k: nat)
      requires Valid()
      ensures k == FirstMatch(Requests(nodes), fd, major) && iorq == At(nodes, k)
        && prev == if k > 0 then nodes[k - 1] else null
    {
      hide Apart, Linked, At, Requests, FirstMatch, FirstNotifiable;
      iorq, prev, k := first, null, 0;
      Seen(nodes, 0);
      while iorq != null
        invariant k <= |nodes| && iorq == At(nodes, k)
        invariant prev == if k > 0 then nodes[k - 1] else null
        invariant forall i :: 0 <= i < k ==> !Matches(Requests(nodes)[i], fd, major)
        decreases |nodes| - k
      {
        Seen(nodes, k);
        if iorq.req.fd == fd && (major.None? || iorq.req.major == major.value) {
          break;
        }
        LinkedAt(nodes, k);
        prev := iorq;
        iorq := iorq.next;
        k := k + 1;
      }
      Seen(nodes, k);
      MatchIs(Requests(nodes), fd, major, k);
    }

    /** rdpdr_abort_io */
    method AbortIo(fd: nat, major: Option<Major>, status: nat) returns (found: bool)
      requires Valid()
      modifies this`first, this`sent, this`nodes, nodes
      ensures Valid() && Value() == Abort(old(Value()), fd, major, status) && found == (|nodes| < |old(nodes)|)
    {
      hide Apart, Linked, At, FirstMatch, Requests, Abort, Less;
      var prev, iorq;
      ghost var k;
      prev, iorq, k := FindMatch(fd, major);
      Seen(nodes, k);
      AbortIs(Value(), fd, major, status);
      found := iorq != null;
      if found {
        sent := sent + [Completion(iorq.req.device, iorq.req.id, status, 0, [0])];
        var next := Remove(prev, iorq, k);
      }
    }

    /** The branch of _rdpdr_check_fds for a select that timed out. */
    method CheckTimedOut(fd: nat, serial: bool)
      requires Valid()
      modifies this`first, this`sent, this`nodes, nodes
      ensures Valid() && Value() == TimedOut(old(Value()), fd, serial)
    {
      hide Apart, Linked, Requests, At;
      Seen(nodes, 0);
      if first != null {
        var r := first.req;
        if r.fd == fd && r.partial > 0 && serial {
          sent := sent + [Completion(r.device, r.id, SUCCESS, r.partial, SoFar(r))];
          var next := Remove(null, first, 0);
          return;
        }
      }
      var found := AbortIo(fd, None, TIMEOUT);
    }

    /** The walk to the first directory request on a disk, and the element before it. */
    method FindNotifiable(disk: nat -> bool) returns (prev: Node?, iorq: Node?, ghost k: nat)
      requires Valid()
      ensures k == FirstNotifiable(Requests(nodes), disk) && iorq == At(nodes, k)
      ensures prev == if k > 0 then nodes[k - 1] else null
    {
      hide Apart, Linked, At, Requests, FirstMatch, FirstNotifiable;
      iorq, prev, k := first, null, 0;
      Seen(nodes, 0);
      while iorq != null
        invariant k <= |nodes| && iorq == At(nodes, k)
        invariant prev == if k > 0 then nodes[k - 1] else null
        invariant forall i :: 0 <= i < k ==> !Notifiable(Requests(nodes)[i], disk)
        decreases |nodes| - k
      {
        Seen(nodes, k);
        if iorq.req.fd != 0 && iorq.req.major.Directory? && disk(iorq.req.device) {
          break;
        }
        LinkedAt(nodes, k);
        prev := iorq;
        iorq := iorq.next;
        k := k + 1;
      }
      Seen(nodes, k);
      NotifiableIs(Requests(nodes), disk, k);
    }

    /** The second walk of _rdpdr_check_fds; once the stamp is used up the rest of it does nothing. */
    method CheckNotify(stamp: bool, disk: nat -> bool, check: nat -> nat) returns (left: bool)
      requires Valid()
      modifies this`first, this`sent, this`nodes, nodes
      ensures Valid() && Noted(Value(), left) == Notify(old(Value()), stamp, disk, check)
    {
      hide Apart, Linked, At, FirstNotifiable, Requests;
      var prev, iorq;
      ghost var k;
      prev, iorq, k := FindNotifiable(disk);
      Seen(nodes, k);
      left := stamp;
      if iorq != null && stamp {
        left := false;
        var status := check(iorq.req.fd);
        if status != PENDING {
          sent := sent + [Completion(iorq.req.device, iorq.req.id, status, 0, [])];
          var next := Remove(prev, iorq, k);
        }
      }
    }

    /** An unused element behind the last one. */
    method Extend(last: Node, ghost k: nat) returns (n: Node)
      requires Valid() && k + 1 == |nodes| && last == nodes[k]
      modifies this`nodes, last`next
      ensures Valid() && fresh(n) && nodes == old(nodes) + [n]
      ensures exists blank: Request :: blank.fd == 0 && Requests(nodes) == old(Requests(nodes)) + [blank]
    {
      hide Apart, Linked;
      n := new Node(last.req.(fd := 0));
      ghost var was := nodes;
      forall i | 0 <= i < |was| ensures was[i] == last <==> i == k {
        Same(was, i, k);
      }
      forall i | 0 <= i < |was| ensures was[i].next == At(was, i + 1) {
        LinkedAt(was, i);
      }
      last.next := n;
      nodes := was + [n];
      Extended(was, n);
      assert nodes[..|nodes| - 1] == was;
    }

    /** The walk to an unused element, with a new one at the end if there is none. */
    method FindFree() returns (iorq: Node, ghost k: nat)
      requires Valid() && nodes != []
      modifies this`nodes, set i | 0 <= i < |nodes| :: nodes[i]`next
      ensures Valid() && k < |nodes| && iorq == nodes[k] && k == Free(old(Requests(nodes)))
      ensures k < |old(nodes)| ==> nodes == old(nodes) && Requests(nodes) == old(Requests(nodes))
      ensures k == |old(nodes)| ==> |nodes| == k + 1 && fresh(iorq) && Requests(nodes)[..k] == old(Requests(nodes))
    {
      hide Apart, Linked, At, Requests;
      Seen(nodes, 0);
      iorq, k := first, 0;
      while iorq.req.fd != 0
        invariant Valid() && nodes == old(nodes) && Requests(nodes) == old(Requests(nodes))
        invariant k < |nodes| && iorq == nodes[k] && forall i :: 0 <= i < k ==> Requests(nodes)[i].fd != 0
        decreases |nodes| - k
      {
        LinkedAt(nodes, k);
        Seen(nodes, k);
        if iorq.next == null {
          FreeIs(Requests(nodes), k + 1);
          ghost var was := Requests(nodes);
          iorq := Extend(iorq, k);
          assert Requests(nodes)[..k + 1] == was;
          return iorq, k + 1;
        }
        iorq := iorq.next;
        k := k + 1;
      }
      FreeIs(Requests(nodes), k);
    }

    /** add_async_iorequest */
    method AddRequest(r: Request)
      requires Valid()
      modifies this`first, this`nodes, nodes
      ensures Valid() && Value() == old(Value()).(list := Add(old(Value()).list, r))
    {
      hide Apart, Linked, At, Requests, Free;
      Seen(nodes, 0);
      if first == null {
        FirstOnly(r);
        return;
      }
      ghost var was := Requests(nodes);
      var iorq;
      ghost var k;
      iorq, k := FindFree();
      ghost var now := Requests(nodes);
      Assign(iorq, r, k);
      if k == |was| {
        assert now[k := r] == was + [r];
      }
    }

    /** The very first element. */
    method FirstOnly(r: Request)
      requires Valid() && first == null
      modifies this`first, this`nodes
      ensures Valid() && Requests(nodes) == Add(old(Requests(nodes)), r)
    {
      Seen(nodes, 0);
      var n := new Node(r.(fd := 0));
      n.req := r;
      first := n;
      nodes := [n];
    }
  }

  lemma AbortIs(p: Pass, fd: nat, major: Option<Major>, status: nat)
    ensures var k := FirstMatch(p.list, fd, major);
            Abort(p, fd, major, status) ==
            if k == |p.list| then p
            else Pass(Less(p.list, k), p.sent + [Completion(p.list[k].device, p.list[k].id, status, 0, [0])])
  {
  }

  lemma FreeIs(list: seq<Request>, k: nat)
    requires k <= |list| && (k < |list| ==> list[k].fd == 0) && forall i :: 0 <= i < k ==> list[i].fd != 0
    ensures k == Free(list)
  {
  }

  lemma Extended(was: seq<Node>, n: Node)
    requires Apart(was) && n !in was && n.next == null && was != []
    requires forall i :: 0 <= i < |was| ==> was[i].next == if i == |was| - 1 then n else At(was, i + 1)
    ensures Apart(was + [n]) && Linked(was + [n]) && At(was + [n], 0) == At(was, 0)
  {
  }

  lemma NotifiableIs(list: seq<Request>, disk: nat -> bool, k: nat)
    requires k <= |list| && (k < |list| ==> Notifiable(list[k], disk))
    requires forall i :: 0 <= i < k ==> !Notifiable(list[i], disk)
    ensures k == FirstNotifiable(list, disk)
  {
  }

  lemma MatchIs(list: seq<Request>, fd: nat, major: Option<Major>, k: nat)
    requires k <= |list| && (k < |list| ==> Matches(list[k], fd, major))
    requires forall i :: 0 <= i < k ==> !Matches(list[i], fd, major)
    ensures k == FirstMatch(list, fd, major)
  {
  }
}
