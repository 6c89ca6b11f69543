/** Every payload arrives once and unchanged, whatever else is on the wire. */
module ChannelProofs {
  import opened Bits
  import opened ChannelSpec

  /** The receiver reads back what the sender wrote into a fragment. */
  lemma ReadFragment(c: Channel, total: nat, f: Flags, data: seq<byte>)
    requires total < Range(4)
    ensures AcceptPacket(c, Fragment(total, f, data)) == Accept(c, total, f.first, f.last, data)
  {
    var s, a, b := Fragment(total, f, data), Le(total, 4), Le(Mask(f), 4);
    MaskBits(f);
    LeRoundTrip(total, 4);
    LeRoundTrip(Mask(f), 4);
    assert s[..4] == a && s[4..8] == b && s[HEADER..] == data;
  }

  lemma {:induction false} Whole(payload: seq<byte>, at: nat, show: bool)
    requires at <= |payload|
    ensures forall i :: 0 <= i < |Rest(payload, at, show)| ==> |Rest(payload, at, show)[i]| >= HEADER
    decreases |payload| - at
  {
    if at < |payload| {
      Whole(payload, at + if |payload| - at < CHUNK then |payload| - at else CHUNK, show);
    }
  }

  ghost predicate AllLong(packets: seq<seq<byte>>) { forall i :: 0 <= i < |packets| ==> |packets[i]| >= HEADER }

  lemma {:induction false} AcceptMore(c: Channel, a: seq<seq<byte>>, b: seq<seq<byte>>)
    requires AllLong(a) && AllLong(b)
    ensures AllLong(a + b) && AcceptAll(c, a + b) == AcceptAll(AcceptAll(c, a), b)
  {
    if b == [] {
      assert a + b == a;
    } else {
      var n := |b| - 1;
      AcceptMore(c, a, b[..n]);
      assert (a + b)[..|a + b| - 1] == a + b[..n];
    }
  }

  lemma AcceptFirst(c: Channel, s: seq<byte>, b: seq<seq<byte>>)
    requires |s| >= HEADER && AllLong(b)
    ensures AllLong([s] + b) && AcceptAll(c, [s] + b) == AcceptAll(AcceptPacket(c, s), b)
  {
    AcceptMore(c, [s], b);
    assert [s][..0] == [];
  }

  /** The next fragment of a payload, the first `at` bytes being there. */
  lemma NextArrives(c: Channel, payload: seq<byte>, at: nat, show: bool) returns (n: nat, s: seq<byte>, d: Channel)
    requires at < |payload| <= c.size && |payload| < Range(4) && c.got == payload[..at]
    ensures at < at + n <= |payload| && |s| >= HEADER && d == AcceptPacket(c, s)
    ensures Rest(payload, at, show) == [s] + Rest(payload, at + n, show)
    ensures d == if at + n < |payload| then Channel(c.size, payload[..at + n], c.delivered)
                 else Channel(c.size, [], c.delivered + [payload])
  {
    n := if |payload| - at < CHUNK then |payload| - at else CHUNK;
    var f, data := Flags(false, at + n == |payload|, show), payload[at..at + n];
    s := Fragment(|payload|, f, data);
    hide Fragment, AcceptPacket;
    ReadFragment(c, |payload|, f, data);
    assert payload[..at] + data == payload[..at + n] && data[..|data|] == data;
    assert payload[..|payload|] == payload;
    d := Accept(c, |payload|, false, f.last, data);
  }

  /** The later fragments of a payload, the first `at` bytes being there. */
  lemma {:induction false} RestArrives(c: Channel, payload: seq<byte>, at: nat, show: bool)
    requires at < |payload| <= c.size && |payload| < Range(4) && c.got == payload[..at]
    ensures AllLong(Rest(payload, at, show))
            && AcceptAll(c, Rest(payload, at, show)) == Channel(c.size, [], c.delivered + [payload])
    decreases |payload| - at
  {
    Whole(payload, at, show);
    var n, s, d := NextArrives(c, payload, at, show);
    Whole(payload, at + n, show);
    RestEnd(payload, show);
    hide Rest, AcceptPacket, Range;
    var rest := Rest(payload, at + n, show);
    AcceptFirst(c, s, rest);
    if at + n < |payload| {
      RestArrives(d, payload, at + n, show);
    }
  }

  lemma RestEnd(payload: seq<byte>, show: bool)
    ensures Rest(payload, |payload|, show) == []
  {
  }

  /** A whole payload, from any state the channel may have been left in. */
  lemma PayloadArrives(c: Channel, payload: seq<byte>, show: bool)
    requires |payload| < Range(4)
    ensures AllLong(Fragments(payload, show))
    ensures AcceptAll(c, Fragments(payload, show)).delivered == c.delivered + [payload]
  {
    var n := if |payload| < CHUNK then |payload| else CHUNK;
    var f, data := Flags(true, n == |payload|, show), payload[..n];
    var s, rest := Fragment(|payload|, f, data), Rest(payload, n, show);
    Whole(payload, n, show);
    AcceptFirst(c, s, rest);
    ReadFragment(c, |payload|, f, data);
    if n < |payload| {
      RestArrives(Accept(c, |payload|, true, false, data), payload, n, show);
    } else {
      assert payload[..n] == payload;
    }
  }

  /** Payloads one after the other. */
  function Stream(payloads: seq<seq<byte>>, show: bool): (r: seq<seq<byte>>)
  {
    if payloads == [] then [] else Stream(payloads[..|payloads| - 1], show) + Fragments(payloads[|payloads| - 1], show)
  }

  lemma {:induction false} StreamArrives(c: Channel, payloads: seq<seq<byte>>, show: bool)
    requires forall i :: 0 <= i < |payloads| ==> |payloads[i]| < Range(4)
    ensures AllLong(Stream(payloads, show)) && AcceptAll(c, Stream(payloads, show)).delivered == c.delivered + payloads
  {
    hide Fragments, AcceptPacket;
    if payloads != [] {
      var n := |payloads| - 1;
      StreamArrives(c, payloads[..n], show);
      var d := AcceptAll(c, Stream(payloads[..n], show));
      PayloadArrives(d, payloads[n], show);
      AcceptMore(c, Stream(payloads[..n], show), Fragments(payloads[n], show));
      assert payloads == payloads[..n] + [payloads[n]];
    }
  }

  // All channels together.

  /** The channels by number. */
  function Receive(cs: map<nat, Channel>, wire: seq<Packet>): (r: map<nat, Channel>)
    requires forall i :: 0 <= i < |wire| ==> |wire[i].data| >= HEADER
    ensures r.Keys == cs.Keys
  {
    if wire == [] then cs
    else
      var p, before := wire[|wire| - 1], Receive(cs, wire[..|wire| - 1]);
      if p.id in before then before[p.id := AcceptPacket(before[p.id], p.data)] else before
  }

  /** A channel sees its own packets and no others, in their order. */
  lemma {:induction false} OwnPackets(cs: map<nat, Channel>, wire: seq<Packet>, id: nat)
    requires (forall i :: 0 <= i < |wire| ==> |wire[i].data| >= HEADER) && id in cs
    ensures Receive(cs, wire)[id] == AcceptAll(cs[id], For(wire, id))
  {
    if wire != [] {
      var n := |wire| - 1;
      OwnPackets(cs, wire[..n], id);
      var mine := For(wire[..n], id);
      if wire[n].id == id {
        assert (mine + [wire[n].data])[..|mine|] == mine;
      } else {
        assert mine + [] == mine;
      }
    }
  }

  /** Whatever the packets of the other channels and wherever they stand between a channel's own: if
      its own are the fragments of some payloads, those payloads are delivered, each once, in order. */
  lemma Delivered(cs: map<nat, Channel>, wire: seq<Packet>, id: nat, payloads: seq<seq<byte>>, show: bool)
    requires (forall i :: 0 <= i < |wire| ==> |wire[i].data| >= HEADER) && id in cs
    requires For(wire, id) == Stream(payloads, show) && forall i :: 0 <= i < |payloads| ==> |payloads[i]| < Range(4)
    ensures Receive(cs, wire)[id].delivered == cs[id].delivered + payloads
  {
    OwnPackets(cs, wire, id);
    StreamArrives(cs[id], payloads, show);
  }
}
