/** Virtual channels: a payload cut into fragments, and fragments put together again. */
module ChannelSpec {
  import opened Bits
  import opened Wrappers

  const CHUNK: nat := 1600
  const HEADER: nat := 8

  // Numbers, the lowest byte first.

  function Le(x: nat, n: nat): (s: seq<byte>)
    ensures |s| == n
  {
    if n == 0 then [] else [x % 256] + Le(x / 256, n - 1)
  }

  function FromLe(s: seq<byte>): nat
  {
    if s == [] then 0 else s[0] + 256 * FromLe(s[1..])
  }

  function Range(n: nat): nat { if n == 0 then 1 else 256 * Range(n - 1) }

  lemma {:induction false} LeRoundTrip(x: nat, n: nat)
    requires x < Range(n)
    ensures FromLe(Le(x, n)) == x
  {
    if n > 0 {
      LeRoundTrip(x / 256, n - 1);
      assert Le(x, n)[1..] == Le(x / 256, n - 1);
    }
  }

  // Fragments.

  datatype Flags = Flags(first: bool, last: bool, show: bool)

  function Mask(f: Flags): nat
  {
    (if f.first then 1 else 0) + (if f.last then 2 else 0) + (if f.show then 16 else 0)
  }

  /** The bits of a flag word that the receiver looks at. */
  function First(mask: nat): bool { mask % 2 == 1 }

  function Last(mask: nat): bool { mask / 2 % 2 == 1 }

  lemma MaskBits(f: Flags)
    ensures First(Mask(f)) == f.first && Last(Mask(f)) == f.last && Mask(f) < Range(4)
  {
    assert Range(2) == 65536 && Range(3) == 256 * Range(2);
  }

  /** A fragment on the wire: the length of the whole payload, the flags, the bytes. */
  function Fragment(total: nat, f: Flags, data: seq<byte>): (s: seq<byte>)
    ensures |s| == HEADER + |data|
  {
    Le(total, 4) + Le(Mask(f), 4) + data
  }

  /** The fragments of a payload from `at` on. */
  function Rest(payload: seq<byte>, at: nat, show: bool): seq<seq<byte>>
    requires at <= |payload|
    decreases |payload| - at
  {
    if at == |payload| then []
    else
      var n := if |payload| - at < CHUNK then |payload| - at else CHUNK;
      [Fragment(|payload|, Flags(false, at + n == |payload|, show), payload[at..at + n])] + Rest(payload, at + n, show)
  }

  /** All of them: the first one also when the payload is empty. */
  function Fragments(payload: seq<byte>, show: bool): seq<seq<byte>>
  {
    var n := if |payload| < CHUNK then |payload| else CHUNK;
    [Fragment(|payload|, Flags(true, n == |payload|, show), payload[..n])] + Rest(payload, n, show)
  }

  // The receiving side.

  /** A channel's buffer: its size and what is in it, and what has been delivered. */
  datatype Channel = Channel(size: nat, got: seq<byte>, delivered: seq<seq<byte>>)

  /** One fragment. */
  function Accept(c: Channel, total: nat, first: bool, last: bool, data: seq<byte>): Channel
  {
    if first && last then c.(delivered := c.delivered + [data])
    else
      var size := if first && total > c.size then total else c.size;
      var before := if first then [] else c.got;
      var room := if |before| <= size then size - |before| else 0;
      var got := before + if |data| < room then data else data[..room];
      if last then Channel(size, [], c.delivered + [got]) else Channel(size, got, c.delivered)
  }

  /** The parts of a packet. */
  function Total(s: seq<byte>): nat
    requires |s| >= HEADER
  {
    FromLe(s[..4])
  }

  function FlagWord(s: seq<byte>): nat
    requires |s| >= HEADER
  {
    FromLe(s[4..8])
  }

  function AcceptPacket(c: Channel, s: seq<byte>): Channel
    requires |s| >= HEADER
  {
    Accept(c, Total(s), First(FlagWord(s)), Last(FlagWord(s)), s[HEADER..])
  }

  /** A packet for a channel. */
  datatype Packet = Packet(id: nat, data: seq<byte>)

  /** What one channel makes of everything that comes in. */
  function AcceptAll(c: Channel, packets: seq<seq<byte>>): Channel
    requires forall i :: 0 <= i < |packets| ==> |packets[i]| >= HEADER
  {
    if packets == [] then c else AcceptPacket(AcceptAll(c, packets[..|packets| - 1]), packets[|packets| - 1])
  }

  /** The packets for one channel, in order. */
  function For(wire: seq<Packet>, id: nat): (r: seq<seq<byte>>)
    requires forall i :: 0 <= i < |wire| ==> |wire[i].data| >= HEADER
    ensures forall i :: 0 <= i < |r| ==> |r[i]| >= HEADER
  {
    if wire == [] then []
    else For(wire[..|wire| - 1], id) + if wire[|wire| - 1].id == id then [wire[|wire| - 1].data] else []
  }
}
