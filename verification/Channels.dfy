/** Sending and receiving on virtual channels, in place. */
module Channels {
  import opened Bits
  import opened ChannelSpec

  lemma LeStep(x: nat, n: nat)
    requires n > 0
    ensures Le(x, n) == [x % 256] + Le(x / 256, n - 1)
  {
  }

  /** The one output buffer; what lies below `head` belongs to the lower layers. */
  class Sender {
    const buf: array<byte>
    const head: nat
    var sent: seq<seq<byte>>

    constructor (b: array<byte>, h: nat)
      ensures buf == b && head == h && sent == []
    {
      buf, head, sent := b, h, [];
    }

    /** out_uint32_le at a place of the buffer. */
    method Out32(at: nat, x: nat)
      requires at + 4 <= buf.Length
      modifies buf
      ensures buf[at..at + 4] == Le(x, 4)
      ensures buf[..at] == old(buf[..at]) && buf[at + 4..] == old(buf[at + 4..])
    {
      ghost var was := buf[..];
      var v := x;
      for i := 0 to 4
        invariant forall j :: 0 <= j < buf.Length && !(at <= j < at + i) ==> buf[j] == was[j]
        invariant buf[at..at + i] + Le(v, 4 - i) == Le(x, 4)
      {
        hide Le;
        LeStep(v, 4 - i);
        ghost var before := buf[at..at + i];
        buf[at + i] := v % 256;
        assert buf[at..at + i + 1] == before + [v % 256];
        v := v / 256;
      }
    }

    /** sec_send_to_channel: the bytes from `head` to `end` go out; headers are put before them and
        they are encrypted where they are. */
    method SecSend(end: nat)
      requires head <= end <= buf.Length
      modifies buf, this`sent
      ensures sent == old(sent) + [old(buf[head..end])] && buf[end..] == old(buf[end..])
    {
      sent := sent + [buf[head..end]];
      var i := 0;
      while i < end
        invariant i <= end && buf[end..] == old(buf[end..]) && sent == old(sent) + [old(buf[head..end])]
      {
        buf[i] := *;
        i := i + 1;
      }
    }

    /** The eight bytes before the data of a fragment. */
    method OutHeader(total: nat, flags: Flags)
      requires head + HEADER <= buf.Length
      modifies buf
      ensures buf[head..head + HEADER] == Le(total, 4) + Le(Mask(flags), 4)
              && buf[head + HEADER..] == old(buf[head + HEADER..])
    {
      Out32(head, total);
      ghost var rest := buf[head + 4..];
      assert rest[4..] == buf[head + HEADER..];
      assert old(buf[head + 4..])[4..] == old(buf[head + HEADER..]);
      Out32(head + 4, Mask(flags));
      assert buf[..head + 4][head..] == buf[head..head + 4];
      assert buf[head..head + HEADER] == buf[head..head + 4] + buf[head + 4..head + HEADER];
    }

    /** memcpy downwards in the buffer, to a place that ends before the bytes begin. */
    method Copy(to: nat, from: nat, n: nat)
      requires to + n <= from && from + n <= buf.Length
      modifies buf
      ensures buf[to..to + n] == old(buf[from..from + n])
      ensures buf[..to] == old(buf[..to]) && buf[to + n..] == old(buf[to + n..])
    {
      ghost var was := buf[..];
      for i := 0 to n
        invariant forall j :: 0 <= j < buf.Length && !(to <= j < to + i) ==> buf[j] == was[j]
        invariant buf[to..to + i] == was[from..from + i]
      {
        buf[to + i] := buf[from + i];
      }
    }

    /** A fragment of n bytes, found at `from`, is built at the head of the buffer and sent. Nothing
        from `from + n` on is touched. */
    method SendFragment(total: nat, flags: Flags, from: nat, n: nat)
      requires head + HEADER + n <= from && from + n <= buf.Length
      modifies buf, this`sent
      ensures sent == old(sent) + [Fragment(total, flags, old(buf[from..from + n]))]
      ensures buf[from + n..] == old(buf[from + n..])
    {
      ghost var b0 := buf[..];
      OutHeader(total, flags);
      ghost var b1 := buf[..];
      Beyond(b0, b1, head + HEADER, from, n);
      Copy(head + HEADER, from, n);
      ghost var b2 := buf[..];
      Beyond(b1, b2, head + HEADER + n, from, n);
      Before(b1, b2, head + HEADER, head);
      assert buf[head..head + HEADER + n] == buf[head..head + HEADER] + buf[head + HEADER..head + HEADER + n];
      SecSend(head + HEADER + n);
      Beyond(b2, buf[..], head + HEADER + n, from, n);
    }

    /** The first fragment goes out where it stands. */
    method SendFirst(total: nat, flags: Flags, end: nat)
      requires head + HEADER <= end <= buf.Length
      modifies buf, this`sent
      ensures sent == old(sent) + [Fragment(total, flags, old(buf[head + HEADER..end]))]
      ensures buf[end..] == old(buf[end..])
    {
      ghost var b0 := buf[..];
      OutHeader(total, flags);
      Beyond(b0, buf[..], head + HEADER, head + HEADER, end - head - HEADER);
      assert buf[head..end] == buf[head..head + HEADER] + buf[head + HEADER..end];
      SecSend(end);
    }

    /** One turn of the loop over the rest of the payload. */
    method SendNext(ghost payload: seq<byte>, at: nat, n: nat, end: nat, flags: Flags)
      requires head + HEADER + n <= head + HEADER + at && at + n <= |payload|
               && end == head + HEADER + |payload| <= buf.Length
      requires buf[head + HEADER + at..end] == payload[at..]
      modifies buf, this`sent
      ensures sent == old(sent) + [Fragment(|payload|, flags, payload[at..at + n])]
      ensures buf[head + HEADER + at + n..end] == payload[at + n..]
    {
      var from := head + HEADER + at;
      ghost var b := buf[..];
      Split(b, from, from + n, end, payload, at, n);
      SendFragment(end - head - HEADER, flags, from, n);
      Part(b, from + n, from + n, end);
      Part(buf[..], from + n, from + n, end);
    }

    /** The first n bytes of the payload go out where they stand. */
    method SendStart(ghost payload: seq<byte>, n: nat, end: nat, flags: Flags)
      requires n <= |payload| && end == head + HEADER + |payload| <= buf.Length
      requires buf[head + HEADER..end] == payload
      modifies buf, this`sent
      ensures sent == old(sent) + [Fragment(|payload|, flags, payload[..n])]
      ensures buf[head + HEADER + n..end] == payload[n..]
    {
      var data := head + HEADER + n;
      ghost var b := buf[..];
      Split(b, head + HEADER, data, end, payload, 0, n);
      SendFirst(end - head - HEADER, flags, data);
      Part(b, data, data, end);
      Part(buf[..], data, data, end);
    }

    /** channel_send: the payload stands behind its header, up to `end`. */
    method Send(end: nat, show: bool)
      requires head + HEADER <= end <= buf.Length
      modifies buf, this`sent
      ensures sent == old(sent) + Fragments(old(buf[head + HEADER..end]), show)
    {
      hide Fragment, Fragments, Rest, Mask, Le;
      ghost var payload := buf[head + HEADER..end];
      ghost var all := old(sent) + Fragments(payload, show);
      var length := end - head - HEADER;
      var n := if length < CHUNK then length else CHUNK;
      var remaining := length - n;
      var data := head + HEADER + n;
      SendStart(payload, n, end, Flags(true, remaining == 0, show));
      FirstOf(old(sent), payload, show, n);
      while remaining > 0
        invariant 0 <= remaining <= length && data == head + HEADER + (length - remaining)
        invariant remaining > 0 ==> length - remaining >= CHUNK
        invariant buf[data..end] == payload[length - remaining..]
        invariant sent + Rest(payload, length - remaining, show) == all
      {
        n := if remaining < CHUNK then remaining else CHUNK;
        NextOf(sent, payload, length - remaining, show, n);
        remaining := remaining - n;
        SendNext(payload, data - head - HEADER, n, end, Flags(false, remaining == 0, show));
        data := data + n;
      }
      Over(sent, payload, show);
    }
  }

  /** One virtual channel: its number and its buffer for defragmentation, filled up to p. */
  class VirtualChannel {
    const id: nat
    var data: array<byte>
    var size: nat
    var p: nat
    var delivered: seq<seq<byte>>

    ghost predicate Valid()
      reads this
    {
      p <= size == data.Length
    }

    ghost function Value(): Channel
      requires Valid()
      reads this, data
    {
      Channel(size, data[..p], delivered)
    }

    constructor (number: nat)
      ensures Valid() && id == number && Value() == Channel(0, [], []) && fresh(data)
    {
      id, size, p, delivered := number, 0, 0, [];
      data := new byte[0];
    }

    /** in_uint32_le */
    static method In32(s: seq<byte>, at: nat) returns (v: nat)
      requires at + 4 <= |s|
      ensures v == FromLe(s[at..at + 4])
    {
      v := FromLe(s[at..at + 4]);
    }

    /** xrealloc to a larger size. */
    method Grow(length: nat)
      requires Valid() && length > size
      modifies this`data, this`size, this`p
      ensures Valid() && fresh(data) && size == length && p == 0
    {
      data := new byte[length];
      size, p := length, 0;
    }

    /** memcpy behind what is there, as far as there is room. */
    method Append(bytes: seq<byte>)
      requires Valid()
      modifies this`p, data
      ensures Valid() && data[..p] == old(data[..p]) + if |bytes| < size - old(p) then bytes else bytes[..size - old(p)]
    {
      var n := if |bytes| < size - p then |bytes| else size - p;
      for i := 0 to n
        invariant p == old(p) && p + n <= data.Length
        invariant data[..p] == old(data[..p]) && data[p..p + i] == bytes[..i]
      {
        data[p + i] := bytes[i];
      }
      assert data[..p + n] == data[..p] + data[p..p + n];
      p := p + n;
    }

    /** channel_process, once the channel is found. */
    method Process(s: seq<byte>)
      requires Valid() && |s| >= HEADER
      modifies this, data
      ensures Valid() && Value() == AcceptPacket(old(Value()), s) && (data == old(data) || fresh(data))
    {
      var length := In32(s, 0);
      var flags := In32(s, 4);
      assert s[4..][..4] == s[4..8];
      var body := s[HEADER..];
      if First(flags) && Last(flags) {
        delivered := delivered + [body];
      } else {
        if First(flags) {
          if length > size {
            Grow(length);
          }
          p := 0;
        }
        Append(body);
        if Last(flags) {
          delivered := delivered + [data[..p]];
          p := 0;
        }
      }
    }
  }

  lemma Part(a: seq<byte>, at: nat, lo: nat, hi: nat)
    requires at <= lo <= hi <= |a|
    ensures a[lo..hi] == a[at..][lo - at..hi - at]
  {
  }

  /** What lies beyond a change. */
  lemma Beyond(a: seq<byte>, b: seq<byte>, at: nat, lo: nat, n: nat)
    requires at <= lo && lo + n <= |a| == |b| && a[at..] == b[at..]
    ensures a[lo..lo + n] == b[lo..lo + n] && a[lo + n..] == b[lo + n..]
  {
    Part(a, at, lo, lo + n);
    Part(b, at, lo, lo + n);
    Part(a, at, lo + n, |a|);
    Part(b, at, lo + n, |b|);
  }

  /** The next n bytes of a payload, and the rest. */
  lemma Split(b: seq<byte>, from: nat, mid: nat, end: nat, payload: seq<byte>, at: nat, n: nat)
    requires from <= mid <= end <= |b| && at + n <= |payload| && mid == from + n && b[from..end] == payload[at..]
    ensures b[from..mid] == payload[at..at + n] && b[mid..end] == payload[at + n..]
  {
    assert b[from..mid] == b[from..end][..n] && payload[at..][..n] == payload[at..at + n];
    assert b[mid..end] == b[from..end][n..] && payload[at..][n..] == payload[at + n..];
  }

  lemma FirstOf(sent: seq<seq<byte>>, payload: seq<byte>, show: bool, n: nat)
    requires n == if |payload| < CHUNK then |payload| else CHUNK
    ensures sent + [Fragment(|payload|, Flags(true, |payload| - n == 0, show), payload[..n])]
      + Rest(payload, n, show) == sent + Fragments(payload, show)
  {
  }

  lemma NextOf(sent: seq<seq<byte>>, payload: seq<byte>, at: nat, show: bool, n: nat)
    requires at < |payload| && n == if |payload| - at < CHUNK then |payload| - at else CHUNK
    ensures sent + [Fragment(|payload|, Flags(false, |payload| - at - n == 0, show), payload[at..at + n])]
      + Rest(payload, at + n, show) ==
            sent + Rest(payload, at, show)
  {
  }

  lemma Over(sent: seq<seq<byte>>, payload: seq<byte>, show: bool)
    ensures sent + Rest(payload, |payload|, show) == sent
  {
  }

  lemma Before(a: seq<byte>, b: seq<byte>, at: nat, lo: nat)
    requires lo <= at <= |a| == |b| && a[..at] == b[..at]
    ensures a[lo..at] == b[lo..at]
  {
    assert a[lo..at] == a[..at][lo..] && b[lo..at] == b[..at][lo..];
  }
}
