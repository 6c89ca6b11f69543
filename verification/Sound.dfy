/** The sound queue in its ring of fifty places, and the buffer of recorded sound. */
module Sound {
  import opened Bits
  import opened Rows
  import opened SoundSpec
  import ChannelSpec

  /** The k-th place after p in the ring. */
  function Index(p: nat, k: nat): (i: nat)
    requires p < SLOTS && k <= SLOTS
    ensures i < SLOTS
  {
    if p + k < SLOTS then p + k else p + k - SLOTS
  }

  /** `(i + 1) % MAX_QUEUE` */
  function Step(i: nat): (r: nat)
    requires i < SLOTS
    ensures r < SLOTS && r == (i + 1) % SLOTS
  {
    if i + 1 == SLOTS then 0 else i + 1
  }

  lemma StepIs(p: nat, k: nat)
    requires p < SLOTS && k < SLOTS
    ensures Step(Index(p, k)) == Index(p, k + 1)
    ensures Index(p, k + 1) == p <==> k + 1 == SLOTS
    ensures k > 0 ==> Index(Step(p), k - 1) == Index(p, k)
  {
  }

  lemma Apart(p: nat, j: nat, k: nat)
    requires p < SLOTS && j < SLOTS && k < SLOTS
    ensures Index(p, j) == Index(p, k) <==> j == k
  {
  }

  class SoundQueue {
    const ring: array<Packet>
    var hi: nat
    var lo: nat
    var pending: nat
    ghost var state: State

    /** The occupied places from `pending` on hold the packets in order, the played ones first. */
    ghost predicate Valid()
      reads this, ring
    {
      var all := state.awaiting + state.queued;
      && ring.Length == SLOTS && pending < SLOTS && |all| < SLOTS
      && lo == Index(pending, |state.awaiting|) && hi == Index(pending, |all|)
      && forall k {:trigger all[k]} :: 0 <= k < |all| ==> ring[Index(pending, k)] == all[k]
    }

    constructor (r: array<Packet>)
      requires r.Length == SLOTS
      ensures Valid() && state == START && ring == r
    {
      ring, hi, lo, pending, state := r, 0, 0, 0, START;
    }

    /** rdpsnd_queue_write */
    method Write(p: Packet) returns (ok: bool)
      requires Valid()
      modifies this`hi, this`state, ring
      ensures Valid() && state == SoundSpec.Write(old(state), p) && ok == (|state.accepted| > |old(state.accepted)|)
      ensures forall k :: 0 <= k < |old(state.awaiting + state.queued)| ==>
        ring[Index(pending, k)] == old(ring[Index(pending, k)])
    {
      ghost var all := state.awaiting + state.queued;
      StepIs(pending, |all|);
      var next := Step(hi);
      if next == pending {
        return false;
      }
      forall k | 0 <= k < |all| ensures Index(pending, k) != hi {
        Apart(pending, k, |all|);
      }
      ring[hi] := p;
      hi := next;
      state := state.(accepted := state.accepted + [p], queued := state.queued + [p]);
      assert state.awaiting + state.queued == all + [p];
      ok := true;
    }

    /** rdpsnd_queue_empty */
    method Empty() returns (empty: bool)
      requires Valid()
      ensures empty == (state.queued == [])
    {
      Apart(pending, |state.awaiting|, |state.awaiting + state.queued|);
      empty := lo == hi;
    }

    /** rdpsnd_queue_complete_pending */
    method CompletePending(now: Time) returns (acks: seq<Ack>)
      requires Valid()
      modifies this`pending, this`state
      ensures Valid() && state == Complete(old(state), now)
      ensures |state.acked| == |old(state.acked)| + |acks|
      ensures forall i :: 0 <= i < |acks| ==> state.acked[|old(state.acked)| + i].1 == acks[i]
    {
      acks := [];
      while pending != lo
        invariant Valid() && Complete(state, now) == Complete(old(state), now)
        invariant |state.acked| == |old(state.acked)| + |acks|
        invariant forall i :: 0 <= i < |acks| ==> state.acked[|old(state.acked)| + i].1 == acks[i]
        decreases |state.awaiting|
      {
        Apart(pending, 0, |state.awaiting|);
        ghost var all := state.awaiting + state.queued;
        assert ring[Index(pending, 0)] == all[0];
        var p := ring[pending];
        if Before(now, p.completion) {
          break;
        }
        var a := Ack(AckTick(p), p.index);
        acks := acks + [a];
        Shift(all);
        pending := Step(pending);
        state := state.(awaiting := state.awaiting[1..], acked := state.acked + [(p, a, now)]);
        assert state.awaiting + state.queued == all[1..];
      }
    }

    /** The places as seen from the next one. */
    lemma Shift(all: seq<Packet>)
      requires ring.Length == SLOTS && pending < SLOTS && 0 < |all| < SLOTS
      requires forall k {:trigger all[k]} :: 0 <= k < |all| ==> ring[Index(pending, k)] == all[k]
      ensures forall k {:trigger all[1..][k]} :: 0 <= k < |all| - 1 ==> ring[Index(Step(pending), k)] == all[1..][k]
      ensures forall n :: 0 < n <= |all| ==> Index(Step(pending), n - 1) == Index(pending, n)
    {
      forall k | 0 <= k < |all| - 1 ensures ring[Index(Step(pending), k)] == all[1..][k] {
        StepIs(pending, k + 1);
        assert ring[Index(pending, k + 1)] == all[k + 1];
      }
    }

    /** rdpsnd_queue_next: the packet at the head of the queue has been handed to the driver. */
    method Next(us: nat, now: Time, later: Time) returns (acks: seq<Ack>)
      requires Valid() && state.queued != [] && now.Normal()
      modifies this`lo, this`pending, this`state, ring
      ensures Valid() && state == Complete(Played(old(state), now, us), later)
      ensures |state.acked| == |old(state.acked)| + |acks|
      ensures forall i :: 0 <= i < |acks| ==> state.acked[|old(state.acked)| + i].1 == acks[i]
    {
      ghost var all, n := state.awaiting + state.queued, |state.awaiting|;
      StepIs(pending, n);
      assert ring[Index(pending, n)] == all[n];
      forall k | 0 <= k < |all| && k != n ensures Index(pending, k) != lo {
        Apart(pending, k, n);
      }
      var completion := Time(now.sec, now.usec + us);
      completion := Time(completion.sec + completion.usec / 1000000, completion.usec);
      completion := Time(completion.sec, completion.usec % 1000000);
      ring[lo] := ring[lo].(completion := completion);
      lo := Step(lo);
      state := Played(state, now, us);
      assert state.awaiting + state.queued == all[n := all[n].(completion := completion)];
      acks := CompletePending(later);
    }

    /** rdpsnd_queue_clear: everything goes, played or not. */
    method Clear()
      requires Valid()
      modifies this`hi, this`lo, this`pending, this`state
      ensures Valid() && state == START
    {
      while pending != hi
        invariant pending < SLOTS && hi < SLOTS
        decreases if pending <= hi then hi - pending else hi + SLOTS - pending
      {
        pending := Step(pending);
      }
      pending, lo, hi := 0, 0, 0;
      state := START;
    }
  }

  const BUFFER: nat := 8192
  const PIECE: nat := 1596

  /** Recorded bytes, cut for sending. */
  function Pieces(data: seq<byte>): (r: seq<seq<byte>>)
    decreases |data|
  {
    if data == [] then []
    else if |data| < PIECE then [data]
    else [data[..PIECE]] + Pieces(data[PIECE..])
  }

  class Recorder {
    const buffer: array<byte>
    var size: nat
    var sent: seq<seq<byte>>

    ghost predicate Valid()
      reads this
    {
      buffer.Length == BUFFER && size < BUFFER
    }

    /** Everything recorded so far: what has gone out and what is still here. */
    ghost function Recorded(): seq<byte>
      requires size <= buffer.Length
      reads this, buffer
    {
      Flat(sent) + buffer[..size]
    }

    constructor (b: array<byte>)
      requires b.Length == BUFFER
      ensures Valid() && buffer == b && size == 0 && sent == []
    {
      buffer, size, sent := b, 0, [];
    }

    /** rdpsnd_flush_record */
    method Flush()
      requires buffer.Length == BUFFER && size <= BUFFER
      modifies this`size, this`sent
      ensures Valid() && size == 0 && sent == old(sent) + Pieces(old(buffer[..size]))
      ensures Recorded() == old(Recorded())
    {
      hide Pieces, Flat;
      ghost var data := buffer[..size];
      var at: nat := 0;
      assert data[0..] == data;
      while size > 0
        invariant at + size == |data|
        invariant sent + Pieces(data[at..]) == old(sent) + Pieces(data)
        invariant Flat(sent) + data[at..] == Flat(old(sent)) + data
        decreases size
      {
        var chunk := if size < PIECE then size else PIECE;
        var piece := buffer[at..at + chunk];
        assert piece == data[at..at + chunk];
        Moved(sent, data, at, chunk);
        sent := sent + [piece];
        at := at + chunk;
        size := size - chunk;
      }
      AllMoved(sent, data);
    }

    /** The next piece. */
    static lemma Cut(data: seq<byte>, at: nat, n: nat)
      requires at < |data| && n == if |data| - at < PIECE then |data| - at else PIECE
      ensures data[at..] == data[at..at + n] + data[at + n..]
      ensures Pieces(data[at..]) == [data[at..at + n]] + Pieces(data[at + n..])
    {
      assert data[at..][..n] == data[at..at + n] && data[at..][n..] == data[at + n..];
      if n == |data| - at {
        assert data[at..at + n] == data[at..] && data[at + n..] == [];
        assert Pieces(data[at + n..]) == [];
        if n == PIECE {
          assert Pieces(data[at..]) == [data[at..][..PIECE]] + Pieces(data[at..][PIECE..]);
        }
      }
    }

    /** A piece moves from what is left to what is sent. */
    static lemma Moved(sent: seq<seq<byte>>, data: seq<byte>, at: nat, n: nat)
      requires at < |data| && n == if |data| - at < PIECE then |data| - at else PIECE
      ensures var piece := data[at..at + n];
              && sent + [piece] + Pieces(data[at + n..]) == sent + Pieces(data[at..])
              && Flat(sent + [piece]) + data[at + n..] == Flat(sent) + data[at..]
    {
      Cut(data, at, n);
      Push(sent, data[at..at + n]);
      hide Pieces, Flat;
    }

    static lemma AllMoved(sent: seq<seq<byte>>, data: seq<byte>)
      ensures sent + Pieces(data[|data|..]) == sent && Flat(sent) + data[|data|..] == Flat(sent) + []
    {
    }

    /** rdpsnd_record */
    method Record(data: seq<byte>)
      requires Valid()
      modifies this`size, this`sent, buffer
      ensures Valid() && Recorded() == old(Recorded()) + data
    {
      var at := 0;
      while at < |data|
        invariant at <= |data| && Valid() && Recorded() == old(Recorded()) + data[..at]
      {
        var remain := BUFFER - size;
        var chunk := if |data| - at >= remain then remain else |data| - at;
        Fill(data[at..at + chunk]);
        assert data[..at + chunk] == data[..at] + data[at..at + chunk];
        at := at + chunk;
        if size == BUFFER {
          Flush();
        }
      }
      assert data[..at] == data;
    }

    /** memcpy behind what is in the buffer. */
    method Fill(bytes: seq<byte>)
      requires Valid() && size + |bytes| <= BUFFER
      modifies this`size, buffer
      ensures size == old(size) + |bytes| && Recorded() == old(Recorded()) + bytes
    {
      for i := 0 to |bytes|
        invariant size == old(size) && buffer[..size] == old(buffer[..size]) && buffer[size..size + i] == bytes[..i]
      {
        buffer[size + i] := bytes[i];
      }
      assert buffer[..size + |bytes|] == buffer[..size] + buffer[size..size + |bytes|];
      size := size + |bytes|;
    }

    /** rdpsnd_clear_record */
    method Clear()
      requires Valid()
      modifies this`size
      ensures Valid() && size == 0
    {
      size := 0;
    }
  }

  /** All pieces but the last have 1596 bytes. */
  lemma {:induction false} PieceLengths(data: seq<byte>, i: nat)
    requires i < |Pieces(data)|
    ensures |Pieces(data)[i]| == if |data| - 1596 * i < 1596 then |data| - 1596 * i else 1596
    ensures |Pieces(data)| == (|data| + 1595) / 1596
    decreases |data|
  {
    if |data| >= PIECE {
      assert Pieces(data)[1..] == Pieces(data[PIECE..]);
      if i > 0 {
        PieceLengths(data[PIECE..], i - 1);
      } else if |data| > PIECE {
        PieceLengths(data[PIECE..], 0);
      }
    }
  }

  /** A piece with its four-byte header is not cut again: it is one fragment on the channel, first and
      last. */
  lemma {:induction false} PieceIsOneFragment(data: seq<byte>, i: nat, header: seq<byte>, show: bool)
    requires i < |Pieces(data)| && |header| == 4
    ensures 0 < |Pieces(data)[i]| <= PIECE
    ensures var packet := header + Pieces(data)[i];
            ChannelSpec.Fragments(packet, show) ==
                [ChannelSpec.Fragment(|packet|, ChannelSpec.Flags(true, true, show), packet)]
    decreases |data|
  {
    if |data| >= PIECE && i > 0 {
      PieceIsOneFragment(data[PIECE..], i - 1, header, show);
    } else {
      var packet := header + Pieces(data)[i];
      assert packet[..|packet|] == packet;
    }
  }
}
