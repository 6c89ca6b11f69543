/** When a packet is answered, and with what, in terms of clock readings. */
module SoundMeaning {
  import opened SoundSpec

  /** The clock shows the time of completion, or a later one. */
  predicate Due(p: Packet, now: Time)
  {
    now.sec > p.completion.sec || (now.sec == p.completion.sec && now.usec >= p.completion.usec)
  }

  /** The answer to a packet: its index, and its tick moved on by the whole milliseconds of its life,
      cut towards zero, in 16 bits. */
  ghost predicate Answers(a: Ack, p: Packet)
  {
    var life := 1_000_000 * (p.completion.sec - p.arrive.sec) + (p.completion.usec - p.arrive.usec);
    && a.index == p.index && a.tick < 65536
    && exists ms: int, k: int :: Whole(life, ms) && Wrapped(p.tick, ms, k, a.tick)
  }

  predicate Wrapped(tick: nat, ms: int, k: int, sum: int) { sum == tick + ms + 65536 * k }

  /** So many thousands, cut towards zero. */
  predicate Whole(life: int, ms: int)
  {
    if life >= 0 then 1000 * ms <= life < 1000 * ms + 1000 else 1000 * ms - 1000 < life <= 1000 * ms
  }

  lemma DivWhole(life: int)
    ensures Whole(life, Div(life, 1000))
  {
  }

  lemma Rest(tick: nat, ms: int) returns (k: int)
    ensures Wrapped(tick, ms, k, (tick + ms) % 65536)
  {
    k := -((tick + ms) / 65536);
  }

  lemma AckAnswers(p: Packet)
    ensures Answers(Ack(AckTick(p), p.index), p)
  {
    var life := 1_000_000 * (p.completion.sec - p.arrive.sec) + (p.completion.usec - p.arrive.usec);
    DivWhole(life);
    var ms := Div(life, 1000);
    hide Div, Whole;
    assert life == p.completion.Micro() - p.arrive.Micro();
    var k := Rest(p.tick, ms);
    assert AckTick(p) == (p.tick + ms) % 65536;
  }

  /** The first n of the packets awaiting their time have been answered now, and the others not. */
  ghost predicate AnsweredUpTo(s: State, n: nat, now: Time, t: State)
  {
    && n <= |s.awaiting| && t.awaiting == s.awaiting[n..]
    && t.accepted == s.accepted && t.queued == s.queued
    && |t.acked| == |s.acked| + n && t.acked[..|s.acked|] == s.acked
    && forall i {:trigger s.awaiting[i]} :: 0 <= i < n ==> IsFor(t.acked[|s.acked| + i], s.awaiting[i], now)
  }

  /** An answer to this packet, at this time. */
  ghost predicate IsFor(x: (Packet, Ack, Time), p: Packet, now: Time) { x.0 == p && x.2 == now && Answers(x.1, p) }

  /** The state after one answer, now, to the packet at the head. */
  predicate HeadAnswered(s: State, now: Time, t: State)
  {
    && s.awaiting != []
    && var p := s.awaiting[0];
       t == s.(awaiting := s.awaiting[1..], acked := s.acked + [(p, Ack(AckTick(p), p.index), now)])
  }

  lemma OneMoreAt(s: State, now: Time, t: State, m: nat, u: State, i: nat)
    requires HeadAnswered(s, now, t) && AnsweredUpTo(t, m, now, u) && i <= m
    ensures i < |s.awaiting| && |s.acked| + i < |u.acked| && IsFor(u.acked[|s.acked| + i], s.awaiting[i], now)
  {
    hide Answers, AckTick;
    if i == 0 {
      AckAnswers(s.awaiting[0]);
      assert u.acked[|s.acked|] == u.acked[..|t.acked|][|s.acked|] == t.acked[|s.acked|];
    } else {
      assert IsFor(u.acked[|t.acked| + (i - 1)], t.awaiting[i - 1], now);
    }
  }

  lemma OneMore(s: State, now: Time, t: State, m: nat, u: State)
    requires HeadAnswered(s, now, t) && AnsweredUpTo(t, m, now, u)
    ensures AnsweredUpTo(s, m + 1, now, u)
  {
    hide IsFor, AckTick;
    assert u.acked[..|s.acked|] == u.acked[..|t.acked|][..|s.acked|] == s.acked;
    assert t.awaiting[m..] == s.awaiting[m + 1..];
    forall i | 0 <= i < m + 1 ensures IsFor(u.acked[|s.acked| + i], s.awaiting[i], now) {
      OneMoreAt(s, now, t, m, u, i);
    }
  }

  /** A look at the clock answers what is due from the head on, up to the first packet that is not due,
      and nothing else. */
  lemma {:induction false} CompleteMeans(s: State, now: Time) returns (n: nat)
    ensures AnsweredUpTo(s, n, now, Complete(s, now))
    ensures forall i :: 0 <= i < n ==> Due(s.awaiting[i], now)
    ensures n < |s.awaiting| ==> !Due(s.awaiting[n], now)
    decreases |s.awaiting|
  {
    hide Answers, AckTick;
    n := 0;
    if s.awaiting != [] && Due(s.awaiting[0], now) {
      var p := s.awaiting[0];
      var t := s.(awaiting := s.awaiting[1..], acked := s.acked + [(p, Ack(AckTick(p), p.index), now)]);
      var m := CompleteMeans(t, now);
      n := m + 1;
      assert Complete(s, now) == Complete(t, now);
      OneMore(s, now, t, m, Complete(t, now));
      hide AnsweredUpTo, Due;
      forall i | 0 <= i < n ensures Due(s.awaiting[i], now) {
        assert i > 0 ==> t.awaiting[i - 1] == s.awaiting[i];
      }
    } else {
      assert s.awaiting[0..] == s.awaiting && s.acked[..|s.acked|] == s.acked;
    }
  }

  /** So after every look at the clock, in every run, the next answer is not due yet. */
  lemma NoneOverdue(ops: seq<Op>, op: Op)
    requires (forall i :: 0 <= i < |ops| ==> Sane(ops[i])) && Sane(op)
    ensures var t := Apply(Run(ops), op);
            && (op.CheckOp? && t.awaiting != [] ==> !Due(t.awaiting[0], op.now))
            && (op.NextOp? && Run(ops).queued != [] && t.awaiting != [] ==> !Due(t.awaiting[0], op.later))
  {
    hide Run;
    var s := Run(ops);
    match op
    case WriteOp(_) =>
    case CheckOp(now) =>
      var n := CompleteMeans(s, now);
    case NextOp(us, now, later) =>
      if s.queued != [] {
        var n := CompleteMeans(Played(s, now, us), later);
      }
  }

  /** A packet handed to the driver waits behind the others for the time, normalised, so many
      microseconds from now; one that comes in is queued if there are fewer than 49. */
  lemma HandedOn(s: State, p: Packet, now: Time, us: nat)
    requires now.Normal()
    ensures s.queued != [] ==>
              var t := Played(s, now, us);
              && t.queued == s.queued[1..]
              && |t.awaiting| == |s.awaiting| + 1 && t.awaiting[..|s.awaiting|] == s.awaiting
              && t.accepted == s.accepted && t.acked == s.acked
              && var q := t.awaiting[|s.awaiting|];
                 && q.tick == s.queued[0].tick && q.index == s.queued[0].index && q.arrive == s.queued[0].arrive
                 && 0 <= q.completion.usec < 1_000_000
                 && 1_000_000 * q.completion.sec + q.completion.usec == 1_000_000 * now.sec + now.usec + us
    ensures |s.awaiting| + |s.queued| < 49 ==>
              Write(s, p) == State(s.accepted + [p], s.acked, s.awaiting, s.queued + [p])
    ensures |s.awaiting| + |s.queued| == 49 ==> Write(s, p) == s
  {
  }
}
