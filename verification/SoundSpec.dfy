/** Sound on values: packets waiting to be played, packets played and waiting to be acknowledged. */
module SoundSpec {

  const SLOTS: nat := 50

  /** A clock reading; normalised when the microseconds are below a million. */
  datatype Time = Time(sec: int, usec: int)
  {
    predicate Normal() { 0 <= usec < 1000000 }
    function Micro(): int { 1000000 * sec + usec }
  }

  /** A time some microseconds later, normalised. */
  function Later(t: Time, us: nat): (r: Time)
    requires t.Normal()
    ensures r.Normal() && r.Micro() == t.Micro() + us
  {
    Time(t.sec + (t.usec + us) / 1000000, (t.usec + us) % 1000000)
  }

  /** The comparison by seconds, then by microseconds. */
  predicate Before(a: Time, b: Time)
  {
    a.sec < b.sec || (a.sec == b.sec && a.usec < b.usec)
  }

  lemma BeforeIs(a: Time, b: Time)
    requires a.Normal() && b.Normal()
    ensures Before(a, b) <==> a.Micro() < b.Micro()
  {
  }

  /** A packet as it arrived, and when it is completed once it has been played. */
  datatype Packet = Packet(tick: nat, index: nat, arrive: Time, completion: Time)

  /** Division as C does it, towards zero. */
  function Div(a: int, b: nat): int
    requires b > 0
  {
    if a >= 0 then a / b else -(-a / b)
  }

  /** The tick in the answer: that of the packet, advanced by its life in milliseconds, modulo 2^16. */
  function AckTick(p: Packet): nat
  {
    (p.tick + Div(p.completion.Micro() - p.arrive.Micro(), 1000)) % 65536
  }

  datatype Ack = Ack(tick: nat, index: nat)

  /** What was accepted since the last reset, the answers with the packet each is for and the time it
      was sent, the packets waiting for their completion and those waiting to be played. */
  datatype State = State(accepted: seq<Packet>, acked: seq<(Packet, Ack, Time)>, awaiting: seq<Packet>,
      queued: seq<Packet>)

  const START := State([], [], [], [])

  /** A packet comes in; with 49 packets in the ring there is no room for it. */
  function Write(s: State, p: Packet): State
  {
    if |s.awaiting| + |s.queued| == SLOTS - 1 then s else s.(accepted := s.accepted + [p], queued := s.queued + [p])
  }

  /** The next packet has been handed to the driver, which will be through with it in some time. */
  function Played(s: State, now: Time, us: nat): State
    requires s.queued != [] && now.Normal()
  {
    s.(awaiting := s.awaiting + [s.queued[0].(completion := Later(now, us))], queued := s.queued[1..])
  }

  /** Answers for the packets at the head whose time has come. */
  function Complete(s: State, now: Time): State
    decreases |s.awaiting|
  {
    if s.awaiting == [] || Before(now, s.awaiting[0].completion) then s
    else
      var p := s.awaiting[0];
      Complete(s.(awaiting := s.awaiting[1..], acked := s.acked + [(p, Ack(AckTick(p), p.index), now)]), now)
  }

  // Runs between two resets.

  /** A packet's arrival, a packet handed on (the clock is read twice), a look at the clock. */
  datatype Op = WriteOp(p: Packet) | NextOp(us: nat, now: Time, later: Time) | CheckOp(now: Time)

  predicate Sane(op: Op)
  {
    match op
    case WriteOp(_) => true
    case NextOp(_, now, later) => now.Normal() && later.Normal()
    case CheckOp(now) => now.Normal()
  }

  function Apply(s: State, op: Op): State
    requires Sane(op)
  {
    match op
    case WriteOp(p) => Write(s, p)
    case NextOp(us, now, later) => if s.queued == [] then s else Complete(Played(s, now, us), later)
    case CheckOp(now) => Complete(s, now)
  }

  function Run(ops: seq<Op>): State
    requires forall i :: 0 <= i < |ops| ==> Sane(ops[i])
  {
    if ops == [] then START else Apply(Run(ops[..|ops| - 1]), ops[|ops| - 1])
  }

  // What is kept.

  /** A packet without its completion time. */
  function Arrival(p: Packet): Packet { p.(completion := Time(0, 0)) }

  function Arrivals(ps: seq<Packet>): (r: seq<Packet>)
    ensures |r| == |ps|
  {
    seq(|ps|, i requires 0 <= i < |ps| => Arrival(ps[i]))
  }

  function Answered(acked: seq<(Packet, Ack, Time)>): (r: seq<Packet>)
    ensures |r| == |acked|
  {
    seq(|acked|, i requires 0 <= i < |acked| => Arrival(acked[i].0))
  }

  /** Accepted packets are answered, awaiting or queued, in the order they came; an answer is for its
      packet and not before its time. */
  ghost predicate Kept(s: State)
  {
    && Answered(s.acked) + Arrivals(s.awaiting) + Arrivals(s.queued) == Arrivals(s.accepted)
    && |s.awaiting| + |s.queued| < SLOTS
    && (forall i :: 0 <= i < |s.awaiting| ==> s.awaiting[i].completion.Normal())
    && (forall i :: 0 <= i < |s.acked| ==>
          var (p, a, now) := s.acked[i];
          a == Ack(AckTick(p), p.index) && p.completion.Micro() <= now.Micro())
  }

  lemma WriteKeeps(s: State, p: Packet)
    requires Kept(s)
    ensures Kept(Write(s, p))
  {
    var t := Write(s, p);
    if t != s {
      assert Arrivals(t.queued) == Arrivals(s.queued) + [Arrival(p)];
      assert Arrivals(t.accepted) == Arrivals(s.accepted) + [Arrival(p)];
    }
  }

  lemma PlayedKeeps(s: State, now: Time, us: nat)
    requires Kept(s) && s.queued != [] && now.Normal()
    ensures Kept(Played(s, now, us))
  {
    var t := Played(s, now, us);
    var p := Arrival(s.queued[0]);
    assert Arrivals(t.awaiting) == Arrivals(s.awaiting) + [p];
    assert Arrivals(s.queued) == [p] + Arrivals(t.queued);
  }

  lemma {:induction false} CompleteKeeps(s: State, now: Time)
    requires Kept(s) && now.Normal()
    ensures Kept(Complete(s, now))
    decreases |s.awaiting|
  {
    if s.awaiting != [] && !Before(now, s.awaiting[0].completion) {
      var p := s.awaiting[0];
      var t := s.(awaiting := s.awaiting[1..], acked := s.acked + [(p, Ack(AckTick(p), p.index), now)]);
      BeforeIs(now, p.completion);
      assert Answered(t.acked) == Answered(s.acked) + [Arrival(p)];
      assert Arrivals(s.awaiting) == [Arrival(p)] + Arrivals(t.awaiting);
      CompleteKeeps(t, now);
    }
  }

  /** Between resets, in every run: nothing accepted is lost, doubled, answered out of order or
      answered early. */
  lemma {:induction false} RunKeeps(ops: seq<Op>)
    requires forall i :: 0 <= i < |ops| ==> Sane(ops[i])
    ensures Kept(Run(ops))
  {
    if ops != [] {
      var s, op := Run(ops[..|ops| - 1]), ops[|ops| - 1];
      RunKeeps(ops[..|ops| - 1]);
      match op
      case WriteOp(p) => WriteKeeps(s, p);
      case NextOp(us, now, later) =>
        if s.queued != [] {
          PlayedKeeps(s, now, us);
          CompleteKeeps(Played(s, now, us), later);
        }
      case CheckOp(now) => CompleteKeeps(s, now);
    }
  }
}
