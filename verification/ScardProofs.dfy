/** What holds in every interleaving of the smart card threads. */
module ScardProofs {
  import opened Wrappers
  import opened ScardPool

  // Counting requests.

  lemma {:induction false} SlotsUpdate(ks: seq<Worker>, w: nat, k: Worker, r: Request)
    requires w < |ks|
    ensures InSlots(ks[w := k], r) + InSlot(ks[w], r) == InSlots(ks, r) + InSlot(k, r)
    ensures AllOpen(ks[w := k], r) + Open(ks[w], r) == AllOpen(ks, r) + Open(k, r)
  {
    hide InSlot, Open;
    var n := |ks| - 1;
    if w == n {
      assert ks[w := k][..n] == ks[..n];
    } else {
      SlotsUpdate(ks[..n], w, k, r);
      assert ks[w := k][..n] == ks[..n][w := k];
    }
  }

  lemma Appended(ks: seq<Worker>, k: Worker, r: Request)
    ensures InSlots(ks + [k], r) == InSlots(ks, r) + InSlot(k, r) && AllOpen(ks + [k], r) == AllOpen(ks, r) + Open(k, r)
  {
    assert (ks + [k])[..|ks|] == ks;
  }

  lemma OneMore(rs: seq<Request>, q: Request, r: Request)
    ensures Times(rs + [q], r) == Times(rs, r) + if q == r then 1 else 0
  {
    assert (rs + [q])[..|rs|] == rs;
  }

  lemma OneSent(sent: seq<Completion>, c: Completion, r: Request)
    ensures Answers(sent + [c], r) == Answers(sent, r) + if c.r == r then 1 else 0
  {
    assert (sent + [c])[..|sent|] == sent;
  }

  // The queue.

  lemma AddKeeps(s: State, immediate: bool)
    requires Inv(s)
    ensures Inv(Added(s, immediate))
  {
    hide Conserved, Answering, Linked, AllOrderly, Spent;
    var t := Added(s, immediate);
    assert t.taken + t.queue == (s.taken + s.queue) + [t.accepted[|s.accepted|]];
    AddElsewhere(s, immediate);
  }

  lemma AddElsewhere(s: State, immediate: bool)
    requires Inv(s)
    ensures var t := Added(s, immediate); Conserved(t) && Answering(t) && Linked(t) && AllOrderly(t) && Spent(t)
  {
    forall w | 0 <= w < |s.workers| ensures Orderly(s.workers[w], w, Added(s, immediate).d, s.list) {
      assert Orderly(s.workers[w], w, s.d, s.list);
    }
  }

  lemma QueueKeeps(s: State)
    requires Going(s) && Fifo(s) && Numbered(s) && Alert(s)
    ensures var t := Dispatched(s); Fifo(t) && Numbered(t) && Alert(t)
  {
    if s.d.Idle? && s.queue != [] {
      assert s.taken + s.queue == s.taken + [s.queue[0]] + s.queue[1..];
    }
  }

  // The counts.

  predicate AtWorker(d: Dispatcher) { d.Waiting? || d.Locked? || d.Filled? || d.Signalled? }

  /** What the dispatcher does to a worker moves a request at most from its hands into the slot. */
  lemma SlotConserves(s: State, r: Request)
    requires Linked(s) && AllOrderly(s) && Going(s) && AtWorker(s.d)
    ensures var t := Dispatched(s);
            && InHand(t.d, r) + InSlots(t.workers, r) == InHand(s.d, r) + InSlots(s.workers, r)
            && AllOpen(t.workers, r) == AllOpen(s.workers, r)
  {
    hide InSlots, AllOpen;
    var w := s.list[s.d.i];
    assert Orderly(s.workers[w], w, s.d, s.list);
    hide Orderly, Linked, AllOrderly;
    SlotsUpdate(s.workers, w, Dispatched(s).workers[w], r);
  }

  lemma DispatchConserves(s: State, r: Request)
    requires Inv(s) && Going(s)
    ensures var t := Dispatched(s); Times(t.executed, r) + InHand(t.d, r) + InSlots(t.workers, r) == Times(t.taken, r)
  {
    hide Fifo, Numbered, Answering, Alert, InSlots, Times, AllOrderly, Linked, Spent;
    if AtWorker(s.d) {
      SlotConserves(s, r);
    } else if s.d.Creating? {
      Appended(s.workers, Worker(Some(s.d.r), Free, Wanting), r);
    } else if s.d.Idle? && s.queue != [] {
      OneMore(s.taken, s.queue[0], r);
    } else if s.d.Holding? {
      OneMore(s.executed, s.d.r, r);
    }
  }

  lemma DispatchAnswers(s: State, r: Request)
    requires Inv(s) && Going(s)
    ensures var t := Dispatched(s);
            Answers(t.sent, r) + Answers(t.dropped, r) + Unanswered(t.d, r) + AllOpen(t.workers, r) ==
            Times(t.executed, r)
  {
    hide Fifo, Numbered, Conserved, Alert, AllOpen, Times, Answers, AllOrderly, Linked, Spent;
    if s.d.Creating? {
      Appended(s.workers, Worker(Some(s.d.r), Free, Wanting), r);
    } else if AtWorker(s.d) {
      SlotConserves(s, r);
    } else if s.d.Holding? {
      OneMore(s.executed, s.d.r, r);
    } else if s.d.Finishing? || s.d.Replying? {
      OneSent(s.sent, Completion(s.d.r, s.epoch, s.announced), r);
      OneSent(s.dropped, Completion(s.d.r, s.epoch, s.announced), r);
    }
  }

  lemma WorkConserves(s: State, w: nat, r: Request)
    requires Inv(s) && w < |s.workers| && Ready(s.workers[w])
    ensures var t := Worked(s, w); Times(t.executed, r) + InHand(t.d, r) + InSlots(t.workers, r) == Times(t.taken, r)
  {
    hide Fifo, Numbered, Answering, Alert, InSlots, Times, Linked, InHand;
    var t := Worked(s, w);
    assert Orderly(s.workers[w], w, s.d, s.list);
    SlotsUpdate(s.workers, w, t.workers[w], r);
    if s.workers[w].data.Some? {
      OneMore(s.executed, s.workers[w].data.value, r);
    }
  }

  lemma WorkAnswers(s: State, w: nat, r: Request)
    requires Inv(s) && w < |s.workers| && Ready(s.workers[w])
    ensures var t := Worked(s, w);
            Answers(t.sent, r) + Answers(t.dropped, r) + Unanswered(t.d, r) + AllOpen(t.workers, r) ==
            Times(t.executed, r)
  {
    hide Fifo, Numbered, Conserved, Alert, AllOpen, Times, Answers, Linked, Unanswered;
    var t := Worked(s, w);
    assert Orderly(s.workers[w], w, s.d, s.list);
    SlotsUpdate(s.workers, w, t.workers[w], r);
    if s.workers[w].data.Some? {
      OneMore(s.executed, s.workers[w].data.value, r);
      OneSent(s.sent, Completion(s.workers[w].data.value, s.epoch, s.announced), r);
      OneSent(s.dropped, Completion(s.workers[w].data.value, s.epoch, s.announced), r);
    }
  }

  lemma RouseConserves(s: State, w: nat, r: Request)
    requires Inv(s) && w < |s.workers|
    ensures var ks := s.workers[w := Roused(s.workers[w])];
            InSlots(ks, r) == InSlots(s.workers, r) && AllOpen(ks, r) == AllOpen(s.workers, r)
  {
    hide Inv;
    SlotsUpdate(s.workers, w, Roused(s.workers[w]), r);
  }

  // The locks and the list.

  lemma DispatchLinks(s: State)
    requires Inv(s) && Going(s)
    ensures Linked(Dispatched(s))
  {
    hide Fifo, Numbered, Conserved, Alert, Answering, AllOrderly;
  }

  /** The worker whose lock the dispatcher takes, has or gives back. */
  predicate Touched(d: Dispatcher, list: seq<nat>, w: nat)
  {
    AtWorker(d) && d.i < |list| && list[d.i] == w
  }

  lemma DispatchTouches(s: State, w: nat)
    requires Linked(s) && AllOrderly(s) && Going(s) && Touched(s.d, s.list, w)
    ensures var t := Dispatched(s); w < |t.workers| && Orderly(t.workers[w], w, t.d, t.list)
  {
    assert Orderly(s.workers[w], w, s.d, s.list);
    hide AllOrderly;
  }

  /** A worker the dispatcher does not touch, or has just made. */
  lemma DispatchSpares(s: State, w: nat)
    requires Linked(s) && AllOrderly(s) && Going(s) && w < |Dispatched(s).workers| && !Touched(s.d, s.list, w)
    ensures var t := Dispatched(s); Orderly(t.workers[w], w, t.d, t.list)
  {
    if w < |s.workers| {
      assert Orderly(s.workers[w], w, s.d, s.list);
    }
    hide AllOrderly;
  }

  lemma DispatchOrders(s: State, w: nat)
    requires Inv(s) && Going(s) && w < |Dispatched(s).workers|
    ensures var t := Dispatched(s); Orderly(t.workers[w], w, t.d, t.list)
  {
    hide Fifo, Numbered, Conserved, Alert, Answering, Spent, Orderly, Linked, AllOrderly, Going;
    if Touched(s.d, s.list, w) {
      DispatchTouches(s, w);
    } else {
      DispatchSpares(s, w);
    }
  }

  lemma WorkOrders(s: State, w: nat, v: nat)
    requires Inv(s) && w < |s.workers| && Ready(s.workers[w]) && v < |s.workers|
    ensures var t := Worked(s, w); Orderly(t.workers[v], v, t.d, t.list)
  {
    hide Fifo, Numbered, Conserved, Alert, Answering, Linked;
    assert Orderly(s.workers[v], v, s.d, s.list);
  }

  lemma SpentAt(s: State, a: Step, v: nat)
    requires Inv(s) && Enabled(s, a) && v < |Next(s, a).workers|
    ensures var t := Next(s, a);
            t.workers[v].Done() ==> t.workers[v].data.value in t.executed
  {
    hide Fifo, Numbered, Conserved, Alert, Answering;
    if v < |s.workers| {
      assert Orderly(s.workers[v], v, s.d, s.list);
    }
  }

  lemma SpentKeeps(s: State, a: Step)
    requires Inv(s) && Enabled(s, a)
    ensures Spent(Next(s, a))
  {
    var t := Next(s, a);
    forall v | 0 <= v < |t.workers| && t.workers[v].Done()
      ensures t.workers[v].data.value in t.executed
    {
      SpentAt(s, a, v);
    }
  }

  // Every step, every run.

  lemma DispatchKeeps(s: State)
    requires Inv(s) && Going(s)
    ensures Inv(Dispatched(s))
  {
    var t := Dispatched(s);
    QueueKeeps(s);
    DispatchLinks(s);
    SpentKeeps(s, Dispatch);
    forall r ensures Times(t.executed, r) + InHand(t.d, r) + InSlots(t.workers, r) == Times(t.taken, r) {
      DispatchConserves(s, r);
    }
    forall r ensures Answers(t.sent, r) + Answers(t.dropped, r) + Unanswered(t.d, r) + AllOpen(t.workers, r) ==
        Times(t.executed, r) {
      DispatchAnswers(s, r);
    }
    forall w | 0 <= w < |t.workers| ensures Orderly(t.workers[w], w, t.d, t.list) {
      DispatchOrders(s, w);
    }
    hide Dispatched, Fifo, Numbered, Alert, Linked, Spent;
  }

  lemma WorkKeeps(s: State, w: nat)
    requires Inv(s) && w < |s.workers| && Ready(s.workers[w])
    ensures Inv(Worked(s, w))
  {
    var t := Worked(s, w);
    SpentKeeps(s, Work(w));
    WorkRest(s, w);
    forall r ensures Times(t.executed, r) + InHand(t.d, r) + InSlots(t.workers, r) == Times(t.taken, r) {
      WorkConserves(s, w, r);
    }
    forall r ensures Answers(t.sent, r) + Answers(t.dropped, r) + Unanswered(t.d, r) + AllOpen(t.workers, r) ==
        Times(t.executed, r) {
      WorkAnswers(s, w, r);
    }
    forall v | 0 <= v < |t.workers| ensures Orderly(t.workers[v], v, t.d, t.list) {
      WorkOrders(s, w, v);
    }
    hide Worked, Fifo, Numbered, Alert, Linked, Spent;
  }

  lemma WorkRest(s: State, w: nat)
    requires Inv(s) && w < |s.workers| && Ready(s.workers[w])
    ensures var t := Worked(s, w); Fifo(t) && Numbered(t) && Alert(t) && Linked(t)
    ensures |Worked(s, w).workers| == |s.workers|
  {
    hide Spent, AllOrderly, Conserved;
  }

  lemma RouseKeeps(s: State, w: nat)
    requires Inv(s) && w < |s.workers| && s.workers[w].pc.Sleeping?
    ensures Inv(s.(workers := s.workers[w := Roused(s.workers[w])]))
  {
    var t := s.(workers := s.workers[w := Roused(s.workers[w])]);
    SpentKeeps(s, WakeWorker(w));
    forall r ensures InSlots(t.workers, r) == InSlots(s.workers, r) && AllOpen(t.workers, r) == AllOpen(s.workers, r) {
      RouseConserves(s, w, r);
    }
    forall v | 0 <= v < |t.workers| ensures Orderly(t.workers[v], v, t.d, t.list) {
      assert Orderly(s.workers[v], v, s.d, s.list);
    }
    hide Spent, AllOrderly;
  }

  lemma StepKeeps(s: State, a: Step)
    requires Inv(s) && Enabled(s, a)
    ensures Inv(Next(s, a))
  {
    match a
    case Announce =>
    case SetInfo =>
    case Add(immediate) => AddKeeps(s, immediate);
    case Dispatch => DispatchKeeps(s);
    case Work(w) => WorkKeeps(s, w);
    case WakeDispatcher => WakeKeeps(s);
    case WakeWorker(w) => RouseKeeps(s, w);
  }

  lemma WakeKeeps(s: State)
    requires Inv(s) && s.d.Asleep?
    ensures Inv(s.(d := Idle))
  {
    forall w | 0 <= w < |s.workers| ensures Orderly(s.workers[w], w, Idle, s.list) {
      assert Orderly(s.workers[w], w, s.d, s.list);
    }
  }

  /** Every interleaving of every number of threads. */
  lemma {:induction false} RunKeeps(steps: seq<Step>)
    ensures Inv(Run(steps))
  {
    if steps != [] {
      var s, a := Run(steps[..|steps| - 1]), steps[|steps| - 1];
      RunKeeps(steps[..|steps| - 1]);
      if Enabled(s, a) {
        StepKeeps(s, a);
      }
    }
  }

  // What follows.

  lemma {:induction false} TimesOfSum(a: seq<Request>, b: seq<Request>, r: Request)
    ensures Times(a + b, r) == Times(a, r) + Times(b, r)
  {
    if b == [] {
      assert a + b == a;
    } else {
      assert (a + b)[..|a + b| - 1] == a + b[..|b| - 1];
      TimesOfSum(a, b[..|b| - 1], r);
    }
  }

  lemma {:induction false} TimesNumbered(rs: seq<Request>, r: Request)
    requires forall k :: 0 <= k < |rs| ==> rs[k].serial == k
    ensures Times(rs, r) == if r in rs then 1 else 0
  {
    if rs != [] {
      var n := |rs| - 1;
      TimesNumbered(rs[..n], r);
      assert rs == rs[..n] + [rs[n]];
    }
  }

  /** In every run requests leave the queue in the order they came, none is executed that was not
      accepted, none twice; and each that is executed is answered once, or given up once, or still to be
      answered. */
  lemma ExactlyOnce(steps: seq<Step>, r: Request)
    ensures var s := Run(steps);
            && s.taken <= s.accepted
            && Times(s.executed, r) + InHand(s.d, r) + InSlots(s.workers, r) + Times(s.queue, r) ==
                (if r in s.accepted then 1 else 0)
            && Answers(s.sent, r) + Answers(s.dropped, r) + Unanswered(s.d, r) + AllOpen(s.workers, r) ==
                Times(s.executed, r)
  {
    hide AllOrderly, Linked, Alert, Spent, Run;
    var s := Run(steps);
    RunKeeps(steps);
    TimesOfSum(s.taken, s.queue, r);
    TimesNumbered(s.accepted, r);
    assert s.taken + s.queue == s.accepted;
  }

  /** The test under the lock never finds the slot full: only the dispatcher fills one. */
  lemma LockedIsEmpty(steps: seq<Step>)
    ensures var s := Run(steps); s.d.Locked? ==> Listed(s, s.d.i) && s.workers[s.list[s.d.i]].data.None?
  {
    RunKeeps(steps);
    var s := Run(steps);
    hide Fifo, Numbered, Conserved, Alert, Answering, Spent, Run;
    if s.d.Locked? {
      assert Orderly(s.workers[s.list[s.d.i]], s.list[s.d.i], s.d, s.list);
    }
  }

  /** A full slot keeps its request until the worker has executed it and clears it. */
  lemma SlotKept(steps: seq<Step>, a: Step, w: nat)
    requires var s := Run(steps); Enabled(s, a) && w < |s.workers| && s.workers[w].data.Some?
    ensures var s := Run(steps);
            var t := Next(s, a);
            && w < |t.workers|
            && (t.workers[w].data == s.workers[w].data
                || (a == Work(w) && s.workers[w].pc.Clearing? && t.workers[w].data.None?
                    && s.workers[w].data.value in s.executed))
  {
    RunKeeps(steps);
    LockedIsEmpty(steps);
    hide Fifo, Numbered, Conserved, Alert, Answering, Run, AllOrderly;
  }

  /** The lock of a worker that executes a request is its own. */
  lemma WorkerLocks(steps: seq<Step>, w: nat)
    requires w < |Run(steps).workers|
    ensures var s := Run(steps);
            && (s.workers[w].pc.Running? || s.workers[w].pc.Sending? ==> s.workers[w].busy.Own?)
            && (s.workers[w].busy.Dispatchers? <==> w == Grip(s.d, s.list))
  {
    RunKeeps(steps);
    hide Fifo, Numbered, Conserved, Alert, Answering, Run;
    var s := Run(steps);
    assert Orderly(s.workers[w], w, s.d, s.list);
  }

  /** No thread can go on by itself. */
  predicate Quiet(s: State)
  {
    !Going(s) && forall w :: 0 <= w < |s.workers| ==> !Ready(s.workers[w])
  }

  lemma QuietWorker(s: State, w: nat)
    requires Inv(s) && Quiet(s) && w < |s.workers| && !s.d.Filled? && Grip(s.d, s.list) == -1
    ensures s.workers[w].pc.Sleeping? && s.workers[w].data.None?
  {
    hide Fifo, Numbered, Conserved, Alert, Answering, Linked, Spent;
    assert Orderly(s.workers[w], w, s.d, s.list);
  }

  /** Whoever keeps the dispatcher waiting can go on. */
  lemma WaitedFor(s: State)
    requires Inv(s) && s.d.Waiting?
    ensures s.d.i < |s.list| && s.list[s.d.i] < |s.workers|
    ensures Going(s) || Ready(s.workers[s.list[s.d.i]])
  {
    hide Fifo, Numbered, Conserved, Answering, Spent;
    var w := s.list[s.d.i];
    assert Orderly(s.workers[w], w, s.d, s.list);
  }

  lemma QuietDispatcher(s: State)
    requires Inv(s) && Quiet(s)
    ensures s.d.Asleep? && s.queue == []
  {
    hide Fifo, Numbered, Conserved, Answering, Spent, AllOrderly, Ready;
    if s.d.Waiting? {
      WaitedFor(s);
    }
  }

  lemma {:induction false} EmptySlots(ks: seq<Worker>, r: Request)
    requires forall w :: 0 <= w < |ks| ==> ks[w].data.None?
    ensures InSlots(ks, r) == 0 && AllOpen(ks, r) == 0
  {
    if ks != [] {
      EmptySlots(ks[..|ks| - 1], r);
    }
  }

  /** No request and no wake-up is lost: when every thread has come to rest, every request that was
      accepted has been executed and answered, or dropped, and slots and queue are empty. */
  lemma NothingIsLost(steps: seq<Step>, r: Request)
    requires Quiet(Run(steps))
    ensures var s := Run(steps);
            && s.d.Asleep? && s.queue == [] && (forall w :: 0 <= w < |s.workers| ==> s.workers[w].data.None?)
            && Times(s.executed, r) == (if r in s.accepted then 1 else 0)
            && Answers(s.sent, r) + Answers(s.dropped, r) == Times(s.executed, r)
  {
    var s := Run(steps);
    RunKeeps(steps);
    ExactlyOnce(steps, r);
    QuietDispatcher(s);
    forall w | 0 <= w < |s.workers| ensures s.workers[w].data.None? {
      QuietWorker(s, w);
    }
    EmptySlots(s.workers, r);
  }

  // Coming to rest.

  /** What the dispatcher has left to do for the request in its hands, with n workers on the list. */
  function Rank(d: Dispatcher, n: nat): nat
  {
    match d
    case Asleep => 0
    case Idle => 1
    case Finishing(_) => 3
    case Replying(_) => 2
    case Linking(_) => 2
    case Signalled(_) => 2
    case Filled(_) => 3
    case Creating(_) => 3
    case Locked(_, _) => 4
    case Waiting(_, _) => 5
    case Scanning(_, i) => if i <= n then 6 + (n - i) else 6
    case Holding(_) => 7 + n
  }

  /** What a worker has left to do. */
  function Left(k: Worker): nat
  {
    match k.pc
    case Sleeping => 0
    case Wanting => if k.data.Some? then 6 else 2
    case Testing => if k.data.Some? then 5 else 1
    case Running => 4
    case Sending => 3
    case Clearing => 2
  }

  function Lefts(ks: seq<Worker>): nat
  {
    if ks == [] then 0 else Lefts(ks[..|ks| - 1]) + Left(ks[|ks| - 1])
  }

  lemma {:induction false} LeftsUpdate(ks: seq<Worker>, w: nat, k: Worker)
    requires w < |ks|
    ensures Lefts(ks[w := k]) + Left(ks[w]) == Lefts(ks) + Left(k)
  {
    hide Left;
    var n := |ks| - 1;
    if w == n {
      assert ks[w := k][..n] == ks[..n];
    } else {
      LeftsUpdate(ks[..n], w, k);
      assert ks[w := k][..n] == ks[..n][w := k];
    }
  }

  /** A thread's own step: not a new request, and not a wake-up that nobody asked for. */
  predicate Proper(a: Step) { a.Dispatch? || a.Work? }

  ghost predicate Less(t: State, s: State)
  {
    || |t.queue| < |s.queue|
    || (|t.queue| == |s.queue| && Rank(t.d, |t.list|) < Rank(s.d, |s.list|))
    || (|t.queue| == |s.queue| && Rank(t.d, |t.list|) == Rank(s.d, |s.list|) && Lefts(t.workers) < Lefts(s.workers))
  }

  lemma DispatchDescends(s: State)
    requires Inv(s) && Going(s)
    ensures Less(Dispatched(s), s)
  {
    hide Fifo, Numbered, Conserved, Alert, Answering, Spent, Lefts;
    if s.d.Locked? {
      var w := s.list[s.d.i];
      assert Orderly(s.workers[w], w, s.d, s.list);
    }
  }

  lemma WorkDescends(s: State, w: nat)
    requires Inv(s) && w < |s.workers| && Ready(s.workers[w])
    ensures Less(Worked(s, w), s)
  {
    hide Fifo, Numbered, Conserved, Alert, Answering, Spent, Linked, Rank, Lefts;
    assert Orderly(s.workers[w], w, s.d, s.list);
    LeftsUpdate(s.workers, w, Worked(s, w).workers[w]);
  }

  /** Every step of a thread brings the run nearer to its end, whatever the schedule. */
  lemma StepDescends(s: State, a: Step)
    requires Inv(s) && Enabled(s, a) && Proper(a)
    ensures Less(Next(s, a), s)
  {
    hide Inv, Less;
    match a
    case Dispatch => DispatchDescends(s);
    case Work(w) => WorkDescends(s, w);
  }

  lemma Further(steps: seq<Step>, a: Step)
    ensures Run(steps + [a]) == if Enabled(Run(steps), a) then Next(Run(steps), a) else Run(steps)
  {
    assert (steps + [a])[..|steps|] == steps;
  }

  /** Some thread can go on. */
  lemma SomeStep(s: State) returns (a: Step)
    requires !Quiet(s)
    ensures Enabled(s, a) && Proper(a)
  {
    hide Going, Ready;
    if Going(s) {
      a := Dispatch;
    } else {
      var w :| 0 <= w < |s.workers| && Ready(s.workers[w]);
      a := Work(w);
    }
  }

  /** One step further, and nearer to the end. */
  lemma OneFurther(steps: seq<Step>) returns (a: Step)
    requires !Quiet(Run(steps))
    ensures Proper(a) && Less(Run(steps + [a]), Run(steps))
  {
    var s := Run(steps);
    a := SomeStep(s);
    RunKeeps(steps);
    StepDescends(s, a);
    Further(steps, a);
    hide Run, Inv, Enabled, Next, Less, Quiet;
  }

  /** From wherever a run has got to, the threads come to rest, with every request executed. */
  lemma {:induction false} ComesToRest(steps: seq<Step>) returns (more: seq<Step>)
    ensures Quiet(Run(steps + more)) && forall i :: 0 <= i < |more| ==> Proper(more[i])
    decreases |Run(steps).queue|, Rank(Run(steps).d, |Run(steps).list|), Lefts(Run(steps).workers)
  {
    hide Run, Quiet, Rank, Lefts, Proper;
    if Quiet(Run(steps)) {
      more := [];
      assert steps + more == steps;
    } else {
      var a := OneFurther(steps);
      var rest := ComesToRest(steps + [a]);
      more := [a] + rest;
      assert steps + more == steps + [a] + rest;
    }
  }
}
