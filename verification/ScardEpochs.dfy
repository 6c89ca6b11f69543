/** In which epoch the smart card answers go out: the test of the epoch and the sending are two steps,
    and what the test compares with lags behind what the server has announced. */
module ScardEpochs {
  import opened Wrappers
  import opened ScardPool
  import opened ScardProofs

  /** The test has been passed and the answer has not gone out. */
  predicate OnItsWay(s: State, r: Request)
  {
    || (s.d.Replying? && s.d.r == r)
    || exists w :: 0 <= w < |s.workers| && Carries(s.workers[w], r)
  }

  predicate Carries(k: Worker, r: Request) { k.pc.Sending? && k.data == Some(r) }

  predicate Owes(k: Worker, r: Request) { (k.pc.Running? || k.pc.Sending?) && k.data == Some(r) }

  lemma {:induction false} SomeOwed(ks: seq<Worker>, w: nat, r: Request)
    requires w < |ks| && Owes(ks[w], r)
    ensures AllOpen(ks, r) > 0
  {
    if w < |ks| - 1 {
      SomeOwed(ks[..|ks| - 1], w, r);
    }
  }

  predicate HasAnswer(s: State, r: Request)
  {
    exists k :: 0 <= k < |s.sent| && s.sent[k].r == r
  }

  // Epochs only grow.

  /** What is known is no newer than what was announced, and no request is newer than what is known. */
  predicate Dated(s: State)
  {
    s.epoch <= s.announced && forall k :: 0 <= k < |s.accepted| ==> s.accepted[k].epoch <= s.epoch
  }

  lemma StepDated(s: State, a: Step)
    requires Enabled(s, a) && Dated(s)
    ensures var t := Next(s, a);
            && Dated(t) && s.epoch <= t.epoch && s.announced <= t.announced && s.accepted <= t.accepted
            && (a.SetInfo? ==> t.epoch == s.announced) && (!a.SetInfo? ==> t.epoch == s.epoch)
            && t.announced == s.announced + if a.Announce? then 1 else 0
  {
  }

  lemma {:induction false} RunDated(steps: seq<Step>)
    ensures Dated(Run(steps))
  {
    hide Dated, Next, Enabled;
    if steps == [] {
      StartDated();
    } else {
      var s, a := Run(steps[..|steps| - 1]), steps[|steps| - 1];
      RunDated(steps[..|steps| - 1]);
      if Enabled(s, a) {
        StepDated(s, a);
      }
    }
  }

  lemma StartDated()
    ensures Dated(START)
  {
  }

  /** From one step of a run to the next. */
  lemma OneStep(steps: seq<Step>, i: nat)
    requires i < |steps|
    ensures var s := Run(steps[..i]);
            Run(steps[..i + 1]) == if Enabled(s, steps[i]) then Next(s, steps[i]) else s
  {
    assert steps[..i + 1] == steps[..i] + [steps[i]];
    Further(steps[..i], steps[i]);
  }

  lemma StepGrows(s: State, a: Step)
    requires Enabled(s, a)
    ensures s.sent <= Next(s, a).sent
  {
  }

  lemma {:induction false} RunGrows(steps: seq<Step>, i: nat, j: nat)
    requires i <= j <= |steps|
    ensures var s, t := Run(steps[..i]), Run(steps[..j]);
            s.epoch <= t.epoch && s.announced <= t.announced && s.accepted <= t.accepted && s.sent <= t.sent
    decreases j - i
  {
    hide Run, Dated, Next, Enabled;
    if i < j {
      OneStep(steps, i);
      RunDated(steps[..i]);
      var s := Run(steps[..i]);
      if Enabled(s, steps[i]) {
        StepDated(s, steps[i]);
        StepGrows(s, steps[i]);
      }
      RunGrows(steps, i + 1, j);
    }
  }

  // One answer.

  /** A step sends nothing, or the answer that was on its way, at the epochs of that moment. */
  lemma StepSends(s: State, a: Step)
    requires Inv(s) && Enabled(s, a) && Next(s, a).sent != s.sent
    ensures var t := Next(s, a);
            && !a.SetInfo? && !a.Announce?
            && |t.sent| == |s.sent| + 1 && s.sent <= t.sent
            && var c := t.sent[|s.sent|]; c == Completion(c.r, s.epoch, s.announced) && OnItsWay(s, c.r)
  {
    hide Fifo, Numbered, Conserved, Answering, Linked, Alert, Spent, AllOrderly;
    if a.Work? {
      assert Carries(s.workers[a.w], s.workers[a.w].data.value);
    }
  }

  /** The step at which an answer went out. */
  lemma {:induction false} SentAt(steps: seq<Step>, k: nat) returns (j: nat)
    requires k < |Run(steps).sent|
    ensures j < |steps| && !steps[j].SetInfo? && !steps[j].Announce?
    ensures var s, c := Run(steps[..j]), Run(steps).sent[k];
            |s.sent| == k && c == Completion(c.r, s.epoch, s.announced) && OnItsWay(s, c.r)
    ensures |Run(steps[..j + 1]).sent| == k + 1
  {
    hide Next, Enabled, OnItsWay, Inv;
    assert steps != [];
    var n := |steps| - 1;
    var s, a := Run(steps[..n]), steps[n];
    if k < |s.sent| {
      j := SentAt(steps[..n], k);
      assert steps[..n][..j] == steps[..j] && steps[..n][..j + 1] == steps[..j + 1];
      if Enabled(s, a) {
        StepGrows(s, a);
      }
    } else {
      j := n;
      assert steps[..n + 1] == steps;
      RunKeeps(steps[..n]);
      StepSends(s, a);
    }
  }

  /** What comes on its way has just passed the test. */
  lemma StepTests(s: State, a: Step, r: Request)
    requires Inv(s) && Enabled(s, a) && !OnItsWay(s, r) && OnItsWay(Next(s, a), r)
    ensures r.epoch == s.epoch == Next(s, a).epoch
  {
    hide Fifo, Numbered, Conserved, Answering, Alert, Spent;
    var t := Next(s, a);
    if !(t.d.Replying? && t.d.r == r) {
      var w :| 0 <= w < |t.workers| && Carries(t.workers[w], r);
      if w < |s.workers| {
        assert !Carries(s.workers[w], r);
        assert Orderly(s.workers[w], w, s.d, s.list);
      }
    }
  }

  lemma {:induction false} TimesMember(rs: seq<Request>, r: Request)
    ensures Times(rs, r) > 0 ==> r in rs
  {
    if rs != [] {
      TimesMember(rs[..|rs| - 1], r);
    }
  }

  lemma {:induction false} NoAnswer(sent: seq<Completion>, k: nat)
    requires k < |sent|
    ensures Answers(sent, sent[k].r) > 0
  {
    if k < |sent| - 1 {
      NoAnswer(sent[..|sent| - 1], k);
    }
  }

  /** What is on its way was accepted in no later epoch, and has had no answer. */
  lemma WayIsNew(steps: seq<Step>, r: Request)
    requires OnItsWay(Run(steps), r)
    ensures var s := Run(steps); r in s.accepted && r.epoch <= s.epoch && !HasAnswer(s, r)
  {
    hide Run, Times, Answers, AllOpen, InSlots;
    var s := Run(steps);
    ExactlyOnce(steps, r);
    if !(s.d.Replying? && s.d.r == r) {
      var w :| 0 <= w < |s.workers| && Carries(s.workers[w], r);
      SomeOwed(s.workers, w, r);
    }
    RunDated(steps);
    if k :| 0 <= k < |s.sent| && s.sent[k].r == r {
      NoAnswer(s.sent, k);
    }
  }

  // The epoch the threads know.

  /** Every answer went out in the epoch its request came in, as far as the threads know. */
  predicate InItsEpoch(s: State)
  {
    forall k :: 0 <= k < |s.sent| ==> s.sent[k].epoch == s.sent[k].r.epoch
  }

  /** Step i makes another epoch known while the answer to r is on its way, and that answer goes out. */
  predicate Late(steps: seq<Step>, i: nat, r: Request)
  {
    && i < |steps| && steps[i].SetInfo? && Run(steps[..i]).epoch != Run(steps[..i]).announced
    && OnItsWay(Run(steps[..i]), r) && HasAnswer(Run(steps), r)
  }

  /** The step that made the difference to an answer on its way. */
  lemma {:induction false} ChangedAt(steps: seq<Step>, r: Request) returns (i: nat)
    requires OnItsWay(Run(steps), r) && Run(steps).epoch != r.epoch
    ensures i < |steps| && steps[i].SetInfo? && Run(steps[..i]).epoch != Run(steps[..i]).announced
    ensures OnItsWay(Run(steps[..i]), r)
  {
    hide Next, Enabled, OnItsWay, Inv, Dated;
    if steps == [] {
      NothingOnItsWay(r);
    }
    var n := |steps| - 1;
    var s, a := Run(steps[..n]), steps[n];
    RunKeeps(steps[..n]);
    RunDated(steps[..n]);
    if Enabled(s, a) {
      StepDated(s, a);
      if !OnItsWay(s, r) {
        StepTests(s, a, r);
      }
    }
    if s.epoch != r.epoch {
      i := ChangedAt(steps[..n], r);
      assert steps[..n][..i] == steps[..i];
    } else {
      i := n;
    }
  }

  lemma NothingOnItsWay(r: Request)
    ensures !OnItsWay(START, r)
  {
  }

  lemma LateAnswer(steps: seq<Step>, i: nat, r: Request) returns (k: nat)
    requires Late(steps, i, r)
    ensures k < |Run(steps).sent| && Run(steps).sent[k].epoch != Run(steps).sent[k].r.epoch
  {
    hide Run, OnItsWay, Next, Inv, Dated;
    var s := Run(steps[..i]);
    WayIsNew(steps[..i], r);
    k :| 0 <= k < |Run(steps).sent| && Run(steps).sent[k].r == r;
    var j := SentAt(steps, k);
    NotBefore(steps, i, j, k);
    OneStep(steps, i);
    RunDated(steps[..i]);
    StepDated(s, steps[i]);
    RunGrows(steps, i + 1, j);
    assert s.epoch < s.announced by { DatedIs(s); }
  }

  lemma DatedIs(s: State)
    requires Dated(s)
    ensures s.epoch <= s.announced
  {
  }

  lemma AnsweredAt(s: State, t: State, k: nat)
    requires s.sent <= t.sent && k < |s.sent|
    ensures HasAnswer(s, t.sent[k].r)
  {
    assert s.sent[k].r == t.sent[k].r;
  }

  /** An answer that had not gone out at step i goes out then or later. */
  lemma NotBefore(steps: seq<Step>, i: nat, j: nat, k: nat)
    requires i < |steps| && j < |steps| && k < |Run(steps).sent| && |Run(steps[..j + 1]).sent| == k + 1
    requires !HasAnswer(Run(steps[..i]), Run(steps).sent[k].r)
    requires !steps[j].SetInfo? && !steps[j].Announce?
    ensures j >= i && (steps[i].SetInfo? || steps[i].Announce? ==> j > i)
  {
    hide Run;
    assert steps[..|steps|] == steps;
    RunGrows(steps, i, |steps|);
    var s := Run(steps[..i]);
    if k < |s.sent| {
      AnsweredAt(s, Run(steps), k);
    } else if j < i {
      RunGrows(steps, j + 1, i);
    }
  }

  lemma FindLate(steps: seq<Step>, k: nat) returns (i: nat)
    requires k < |Run(steps).sent| && Run(steps).sent[k].epoch != Run(steps).sent[k].r.epoch
    ensures Late(steps, i, Run(steps).sent[k].r)
  {
    hide Run, OnItsWay;
    var j := SentAt(steps, k);
    i := ChangedAt(steps[..j], Run(steps).sent[k].r);
    assert steps[..j][..i] == steps[..i];
  }

  /** In every run: every answer goes out in the epoch its request came in, as the threads know it, if
      and only if no other epoch is made known between the test for an answer that goes out and its
      sending. */
  lemma InItsEpochWhen(steps: seq<Step>)
    ensures InItsEpoch(Run(steps)) <==> forall i, r :: !Late(steps, i, r)
  {
    hide Run, Late;
    if i, r :| Late(steps, i, r) {
      var k := LateAnswer(steps, i, r);
    } else if !InItsEpoch(Run(steps)) {
      var k :| 0 <= k < |Run(steps).sent| && Run(steps).sent[k].epoch != Run(steps).sent[k].r.epoch;
      var i := FindLate(steps, k);
    }
  }

  // The epoch the server has announced.

  /** Every answer went out in the epoch its request came in, as the server counts. */
  predicate InServersEpoch(s: State)
  {
    forall k :: 0 <= k < |s.sent| ==> s.sent[k].announced == s.sent[k].r.epoch
  }

  /** At step i the server announces itself again, with r accepted and not yet answered, and the answer
      goes out. */
  predicate Stale(steps: seq<Step>, i: nat, r: Request)
  {
    && i < |steps| && steps[i].Announce?
    && r in Run(steps[..i]).accepted && !HasAnswer(Run(steps[..i]), r) && HasAnswer(Run(steps), r)
  }

  /** The announcement since a request was accepted. */
  lemma {:induction false} AnnouncedAt(steps: seq<Step>, r: Request) returns (i: nat)
    requires r in Run(steps).accepted && Run(steps).announced != r.epoch
    ensures i < |steps| && steps[i].Announce? && r in Run(steps[..i]).accepted
  {
    hide Next, Inv, Dated;
    assert steps != [];
    var n := |steps| - 1;
    var s, a := Run(steps[..n]), steps[n];
    RunDated(steps[..n]);
    if Enabled(s, a) {
      StepDated(s, a);
      if r !in s.accepted {
        StepAccepts(s, a, r);
      }
    }
    if r in s.accepted && s.announced != r.epoch {
      i := AnnouncedAt(steps[..n], r);
      assert steps[..n][..i] == steps[..i];
    } else {
      i := n;
    }
  }

  /** A request is accepted in the epoch the server has announced. */
  lemma StepAccepts(s: State, a: Step, r: Request)
    requires Enabled(s, a) && r in Next(s, a).accepted && r !in s.accepted
    ensures r.epoch == s.announced == Next(s, a).announced
  {
  }

  lemma AcceptedDated(steps: seq<Step>, r: Request)
    requires r in Run(steps).accepted
    ensures r.epoch <= Run(steps).announced
  {
    RunDated(steps);
  }

  lemma StaleAnswer(steps: seq<Step>, i: nat, r: Request) returns (k: nat)
    requires Stale(steps, i, r)
    ensures k < |Run(steps).sent| && Run(steps).sent[k].announced != Run(steps).sent[k].r.epoch
  {
    hide Run, OnItsWay, Next, Inv, Dated;
    AcceptedDated(steps[..i], r);
    k :| 0 <= k < |Run(steps).sent| && Run(steps).sent[k].r == r;
    var j := SentAt(steps, k);
    NotBefore(steps, i, j, k);
    OneStep(steps, i);
    RunDated(steps[..i]);
    StepDated(Run(steps[..i]), steps[i]);
    RunGrows(steps, i + 1, j);
  }

  lemma FindStale(steps: seq<Step>, k: nat) returns (i: nat)
    requires k < |Run(steps).sent| && Run(steps).sent[k].announced != Run(steps).sent[k].r.epoch
    ensures Stale(steps, i, Run(steps).sent[k].r)
  {
    hide Run, OnItsWay;
    var r := Run(steps).sent[k].r;
    var j := SentAt(steps, k);
    WayIsNew(steps[..j], r);
    i := AnnouncedAt(steps[..j], r);
    assert steps[..j][..i] == steps[..i];
    RunGrows(steps, i, j);
    if HasAnswer(Run(steps[..i]), r) {
      AnsweredStays(Run(steps[..i]), Run(steps[..j]), r);
    }
  }

  lemma AnsweredStays(s: State, t: State, r: Request)
    requires s.sent <= t.sent && HasAnswer(s, r)
    ensures HasAnswer(t, r)
  {
    var k :| 0 <= k < |s.sent| && s.sent[k].r == r;
    assert t.sent[k].r == r;
  }

  /** In every run: every answer goes out in the epoch its request came in, as the server counts, if and
      only if the server does not announce itself between the request and its answer. */
  lemma InServersEpochWhen(steps: seq<Step>)
    ensures InServersEpoch(Run(steps)) <==> forall i, r :: !Stale(steps, i, r)
  {
    hide Run, Stale;
    if i, r :| Stale(steps, i, r) {
      var k := StaleAnswer(steps, i, r);
    } else if !InServersEpoch(Run(steps)) {
      var k :| 0 <= k < |Run(steps).sent| && Run(steps).sent[k].announced != Run(steps).sent[k].r.epoch;
      var i := FindStale(steps, k);
    }
  }

  // Answers that are given up.

  /** Executed and not yet tested or answered. */
  predicate Due(s: State, r: Request)
  {
    || ((s.d.Finishing? || s.d.Replying?) && s.d.r == r)
    || exists w :: 0 <= w < |s.workers| && Owes(s.workers[w], r)
  }

  lemma DueIsAccepted(steps: seq<Step>, r: Request)
    requires Due(Run(steps), r)
    ensures r in Run(steps).accepted && r.epoch <= Run(steps).epoch <= Run(steps).announced
  {
    hide Run, Times, Answers, AllOpen, InSlots;
    var s := Run(steps);
    ExactlyOnce(steps, r);
    if w :| 0 <= w < |s.workers| && Owes(s.workers[w], r) {
      SomeOwed(s.workers, w, r);
    }
    RunDated(steps);
  }

  lemma StepDrops(s: State, a: Step)
    requires Inv(s) && Enabled(s, a) && Next(s, a).dropped != s.dropped
    ensures var t := Next(s, a);
            && |t.dropped| == |s.dropped| + 1 && s.dropped <= t.dropped
            && var c := t.dropped[|s.dropped|];
               c == Completion(c.r, s.epoch, s.announced) && c.r.epoch != s.epoch && Due(s, c.r)
  {
    hide Fifo, Numbered, Conserved, Answering, Linked, Alert, Spent, AllOrderly;
    if a.Work? {
      assert Owes(s.workers[a.w], s.workers[a.w].data.value);
    }
  }

  /** In every run an answer is given up only when another epoch has begun since its request. */
  lemma {:induction false} GivenUpIsPast(steps: seq<Step>, k: nat)
    requires k < |Run(steps).dropped|
    ensures var c := Run(steps).dropped[k]; c.r.epoch < c.epoch <= c.announced
  {
    hide Next, Enabled, Due, Inv;
    assert steps != [];
    var n := |steps| - 1;
    var s, a := Run(steps[..n]), steps[n];
    RunKeeps(steps[..n]);
    if Enabled(s, a) && Next(s, a).dropped != s.dropped {
      StepDrops(s, a);
      DueIsAccepted(steps[..n], Next(s, a).dropped[|s.dropped|].r);
    }
    if k < |s.dropped| {
      GivenUpIsPast(steps[..n], k);
    }
  }

  // Runs in which it goes wrong.

  const FIRST := Request(0, false, 0)

  /** A request is handed to a new worker, executed, and its epoch tested. */
  const TESTED := [Add(false), Dispatch, Dispatch, Dispatch, Dispatch, Dispatch, Work(0), Work(0), Work(0)]

  lemma Reached(steps: seq<Step>, s: State, a: Step, t: State)
    requires Run(steps) == s && Enabled(s, a) && Next(s, a) == t
    ensures Run(steps + [a]) == t
  {
    Further(steps, a);
  }

  /** Steps that each have their turn, from one state to the next. */
  lemma Chain(steps: seq<Step>, states: seq<State>, more: seq<Step>)
    requires |states| == |more| + 1 && Run(steps) == states[0]
    requires forall i :: 0 <= i < |more| ==> Enabled(states[i], more[i]) && Next(states[i], more[i]) == states[i + 1]
    ensures Run(steps + more) == states[|more|]
    decreases |more|
  {
    hide Run, Enabled, Next;
    if more == [] {
      assert steps + more == steps;
    } else {
      Reached(steps, states[0], more[0], states[1]);
      Chain(steps + [more[0]], states[1..], more[1..]);
      assert steps + more == steps + [more[0]] + more[1..];
    }
  }

  /** The request in hand, with no worker yet. */
  lemma TakenState()
    ensures Run([Add(false), Dispatch, Dispatch]) ==
            State([], Scanning(FIRST, 0), [], [], 0, 0, [FIRST], [FIRST], [], [], [])
  {
    hide Run;
    var s := START;
    var t := s.(accepted := [FIRST], taken := [FIRST]);
    StartIs();
    Chain([], [s, s.(queue := [FIRST], accepted := [FIRST]), t.(d := Holding(FIRST)), t.(d := Scanning(FIRST, 0))],
      [Add(false), Dispatch, Dispatch]);
    assert [] + [Add(false), Dispatch, Dispatch] == [Add(false), Dispatch, Dispatch];
  }

  lemma StartIs()
    ensures Run([]) == START
  {
  }

  lemma TestedState()
    ensures Run(TESTED) ==
            State([], Idle, [Worker(Some(FIRST), Own, Sending)], [0], 0, 0, [FIRST], [FIRST], [FIRST], [], [])
  {
    TakenState();
    hide Run;
    var one := Worker(Some(FIRST), Free, Wanting);
    var t := State([], Scanning(FIRST, 0), [], [], 0, 0, [FIRST], [FIRST], [], [], []);
    var u := t.(workers := [one], d := Linking(0));
    var v := u.(list := [0], d := Idle);
    var taken, more := [Add(false), Dispatch, Dispatch], [Dispatch, Dispatch, Dispatch];
    Chain(taken, [t, t.(d := Creating(FIRST)), u, v], more);
    WorkedState(taken + more);
    assert TESTED == taken + more + [Work(0), Work(0), Work(0)];
  }

  lemma WorkedState(steps: seq<Step>)
    requires Run(steps) ==
             State([], Idle, [Worker(Some(FIRST), Free, Wanting)], [0], 0, 0, [FIRST], [FIRST], [], [], [])
    ensures Run(steps + [Work(0), Work(0), Work(0)]) ==
            State([], Idle, [Worker(Some(FIRST), Own, Sending)], [0], 0, 0, [FIRST], [FIRST], [FIRST], [], [])
  {
    hide Run;
    var s, one := Run(steps), Worker(Some(FIRST), Own, Testing);
    var x := s.(executed := [FIRST]);
    Chain(steps, [s, s.(workers := [one]), x.(workers := [one.(pc := Running)]), x.(workers := [one.(pc := Sending)])],
      [Work(0), Work(0), Work(0)]);
  }

  /** Another epoch is made known between test and sending. */
  lemma LateRun()
    ensures Run(TESTED + [Announce, SetInfo, Work(0)]).sent == [Completion(FIRST, 1, 1)] && FIRST.epoch == 0
  {
    TestedState();
    hide Run;
    var s := Run(TESTED);
    Reached(TESTED, s, Announce, s.(announced := 1));
    Reached(TESTED + [Announce], s.(announced := 1), SetInfo, s.(announced := 1, epoch := 1));
    Further(TESTED + [Announce] + [SetInfo], Work(0));
    assert TESTED + [Announce, SetInfo, Work(0)] == TESTED + [Announce] + [SetInfo] + [Work(0)];
  }

  /** The server has announced another epoch, and no device request has made it known. */
  lemma StaleRun()
    ensures Run(TESTED + [Announce, Work(0)]).sent == [Completion(FIRST, 0, 1)] && FIRST.epoch == 0
  {
    TestedState();
    hide Run;
    var s := Run(TESTED);
    Reached(TESTED, s, Announce, s.(announced := 1));
    Further(TESTED + [Announce], Work(0));
    assert TESTED + [Announce, Work(0)] == TESTED + [Announce] + [Work(0)];
  }
}
