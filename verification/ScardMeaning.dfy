/** Who executes which request, and to which worker the dispatcher hands it. */
module ScardMeaning {
  import opened Wrappers
  import opened ScardPool
  import opened ScardProofs

  /** What the dispatcher executes and answers itself is immediate; what it hands on and what is in a
      worker's slot is not. */
  predicate Kinds(s: State)
  {
    && (s.d.Finishing? || s.d.Replying? ==> s.d.r.immediate)
    && (s.d.Scanning? || s.d.Waiting? || s.d.Locked? || s.d.Creating? ==> !s.d.r.immediate)
    && forall w :: 0 <= w < |s.workers| && s.workers[w].data.Some? ==> !s.workers[w].data.value.immediate
  }

  lemma StepKinds(s: State, a: Step)
    requires Kinds(s) && Enabled(s, a)
    ensures Kinds(Next(s, a))
  {
  }

  /** In every run. */
  lemma {:induction false} RunKinds(steps: seq<Step>)
    ensures Kinds(Run(steps))
  {
    if steps != [] {
      var s, a := Run(steps[..|steps| - 1]), steps[|steps| - 1];
      RunKinds(steps[..|steps| - 1]);
      if Enabled(s, a) {
        StepKinds(s, a);
      }
    }
  }

  /** The list runs from the worker that was made last to the first one; one that has just been made is
      linked in before the dispatcher does anything else. */
  predicate NewestFirst(s: State)
  {
    && |s.workers| == |s.list| + (if s.d.Linking? then 1 else 0) && (s.d.Linking? ==> s.d.w == |s.list|)
    && forall i :: 0 <= i < |s.list| ==> s.list[i] == |s.list| - 1 - i
  }

  lemma StepNewest(s: State, a: Step)
    requires NewestFirst(s) && Enabled(s, a)
    ensures NewestFirst(Next(s, a))
  {
  }

  lemma {:induction false} RunNewest(steps: seq<Step>)
    ensures NewestFirst(Run(steps))
  {
    if steps != [] {
      var s, a := Run(steps[..|steps| - 1]), steps[|steps| - 1];
      RunNewest(steps[..|steps| - 1]);
      if Enabled(s, a) {
        StepNewest(s, a);
      }
    }
  }

  /** At step m the dispatcher, with this request, looked at the j-th worker of the list and found its slot
      full. */
  predicate FoundFull(steps: seq<Step>, m: nat, r: Request, j: nat)
    requires m < |steps|
  {
    var s := Run(steps[..m]);
    && steps[m].Dispatch? && s.d == Scanning(r, j) && Listed(s, j) && s.workers[s.list[j]].data.Some?
  }

  /** The request that is handed on, and how many workers have been passed over for it. */
  predicate HandsOn(d: Dispatcher) { d.Scanning? || d.Waiting? || d.Locked? || d.Creating? }

  function Passed(s: State): nat
    requires HandsOn(s.d)
  {
    if s.d.Creating? then |s.list| else s.d.i
  }

  lemma LockedEmpty(s: State)
    requires Inv(s)
    ensures s.d.Locked? && Listed(s, s.d.i) ==> s.workers[s.list[s.d.i]].data.None?
  {
    if s.d.Locked? && Listed(s, s.d.i) {
      assert Orderly(s.workers[s.list[s.d.i]], s.list[s.d.i], s.d, s.list);
    }
  }

  lemma StepPasses(s: State, a: Step)
    requires Inv(s) && Enabled(s, a) && HandsOn(Next(s, a).d)
    ensures var t := Next(s, a);
            || (s.d.Holding? && Passed(t) == 0)
            || (HandsOn(s.d) && s.d.r == t.d.r
                && (Passed(t) == Passed(s)
                    || (a.Dispatch? && s.d.Scanning? && Listed(s, s.d.i) && s.workers[s.list[s.d.i]].data.Some?
                        && Passed(t) == s.d.i + 1)))
  {
    LockedEmpty(s);
    hide Inv;
  }

  /** A worker is passed over only with its slot full; so a request goes to the first worker whose slot is
      found empty, and another worker is made only when all slots have been found full. */
  lemma {:induction false} PassedFull(steps: seq<Step>, j: nat) returns (m: nat)
    requires HandsOn(Run(steps).d) && j < Passed(Run(steps))
    ensures m < |steps| && FoundFull(steps, m, Run(steps).d.r, j)
    decreases |steps|
  {
    assert steps != [];
    var n := |steps| - 1;
    var s, a := Run(steps[..n]), steps[n];
    RunKeeps(steps[..n]);
    if Enabled(s, a) {
      StepPasses(s, a);
    }
    if HandsOn(s.d) && j < Passed(s) {
      m := PassedFull(steps[..n], j);
      assert steps[..n][..m] == steps[..m];
    } else {
      m := n;
    }
  }
}
