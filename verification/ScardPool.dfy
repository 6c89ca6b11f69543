/** The smart card requests on their way from the main thread through the queue and the dispatcher to
    a pool of worker threads: every step of every thread, in any interleaving. */
module ScardPool {
  import opened Wrappers

  /** A request is known by its number; two kinds are executed by the dispatcher itself. */
  datatype Request = Request(serial: nat, immediate: bool, epoch: nat)

  datatype Owner = Free | Own | Dispatchers

  /** Where a worker is: it wants its lock, tests its slot, sleeps, or has executed a request and is to
      test its epoch, to send the answer, to clear its slot. It holds its lock except when it sleeps or
      wants it. */
  datatype Pc = Wanting | Testing | Sleeping | Running | Sending | Clearing

  /** A worker's slot, its lock and its place. */
  datatype Worker = Worker(data: Option<Request>, busy: Owner, pc: Pc)
  {
    /** It has executed what is in its slot. */
    predicate Done() { (pc.Running? || pc.Sending? || pc.Clearing?) && data.Some? }
  }

  /** Where the dispatcher is; `i` counts along the list of workers. */
  datatype Dispatcher =
    | Idle
    | Asleep
    | Holding(r: Request)
    | Finishing(r: Request)
    | Replying(r: Request)
    | Scanning(r: Request, i: nat)
    | Waiting(r: Request, i: nat)
    | Locked(r: Request, i: nat)
    | Filled(i: nat)
    | Signalled(i: nat)
    | Creating(r: Request)
    | Linking(w: nat)

  /** An answer to the server, or one that was due; and, at that time, the epoch the threads know and
      the one the server has announced. */
  datatype Completion = Completion(r: Request, epoch: nat, announced: nat)

  /** The shared state, and what has happened so far. */
  datatype State = State(
    queue: seq<Request>, d: Dispatcher, workers: seq<Worker>, list: seq<nat>, epoch: nat, announced: nat,
    accepted: seq<Request>, taken: seq<Request>, executed: seq<Request>,
    sent: seq<Completion>, dropped: seq<Completion>)

  const START := State([], Idle, [], [], 0, 0, [], [], [], [], [])

  /** The main thread's steps: the server announces itself and another epoch begins, a device request
      makes that epoch known, a smart card request is put in the queue; the other threads' steps; and
      the wake-ups that nobody asked for. */
  datatype Step =
    | Announce
    | SetInfo
    | Add(immediate: bool)
    | Dispatch
    | Work(w: nat)
    | WakeDispatcher
    | WakeWorker(w: nat)

  /** A position in the list that exists. */
  predicate Listed(s: State, i: nat) { i < |s.list| && s.list[i] < |s.workers| }

  /** A worker can go on unless it sleeps or another thread has its lock. */
  predicate Ready(k: Worker) { !k.pc.Sleeping? && (k.pc.Wanting? ==> k.busy.Free?) }

  predicate Enabled(s: State, a: Step)
  {
    match a
    case Announce => true
    case SetInfo => true
    case Add(_) => s.epoch == s.announced
    case WakeDispatcher => s.d.Asleep?
    case WakeWorker(w) => w < |s.workers| && s.workers[w].pc.Sleeping?
    case Work(w) => w < |s.workers| && Ready(s.workers[w])
    case Dispatch => Going(s)
  }

  /** The dispatcher can go on unless it sleeps or a worker has the lock it wants. */
  predicate Going(s: State)
  {
    match s.d
    case Asleep => false
    case Waiting(_, i) => Listed(s, i) && s.workers[s.list[i]].busy.Free?
    case Locked(_, i) => Listed(s, i)
    case Filled(i) => Listed(s, i)
    case Signalled(i) => Listed(s, i)
    case Scanning(_, i) => i < |s.list| ==> Listed(s, i)
    case _ => true
  }

  /** SC_addToQueue, right after scardSetInfo in the main thread: under the queue's lock a request of
      the epoch known is linked in and the dispatcher woken. */
  function Added(s: State, immediate: bool): State
  {
    var r := Request(|s.accepted|, immediate, s.epoch);
    s.(queue := s.queue + [r], accepted := s.accepted + [r], d := if s.d.Asleep? then Idle else s.d)
  }

  /** SC_deviceControl, second half: the answer is given up when the test of the epoch fails, and goes
      out in a later step when it does not. */
  function GivenUp(s: State, r: Request): State
  {
    s.(dropped := s.dropped + [Completion(r, s.epoch, s.announced)])
  }

  function Answered(s: State, r: Request): State
  {
    s.(sent := s.sent + [Completion(r, s.epoch, s.announced)])
  }

  /** thread_function */
  function Worked(s: State, w: nat): State
    requires w < |s.workers|
  {
    var k := s.workers[w];
    match k.pc
    case Sleeping => s
    case Wanting => s.(workers := s.workers[w := k.(busy := Own, pc := Testing)])
    case Testing =>
      if k.data.None? then s.(workers := s.workers[w := k.(busy := Free, pc := Sleeping)])
      else s.(workers := s.workers[w := k.(pc := Running)], executed := s.executed + [k.data.value])
    case Running =>
      if k.data.Some? && k.data.value.epoch == s.epoch then s.(workers := s.workers[w := k.(pc := Sending)])
      else
        var t := if k.data.Some? then GivenUp(s, k.data.value) else s;
        t.(workers := s.workers[w := k.(pc := Clearing)])
    case Sending =>
      var t := if k.data.Some? then Answered(s, k.data.value) else s;
      t.(workers := s.workers[w := k.(pc := Clearing)])
    case Clearing => s.(workers := s.workers[w := k.(data := None, pc := Testing)])
  }

  /** queue_handler_function with SC_getNextInQueue and SC_handleRequest. */
  function Dispatched(s: State): State
    requires Going(s)
  {
    match s.d
    case Idle =>
      if s.queue == [] then s.(d := Asleep)
      else s.(queue := s.queue[1..], taken := s.taken + [s.queue[0]], d := Holding(s.queue[0]))
    case Asleep => s
    case Holding(r) => if r.immediate then s.(executed := s.executed + [r], d := Finishing(r))
        else s.(d := Scanning(r, 0))
    case Finishing(r) => if r.epoch == s.epoch then s.(d := Replying(r)) else GivenUp(s, r).(d := Idle)
    case Replying(r) => Answered(s, r).(d := Idle)
    case Scanning(r, i) =>
      if i >= |s.list| then s.(d := Creating(r))
      else if s.workers[s.list[i]].data.None? then s.(d := Waiting(r, i))
      else s.(d := Scanning(r, i + 1))
    case Waiting(r, i) =>
      var w := s.list[i];
      s.(workers := s.workers[w := s.workers[w].(busy := Dispatchers)], d := Locked(r, i))
    case Locked(r, i) =>
      var w := s.list[i];
      if s.workers[w].data.Some? then s.(workers := s.workers[w := s.workers[w].(busy := Free)],
          d := Scanning(r, i + 1))
      else s.(workers := s.workers[w := s.workers[w].(data := Some(r))], d := Filled(i))
    case Filled(i) =>
      var w := s.list[i];
      s.(workers := s.workers[w := Roused(s.workers[w])], d := Signalled(i))
    case Signalled(i) =>
      var w := s.list[i];
      s.(workers := s.workers[w := s.workers[w].(busy := Free)], d := Idle)
    case Creating(r) => s.(workers := s.workers + [Worker(Some(r), Free, Wanting)], d := Linking(|s.workers|))
    case Linking(w) => s.(list := [w] + s.list, d := Idle)
  }

  /** A broadcast: whoever sleeps wants the lock again. */
  function Roused(k: Worker): Worker { if k.pc.Sleeping? then k.(pc := Wanting) else k }

  function Next(s: State, a: Step): State
    requires Enabled(s, a)
  {
    match a
    case Announce => s.(announced := s.announced + 1)
    case SetInfo => s.(epoch := s.announced)
    case Add(immediate) => Added(s, immediate)
    case Dispatch => Dispatched(s)
    case Work(w) => Worked(s, w)
    case WakeDispatcher => s.(d := Idle)
    case WakeWorker(w) => s.(workers := s.workers[w := Roused(s.workers[w])])
  }

  /** A step that is not possible when its turn comes does not happen. */
  function Run(steps: seq<Step>): State
  {
    if steps == [] then START
    else
      var s, a := Run(steps[..|steps| - 1]), steps[|steps| - 1];
      if Enabled(s, a) then Next(s, a) else s
  }

  // Where the requests are.

  /** How often a request occurs. */
  function Times(rs: seq<Request>, r: Request): nat
  {
    if rs == [] then 0 else Times(rs[..|rs| - 1], r) + if rs[|rs| - 1] == r then 1 else 0
  }

  /** Once while the dispatcher has it in its hands and nobody has executed it. */
  function InHand(d: Dispatcher, r: Request): nat
  {
    if (d.Holding? || d.Scanning? || d.Waiting? || d.Locked? || d.Creating?) && d.r == r then 1 else 0
  }

  /** Once while it is in a worker's slot and not yet executed. */
  function InSlot(k: Worker, r: Request): nat
  {
    if k.data == Some(r) && !k.Done() then 1 else 0
  }

  function InSlots(ks: seq<Worker>, r: Request): nat
  {
    if ks == [] then 0 else InSlots(ks[..|ks| - 1], r) + InSlot(ks[|ks| - 1], r)
  }

  /** Once while it is executed and not yet answered. */
  function Open(k: Worker, r: Request): nat
  {
    if k.data == Some(r) && (k.pc.Running? || k.pc.Sending?) then 1 else 0
  }

  function AllOpen(ks: seq<Worker>, r: Request): nat
  {
    if ks == [] then 0 else AllOpen(ks[..|ks| - 1], r) + Open(ks[|ks| - 1], r)
  }

  function Unanswered(d: Dispatcher, r: Request): nat
  {
    if (d.Finishing? || d.Replying?) && d.r == r then 1 else 0
  }

  function Answers(sent: seq<Completion>, r: Request): nat
  {
    if sent == [] then 0 else Answers(sent[..|sent| - 1], r) + if sent[|sent| - 1].r == r then 1 else 0
  }

  // What every step keeps.

  /** The queue hands requests on in the order they came. */
  predicate Fifo(s: State)
  {
    s.taken + s.queue == s.accepted
  }

  /** Requests are numbered as they come. */
  predicate Numbered(s: State)
  {
    forall k :: 0 <= k < |s.accepted| ==> s.accepted[k].serial == k
  }

  /** What was taken is executed, in a slot, or in the dispatcher's hands: once. */
  ghost predicate Conserved(s: State)
  {
    forall r :: Times(s.executed, r) + InHand(s.d, r) + InSlots(s.workers, r) == Times(s.taken, r)
  }

  /** What was executed is answered, dropped, or about to be either. */
  ghost predicate Answering(s: State)
  {
    forall r ::
      Answers(s.sent, r) + Answers(s.dropped, r) + Unanswered(s.d, r) + AllOpen(s.workers, r) == Times(s.executed, r)
  }

  /** The worker the dispatcher holds the lock of. */
  function Grip(d: Dispatcher, list: seq<nat>): int
  {
    if (d.Locked? || d.Filled? || d.Signalled?) && d.i < |list| then list[d.i] else -1
  }

  /** The list names every worker once, but for the one being linked in. */
  predicate Linked(s: State)
  {
    && (forall i :: 0 <= i < |s.list| ==> s.list[i] < |s.workers|)
    && (forall i, j :: 0 <= i < j < |s.list| ==> s.list[i] != s.list[j])
    && (s.d.Linking? ==> s.d.w + 1 == |s.workers| && s.d.w !in s.list)
    && (s.d.Waiting? || s.d.Locked? || s.d.Filled? || s.d.Signalled? ==> s.d.i < |s.list|)
    && (s.d.Scanning? ==> s.d.i <= |s.list|)
  }

  /** One worker: who holds its lock, and when its slot may be filled. */
  predicate Orderly(k: Worker, w: int, d: Dispatcher, list: seq<nat>)
  {
    && (k.busy.Own? <==> k.pc.Testing? || k.pc.Running? || k.pc.Sending? || k.pc.Clearing?)
    && (k.busy.Dispatchers? <==> w == Grip(d, list))
    && (k.pc.Running? || k.pc.Sending? || k.pc.Clearing? ==> k.data.Some?)
    && (k.pc.Sleeping? && k.data.Some? ==> d.Filled? && w == Grip(d, list))
    && ((d.Waiting? || d.Locked?) && d.i < |list| && list[d.i] == w ==> k.data.None?)
  }

  predicate AllOrderly(s: State)
  {
    forall w :: 0 <= w < |s.workers| ==> Orderly(s.workers[w], w, s.d, s.list)
  }

  /** What a worker answers or clears has been executed. */
  predicate Spent(s: State)
  {
    forall w :: 0 <= w < |s.workers| && s.workers[w].Done() ==> s.workers[w].data.value in s.executed
  }

  /** The dispatcher sleeps only while the queue is empty. */
  predicate Alert(s: State) { s.d.Asleep? ==> s.queue == [] }

  ghost predicate Inv(s: State)
  {
    Fifo(s) && Numbered(s) && Conserved(s) && Answering(s) && Linked(s) && AllOrderly(s) && Alert(s) && Spent(s)
  }
}
