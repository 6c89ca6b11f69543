/** Requests and answers: one each, the right bytes, and when the order on a file is kept. */
module RdpdrProofs {
  import opened Wrappers
  import opened Bits
  import opened RdpdrSpec

  // One answer for each request.

  lemma {:induction false} WaitingSum(a: seq<Request>, b: seq<Request>, device: nat, id: nat)
    ensures Waiting(a + b, device, id) == Waiting(a, device, id) + Waiting(b, device, id)
  {
    if a == [] {
      assert a + b == b;
    } else {
      assert (a + b)[1..] == a[1..] + b;
      WaitingSum(a[1..], b, device, id);
    }
  }

  lemma WaitingOne(r: Request, device: nat, id: nat)
    ensures Waiting([r], device, id) == Mine(r, device, id)
  {
  }

  lemma OneAnswer(sent: seq<Completion>, c: Completion, device: nat, id: nat)
    ensures Answers(sent + [c], device, id) ==
            Answers(sent, device, id) + if c.device == device && c.id == id then 1 else 0
  {
    assert (sent + [c])[..|sent|] == sent;
  }

  /** A visit keeps the request or answers it. */
  lemma VisitCounts(r: Request, w: World, device: nat, id: nat)
    ensures match Visit(r, w)
            case Kept(d) => Mine(d, device, id) == Mine(r, device, id)
            case Finished(c) => Mine(r, device, id) == if c.device == device && c.id == id then 1 else 0
  {
  }

  /** The main walk, with whatever is passed over: every request is still there or has its answer. */
  lemma {:induction false} WalkConserves(done: seq<Request>, rest: seq<Request>, sent: seq<Completion>, w: World,
      device: nat, id: nat)
    ensures var p := Walk(done, rest, sent, w);
            Waiting(p.list, device, id) + Answers(p.sent, device, id) ==
                Waiting(done, device, id) + Waiting(rest, device, id) + Answers(sent, device, id)
    decreases |rest|
  {
    hide Mine, Visit, Answers;
    if rest != [] {
      VisitCounts(rest[0], w, device, id);
      match Visit(rest[0], w)
      case Kept(r) =>
        WaitingSum(done, [r], device, id);
        WaitingOne(r, device, id);
        WalkConserves(done + [r], rest[1..], sent, w, device, id);
      case Finished(c) =>
        OneAnswer(sent, c, device, id);
        if done != [] && |rest| > 1 {
          WaitingSum(done, [rest[1]], device, id);
          WaitingOne(rest[1], device, id);
          assert rest[1..][1..] == rest[2..];
          WalkConserves(done + [rest[1]], rest[2..], sent + [c], w, device, id);
        }
    }
  }

  lemma AbortConserves(p: Pass, fd: nat, major: Option<Major>, status: nat, device: nat, id: nat)
    ensures var q := Abort(p, fd, major, status);
            Waiting(q.list, device, id) + Answers(q.sent, device, id) ==
                Waiting(p.list, device, id) + Answers(p.sent, device, id)
  {
    var k := FirstMatch(p.list, fd, major);
    if k < |p.list| {
      Taken(p.list, k, device, id);
      OneAnswer(p.sent, Completion(p.list[k].device, p.list[k].id, status, 0, [0]), device, id);
    }
  }

  lemma Taken(list: seq<Request>, k: nat, device: nat, id: nat)
    requires k < |list|
    ensures Waiting(list, device, id) == Waiting(list[..k] + list[k + 1..], device, id) + Mine(list[k], device, id)
  {
    WaitingSum(list[..k], list[k..], device, id);
    WaitingSum(list[..k], list[k + 1..], device, id);
    assert list == list[..k] + list[k..] && list[k..][1..] == list[k + 1..];
  }

  lemma TimedOutConserves(p: Pass, fd: nat, serial: bool, device: nat, id: nat)
    ensures var q := TimedOut(p, fd, serial);
            Waiting(q.list, device, id) + Answers(q.sent, device, id) ==
                Waiting(p.list, device, id) + Answers(p.sent, device, id)
  {
    AbortConserves(p, fd, None, TIMEOUT, device, id);
    if p.list != [] {
      var r := p.list[0];
      OneAnswer(p.sent, Completion(r.device, r.id, SUCCESS, r.partial, SoFar(r)), device, id);
    }
  }

  lemma NotifyConserves(p: Pass, stamp: bool, disk: nat -> bool, check: nat -> nat, device: nat, id: nat)
    ensures var q := Notify(p, stamp, disk, check).p;
            Waiting(q.list, device, id) + Answers(q.sent, device, id) ==
                Waiting(p.list, device, id) + Answers(p.sent, device, id)
  {
    var k := FirstNotifiable(p.list, disk);
    if k < |p.list| {
      Taken(p.list, k, device, id);
      OneAnswer(p.sent, Completion(p.list[k].device, p.list[k].id, check(p.list[k].fd), 0, []), device, id);
    }
  }

  /** Every element with this number has a file. */
  ghost predicate Used(list: seq<Request>, device: nat, id: nat)
  {
    forall i :: 0 <= i < |list| && Mine(list[i], device, id) == 1 ==> list[i].fd != 0
  }

  lemma AddConserves(list: seq<Request>, r: Request, device: nat, id: nat)
    requires Used(list, device, id)
    ensures Waiting(Add(list, r), device, id) == Waiting(list, device, id) + Mine(r, device, id)
  {
    var k := Free(list);
    if k < |list| {
      Taken(list, k, device, id);
      Taken(list[k := r], k, device, id);
      assert list[k := r][..k] + list[k := r][k + 1..] == list[..k] + list[k + 1..];
    } else {
      WaitingSum(list, [r], device, id);
      WaitingOne(r, device, id);
    }
  }

  /** A visit leaves number and file alone. */
  lemma VisitNumbers(r: Request, w: World)
    ensures Visit(r, w).Kept? ==> var d := Visit(r, w).r; d.device == r.device && d.id == r.id && d.fd == r.fd
  {
  }

  lemma {:induction false} WalkUsed(done: seq<Request>, rest: seq<Request>, sent: seq<Completion>, w: World,
      device: nat, id: nat)
    requires Used(done, device, id) && Used(rest, device, id)
    ensures Used(Walk(done, rest, sent, w).list, device, id)
    decreases |rest|
  {
    hide Visit;
    if rest != [] {
      VisitNumbers(rest[0], w);
      match Visit(rest[0], w)
      case Kept(r) => WalkUsed(done + [r], rest[1..], sent, w, device, id);
      case Finished(c) =>
        if done != [] && |rest| > 1 {
          WalkUsed(done + [rest[1]], rest[2..], sent + [c], w, device, id);
        }
    }
  }

  /** What can happen to the list. */
  datatype Op =
    | AddOp(r: Request)
    | CheckOp(w: World)
    | NotifyOp(stamp: bool, disk: nat -> bool, check: nat -> nat)
    | AbortOp(fd: nat, major: Option<Major>, status: nat)
    | TimeoutOp(fd: nat, serial: bool)

  function Apply(p: Pass, op: Op): Pass
  {
    match op
    case AddOp(r) => p.(list := Add(p.list, r))
    case CheckOp(w) => Walk([], p.list, p.sent, w)
    case NotifyOp(stamp, disk, check) => Notify(p, stamp, disk, check).p
    case AbortOp(fd, major, status) => Abort(p, fd, major, status)
    case TimeoutOp(fd, serial) => TimedOut(p, fd, serial)
  }

  function Run(ops: seq<Op>): Pass
  {
    if ops == [] then Pass([], []) else Apply(Run(ops[..|ops| - 1]), ops[|ops| - 1])
  }

  function Added(ops: seq<Op>, device: nat, id: nat): nat
  {
    if ops == [] then 0
    else
      var op := ops[|ops| - 1];
      Added(ops[..|ops| - 1], device, id) + if op.AddOp? then Mine(op.r, device, id) else 0
  }

  /** The requests that are added with this number have a file; whatever else happens. */
  ghost predicate Filed(ops: seq<Op>, device: nat, id: nat)
  {
    forall i :: 0 <= i < |ops| && ops[i].AddOp? && Mine(ops[i].r, device, id) == 1 ==> ops[i].r.fd != 0
  }

  lemma ApplyUsed(p: Pass, op: Op, device: nat, id: nat)
    requires Used(p.list, device, id) && (op.AddOp? && Mine(op.r, device, id) == 1 ==> op.r.fd != 0)
    ensures Used(Apply(p, op).list, device, id)
  {
    if op.CheckOp? {
      WalkUsed([], p.list, p.sent, op.w, device, id);
    }
  }

  lemma ApplyConserves(p: Pass, op: Op, device: nat, id: nat)
    requires Used(p.list, device, id)
    ensures var q := Apply(p, op);
            Waiting(q.list, device, id) + Answers(q.sent, device, id)
            == Waiting(p.list, device, id) + Answers(p.sent, device, id)
               + if op.AddOp? then Mine(op.r, device, id) else 0
  {
    hide Walk, Abort, TimedOut, Notify, Add, Mine, Used;
    match op
    case AddOp(r) => AddConserves(p.list, r, device, id);
    case CheckOp(w) => WalkConserves([], p.list, p.sent, w, device, id);
    case NotifyOp(stamp, disk, check) => NotifyConserves(p, stamp, disk, check, device, id);
    case AbortOp(fd, major, status) => AbortConserves(p, fd, major, status, device, id);
    case TimeoutOp(fd, serial) => TimedOutConserves(p, fd, serial, device, id);
  }

  /** In every run every request that was added under this number is pending or has been answered, once
      each, if each of them has a file. */
  lemma {:induction false} OneAnswerEach(ops: seq<Op>, device: nat, id: nat)
    requires Filed(ops, device, id)
    ensures Used(Run(ops).list, device, id)
    ensures Waiting(Run(ops).list, device, id) + Answers(Run(ops).sent, device, id) == Added(ops, device, id)
  {
    hide Apply, Mine;
    if ops != [] {
      OneAnswerEach(ops[..|ops| - 1], device, id);
      ApplyUsed(Run(ops[..|ops| - 1]), ops[|ops| - 1], device, id);
      ApplyConserves(Run(ops[..|ops| - 1]), ops[|ops| - 1], device, id);
    }
  }

  /** A request on file 0 is overwritten by the next one and never answered. */
  lemma Overwritten(r: Request, q: Request)
    requires r.fd == 0
    ensures Run([AddOp(r), AddOp(q)]) == Pass([q], [])
  {
    var ops := [AddOp(r), AddOp(q)];
    assert ops[..1] == [AddOp(r)] && ops[..1][..0] == [];
    assert Run(ops[..1]) == Pass([r], []);
  }

  /** The requests that are added under the number of r go to its file. */
  ghost predicate Alike(ops: seq<Op>, r: Request)
  {
    forall i :: 0 <= i < |ops| && ops[i].AddOp? && Mine(ops[i].r, r.device, r.id) == 1 ==> ops[i].r.fd == r.fd
  }

  /** Pending or answered, as often as it was added. */
  ghost predicate Accounted(ops: seq<Op>, r: Request)
  {
    Waiting(Run(ops).list, r.device, r.id) + Answers(Run(ops).sent, r.device, r.id) == Added(ops, r.device, r.id)
  }

  /** A request is pending or has been answered, once, in every run, exactly when its file is not 0. */
  lemma AccountedWhen(r: Request)
    ensures (forall ops: seq<Op> :: Alike(ops, r) ==> Accounted(ops, r)) <==> r.fd != 0
  {
    if r.fd != 0 {
      forall ops: seq<Op> | Alike(ops, r) ensures Accounted(ops, r) {
        OneAnswerEach(ops, r.device, r.id);
      }
    } else {
      var q := r.(id := r.id + 1, fd := 1);
      var ops := [AddOp(r), AddOp(q)];
      Overwritten(r, q);
      assert ops[..1] == [AddOp(r)] && ops[..1][..0] == [];
      assert Added(ops[..1], r.device, r.id) == 1;
      assert Added(ops, r.device, r.id) == 1;
      assert Waiting([q], r.device, r.id) == 0;
      assert Alike(ops, r) && !Accounted(ops, r);
    }
  }

  // Giving up what waits on a file.

  /** How many requests wait on a file. */
  function OnFile(list: seq<Request>, fd: nat): nat
  {
    if list == [] then 0 else (if list[0].fd == fd then 1 else 0) + OnFile(list[1..], fd)
  }

  lemma {:induction false} OnFileSum(a: seq<Request>, b: seq<Request>, fd: nat)
    ensures OnFile(a + b, fd) == OnFile(a, fd) + OnFile(b, fd)
  {
    if a == [] {
      assert a + b == b;
    } else {
      assert (a + b)[1..] == a[1..] + b;
      OnFileSum(a[1..], b, fd);
    }
  }

  lemma {:induction false} OnFileNone(list: seq<Request>, fd: nat)
    ensures OnFile(list, fd) == 0 <==> forall i :: 0 <= i < |list| ==> list[i].fd != fd
  {
    if list != [] {
      OnFileNone(list[1..], fd);
      assert forall i :: 0 < i < |list| ==> list[i] == list[1..][i - 1];
    }
  }

  /** When a file is closed the first request that waits on it is given up and no other: nothing waits on
      it any more exactly when at most one request did. */
  lemma AbortLeaves(p: Pass, fd: nat, status: nat)
    ensures var q := Abort(p, fd, None, status);
            && OnFile(q.list, fd) == (if OnFile(p.list, fd) > 0 then OnFile(p.list, fd) - 1 else 0)
            && ((forall i :: 0 <= i < |q.list| ==> q.list[i].fd != fd) <==> OnFile(p.list, fd) <= 1)
  {
    var k, q := FirstMatch(p.list, fd, None), Abort(p, fd, None, status);
    OnFileNone(p.list, fd);
    OnFileNone(q.list, fd);
    if k < |p.list| {
      OnFileSum(p.list[..k], p.list[k..], fd);
      OnFileSum(p.list[..k], p.list[k + 1..], fd);
      assert p.list == p.list[..k] + p.list[k..] && p.list[k..][1..] == p.list[k + 1..];
    }
  }

  // How far a transfer has got.

  /** No more has been moved than was asked for. */
  predicate InBounds(r: Request) { r.partial <= r.length }

  /** Where the transfer started. */
  function Begin(r: Request): uint32 { (r.offset - r.partial) % WORD }

  /** Whatever a device answers, the transfer keeps its length and the place where it started. */
  lemma VisitKeepsStart(r: Request, w: World)
    ensures Visit(r, w).Kept? ==> Begin(Visit(r, w).r) == Begin(r) && Visit(r, w).r.length == r.length
  {
    var o := w.does(r);
    var p, q: int := r.partial + o.result, r.offset + o.result;
    ModDifference(q, p, r.offset - r.partial);
  }

  lemma ModDifference(q: int, p: int, d: int)
    requires q - p == d
    ensures (q % WORD - p % WORD) % WORD == d % WORD
  {
    var a, b := q / WORD, p / WORD;
    assert q == a * WORD + q % WORD && p == b * WORD + p % WORD;
    SameMod(q % WORD - p % WORD, a - b);
  }

  lemma SameMod(x: int, k: int)
    ensures (x + k * WORD) % WORD == x % WORD
  {
  }

  /** An attempt that ends the transfer within its length, or moves it on within it. */
  predicate Proceeds(r: Request, w: World)
  {
    match Visit(r, w)
    case Kept(d) => r.partial < d.partial <= r.length
    case Finished(c) => r.partial <= c.result <= r.length
  }

  /** Nothing moved, or no more than was left; and a result that the test takes for nothing does no harm
      when nothing was left. */
  predicate Sound(r: Request, result: uint32, wide: bool)
    requires InBounds(r)
  {
    result == 0 || if Moves(result, wide) then result <= r.length - r.partial else r.partial == r.length
  }

  /** An attempt proceeds exactly when the device's result is sound. */
  lemma VisitInBounds(r: Request, w: World)
    requires InBounds(r) && Ready(r, w) && !r.major.Control?
    ensures Proceeds(r, w) <==> Sound(r, w.does(r).result, w.wide)
  {
    var result := w.does(r).result;
    if Moves(result, w.wide) {
      var p: int := r.partial + result;
      assert p % WORD == if p < WORD then p else p - WORD;
    }
  }

  /** A failed call is not: with 64 bits the count goes back by one, from 0 to the largest number, past
      the end of the buffer; with 32 bits nothing moves and nothing ends. */
  lemma FailedCall(r: Request, w: World)
    requires InBounds(r) && r.partial < r.length < FAILED && Ready(r, w) && !r.major.Control?
    requires w.does(r) == Moved([], FAILED, SUCCESS)
    ensures !Proceeds(r, w)
    ensures w.wide && r.partial == 0 ==> Visit(r, w).Kept? && Visit(r, w).r.partial == FAILED > r.length
    ensures !w.wide ==> Visit(r, w) == Kept(r)
  {
  }

  /** What the walk leaves of a request is within its length. */
  predicate StaysIn(r: Request, w: World) { Visit(r, w).Kept? ==> InBounds(Visit(r, w).r) }

  lemma StaysInWhen(r: Request, w: World)
    requires InBounds(r)
    ensures StaysIn(r, w) <==>
            (Ready(r, w) && !r.major.Control? && Moves(w.does(r).result, w.wide) ==>
               (r.partial + w.does(r).result) % WORD <= r.length)
  {
  }

  ghost predicate AllIn(list: seq<Request>) { forall i :: 0 <= i < |list| ==> InBounds(list[i]) }

  /** The requests that the walk comes to, being at place k, stay within their lengths. */
  predicate TriedIn(list: seq<Request>, w: World, k: nat)
    decreases |list| - k
  {
    k >= |list| || (StaysIn(list[k], w) && if !Finishes(list[k], w) then TriedIn(list, w, k + 1)
                                           else k == 0 || TriedIn(list, w, k + 2))
  }

  lemma {:induction false} TriedInIs(list: seq<Request>, w: World, k: nat)
    ensures TriedIn(list, w, k) <==> forall j: nat :: j < |list| && Comes(list, w, k, j) ==> StaysIn(list[j], w)
    decreases |list| - k
  {
    hide StaysIn, Finishes;
    if k < |list| {
      var next := if !Finishes(list[k], w) then k + 1 else k + 2;
      TriedInIs(list, w, next);
      assert Comes(list, w, k, k);
      if !TriedIn(list, w, k) && StaysIn(list[k], w) {
        var j: nat :| j < |list| && Comes(list, w, next, j) && !StaysIn(list[j], w);
        assert Comes(list, w, k, j);
      }
    }
  }

  lemma Joined(done: seq<Request>, r: Request)
    ensures AllIn(done + [r]) <==> AllIn(done) && InBounds(r)
  {
    if AllIn(done + [r]) {
      assert (done + [r])[|done|] == r;
      forall i | 0 <= i < |done| ensures InBounds(done[i]) {
        assert (done + [r])[i] == done[i];
      }
    }
  }

  lemma {:induction false} WalkTries(done: seq<Request>, list: seq<Request>, k: nat, sent: seq<Completion>, w: World)
    requires AllIn(list) && k <= |list| && (done == [] <==> k == 0)
    ensures AllIn(Walk(done, list[k..], sent, w).list) <==> AllIn(done) && TriedIn(list, w, k)
    decreases |list| - k
  {
    hide Visit, InBounds;
    if k < |list| {
      var rest := list[k..];
      assert rest[1..] == list[k + 1..];
      match Visit(list[k], w)
      case Kept(r) =>
        Joined(done, r);
        WalkTries(done + [r], list, k + 1, sent, w);
      case Finished(c) =>
        if done != [] && |rest| > 1 {
          Joined(done, rest[1]);
          assert rest[2..] == list[k + 2..];
          WalkTries(done + [rest[1]], list, k + 2, sent + [c], w);
        }
    }
  }

  /** After a walk every request is within its length exactly when every one that the walk comes to is. */
  lemma WalkInBounds(list: seq<Request>, sent: seq<Completion>, w: World)
    requires AllIn(list)
    ensures AllIn(Walk([], list, sent, w).list) <==>
            forall j: nat :: j < |list| && Comes(list, w, 0, j) ==> StaysIn(list[j], w)
  {
    assert list[0..] == list;
    WalkTries([], list, 0, sent, w);
    TriedInIs(list, w, 0);
  }

  /** So it is with devices none of whose calls fail. */
  lemma WalkKeepsBounds(list: seq<Request>, sent: seq<Completion>, w: World)
    requires AllIn(list) && Behaves(w, false)
    ensures AllIn(Walk([], list, sent, w).list)
  {
    hide Walk, Comes;
    WalkInBounds(list, sent, w);
    forall j: nat | j < |list| && Comes(list, w, 0, j) ensures StaysIn(list[j], w) {
      StaysInWhen(list[j], w);
    }
  }

  // The bytes of a read.

  /** A read of which `partial` bytes of the file, from where it started, have been read. */
  ghost predicate Reading(r: Request, file: seq<byte>, start: nat)
  {
    && r.fd != 0 && r.major.Read? && r.partial <= r.length && r.offset == start + r.partial
    && start + r.length < WORD && r.offset <= |file| && r.data == file[start..r.offset]
  }

  /** Devices that read from this file where they are told to; a failed call where it is not taken for
      a transfer. */
  ghost predicate Serves(w: World, file: seq<byte>)
  {
    && Behaves(w, !w.wide)
    && forall r: Request :: r.major.Read? && r.offset <= |file| ==> w.does(r).data <= file[r.offset..]
  }

  lemma VisitReads(r: Request, w: World, file: seq<byte>, start: nat)
    requires Reading(r, file, start) && Serves(w, file)
    ensures match Visit(r, w)
            case Kept(d) => Reading(d, file, start) && d.length == r.length
            case Finished(c) =>
              && c.result <= r.length && start + c.result <= |file|
              && c.data == file[start..start + c.result]
              && (c.result < r.length ==> w.does(r) == Moved([], 0, c.status))
  {
    if Ready(r, w) {
      Wanted(r, w, file, start);
      var d := Advanced(r, w.does(r), w.wide);
      hide Advanced, Serves, Moves;
      assert d.data[..d.partial] == d.data;
    }
  }

  /** What a piece makes of a read. */
  lemma Wanted(r: Request, w: World, file: seq<byte>, start: nat)
    requires Reading(r, file, start) && Serves(w, file)
    ensures var d := Advanced(r, w.does(r), w.wide);
            Reading(d, file, start) && d.length == r.length && |d.data| == d.partial
            && (w.does(r).result == 0 ==> d == r && w.does(r).data == [])
            && d.device == r.device && d.id == r.id
  {
    var o := w.does(r);
    assert Plausible(r, o, !w.wide) && o.data <= file[r.offset..];
    hide Serves;
    SizeLeft(r);
    if Moves(o.result, w.wide) {
      Longer(file, start, r.offset, o.data);
    }
  }

  lemma SizeLeft(r: Request)
    requires InBounds(r)
    ensures r.Size() <= r.length - r.partial && r.Size() <= LARGEST
  {
  }

  lemma Longer(file: seq<byte>, start: nat, at: nat, piece: seq<byte>)
    requires start <= at <= |file| && piece <= file[at..]
    ensures at + |piece| <= |file| && file[start..at] + piece == file[start..at + |piece|]
  {
  }

  /** One look after the other. */
  function Looks(r: Request, ws: seq<World>): Visited
  {
    if ws == [] then Kept(r)
    else
      match Looks(r, ws[..|ws| - 1])
      case Kept(d) => Visit(d, ws[|ws| - 1])
      case Finished(c) => Finished(c)
  }

  /** With a 32-bit `long` a request whose device only fails is never answered. */
  lemma {:induction false} NeverEnds(r: Request, ws: seq<World>)
    requires r.partial < r.length && !r.major.Control?
    requires forall i :: 0 <= i < |ws| ==> !ws[i].wide && ws[i].does(r) == Moved([], FAILED, SUCCESS)
    ensures Looks(r, ws) == Kept(r)
  {
    if ws != [] {
      NeverEnds(r, ws[..|ws| - 1]);
    }
  }

  /** A read that is answered is answered with the bytes of the file from its offset on, as many as
      the answer says, whatever the pieces; with fewer than it asked for only at an empty piece. */
  lemma {:induction false} ReadAssembled(r: Request, ws: seq<World>, file: seq<byte>)
    requires Reading(r, file, r.offset) && forall i :: 0 <= i < |ws| ==> Serves(ws[i], file)
    ensures match Looks(r, ws)
            case Kept(d) => Reading(d, file, r.offset) && d.length == r.length
            case Finished(c) =>
              && c.result <= r.length && r.offset + c.result <= |file|
              && c.data == file[r.offset..r.offset + c.result]
  {
    hide Visit, Reading, Serves;
    if ws != [] {
      var n := |ws| - 1;
      ReadAssembled(r, ws[..n], file);
      match Looks(r, ws[..n])
      case Kept(d) => VisitReads(d, ws[n], file, r.offset);
      case Finished(c) =>
    }
  }

  // The order on one file.

  function Finishes(r: Request, w: World): bool { Visit(r, w).Finished? }

  /** Whether the walk, being at place k, comes to place j. */
  predicate Comes(list: seq<Request>, w: World, k: nat, j: nat)
    decreases |list| - k
  {
    k < |list| && (k == j || if !Finishes(list[k], w) then Comes(list, w, k + 1, j)
                             else k != 0 && Comes(list, w, k + 2, j))
  }

  predicate Rivals(a: Request, b: Request, w: World) { a.fd == b.fd && Ready(a, w) && Ready(b, w) }

  /** Of two requests on one file that can both be served, the later one is served only if the
      earlier one is. */
  ghost predicate InOrder(list: seq<Request>, w: World)
  {
    forall i, j :: 0 <= i < j < |list| && Rivals(list[i], list[j], w) && Comes(list, w, 0, j) ==> Comes(list, w, 0, i)
  }

  lemma {:induction false} ComesUp(list: seq<Request>, w: World, k: nat, j: nat)
    requires Comes(list, w, k, j)
    ensures k <= j
    decreases |list| - k
  {
    if k != j {
      if !Finishes(list[k], w) {
        ComesUp(list, w, k + 1, j);
      } else {
        ComesUp(list, w, k + 2, j);
      }
    }
  }

  lemma {:induction false} ComesPast(list: seq<Request>, w: World, k: nat, i: nat, j: nat)
    requires k <= i < j < |list| && Comes(list, w, k, j) && !Comes(list, w, k, i)
    ensures i > 0 && Finishes(list[i - 1], w) && Comes(list, w, k, i - 1) && (k == 0 ==> i >= 2)
    decreases |list| - k
  {
    if !Finishes(list[k], w) {
      ComesPast(list, w, k + 1, i, j);
    } else if i > k + 1 {
      ComesPast(list, w, k + 2, i, j);
    }
  }

  lemma {:induction false} ComesVia(list: seq<Request>, w: World, k: nat, m: nat, j: nat)
    requires k <= m < |list| && Comes(list, w, k, m)
    ensures j >= m ==> (Comes(list, w, k, j) <==> Comes(list, w, m, j))
    decreases |list| - k
  {
    if k < m && j >= m {
      if !Finishes(list[k], w) {
        ComesVia(list, w, k + 1, m, j);
      } else {
        ComesUp(list, w, k + 2, m);
        ComesVia(list, w, k + 2, m, j);
      }
    }
  }

  // What select may return, and what the devices may then do.

  /** Which machines and devices are meant: the size of a `long`, and whether calls may fail. */
  datatype Kind = Kind(wide: bool, fallible: bool)

  ghost predicate Of(w: World, kind: Kind) { w.wide == kind.wide && Behaves(w, kind.fallible) }

  /** A failed call does not look like the end of the transfer. */
  predicate FailStays(r: Request, wide: bool)
  {
    if wide then (r.partial + FAILED) % WORD != r.length else r.partial != r.length
  }

  /** A transfer that can be tried and still not be finished. */
  predicate CanStay(r: Request, kind: Kind)
  {
    !r.major.Control? && (r.Size() >= 2 || (kind.fallible && FailStays(r, kind.wide)))
  }

  /** Whether the walk, being at place k, may come to place j when these files are ready. */
  predicate MayCome(list: seq<Request>, sel: Select, kind: Kind, k: nat, j: nat)
    decreases |list| - k
  {
    && k < |list|
    && (|| k == j
        || ((Chosen(list[k], sel) ==> CanStay(list[k], kind)) && MayCome(list, sel, kind, k + 1, j))
        || (Chosen(list[k], sel) && k != 0 && MayCome(list, sel, kind, k + 2, j)))
  }

  lemma MustFinish(r: Request, w: World, kind: Kind)
    requires Of(w, kind)
    ensures Finishes(r, w) ==> Chosen(r, w.sel)
    ensures !Finishes(r, w) ==> (Chosen(r, w.sel) ==> CanStay(r, kind))
  {
    if Chosen(r, w.sel) && !r.major.Control? && !Finishes(r, w) {
      var o := w.does(r);
      assert Plausible(r, o, kind.fallible);
      if o.result <= r.Size() {
        LastByte(r, o.result);
      }
    }
  }

  /** With one byte to go, or none, what is asked for ends the transfer. */
  lemma LastByte(r: Request, result: uint32)
    requires 0 < result <= r.Size()
    ensures r.Size() == 1 ==> (r.partial + result) % WORD == r.length
    ensures r.Size() >= 2 ==> (r.partial + 1) % WORD != r.length
  {
  }

  lemma {:induction false} ComesMay(list: seq<Request>, w: World, kind: Kind, k: nat, j: nat)
    requires Of(w, kind) && Comes(list, w, k, j)
    ensures MayCome(list, w.sel, kind, k, j)
    decreases |list| - k
  {
    hide Finishes, Of;
    if k != j {
      MustFinish(list[k], w, kind);
      if !Finishes(list[k], w) {
        ComesMay(list, w, kind, k + 1, j);
      } else {
        ComesMay(list, w, kind, k + 2, j);
      }
    }
  }

  /** Devices that give nothing to some requests, so that they are finished, and one byte to the others,
      or fail. */
  function Script(sel: Select, kind: Kind, ended: set<Request>): World
  {
    World(sel,
          (r: Request) =>
            if r in ended || !CanStay(r, kind) then Moved([], 0, SUCCESS)
            else if r.Size() >= 2 then Moved([0], 1, SUCCESS)
            else Moved([], FAILED, SUCCESS),
          kind.wide)
  }

  lemma Scripted(sel: Select, kind: Kind, ended: set<Request>, r: Request)
    ensures Of(Script(sel, kind, ended), kind) && Script(sel, kind, ended).sel == sel
    ensures Finishes(r, Script(sel, kind, ended)) <==> Chosen(r, sel) && (r in ended || !CanStay(r, kind))
  {
    if r.Size() >= 2 {
      LastByte(r, 1);
    }
  }

  /** Two scripts that agree on the requests from k on, as far as j, come to j alike. */
  lemma {:induction false} ComesSame(list: seq<Request>, sel: Select, kind: Kind, e: set<Request>, f: set<Request>,
      k: nat, j: nat)
    requires forall m :: k <= m < j && m < |list| ==> (list[m] in e <==> list[m] in f)
    ensures Comes(list, Script(sel, kind, e), k, j) ==> Comes(list, Script(sel, kind, f), k, j)
    decreases |list| - k
  {
    hide Finishes, Script;
    if k != j && Comes(list, Script(sel, kind, e), k, j) {
      Scripted(sel, kind, e, list[k]);
      Scripted(sel, kind, f, list[k]);
      if !Finishes(list[k], Script(sel, kind, e)) {
        ComesUp(list, Script(sel, kind, e), k + 1, j);
        ComesSame(list, sel, kind, e, f, k + 1, j);
      } else {
        ComesUp(list, Script(sel, kind, e), k + 2, j);
        ComesSame(list, sel, kind, e, f, k + 2, j);
      }
    }
  }

  /** A way the walk may take is taken under some script, which ends only requests that it passes. */
  lemma {:induction false} Staged(list: seq<Request>, sel: Select, kind: Kind, k: nat, j: nat)
      returns (ended: set<Request>)
    requires Apart(list) && MayCome(list, sel, kind, k, j)
    ensures k <= j < |list| && Comes(list, Script(sel, kind, ended), k, j)
    ensures forall m :: 0 <= m < |list| && list[m] in ended ==> k <= m < j
    decreases |list| - k
  {
    hide Finishes, Script, Chosen, CanStay, Apart;
    ended := {};
    if k != j {
      if (Chosen(list[k], sel) ==> CanStay(list[k], kind)) && MayCome(list, sel, kind, k + 1, j) {
        ended := Staged(list, sel, kind, k + 1, j);
        assert list[k] !in ended;
        Scripted(sel, kind, ended, list[k]);
      } else {
        var rest := Staged(list, sel, kind, k + 2, j);
        ended := rest + {list[k]};
        forall m | 0 <= m < |list| && list[m] in ended ensures k <= m < j {
          Same(list, m, k);
        }
        forall m | k + 2 <= m < j ensures list[m] in rest <==> list[m] in ended {
          Same(list, m, k);
        }
        ComesSame(list, sel, kind, rest, ended, k + 2, j);
        Scripted(sel, kind, ended, list[k]);
      }
    }
  }

  /** Two requests on one file, both ready, and behind the head a ready one just before the first of
      them; the walk may come to that one, and from behind the first to the second. */
  predicate Exposed(list: seq<Request>, sel: Select, kind: Kind, i: nat, j: nat)
  {
    && 2 <= i < j < |list| && list[i].fd == list[j].fd
    && Chosen(list[i - 1], sel) && Chosen(list[i], sel) && Chosen(list[j], sel)
    && MayCome(list, sel, kind, 0, i - 1) && MayCome(list, sel, kind, i + 1, j)
  }

  /** Then the devices can be such that the later one of the two is served first. */
  lemma Overtaken(list: seq<Request>, sel: Select, kind: Kind, i: nat, j: nat) returns (w: World)
    requires Apart(list) && Exposed(list, sel, kind, i, j)
    ensures Of(w, kind) && w.sel == sel && !InOrder(list, w)
  {
    hide Finishes, Chosen, CanStay, MayCome, Script, Apart;
    var before := Staged(list, sel, kind, 0, i - 1);
    var after := Staged(list, sel, kind, i + 1, j);
    var ended := before + {list[i - 1]} + after;
    forall m | 0 <= m < |list| && m != i - 1
      ensures (m < i - 1 ==> (list[m] in before <==> list[m] in ended))
        && (m > i ==> (list[m] in after <==> list[m] in ended))
    {
      Same(list, m, i - 1);
    }
    ComesSame(list, sel, kind, before, ended, 0, i - 1);
    ComesSame(list, sel, kind, after, ended, i + 1, j);
    w := Script(sel, kind, ended);
    Scripted(sel, kind, ended, list[i - 1]);
    assert Comes(list, w, i - 1, j);
    ComesVia(list, w, 0, i - 1, j);
    ComesVia(list, w, 0, i - 1, i);
    if Comes(list, w, i + 1, i) {
      ComesUp(list, w, i + 1, i);
    }
    assert !Comes(list, w, 0, i) && Comes(list, w, 0, j);
    assert Ready(list[i], w) && Ready(list[j], w);
  }

  /** The order on every file is kept, whatever select returns and the devices then do, exactly when no
      two requests on one file are exposed. */
  lemma OrderKeptWhen(list: seq<Request>, kind: Kind)
    requires Apart(list)
    ensures (forall w: World :: Of(w, kind) ==> InOrder(list, w)) <==>
            (forall sel, i, j :: !Exposed(list, sel, kind, i, j))
  {
    if sel, i, j :| Exposed(list, sel, kind, i, j) {
      var w := Overtaken(list, sel, kind, i, j);
    } else {
      forall w: World | Of(w, kind) ensures InOrder(list, w) {
        KeptUnless(list, w, kind);
      }
    }
  }

  lemma KeptUnless(list: seq<Request>, w: World, kind: Kind)
    requires Of(w, kind) && forall i, j :: !Exposed(list, w.sel, kind, i, j)
    ensures InOrder(list, w)
  {
    hide Finishes, Chosen, CanStay, MayCome, Of, Exposed;
    forall i, j | 0 <= i < j < |list| && Rivals(list[i], list[j], w) && Comes(list, w, 0, j)
      ensures Comes(list, w, 0, i)
    {
      if !Comes(list, w, 0, i) {
        ComesPast(list, w, 0, i, j);
        MustFinish(list[i - 1], w, kind);
        ComesMay(list, w, kind, 0, i - 1);
        ComesVia(list, w, 0, i - 1, j);
        ComesMay(list, w, kind, i + 1, j);
        ExposedIs(list, w, kind, i, j);
      }
    }
  }

  lemma ExposedIs(list: seq<Request>, w: World, kind: Kind, i: nat, j: nat)
    requires 2 <= i < j < |list| && list[i].fd == list[j].fd
    requires Chosen(list[i - 1], w.sel) && Ready(list[i], w) && Ready(list[j], w)
    requires MayCome(list, w.sel, kind, 0, i - 1) && MayCome(list, w.sel, kind, i + 1, j)
    ensures Exposed(list, w.sel, kind, i, j)
  {
  }

  // When every transfer can be tried without ending, the list alone says it.

  /** Every file is ready, and of the serial events those that are named. */
  function Open(happened: set<Request>): Select { Select(_ => true, _ => true, r => r in happened) }

  lemma {:induction false} MayComeAll(list: seq<Request>, kind: Kind, happened: set<Request>, k: nat, j: nat)
    requires k <= j < |list|
    requires forall m :: k <= m < j && list[m] in happened ==> !list[m].major.Control?
    requires forall m :: k <= m < j && Servable(list[m]) && !list[m].major.Control? ==> CanStay(list[m], kind)
    ensures MayCome(list, Open(happened), kind, k, j)
    decreases j - k
  {
    if k < j {
      MayComeAll(list, kind, happened, k + 1, j);
    }
  }

  ghost predicate Long(list: seq<Request>, kind: Kind)
  {
    forall m :: 0 <= m < |list| && Servable(list[m]) && !list[m].major.Control? ==> CanStay(list[m], kind)
  }

  /** Two requests on one file, and before the first of them another one, not at the head. */
  predicate Crossed(list: seq<Request>, i: nat, j: nat)
  {
    && 2 <= i < j < |list| && list[i].fd == list[j].fd
    && Servable(list[i - 1]) && Servable(list[i]) && Servable(list[j])
  }

  lemma CrossedExposed(list: seq<Request>, kind: Kind, i: nat, j: nat)
    requires Apart(list) && Long(list, kind) && Crossed(list, i, j)
    ensures Exposed(list, Open({list[i - 1], list[i], list[j]}), kind, i, j)
  {
    hide MayCome, CanStay;
    var happened := {list[i - 1], list[i], list[j]};
    forall m | 0 <= m < |list| && m != i - 1 && m != i && m != j ensures list[m] !in happened {
      Same(list, m, i - 1);
      Same(list, m, i);
      Same(list, m, j);
    }
    MayComeAll(list, kind, happened, 0, i - 1);
    MayComeAll(list, kind, happened, i + 1, j);
  }

  /** If every transfer can be tried without ending, the order is always kept exactly when no two requests
      on one file stand behind another request that is not the first of the list. */
  lemma OrderKeptLong(list: seq<Request>, kind: Kind)
    requires Apart(list) && Long(list, kind)
    ensures (forall w: World :: Of(w, kind) ==> InOrder(list, w)) <==> (forall i, j :: !Crossed(list, i, j))
  {
    hide InOrder, Of, MayCome, Long, Apart;
    OrderKeptWhen(list, kind);
    if i, j :| Crossed(list, i, j) {
      CrossedExposed(list, kind, i, j);
    } else {
      forall sel, i, j ensures !Exposed(list, sel, kind, i, j) {
        assert Exposed(list, sel, kind, i, j) ==> Crossed(list, i, j);
      }
    }
  }

  /** That is so of transfers with two bytes or more to go; and, where calls may fail, of any with one
      byte to go. */
  lemma LongWhen(list: seq<Request>, kind: Kind)
    requires forall m :: 0 <= m < |list| && Servable(list[m]) && !list[m].major.Control? ==>
               list[m].partial + (if kind.fallible then 1 else 2) <= list[m].length < FAILED
    ensures Long(list, kind)
  {
  }

  lemma {:induction false} WalkGrows(done: seq<Request>, rest: seq<Request>, sent: seq<Completion>, w: World)
    ensures done <= Walk(done, rest, sent, w).list || (done == [] && rest != [])
    ensures sent <= Walk(done, rest, sent, w).sent
    decreases |rest|
  {
    if rest != [] {
      match Visit(rest[0], w)
      case Kept(r) => WalkGrows(done + [r], rest[1..], sent, w);
      case Finished(c) =>
        if done != [] && |rest| > 1 {
          WalkGrows(done + [rest[1]], rest[2..], sent + [c], w);
        }
    }
  }

  /** What the walk does to the request at place j: it is tried when the walk comes to it, and left
      as it is when the walk does not. */
  lemma {:induction false} WalkAt(done: seq<Request>, list: seq<Request>, k: nat, sent: seq<Completion>, w: World,
      j: nat)
    requires k <= j < |list| && (done == [] <==> k == 0)
    ensures var p := Walk(done, list[k..], sent, w);
            if !Comes(list, w, k, j) then list[j] in p.list
            else match Visit(list[j], w)
                 case Kept(d) => d in p.list
                 case Finished(c) => c in p.sent
    decreases |list| - k
  {
    hide Visit;
    var rest := list[k..];
    assert rest[1..] == list[k + 1..];
    match Visit(list[k], w)
    case Kept(r) =>
      WalkGrows(done + [r], rest[1..], sent, w);
      if k < j {
        WalkAt(done + [r], list, k + 1, sent, w, j);
      } else {
        assert (done + [r])[|done|] == r;
      }
    case Finished(c) =>
      assert (sent + [c])[|sent|] == c;
      if done == [] {
        if k < j {
          assert list[j] == list[k + 1..][j - k - 1];
        }
      } else if |rest| > 1 {
        assert rest[2..] == list[k + 2..] && (done + [rest[1]])[|done|] == rest[1];
        WalkGrows(done + [rest[1]], rest[2..], sent + [c], w);
        if k + 2 <= j {
          WalkAt(done + [rest[1]], list, k + 2, sent + [c], w, j);
        } else if Comes(list, w, k + 2, j) {
          ComesUp(list, w, k + 2, j);
        }
      }
  }
}
