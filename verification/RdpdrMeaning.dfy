/** What becomes of a pending request when the devices are looked at, given up or timed out, with the
    numbers written out. */
module RdpdrMeaning {
  import opened Bits
  import opened Wrappers
  import opened RdpdrSpec
  import opened RdpdrProofs

  /** A request is left alone unless it has a file and its file is ready for what it wants: readable for
      a read, writable for a write, its event there for a control. */
  lemma LeftAlone(r: Request, w: World)
    requires || r.fd == 0 || r.major.Directory?
             || (r.major.Read? && !w.sel.readable(r.fd))
             || (r.major.Write? && !w.sel.writable(r.fd))
             || (r.major.Control? && !w.sel.events(r))
    ensures Visit(r, w) == Kept(r)
  {
  }

  /** A control whose event is there is answered with the four bytes of the event. */
  lemma EventAnswered(r: Request, w: World)
    requires r.fd != 0 && r.major.Control? && w.sel.events(r)
    ensures Visit(r, w) == Finished(Completion(r.device, r.id, 0, 4, w.does(r).data))
  {
  }

  /** A transfer whose file is ready gets what its device gives, if the result is positive as a signed
      `long`; it is answered, with the device's status, when it is complete or the device gave nothing. */
  lemma Transferred(r: Request, w: World)
    requires r.fd != 0
    requires (r.major.Read? && w.sel.readable(r.fd)) || (r.major.Write? && w.sel.writable(r.fd))
    ensures var o := w.does(r);
            var moved: int := if o.result < 0x8000_0000 || w.wide then o.result else 0;
            var partial, offset := (r.partial + moved) % 0x1_0000_0000, (r.offset + moved) % 0x1_0000_0000;
            var bytes := if r.major.Read? && moved > 0 then r.data + o.data else r.data;
            if partial == r.length || o.result == 0 then
              && Visit(r, w).Finished?
              && var c := Visit(r, w).c;
                 && c.device == r.device && c.id == r.id && c.status == o.status && c.result == partial
                 && c.data == if r.major.Write? then [0] else if partial <= |bytes| then bytes[..partial] else bytes
            else Visit(r, w) == Kept(r.(partial := partial, offset := offset, data := bytes))
  {
  }

  /** What a device is asked for: all that is left, or 8192 bytes of it. */
  lemma SizeIs(r: Request)
    ensures r.partial <= r.length ==>
              r.Size() == if r.length - r.partial < 8192 then r.length - r.partial else 8192
    ensures r.partial > r.length ==>
              r.Size() == if 0x1_0000_0000 + r.length - r.partial < 8192 then 0x1_0000_0000 + r.length - r.partial
                          else 8192
  {
  }

  // The walk.

  /** The request at place j is tried, unless the head is answered now, with which the walk ends, or the
      one just before it is tried and answered. */
  predicate Tried(list: seq<Request>, w: World, j: nat)
    requires j < |list|
  {
    j == 0 || (Visit(list[0], w).Kept? && !(Tried(list, w, j - 1) && Visit(list[j - 1], w).Finished?))
  }

  /** The request at place j is answered now. */
  predicate Gone(list: seq<Request>, w: World, j: nat)
    requires j < |list|
  {
    Tried(list, w, j) && Visit(list[j], w).Finished?
  }

  /** What is left of the first n requests, in their order. */
  function Left(list: seq<Request>, w: World, n: nat): seq<Request>
    requires n <= |list|
  {
    if n == 0 then []
    else
      var r := list[n - 1];
      Left(list, w, n - 1) +
      if Gone(list, w, n - 1) then [] else if Tried(list, w, n - 1) then [Visit(r, w).r] else [r]
  }

  /** The answers to those that are answered, in their order. */
  function Replies(list: seq<Request>, w: World, n: nat): seq<Completion>
    requires n <= |list|
  {
    if n == 0 then []
    else Replies(list, w, n - 1) + if Gone(list, w, n - 1) then [Visit(list[n - 1], w).c] else []
  }

  /** Behind a head that is answered nothing is tried. */
  lemma {:induction false} NoneTried(list: seq<Request>, w: World, n: nat)
    requires 1 <= n <= |list| && Visit(list[0], w).Finished?
    ensures Left(list, w, n) == list[1..n] && Replies(list, w, n) == [Visit(list[0], w).c]
  {
    hide Visit;
    if n == 1 {
      assert Left(list, w, 0) == [] && Replies(list, w, 0) == [];
    } else {
      NoneTried(list, w, n - 1);
      assert list[1..n] == list[1..n - 1] + [list[n - 1]];
    }
  }

  /** A request that is tried. */
  lemma OneTried(list: seq<Request>, w: World, k: nat)
    requires k < |list| && Tried(list, w, k)
    ensures match Visit(list[k], w)
            case Kept(r) =>
              Left(list, w, k + 1) == Left(list, w, k) + [r] && Replies(list, w, k + 1) == Replies(list, w, k)
            case Finished(c) =>
              Left(list, w, k + 1) == Left(list, w, k) && Replies(list, w, k + 1) == Replies(list, w, k) + [c]
  {
    hide Visit;
  }

  /** And one that is passed over. */
  lemma OnePassed(list: seq<Request>, w: World, k: nat)
    requires k < |list| && !Tried(list, w, k)
    ensures Left(list, w, k + 1) == Left(list, w, k) + [list[k]] && Replies(list, w, k + 1) == Replies(list, w, k)
  {
  }

  /** Where the walk goes on. */
  lemma Next(list: seq<Request>, w: World, k: nat)
    requires k < |list| && Tried(list, w, k) && (k > 0 ==> Visit(list[0], w).Kept?)
    ensures k + 1 < |list| ==> (Tried(list, w, k + 1) <==> Visit(list[k], w).Kept?)
    ensures k > 0 && k + 2 < |list| && Visit(list[k], w).Finished? ==> Tried(list, w, k + 2)
  {
    hide Visit;
  }

  /** One turn. */
  lemma OneTurn(list: seq<Request>, w: World, k: nat, done: seq<Request>, sent: seq<Completion>)
    requires k < |list|
    ensures var v, p := Visit(list[k], w), Walk(done, list[k..], sent, w);
            if v.Kept? then p == Walk(done + [v.r], list[k + 1..], sent, w)
            else if done == [] then p == Pass(list[k + 1..], sent + [v.c])
            else if k + 1 == |list| then p == Pass(done, sent + [v.c])
            else p == Walk(done + [list[k + 1]], list[k + 2..], sent + [v.c], w)
  {
    hide Visit;
    assert list[k..][1..] == list[k + 1..];
    assert k + 2 <= |list| ==> list[k..][2..] == list[k + 2..];
  }

  /** The walk, from place k on, when all before it has been done. */
  lemma {:induction false} WalkFrom(list: seq<Request>, w: World, k: nat, sent: seq<Completion>)
    requires k <= |list| && (k > 0 ==> Visit(list[0], w).Kept? && Left(list, w, k) != [])
    requires k < |list| ==> Tried(list, w, k)
    ensures Walk(Left(list, w, k), list[k..], sent + Replies(list, w, k), w) ==
            Pass(Left(list, w, |list|), sent + Replies(list, w, |list|))
    decreases |list| - k
  {
    hide *;
    if k == |list| {
      NoTurn(list, Left(list, w, k), sent + Replies(list, w, k), w);
    } else {
      OneTried(list, w, k);
      Next(list, w, k);
      OneTurn(list, w, k, Left(list, w, k), sent + Replies(list, w, k));
      match Visit(list[k], w)
      case Kept(r) =>
        WalkFrom(list, w, k + 1, sent);
      case Finished(c) =>
        assert sent + Replies(list, w, k) + [c] == sent + (Replies(list, w, k) + [c]);
        if k == 0 {
          NoneLeft(list, w);
          NoneTried(list, w, |list|);
          assert sent + [] == sent && list[1..|list|] == list[1..];
        } else if k + 1 < |list| {
          OnePassed(list, w, k + 1);
          WalkFrom(list, w, k + 2, sent);
        }
    }
  }

  lemma NoTurn(list: seq<Request>, done: seq<Request>, sent: seq<Completion>, w: World)
    ensures Walk(done, list[|list|..], sent, w) == Pass(done, sent)
  {
  }

  lemma NoneLeft(list: seq<Request>, w: World)
    ensures Left(list, w, 0) == [] && Replies(list, w, 0) == []
  {
  }

  /** The whole walk: what is left, in its order, and the answers, in theirs. */
  lemma WalkMeans(list: seq<Request>, w: World, sent: seq<Completion>)
    ensures Walk([], list, sent, w) == Pass(Left(list, w, |list|), sent + Replies(list, w, |list|))
  {
    NoneLeft(list, w);
    assert list[0..] == list && sent + [] == sent;
    WalkFrom(list, w, 0, sent);
  }

  /** The walk comes to just those that are tried. */
  lemma {:induction false} TriedIs(list: seq<Request>, w: World, k: nat, j: nat)
    requires k <= j < |list| && Tried(list, w, k) && (k > 0 ==> Visit(list[0], w).Kept?)
    ensures Tried(list, w, j) <==> Comes(list, w, k, j)
    decreases j - k
  {
    hide Visit;
    if k < j {
      if !Finishes(list[k], w) {
        TriedIs(list, w, k + 1, j);
      } else if k == 0 {
      } else if k + 2 <= j {
        assert !Tried(list, w, k + 1);
        TriedIs(list, w, k + 2, j);
      } else {
        assert j == k + 1;
        if Comes(list, w, k + 2, j) {
          ComesUp(list, w, k + 2, j);
        }
      }
    }
  }

  // The other ways a request ends.

  /** A request on the file, of the kind if one is named, with no such request before it. */
  ghost predicate FirstOn(list: seq<Request>, k: nat, fd: nat, major: Option<Major>)
  {
    && k < |list| && list[k].fd == fd && (major.None? || major == Some(list[k].major))
    && forall i :: 0 <= i < k ==> list[i].fd != fd || (major.Some? && major != Some(list[i].major))
  }

  /** Giving up takes out the first such request, and answers it with the status and no bytes. */
  lemma AbortMeans(p: Pass, fd: nat, major: Option<Major>, status: nat, k: nat)
    ensures FirstOn(p.list, k, fd, major) ==>
              Abort(p, fd, major, status) ==
              Pass(p.list[..k] + p.list[k + 1..],
                   p.sent + [Completion(p.list[k].device, p.list[k].id, status, 0, [0])])
    ensures (forall i :: 0 <= i < |p.list| ==> p.list[i].fd != fd || (major.Some? && major != Some(p.list[i].major)))
              ==> Abort(p, fd, major, status) == p
  {
    var m := FirstMatch(p.list, fd, major);
    if FirstOn(p.list, k, fd, major) {
      assert m == k;
    }
  }

  /** A timeout looks at the head only: a serial request on the file with bytes moved is answered with
      them. Otherwise the first request on the file is given up with status 0xc0000102. */
  lemma TimeoutMeans(p: Pass, fd: nat, serial: bool, k: nat)
    ensures var moved := p.list != [] && p.list[0].fd == fd && p.list[0].partial > 0 && serial;
            && (moved ==>
                  var r := p.list[0];
                  var bytes := if r.partial <= |r.data| then r.data[..r.partial] else r.data;
                  TimedOut(p, fd, serial) ==
                    Pass(p.list[1..], p.sent + [Completion(r.device, r.id, 0, r.partial, bytes)]))
            && (!moved && FirstOn(p.list, k, fd, None) ==>
                  TimedOut(p, fd, serial) ==
                  Pass(p.list[..k] + p.list[k + 1..],
                       p.sent + [Completion(p.list[k].device, p.list[k].id, 0xc000_0102, 0, [0])]))
            && ((forall i :: 0 <= i < |p.list| ==> p.list[i].fd != fd) ==> TimedOut(p, fd, serial) == p)
  {
    AbortMeans(p, fd, None, 0xc000_0102, k);
    hide Abort;
  }

  /** Of the directory requests on disks the first one uses up the stamp; it is answered unless the
      answer would be 0x103, for no news. Without a stamp, or without such a request, nothing happens. */
  lemma NotifyMeans(p: Pass, stamp: bool, disk: nat -> bool, check: nat -> nat, k: nat)
    requires k <= |p.list|
    requires k < |p.list| ==> p.list[k].fd != 0 && p.list[k].major.Directory? && disk(p.list[k].device)
    requires forall i :: 0 <= i < k ==>
               !(p.list[i].fd != 0 && p.list[i].major.Directory? && disk(p.list[i].device))
    ensures Notify(p, stamp, disk, check) ==
            if !stamp || k == |p.list| then Noted(p, stamp)
            else if check(p.list[k].fd) == 0x103 then Noted(p, false)
            else Noted(Pass(p.list[..k] + p.list[k + 1..],
                            p.sent + [Completion(p.list[k].device, p.list[k].id, check(p.list[k].fd), 0, [])]), false)
  {
    assert FirstNotifiable(p.list, disk) == k;
  }

  /** A request takes the first element without a file, or a new one at the end. */
  lemma AddMeans(list: seq<Request>, r: Request, k: nat)
    requires k <= |list| && (k < |list| ==> list[k].fd == 0) && forall i :: 0 <= i < k ==> list[i].fd != 0
    ensures Add(list, r) == list[..k] + [r] + (if k < |list| then list[k + 1..] else [])
  {
    assert Free(list) == k;
  }
}
