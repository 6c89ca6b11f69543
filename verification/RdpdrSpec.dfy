/** Device requests that could not be answered at once: the list of them, and the walks along it. */
module RdpdrSpec {
  import opened Bits
  import opened Wrappers

  const LARGEST: nat := 8192
  const SUCCESS: nat := 0
  const PENDING: nat := 0x103
  const TIMEOUT: nat := 0xc0000102

  datatype Major = Read | Write | Control | Directory

  /** A request: `partial` bytes of `length` have been moved; `data` are those that were read, or those
      to be written. A file of zero marks an unused element. */
  datatype Request = Request(
    device: nat,
    id: nat,
    fd: nat,
    major: Major,
    length: uint32,
    partial: uint32,
    offset: uint32,
    data: seq<byte>)
  {
    /** How many bytes the device is asked for: no more than 8 KB at a time. */
    function Size(): uint32
    {
      var left := (length - partial) % WORD;
      if left > LARGEST then LARGEST else left
    }
  }

  datatype Completion = Completion(device: nat, id: nat, status: nat, result: nat, data: seq<byte>)

  /** What comes of trying a request that is ready: the bytes a read gets, the 32-bit result, a status. */
  datatype Outcome = Moved(data: seq<byte>, result: uint32, status: nat)

  /** The -1 of read and write. */
  const FAILED: uint32 := 0xffff_ffff

  /** What select returned: the files ready for reading, those ready for writing; and which waits for
      a serial event are over, asked one by one. */
  datatype Select = Select(readable: nat -> bool, writable: nat -> bool, events: Request -> bool)

  /** What the devices do at one look, and whether a C `long` has 64 bits. */
  datatype World = World(sel: Select, does: Request -> Outcome, wide: bool)

  /** A device moves no more than it is asked for and says how much; some calls may fail. */
  predicate Plausible(r: Request, o: Outcome, fallible: bool)
  {
    || (o.result <= r.Size() && (r.major.Read? ==> |o.data| == o.result))
    || (fallible && o.result == FAILED && o.data == [])
  }

  ghost predicate Behaves(w: World, fallible: bool)
  {
    forall r: Request {:trigger w.does(r)} :: !r.major.Control? ==> Plausible(r, w.does(r), fallible)
  }

  /** `(long) result > 0`: with 32 bits a failure is negative, with 64 it is a large number. */
  predicate Moves(result: uint32, wide: bool)
  {
    if wide then result > 0 else 0 < result < HALF
  }

  /** Served in the main walk, if its device is ready. */
  predicate Servable(r: Request) { r.fd != 0 && !r.major.Directory? }

  /** Its file is ready; all requests on one file in one direction are ready together. */
  predicate Chosen(r: Request, sel: Select)
  {
    && Servable(r)
    && match r.major
       case Read => sel.readable(r.fd)
       case Write => sel.writable(r.fd)
       case _ => sel.events(r)
  }

  predicate Ready(r: Request, w: World) { Chosen(r, w.sel) }

  /** The request after its bytes have been moved, if the test says that any were. */
  function Advanced(r: Request, o: Outcome, wide: bool): Request
  {
    if Moves(o.result, wide) then
      r.(partial := (r.partial + o.result) % WORD,
         offset := (r.offset + o.result) % WORD,
         data := if r.major.Read? then r.data + o.data else r.data)
    else r
  }

  datatype Visited = Kept(r: Request) | Finished(c: Completion)

  function Visit(r: Request, w: World): Visited
  {
    if !Ready(r, w) then Kept(r)
    else
      var o := w.does(r);
      if r.major.Control? then Finished(Completion(r.device, r.id, SUCCESS, 4, o.data))
      else
        var d := Advanced(r, o, w.wide);
        if d.partial == d.length || o.result == 0
        then Finished(Completion(r.device, r.id, o.status, d.partial, if r.major.Read? then SoFar(d) else [0]))
        else Kept(d)
  }

  /** The bytes moved so far. */
  function SoFar(r: Request): seq<byte> { if r.partial <= |r.data| then r.data[..r.partial] else r.data }

  // The list.

  /** The place of the first unused element, or the end. */
  function Free(list: seq<Request>): (k: nat)
    ensures k <= |list| && (k < |list| ==> list[k].fd == 0) && forall i :: 0 <= i < k ==> list[i].fd != 0
  {
    if list == [] then 0
    else if list[0].fd == 0 then 0
    else 1 + Free(list[1..])
  }

  function Add(list: seq<Request>, r: Request): seq<Request>
  {
    var k := Free(list);
    if k < |list| then list[k := r] else list + [r]
  }

  datatype Pass = Pass(list: seq<Request>, sent: seq<Completion>)

  /** The main walk: `done` has been passed. When the first element goes, the walk ends; when another
      one goes, the element after it is passed over. */
  function Walk(done: seq<Request>, rest: seq<Request>, sent: seq<Completion>, w: World): Pass
    decreases |rest|
  {
    if rest == [] then Pass(done, sent)
    else
      match Visit(rest[0], w)
      case Kept(r) => Walk(done + [r], rest[1..], sent, w)
      case Finished(c) =>
        if done == [] then Pass(rest[1..], sent + [c])
        else if |rest| == 1 then Pass(done, sent + [c])
        else Walk(done + [rest[1]], rest[2..], sent + [c], w)
  }

  /** The first request on a file, of a kind if one is named. */
  predicate Matches(r: Request, fd: nat, major: Option<Major>)
  {
    r.fd == fd && (major.None? || r.major == major.value)
  }

  function FirstMatch(list: seq<Request>, fd: nat, major: Option<Major>): (k: nat)
    ensures k <= |list| && (k < |list| ==> Matches(list[k], fd, major))
    ensures forall i :: 0 <= i < k ==> !Matches(list[i], fd, major)
  {
    if list == [] then 0
    else if Matches(list[0], fd, major) then 0
    else 1 + FirstMatch(list[1..], fd, major)
  }

  function Abort(p: Pass, fd: nat, major: Option<Major>, status: nat): Pass
  {
    var k := FirstMatch(p.list, fd, major);
    if k == |p.list| then p
    else Pass(p.list[..k] + p.list[k + 1..], p.sent + [Completion(p.list[k].device, p.list[k].id, status, 0, [0])])
  }

  /** After a timeout: a serial read that has got something is answered with it, otherwise the first
      request on the file is given up. */
  function TimedOut(p: Pass, fd: nat, serial: bool): Pass
  {
    if p.list != [] && p.list[0].fd == fd && p.list[0].partial > 0 && serial then
      var r := p.list[0];
      Pass(p.list[1..], p.sent + [Completion(r.device, r.id, SUCCESS, r.partial, SoFar(r))])
    else Abort(p, fd, None, TIMEOUT)
  }

  /** A directory request that a change on a disk can answer. */
  predicate Notifiable(r: Request, disk: nat -> bool) { r.fd != 0 && r.major.Directory? && disk(r.device) }

  function FirstNotifiable(list: seq<Request>, disk: nat -> bool): (k: nat)
    ensures k <= |list| && (k < |list| ==> Notifiable(list[k], disk))
    ensures forall i :: 0 <= i < k ==> !Notifiable(list[i], disk)
  {
    if list == [] then 0
    else if Notifiable(list[0], disk) then 0
    else 1 + FirstNotifiable(list[1..], disk)
  }

  datatype Noted = Noted(p: Pass, stamp: bool)

  /** The walk over directory requests: the stamp that says something was written is used up by the
      first of them, so that no other is looked at. */
  function Notify(p: Pass, stamp: bool, disk: nat -> bool, check: nat -> nat): Noted
  {
    var k := FirstNotifiable(p.list, disk);
    if !stamp || k == |p.list| then Noted(p, stamp)
    else
      var r := p.list[k];
      if check(r.fd) == PENDING then Noted(p, false)
      else Noted(Pass(p.list[..k] + p.list[k + 1..], p.sent + [Completion(r.device, r.id, check(r.fd), 0, [])]), false)
  }

  // Counting.

  function Mine(r: Request, device: nat, id: nat): nat { if r.device == device && r.id == id then 1 else 0 }

  /** How many requests of the list, used or not, have this number. */
  function Waiting(list: seq<Request>, device: nat, id: nat): nat
  {
    if list == [] then 0 else Mine(list[0], device, id) + Waiting(list[1..], device, id)
  }

  /** How many answers it has had. */
  function Answers(sent: seq<Completion>, device: nat, id: nat): nat
  {
    if sent == [] then 0
    else
      var last := sent[|sent| - 1];
      Answers(sent[..|sent| - 1], device, id) + if last.device == device && last.id == id then 1 else 0
  }
}
