/** What every sequence of opens, closes and deletions keeps of the disk's table. */
module DiskProofs {
  import opened Bits
  import opened Wrappers
  import opened DiskSpec

  // Handles are indices and back.

  lemma {:induction false} FlipTwice(x: nat, k: nat)
    ensures Flip(Flip(x, k), k) == x
  {
    if k > 0 {
      FlipTwice(x / 2, k - 1);
    }
  }

  /** Flip is the XOR with k ones: it turns over the bits below k and no other. */
  lemma {:induction false} FlipBits(x: nat, k: nat, j: nat)
    ensures Bit(Flip(x, k), j) <==> if j < k then !Bit(x, j) else Bit(x, j)
  {
    if k > 0 && j > 0 {
      FlipBits(x / 2, k - 1, j - 1);
    }
  }

  lemma {:induction false} FlipIs(x: nat, k: nat)
    requires x < Pow2(k)
    ensures Flip(x, k) == Pow2(k) - 1 - x
  {
    if k > 0 {
      FlipIs(x / 2, k - 1);
    }
  }

  /** Handles count down from 2^31 - 1: none is negative as a signed word, none is 0 before the table
      has 2^31 places, and no two places share one. */
  lemma HandleRange(idx: nat, other: nat)
    requires idx < 0x8000_0000
    ensures HandleOf(idx) == 0x7fff_ffff - idx && HandleOf(idx) < 0x8000_0000
    ensures HandleOf(idx) == 0 <==> idx == 0x7fff_ffff
    ensures HandleOf(idx) == HandleOf(other) ==> idx == other
  {
    Pow2Word();
    FlipIs(idx, BITS);
    FlipTwice(idx, BITS);
    FlipTwice(other, BITS);
  }

  lemma Pow2Word()
    ensures Pow2(BITS) == 0x8000_0000
  {
    Pow2Octet();
    assert Pow2(15) == 128 * Pow2(8) by { assert Pow2(11) == 8 * Pow2(8); }
    assert Pow2(19) == 16 * Pow2(15);
    assert Pow2(23) == 16 * Pow2(19);
    assert Pow2(27) == 16 * Pow2(23);
  }

  // Counting handles.

  function One(slot: Option<Open>, id: nat): nat
  {
    if slot.Some? && slot.value.file == id then 1 else 0
  }

  function Handles(slots: seq<Option<Open>>, id: nat): nat
  {
    if slots == [] then 0 else Handles(slots[..|slots| - 1], id) + One(slots[|slots| - 1], id)
  }

  lemma {:induction false} HandlesUpdate(slots: seq<Option<Open>>, i: nat, x: Option<Open>, id: nat)
    requires i < |slots|
    ensures Handles(slots[i := x], id) + One(slots[i], id) == Handles(slots, id) + One(x, id)
  {
    hide One;
    var n := |slots| - 1;
    if i == n {
      assert slots[i := x][..n] == slots[..n];
    } else {
      HandlesUpdate(slots[..n], i, x, id);
      assert slots[i := x][..n] == slots[..n][i := x];
    }
  }

  lemma GrantHandles(slots: seq<Option<Open>>, o: Open, id: nat)
    ensures Handles(Grant(slots, o), id) == Handles(slots, id) + One(Some(o), id)
  {
    var i := FirstFree(slots);
    if i < |slots| {
      HandlesUpdate(slots, i, Some(o), id);
    } else {
      assert (slots + [Some(o)])[..|slots|] == slots;
    }
  }

  lemma {:induction false} SomeHandle(slots: seq<Option<Open>>, i: nat, id: nat)
    requires i < |slots| && One(slots[i], id) == 1
    ensures Handles(slots, id) >= 1
  {
    if i < |slots| - 1 {
      SomeHandle(slots[..|slots| - 1], i, id);
    }
  }

  /** With one handle left there is no second one. */
  lemma LastHandle(slots: seq<Option<Open>>, i: nat, j: nat, id: nat)
    requires i < |slots| && j < |slots| && i != j && One(slots[i], id) == 1 && Handles(slots, id) == 1
    ensures One(slots[j], id) == 0
  {
    HandlesUpdate(slots, i, None, id);
    if One(slots[j], id) == 1 {
      SomeHandle(slots[i := None], j, id);
    }
  }

  // What is kept.

  /** Files have numbers of their own, given out in order, and names of their own. */
  ghost predicate Named(files: seq<OsFile>, nextId: nat)
  {
    && (forall k :: 0 <= k < |files| ==> files[k].id < nextId && !Forbidden(files[k].name))
    && (forall j, k :: 0 <= j < k < |files| ==> files[j].id < files[k].id && files[j].name != files[k].name)
  }

  /** A file's open count is the number of handles on it, and it is on the list just while that is
      positive. */
  ghost predicate Counted(files: seq<OsFile>, slots: seq<Option<Open>>)
  {
    && (forall k :: 0 <= k < |files| ==> files[k].count == Handles(slots, files[k].id) >= 1)
    && (forall i :: 0 <= i < |slots| && slots[i].Some? ==> FindId(files, slots[i].value.file) < |files|)
  }

  /** Who shares so lets another handle do this: write where writing is shared, read where reading is. */
  predicate Admits(share: Share, other: Access)
  {
    && (other.all || other.write ==> share.write)
    && (other.all || other.read || other.execute ==> share.read)
  }

  /** Each of two handles on one file shares what the other does. */
  predicate Peaceful(a: Option<Open>, b: Option<Open>)
  {
    a.Some? && b.Some? && a.value.file == b.value.file ==>
        Admits(a.value.share, b.value.access) && Admits(b.value.share, a.value.access)
  }

  /** Any two handles on one file share what the other does. */
  ghost predicate Shared(slots: seq<Option<Open>>)
  {
    forall i, j :: 0 <= i < j < |slots| ==> Peaceful(slots[i], slots[j])
  }

  ghost predicate Good(t: Table)
  {
    Named(t.files, t.nextId) && Counted(t.files, t.slots) && Shared(t.slots)
  }

  lemma FindIdIs(files: seq<OsFile>, nextId: nat, k: nat)
    requires Named(files, nextId) && k < |files|
    ensures FindId(files, files[k].id) == k
  {
  }

  lemma FindIdUpdate(files: seq<OsFile>, k: nat, f: OsFile, id: nat)
    requires k < |files| && f.id == files[k].id
    ensures FindId(files[k := f], id) == FindId(files, id)
  {
    var a, b := FindId(files[k := f], id), FindId(files, id);
    assert a < |files| ==> files[k := f][a].id == files[a].id;
    assert b < |files| ==> files[k := f][b].id == files[b].id;
  }

  /** A handle that clashes with none of those there. */
  lemma GrantShared(slots: seq<Option<Open>>, o: Open)
    requires Shared(slots) && !Clash(slots, o.file, o.access, o.share)
    ensures Shared(Grant(slots, o))
  {
    forall j | 0 <= j < |slots| ensures !Clashes(slots[j], o.file, o.access, o.share) {
    }
  }

  lemma {:induction false} NoHandles(slots: seq<Option<Open>>, id: nat)
    requires forall i :: 0 <= i < |slots| ==> One(slots[i], id) == 0
    ensures Handles(slots, id) == 0
  {
    if slots != [] {
      NoHandles(slots[..|slots| - 1], id);
    }
  }

  lemma {:induction false} GrantedSlots(slots: seq<Option<Open>>, o: Open, i: nat)
    requires i < |Grant(slots, o)|
    ensures FirstFree(slots) < |Grant(slots, o)| && Grant(slots, o)[FirstFree(slots)] == Some(o)
    ensures i != FirstFree(slots) ==> i < |slots| && Grant(slots, o)[i] == slots[i]
  {
  }

  /** One more handle on a file that is open. */
  lemma OpenAgain(t: Table, k: nat, o: Open)
    requires Good(t) && k < |t.files| && o.file == t.files[k].id && !Clash(t.slots, o.file, o.access, o.share)
    ensures Good(t.(files := t.files[k := t.files[k].(count := t.files[k].count + 1)], slots := Grant(t.slots, o)))
  {
    var f := t.files[k].(count := t.files[k].count + 1);
    var files, slots := t.files[k := f], Grant(t.slots, o);
    GrantShared(t.slots, o);
    forall j | 0 <= j < |files| ensures files[j].count == Handles(slots, files[j].id) >= 1 {
      GrantHandles(t.slots, o, files[j].id);
    }
    forall i | 0 <= i < |slots| && slots[i].Some? ensures FindId(files, slots[i].value.file) < |files| {
      GrantedSlots(t.slots, o, i);
      FindIdUpdate(t.files, k, f, slots[i].value.file);
      FindIdIs(t.files, t.nextId, k);
    }
    hide Shared, Grant;
  }

  lemma FirstCount(t: Table, f: OsFile, o: Open, j: nat)
    requires Good(t) && f.id == o.file == t.nextId && f.count == 1 && j <= |t.files|
    ensures var g := (t.files + [f])[j]; g.count == Handles(Grant(t.slots, o), g.id) >= 1
  {
    hide Shared, Grant;
    GrantHandles(t.slots, o, (t.files + [f])[j].id);
    forall i | 0 <= i < |t.slots| ensures One(t.slots[i], f.id) == 0 {
    }
    NoHandles(t.slots, f.id);
  }

  lemma FirstPlace(t: Table, f: OsFile, o: Open, i: nat)
    requires Good(t) && f.id == o.file && i < |Grant(t.slots, o)| && Grant(t.slots, o)[i].Some?
    ensures FindId(t.files + [f], Grant(t.slots, o)[i].value.file) < |t.files| + 1
  {
    GrantedSlots(t.slots, o, i);
    hide Shared, Grant, Named;
    assert (t.files + [f])[..|t.files|] == t.files;
  }

  lemma FirstName(t: Table, f: OsFile)
    requires Good(t) && f.id == t.nextId && !Forbidden(f.name) && Find(t.files, f.name) == |t.files|
    ensures Named(t.files + [f], t.nextId + 1)
  {
    hide Shared, Counted, Forbidden;
  }

  /** The first handle on a file that was not open. */
  lemma OpenFirst(t: Table, f: OsFile, o: Open)
    requires Good(t) && f.id == o.file == t.nextId && f.count == 1 && !Forbidden(f.name)
             && Find(t.files, f.name) == |t.files|
    ensures Good(t.(files := t.files + [f], slots := Grant(t.slots, o), nextId := t.nextId + 1))
  {
    var files, slots := t.files + [f], Grant(t.slots, o);
    FirstName(t, f);
    forall i | 0 <= i < |t.slots| ensures !Clashes(t.slots[i], o.file, o.access, o.share) {
    }
    GrantShared(t.slots, o);
    forall j | 0 <= j < |files| ensures files[j].count == Handles(slots, files[j].id) >= 1 {
      FirstCount(t, f, o, j);
    }
    forall i | 0 <= i < |slots| && slots[i].Some? ensures FindId(files, slots[i].value.file) < |files| {
      FirstPlace(t, f, o, i);
    }
    hide Shared, Grant, Named;
  }

  /** Only the files, the handles and the numbers matter. */
  lemma SameGood(t: Table, u: Table)
    requires Good(t) && u.files == t.files && u.slots == t.slots && u.nextId == t.nextId
    ensures Good(u)
  {
  }

  lemma CreateKeeps(t: Table, q: Request, w: World)
    requires Good(t)
    ensures Good(Create(t, q, w).t)
  {
    var c := Create(t, q, w).t;
    hide Good, Grant, FirstFree, Find, Clash, Forbidden;
    var k := Find(t.files, q.name);
    if k < |t.files| && !Forbidden(q.name) && Refusal(t.files[k], t.slots, q).Success? {
      var o := Open(q.device, t.files[k].id, false, q.access, q.share);
      OpenAgain(t, k, o);
      SameGood(t.(files := t.files[k := t.files[k].(count := t.files[k].count + 1)], slots := Grant(t.slots, o)), c);
    } else if k == |t.files| && OpenNew(q, w).Fresh? && !Forbidden(q.name) {
      var n := OpenNew(q, w);
      var f, o := OsFile(t.nextId, q.name, 1, n.dir, n.readOnly), Open(q.device, t.nextId, false, q.access, q.share);
      OpenFirst(t, f, o);
      SameGood(t.(files := t.files + [f], slots := Grant(t.slots, o), nextId := t.nextId + 1), c);
    } else {
      SameGood(t, c);
    }
  }

  // Closing.

  /** The open file of a handle. */
  lemma FileOf(t: Table, handle: nat) returns (k: nat)
    requires Good(t) && Slot(t.slots, handle).Some?
    ensures var o := t.slots[IndexOf(handle)].value;
            k < |t.files| && k == FindId(t.files, o.file) && t.files[k].id == o.file
                && t.files[k].count == Handles(t.slots, o.file) >= 1
  {
    hide Named, Shared;
    k := FindId(t.files, t.slots[IndexOf(handle)].value.file);
  }

  lemma ReleaseCount(t: Table, idx: nat, k: nat, j: nat)
    requires Good(t) && idx < |t.slots| && t.slots[idx].Some? && k < |t.files|
             && t.files[k].id == t.slots[idx].value.file
    requires j < |Release(t.files, k)|
    ensures var g := Release(t.files, k)[j]; g.count == Handles(t.slots[idx := None], g.id) >= 1
  {
    hide Shared;
    var g := Release(t.files, k)[j];
    HandlesUpdate(t.slots, idx, None, g.id);
  }

  lemma ReleaseNamed(files: seq<OsFile>, nextId: nat, k: nat)
    requires Named(files, nextId) && k < |files|
    ensures Named(Release(files, k), nextId)
  {
    hide Forbidden;
    var r := Release(files, k);
    forall i | 0 <= i < |r| ensures r[i].id < nextId && !Forbidden(r[i].name) && r[i].id == files[Old(files, k, i)].id
        && r[i].name == files[Old(files, k, i)].name {
    }
  }

  /** Where a file on the list was before. */
  function Old(files: seq<OsFile>, k: nat, i: nat): (j: nat)
    requires k < |files| && i < |Release(files, k)|
    ensures j < |files| && Release(files, k)[i].id == files[j].id && Release(files, k)[i].name == files[j].name
  {
    if files[k].count == 1 && i >= k then i + 1 else i
  }

  lemma ReleasePlace(t: Table, idx: nat, k: nat, i: nat)
    requires Good(t) && idx < |t.slots| && t.slots[idx].Some? && k < |t.files|
             && t.files[k].id == t.slots[idx].value.file
    requires i < |t.slots| && i != idx && t.slots[i].Some?
    ensures FindId(Release(t.files, k), t.slots[i].value.file) < |Release(t.files, k)|
  {
    hide Named, Shared;
    var id := t.slots[i].value.file;
    var m := FindId(t.files, id);
    if t.files[k].count == 1 {
      if m == k {
        LastHandle(t.slots, idx, i, id);
      } else {
        assert Release(t.files, k)[if m < k then m else m - 1].id == id;
      }
    } else {
      FindIdUpdate(t.files, k, t.files[k].(count := t.files[k].count - 1), id);
    }
  }

  lemma CloseGood(t: Table, idx: nat, k: nat)
    requires Good(t) && idx < |t.slots| && t.slots[idx].Some? && k < |t.files|
             && t.files[k].id == t.slots[idx].value.file
    ensures Good(t.(files := Release(t.files, k), slots := t.slots[idx := None]))
  {
    var files, slots := Release(t.files, k), t.slots[idx := None];
    ReleaseNamed(t.files, t.nextId, k);
    forall j | 0 <= j < |files| ensures files[j].count == Handles(slots, files[j].id) >= 1 {
      ReleaseCount(t, idx, k, j);
    }
    forall i | 0 <= i < |slots| && slots[i].Some? ensures FindId(files, slots[i].value.file) < |files| {
      ReleasePlace(t, idx, k, i);
    }
    hide Release, Named;
  }

  /** A flag on a handle changes nothing that is kept. */
  lemma FlagGood(t: Table, idx: nat, flag: bool)
    requires Good(t) && idx < |t.slots| && t.slots[idx].Some?
    ensures Good(t.(slots := t.slots[idx := Some(t.slots[idx].value.(deleteOnClose := flag))]))
  {
    hide Named;
    var o := t.slots[idx].value.(deleteOnClose := flag);
    var slots := t.slots[idx := Some(o)];
    forall j | 0 <= j < |t.files| ensures t.files[j].count == Handles(slots, t.files[j].id) >= 1 {
      HandlesUpdate(t.slots, idx, Some(o), t.files[j].id);
    }
  }

  lemma CloseKeeps(t: Table, handle: nat, removed: bool)
    requires Good(t)
    ensures Good(Close(t, handle, removed).t)
  {
    if Slot(t.slots, handle).Some? {
      var k := FileOf(t, handle);
      var idx := IndexOf(handle);
      var o, c := t.slots[idx].value, Close(t, handle, removed).t;
      hide Good, FindId;
      if Close(t, handle, removed).status.Success? {
        CloseGood(t, idx, k);
        SameGood(t.(files := Release(t.files, k), slots := t.slots[idx := None]), c);
      } else {
        FlagGood(t, idx, false);
        SameGood(t.(slots := t.slots[idx := Some(o.(deleteOnClose := false))]), c);
      }
    }
  }

  lemma ScheduleKeeps(t: Table, handle: nat, empty: bool)
    requires Good(t)
    ensures Good(Schedule(t, handle, empty).t)
  {
    hide Good, FindId;
    if Slot(t.slots, handle).Some? {
      FlagGood(t, IndexOf(handle), true);
    }
  }

  // Runs.

  datatype Op = OpenOp(q: Request, w: World) | CloseOp(handle: nat, removed: bool)
      | ScheduleOp(handle: nat, empty: bool)

  function Apply(t: Table, op: Op): Table
  {
    match op
    case OpenOp(q, w) => Create(t, q, w).t
    case CloseOp(handle, removed) => Close(t, handle, removed).t
    case ScheduleOp(handle, empty) => Schedule(t, handle, empty).t
  }

  function Run(ops: seq<Op>): Table
  {
    if ops == [] then EMPTY else Apply(Run(ops[..|ops| - 1]), ops[|ops| - 1])
  }

  /** Whatever is opened, closed and scheduled for deletion, in whatever order. */
  lemma {:induction false} RunKeeps(ops: seq<Op>)
    ensures Good(Run(ops))
  {
    if ops != [] {
      var t, op := Run(ops[..|ops| - 1]), ops[|ops| - 1];
      RunKeeps(ops[..|ops| - 1]);
      hide Good, Create, Close, Schedule;
      match op
      case OpenOp(q, w) => CreateKeeps(t, q, w);
      case CloseOp(handle, removed) => CloseKeeps(t, handle, removed);
      case ScheduleOp(handle, empty) => ScheduleKeeps(t, handle, empty);
    }
  }

  /** What a handle means, apart from the deletion that may be scheduled on it. */
  function Meaning(slots: seq<Option<Open>>, handle: nat): Option<Open>
  {
    var o := Slot(slots, handle);
    if o.Some? then Some(o.value.(deleteOnClose := false)) else None
  }

  /** A live handle means the same until it is closed. */
  lemma HandleStable(ops: seq<Op>, op: Op, handle: nat)
    requires Slot(Run(ops).slots, handle).Some?
    ensures var t := Run(ops);
            || Meaning(Apply(t, op).slots, handle) == Meaning(t.slots, handle)
            || (op.CloseOp? && IndexOf(op.handle) == IndexOf(handle) && Close(t, op.handle, op.removed).status.Success?
                && Slot(Apply(t, op).slots, handle).None?)
  {
    var t := Run(ops);
    RunKeeps(ops);
    hide Run, Named, Counted, Shared, Find, Clash, Forbidden, OpenNew, Release, FindId, Flip;
  }

  /** The handle that an open grants. */
  function Opened(t: Table, q: Request): Open
  {
    var k := Find(t.files, q.name);
    Open(q.device, if k < |t.files| then t.files[k].id else t.nextId, false, q.access, q.share)
  }

  lemma CreatedIs(t: Table, q: Request, w: World)
    requires Create(t, q, w).status.Success?
    ensures var c, k, o := Create(t, q, w), Find(t.files, q.name), Opened(t, q);
            && c.t.slots == Grant(t.slots, o) && c.idx == FirstFree(t.slots)
            && k < |c.t.files| && c.t.files[k].id == o.file && c.t.files[k].name == q.name
  {
    hide Grant, FirstFree, Forbidden, Clash;
  }

  lemma Granted(slots: seq<Option<Open>>, o: Open)
    ensures var i := FirstFree(slots);
            && i < |Grant(slots, o)| && Grant(slots, o)[i] == Some(o) && (i < |slots| ==> slots[i].None?)
  {
  }

  /** A new handle meant nothing before, and means what was asked for: the file of that name, with that
      access and sharing, and no deletion. */
  lemma HandleFresh(t: Table, q: Request, w: World)
    requires Create(t, q, w).status.Success?
    ensures var c, k := Create(t, q, w), Find(t.files, q.name);
            var h := HandleOf(c.idx);
            && Slot(t.slots, h).None? && Slot(c.t.slots, h).Some?
            && var o := Slot(c.t.slots, h).value;
               && o.access == q.access && o.share == q.share && o.device == q.device && !o.deleteOnClose
               && k < |c.t.files| && c.t.files[k].id == o.file && c.t.files[k].name == q.name
  {
    hide Create, Find, Flip, FirstFree, Grant;
    FlipTwice(FirstFree(t.slots), BITS);
    CreatedIs(t, q, w);
    Granted(t.slots, Opened(t, q));
  }

  /** A deletion is done only by closing the last handle on the file, with the deletion scheduled on
      that handle; afterwards the file is not open. */
  lemma DeletedAtLast(ops: seq<Op>, op: Op)
    requires Apply(Run(ops), op).deleted != Run(ops).deleted
    ensures var t := Run(ops);
            && op.CloseOp? && Slot(t.slots, op.handle).Some?
            && var o := Slot(t.slots, op.handle).value;
               o.deleteOnClose && op.removed && Handles(t.slots, o.file) == 1
                   && Handles(Apply(t, op).slots, o.file) == 0
               && FindId(t.files, o.file) < |t.files|
                   && Apply(t, op).deleted == t.deleted + [t.files[FindId(t.files, o.file)].name]
  {
    var t := Run(ops);
    RunKeeps(ops);
    hide Run, Named, Shared, Find, Clash, Forbidden, OpenNew, Release, Flip, Grant;
    if op.CloseOp? && Slot(t.slots, op.handle).Some? {
      var k := FileOf(t, op.handle);
      HandlesUpdate(t.slots, IndexOf(op.handle), None, t.slots[IndexOf(op.handle)].value.file);
    }
  }

  /** With other handles left, a scheduled deletion is refused and forgotten: closing again closes. */
  lemma RefusedThenClosed(ops: seq<Op>, handle: nat, removed: bool, again: bool)
    requires Close(Run(ops), handle, removed).status.AccessDenied?
    ensures var c := Close(Run(ops), handle, removed);
            && c.t.deleted == Run(ops).deleted && Meaning(c.t.slots, handle) == Meaning(Run(ops).slots, handle)
            && Close(c.t, handle, again).status.Success? && Close(c.t, handle, again).t.deleted == c.t.deleted
  {
    hide Run, Release, FindId;
  }

  // Where a deletion comes from.

  /** A deletion stands on a handle because it stood there before, or because it was scheduled now, with
      the access that allows it. */
  lemma FlagStep(t: Table, op: Op, handle: nat)
    requires Slot(Apply(t, op).slots, handle).Some? && Slot(Apply(t, op).slots, handle).value.deleteOnClose
    ensures Slot(t.slots, handle).Some? && Meaning(Apply(t, op).slots, handle) == Meaning(t.slots, handle)
    ensures Slot(t.slots, handle).value.deleteOnClose || Schedules(t, op, handle)
  {
    hide Find, Clash, Forbidden, OpenNew, Release, FindId, Flip;
    if op.OpenOp? {
      GrantFlag(t.slots, Open(op.q.device, t.nextId, false, op.q.access, op.q.share), IndexOf(handle));
      var k := Find(t.files, op.q.name);
      if k < |t.files| {
        GrantFlag(t.slots, Open(op.q.device, t.files[k].id, false, op.q.access, op.q.share), IndexOf(handle));
      }
    }
  }

  lemma GrantFlag(slots: seq<Option<Open>>, o: Open, i: nat)
    requires !o.deleteOnClose && i < |Grant(slots, o)|
    ensures var slot := Grant(slots, o)[i];
            slot.Some? && slot.value.deleteOnClose ==> i < |slots| && slots[i] == slot
  {
  }

  /** A request for a deletion on this handle that takes effect. */
  predicate Schedules(t: Table, op: Op, handle: nat)
  {
    && op.ScheduleOp? && IndexOf(op.handle) == IndexOf(handle)
    && Slot(t.slots, handle).Some? && Slot(t.slots, handle).value.access.delete
    && Schedule(t, op.handle, op.empty).status.Success?
  }

  /** From step i on the handle means the same, and the deletion stands on it. */
  ghost predicate Lasting(ops: seq<Op>, i: nat, handle: nat)
  {
    forall m {:trigger Standing(ops, m, handle)} :: i < m <= |ops| ==> Standing(ops, m, handle)
  }

  predicate Standing(ops: seq<Op>, m: nat, handle: nat)
    requires m <= |ops|
  {
    var slot := Slot(Run(ops[..m]).slots, handle);
    slot.Some? && slot.value.deleteOnClose && Meaning(Run(ops[..m]).slots, handle) == Meaning(Run(ops).slots, handle)
  }

  /** A deletion that stands on a handle was scheduled by an earlier request on that handle, with delete
      access, and the handle has been the same ever since. */
  lemma {:induction false} ScheduledBefore(ops: seq<Op>, handle: nat) returns (i: nat)
    requires Slot(Run(ops).slots, handle).Some? && Slot(Run(ops).slots, handle).value.deleteOnClose
    ensures i < |ops| && Schedules(Run(ops[..i]), ops[i], handle) && Lasting(ops, i, handle)
    ensures Meaning(Run(ops[..i]).slots, handle) == Meaning(Run(ops).slots, handle)
  {
    hide Apply, Schedules, Flip;
    assert ops != [];
    var n := |ops| - 1;
    var before := ops[..n];
    assert ops[..|ops|] == ops;
    FlagStep(Run(before), ops[n], handle);
    if Slot(Run(before).slots, handle).value.deleteOnClose {
      i := ScheduledBefore(before, handle);
      assert before[..i] == ops[..i];
      forall m | i < m <= |ops| ensures Standing(ops, m, handle) {
        if m <= n {
          assert before[..m] == ops[..m];
          assert Standing(before, m, handle);
        }
      }
    } else {
      i := n;
    }
  }

  /** Every deletion was asked for on the handle whose closing performs it. */
  lemma DeletionAsked(ops: seq<Op>, op: Op) returns (i: nat)
    requires Apply(Run(ops), op).deleted != Run(ops).deleted
    ensures op.CloseOp? && i < |ops| && Schedules(Run(ops[..i]), ops[i], op.handle) && Lasting(ops, i, op.handle)
    ensures Meaning(Run(ops[..i]).slots, op.handle) == Meaning(Run(ops).slots, op.handle)
  {
    hide Lasting, Schedules;
    DeletedAtLast(ops, op);
    i := ScheduledBefore(ops, op.handle);
  }

  // Read-only files.

  predicate Holds(f: OsFile, name: string) { f.name == name && f.readOnly && !f.dir }

  /** A read-only file of this name is open. */
  ghost predicate Held(files: seq<OsFile>, name: string)
  {
    exists k :: 0 <= k < |files| && Holds(files[k], name)
  }

  /** The read-only attribute is off on just those files that are open. */
  ghost predicate Even(t: Table)
  {
    forall name :: name in t.cleared <==> Held(t.files, name)
  }

  lemma HeldMore(files: seq<OsFile>, f: OsFile, name: string)
    ensures Held(files + [f], name) <==> Held(files, name) || Holds(f, name)
  {
    if k :| 0 <= k < |files| && Holds(files[k], name) {
      assert (files + [f])[k] == files[k];
    }
    if Holds(f, name) {
      assert (files + [f])[|files|] == f;
    }
  }

  lemma HeldCount(files: seq<OsFile>, k: nat, count: int, name: string)
    requires k < |files|
    ensures Held(files[k := files[k].(count := count)], name) <==> Held(files, name)
  {
    var now := files[k := files[k].(count := count)];
    if i :| 0 <= i < |files| && Holds(files[i], name) {
      assert Holds(now[i], name);
    }
  }

  lemma HeldRelease(files: seq<OsFile>, nextId: nat, k: nat, name: string)
    requires Named(files, nextId) && k < |files|
    ensures Held(Release(files, k), name) <==> Held(files, name) && !(files[k].count == 1 && files[k].name == name)
  {
    var now := Release(files, k);
    if files[k].count != 1 {
      HeldCount(files, k, files[k].count - 1, name);
    } else if i :| 0 <= i < |files| && Holds(files[i], name) {
      if i != k {
        assert files[i].name != files[k].name;
        assert now[if i < k then i else i - 1] == files[i];
      }
    }
  }

  lemma CreateEven(t: Table, q: Request, w: World)
    requires Good(t) && Even(t)
    ensures Even(Create(t, q, w).t)
  {
    hide Held, Good, Grant, FirstFree, Clash, Forbidden, OpenNew;
    var u, k := Create(t, q, w).t, Find(t.files, q.name);
    forall name ensures name in u.cleared <==> Held(u.files, name) {
      if k < |t.files| {
        HeldCount(t.files, k, t.files[k].count + 1, name);
      } else {
        NotHeld(t.files, q.name);
        if OpenNew(q, w).Fresh? {
          HeldMore(t.files, OsFile(t.nextId, q.name, 1, OpenNew(q, w).dir, OpenNew(q, w).readOnly), name);
        }
      }
    }
  }

  lemma NotHeld(files: seq<OsFile>, name: string)
    requires Find(files, name) == |files|
    ensures !Held(files, name)
  {
  }

  /** A close that loses the read-only attribute: of the last handle on a read-only file, which was to be
      deleted and could not be. */
  predicate Loses(t: Table, handle: nat, removed: bool)
  {
    && Slot(t.slots, handle).Some?
    && var o := t.slots[IndexOf(handle)].value;
       var k := FindId(t.files, o.file);
       && k < |t.files| && o.deleteOnClose && !removed
       && t.files[k].count == 1 && t.files[k].readOnly && !t.files[k].dir
  }

  /** Whatever is closed, the attribute is put back; exactly that one case excepted. */
  lemma CloseEven(t: Table, handle: nat, removed: bool)
    requires Good(t) && Even(t)
    ensures Even(Close(t, handle, removed).t) <==> !Loses(t, handle, removed)
  {
    if Slot(t.slots, handle).Some? {
      var k := FileOf(t, handle);
      var u, f := Close(t, handle, removed).t, t.files[k];
      hide Held, Counted, Shared, Release, FindId;
      forall name ensures Held(Release(t.files, k), name)
          <==> Held(t.files, name) && !(f.count == 1 && f.name == name) {
        HeldRelease(t.files, t.nextId, k, name);
      }
      HeldAt(t.files, t.nextId, k);
      if Loses(t, handle, removed) {
        assert f.name in u.cleared && !Held(u.files, f.name);
      } else {
        forall name ensures name in u.cleared <==> Held(u.files, name) {
        }
      }
    }
  }

  lemma HeldAt(files: seq<OsFile>, nextId: nat, k: nat)
    requires Named(files, nextId) && k < |files|
    ensures Held(files, files[k].name) <==> files[k].readOnly && !files[k].dir
  {
    if files[k].readOnly && !files[k].dir {
      assert Holds(files[k], files[k].name);
    }
  }

  /** In every run in which no such close happens, the read-only attribute is off on just the files that
      are open. */
  lemma {:induction false} AttributeKept(ops: seq<Op>)
    requires forall i :: 0 <= i < |ops| && ops[i].CloseOp? ==> !Loses(Run(ops[..i]), ops[i].handle, ops[i].removed)
    ensures Even(Run(ops))
  {
    hide Good, Even, Create, Close, Schedule, Loses;
    if ops == [] {
      EmptyEven();
    } else {
      var n := |ops| - 1;
      var t, op := Run(ops[..n]), ops[n];
      forall i | 0 <= i < n ensures ops[..n][..i] == ops[..i] {
      }
      AttributeKept(ops[..n]);
      RunKeeps(ops[..n]);
      match op
      case OpenOp(q, w) => CreateEven(t, q, w);
      case CloseOp(handle, removed) => CloseEven(t, handle, removed);
      case ScheduleOp(handle, empty) => ScheduleEven(t, handle, empty);
    }
  }

  lemma EmptyEven()
    ensures Even(EMPTY)
  {
  }

  lemma ScheduleEven(t: Table, handle: nat, empty: bool)
    requires Even(t)
    ensures Even(Schedule(t, handle, empty).t)
  {
  }

  /** No handle can write to a read-only file; a deletion stands only where the access allows it. */
  ghost predicate Guarded(t: Table)
  {
    forall i, k :: 0 <= i < |t.slots| && t.slots[i].Some? && 0 <= k < |t.files| && Uses(t.slots[i], t.files[k]) ==>
      Permitted(t.slots[i].value, t.files[k])
  }

  predicate Uses(slot: Option<Open>, f: OsFile) { slot.Some? && f.id == slot.value.file }

  predicate Permitted(o: Open, f: OsFile)
  {
    (f.readOnly && !f.dir ==> !o.access.all && !o.access.write) && (o.deleteOnClose ==> o.access.delete)
  }

  lemma CreateGuarded(t: Table, q: Request, w: World)
    requires Good(t) && Guarded(t)
    ensures Guarded(Create(t, q, w).t)
  {
    hide Counted, Shared, Grant, FirstFree, Clash, Forbidden, Find;
    var u, c := Create(t, q, w).t, Create(t, q, w);
    if c.status.Success? {
      var o := Opened(t, q);
      forall i, k | 0 <= i < |u.slots| && u.slots[i].Some? && 0 <= k < |u.files|
          && u.files[k].id == u.slots[i].value.file
        ensures Permitted(u.slots[i].value, u.files[k])
      {
        GrantedSlots(t.slots, o, i);
        if i != FirstFree(t.slots) && k < |t.files| {
          assert Permitted(t.slots[i].value, t.files[k]);
        } else if i != FirstFree(t.slots) {
          OldFile(t, i);
        }
      }
    }
  }

  lemma OldFile(t: Table, i: nat)
    requires Good(t) && i < |t.slots| && t.slots[i].Some?
    ensures t.slots[i].value.file < t.nextId
  {
  }

  lemma CloseGuarded(t: Table, handle: nat, removed: bool)
    requires Good(t) && Guarded(t)
    ensures Guarded(Close(t, handle, removed).t)
  {
    if Slot(t.slots, handle).Some? {
      var k := FileOf(t, handle);
      var u := Close(t, handle, removed).t;
      hide Good, FindId, Named;
      forall i, j | 0 <= i < |u.slots| && u.slots[i].Some? && 0 <= j < |u.files|
          && u.files[j].id == u.slots[i].value.file
        ensures Permitted(u.slots[i].value, u.files[j])
      {
        var m := if u.files == t.files then j else Old(t.files, k, j);
        assert Permitted(t.slots[i].value, t.files[m]);
      }
    }
  }

  lemma ScheduleGuarded(t: Table, handle: nat, empty: bool)
    requires Good(t) && Guarded(t)
    ensures Guarded(Schedule(t, handle, empty).t)
  {
    hide Good, FindId;
    var u := Schedule(t, handle, empty).t;
    forall i, k | 0 <= i < |u.slots| && u.slots[i].Some? && 0 <= k < |u.files| && u.files[k].id == u.slots[i].value.file
      ensures Permitted(u.slots[i].value, u.files[k])
    {
      assert Permitted(t.slots[i].value, t.files[k]);
    }
  }

  /** In every run no handle can write to a file that is read-only, and no deletion stands on a handle
      without the access for it. */
  lemma {:induction false} RunGuarded(ops: seq<Op>)
    ensures Guarded(Run(ops))
  {
    if ops != [] {
      var t, op := Run(ops[..|ops| - 1]), ops[|ops| - 1];
      RunGuarded(ops[..|ops| - 1]);
      RunKeeps(ops[..|ops| - 1]);
      hide Good, Guarded, Create, Close, Schedule;
      match op
      case OpenOp(q, w) => CreateGuarded(t, q, w);
      case CloseOp(handle, removed) => CloseGuarded(t, handle, removed);
      case ScheduleOp(handle, empty) => ScheduleGuarded(t, handle, empty);
    }
  }

  // What kind of file is opened, and how a failure is reported.

  /** A directory that cannot be made is reported as it should be exactly when the code is the one for a
      missing path. */
  lemma MakeReported(t: Table, q: Request, w: World)
    requires !Forbidden(q.name) && Find(t.files, q.name) == |t.files| && NotThere(w.query)
    requires q.wantDir && !q.disposition.OpenExisting? && w.makeDir != NO_ERROR
    ensures Create(t, q, w).t == t
    ensures Create(t, q, w).status == MakeMeant(w.makeDir) <==> w.makeDir == ERROR_PATH_NOT_FOUND
  {
    hide Find, Forbidden;
  }

  /** What is on the disk after an open of something that was not open: a directory, or a file. */
  predicate OnDisk(q: Request, w: World) { if w.query == NO_ERROR then w.dir else q.wantDir }

  /** A new open takes what it opened for what it is, exactly unless a directory was asked for where
      there is a file; that is then handled as a directory, not opened, and deleted as one. */
  lemma TakenForWhatItIs(t: Table, q: Request, w: World)
    requires Find(t.files, q.name) == |t.files| && Create(t, q, w).status.Success?
    ensures var f := Create(t, q, w).t.files[|t.files|];
            f.name == q.name && (f.dir == OnDisk(q, w) <==> !(w.query == NO_ERROR && !w.dir && q.wantDir))
  {
    hide Find, Forbidden, Grant, FirstFree;
  }
}
