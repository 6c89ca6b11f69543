/** The handles of the OS/2 disk on values: real files with their open counts, and the handles on them. */
module DiskSpec {
  import opened Wrappers

  /** The bits of an access mask that matter here; `delete` stands for the two that allow deletion. */
  datatype Access = Access(all: bool, read: bool, write: bool, execute: bool, delete: bool)
  {
    predicate Reads() { all || read || execute }
    predicate Writes() { all || write }
  }

  datatype Share = Share(read: bool, write: bool)

  datatype Disposition = OpenExisting | CreateNew | OpenAlways | TruncateExisting | CreateAlways

  datatype Status = Success | InvalidHandle | NoSuchFile | AccessDenied | NameCollision | IsADirectory
      | DirectoryNotEmpty

  /** What a handle stands for. */
  datatype Open = Open(device: nat, file: nat, deleteOnClose: bool, access: Access, share: Share)

  /** A real file or directory, known by its number. */
  datatype OsFile = OsFile(id: nat, name: string, count: int, dir: bool, readOnly: bool)

  /** The open files, the handles on them, and what the program has done: files deleted, files whose
      read-only attribute is taken off, whether anything may have been written, handles on which one
      waiting request was to be given up. */
  datatype Table = Table(
    files: seq<OsFile>,
    slots: seq<Option<Open>>,
    nextId: nat,
    deleted: seq<string>,
    cleared: set<string>,
    stamp: bool,
    aborted: seq<nat>)

  const EMPTY := Table([], [], 0, [], {}, false, [])

  datatype Request = Request(
    device: nat,
    name: string,
    access: Access,
    share: Share,
    disposition: Disposition,
    wantDir: bool,
    wantFile: bool)

  // The operating system's return codes.
  const NO_ERROR: nat := 0
  const ERROR_FILE_NOT_FOUND: nat := 2
  const ERROR_PATH_NOT_FOUND: nat := 3
  const ERROR_SHARING_VIOLATION: nat := 32

  /** What the operating system answers: about the path, with its attributes, about making a directory,
      about opening. */
  datatype World = World(query: nat, dir: bool, readOnly: bool, makeDir: nat, open: nat)

  // Handles.

  /** XOR with k ones: the low k bits are flipped, the others stay. */
  function Flip(x: nat, k: nat): nat
  {
    if k == 0 then x else 2 * Flip(x / 2, k - 1) + (1 - x % 2)
  }

  const BITS: nat := 31

  function HandleOf(idx: nat): nat { Flip(idx, BITS) }

  function IndexOf(handle: nat): nat { Flip(handle, BITS) }

  /** _getRDFile */
  function Slot(slots: seq<Option<Open>>, handle: nat): Option<Open>
  {
    if IndexOf(handle) >= |slots| then None else slots[IndexOf(handle)]
  }

  // Looking things up.

  /** The place of the first file of that name, or the number of files. */
  function Find(files: seq<OsFile>, name: string): (k: nat)
    ensures k <= |files| && (k < |files| ==> files[k].name == name) && forall i :: 0 <= i < k ==> files[i].name != name
  {
    if files == [] then 0
    else
      var k := Find(files[..|files| - 1], name);
      if k < |files| - 1 || files[|files| - 1].name == name then k else |files|
  }

  /** The place of the file of that number. */
  function FindId(files: seq<OsFile>, id: nat): (k: nat)
    ensures k <= |files| && (k < |files| ==> files[k].id == id) && forall i :: 0 <= i < k ==> files[i].id != id
  {
    if files == [] then 0
    else
      var k := FindId(files[..|files| - 1], id);
      if k < |files| - 1 || files[|files| - 1].id == id then k else |files|
  }

  /** Neither handle may do what the other does not share. */
  predicate Conflict(share: Share, access: Access, theirs: Share, their: Access)
  {
    || (!theirs.read && access.Reads()) || (!theirs.write && access.Writes())
    || (!share.read && their.Reads()) || (!share.write && their.Writes())
  }

  predicate Clashes(slot: Option<Open>, id: nat, access: Access, share: Share)
  {
    slot.Some? && slot.value.file == id && Conflict(share, access, slot.value.share, slot.value.access)
  }

  predicate Clash(slots: seq<Option<Open>>, id: nat, access: Access, share: Share)
  {
    exists i :: 0 <= i < |slots| && Clashes(slots[i], id, access, share)
  }

  function FirstFree(slots: seq<Option<Open>>): (i: nat)
    ensures i <= |slots| && (i < |slots| ==> slots[i].None?) && forall j :: 0 <= j < i ==> slots[j].Some?
  {
    if slots == [] then 0
    else
      var i := FirstFree(slots[..|slots| - 1]);
      if i < |slots| - 1 || slots[|slots| - 1].None? then i else |slots|
  }

  // Opening.

  /** A step up in the path. */
  predicate Forbidden(name: string)
  {
    exists i {:trigger name[i]} :: 0 <= i && i + 3 <= |name| && name[i] == '\\' && name[i + 1] == '.'
        && name[i + 2] == '.'
  }

  /** What the real open makes of the request: a directory or a file, possibly read-only. A read-only
      file has its attribute taken off before it is opened; if that fails it is put back. */
  datatype Outcome = Failed(status: Status, putBack: bool) | Fresh(dir: bool, readOnly: bool)

  predicate NotThere(rc: nat) { rc == ERROR_FILE_NOT_FOUND || rc == ERROR_PATH_NOT_FOUND }

  function OpenFile(q: Request, w: World, dir: bool, readOnly: bool): Outcome
  {
    if dir then Fresh(true, readOnly)
    else if readOnly && q.access.Writes() then Failed(AccessDenied, false)
    else if w.open == NO_ERROR then Fresh(false, readOnly)
    else Failed(if NotThere(w.open) then NoSuchFile else AccessDenied, readOnly)
  }

  /** The status for a directory that could not be made: the code is assigned where it should be
      compared, so that what is tested is the constant. */
  function MakeStatus(rc: nat): Status
  {
    var code := ERROR_PATH_NOT_FOUND;
    if code != 0 then NoSuchFile else AccessDenied
  }

  /** The status that was meant. */
  function MakeMeant(rc: nat): Status { if rc == ERROR_PATH_NOT_FOUND then NoSuchFile else AccessDenied }

  function OpenNew(q: Request, w: World): Outcome
  {
    if w.query == NO_ERROR then
      if q.disposition.CreateNew? then Failed(NameCollision, false)
      else if w.dir && q.wantFile then Failed(IsADirectory, false)
      else OpenFile(q, w, w.dir || q.wantDir, w.readOnly)
    else if w.query == ERROR_SHARING_VIOLATION then Failed(AccessDenied, false)
    else if !NotThere(w.query) then Failed(NoSuchFile, false)
    else if q.wantDir then
      if q.disposition.OpenExisting? then Failed(NoSuchFile, false)
      else if w.makeDir != NO_ERROR then Failed(MakeStatus(w.makeDir), false)
      else Fresh(true, false)
    else if q.disposition.OpenExisting? || q.disposition.TruncateExisting? then Failed(NoSuchFile, false)
    else OpenFile(q, w, false, false)
  }

  /** Another handle on a file that is open already. */
  function Refusal(f: OsFile, slots: seq<Option<Open>>, q: Request): Status
  {
    if q.disposition.CreateAlways? || q.disposition.CreateNew? then NameCollision
    else if f.dir && q.wantFile then IsADirectory
    else if !f.dir && q.wantDir then AccessDenied
    else if !f.dir && f.readOnly && q.access.Writes() then AccessDenied
    else if Clash(slots, f.id, q.access, q.share) then AccessDenied
    else Success
  }

  /** A new handle, in the first free place. */
  function Grant(slots: seq<Option<Open>>, o: Open): (r: seq<Option<Open>>)
  {
    var i := FirstFree(slots);
    if i < |slots| then slots[i := Some(o)] else slots + [Some(o)]
  }

  datatype Created = Created(t: Table, status: Status, idx: nat)

  function Create(t: Table, q: Request, w: World): Created
  {
    var k := Find(t.files, q.name);
    if Forbidden(q.name) then Created(t, AccessDenied, 0)
    else if k < |t.files| then
      var f, s := t.files[k], Refusal(t.files[k], t.slots, q);
      if !s.Success? then Created(t, s, 0)
      else
        Created(t.(files := t.files[k := f.(count := f.count + 1)],
                   slots := Grant(t.slots, Open(q.device, f.id, false, q.access, q.share)),
                   stamp := t.stamp || q.access.Writes()),
                Success, FirstFree(t.slots))
    else
      match OpenNew(q, w)
      case Failed(s, putBack) => Created(t.(cleared := if putBack then t.cleared - {q.name} else t.cleared), s, 0)
      case Fresh(dir, readOnly) =>
        Created(t.(files := t.files + [OsFile(t.nextId, q.name, 1, dir, readOnly)],
                   slots := Grant(t.slots, Open(q.device, t.nextId, false, q.access, q.share)),
                   nextId := t.nextId + 1,
                   cleared := if readOnly && !dir then t.cleared + {q.name} else t.cleared,
                   stamp := t.stamp || q.access.Writes()),
                Success, FirstFree(t.slots))
  }

  // Closing.

  /** One handle less on file k, and the file closed with the last one. */
  function Release(files: seq<OsFile>, k: nat): seq<OsFile>
    requires k < |files|
  {
    if files[k].count == 1 then files[..k] + files[k + 1..] else files[k := files[k].(count := files[k].count - 1)]
  }

  datatype Closed = Closed(t: Table, status: Status)

  /** `removed` says whether the operating system deletes what is to be deleted. A file that could not
      be deleted is closed all the same. */
  function Close(t: Table, handle: nat, removed: bool): Closed
  {
    var idx := IndexOf(handle);
    if Slot(t.slots, handle).None? then Closed(t, InvalidHandle)
    else
      var o := t.slots[idx].value;
      var k := FindId(t.files, o.file);
      if k == |t.files| then Closed(t, InvalidHandle)
      else
        var f := t.files[k];
        var u := t.(stamp := t.stamp || o.access.Writes(), aborted := t.aborted + [handle]);
        if o.deleteOnClose && (f.count != 1 || (f.dir && !removed)) then
          Closed(u.(slots := t.slots[idx := Some(o.(deleteOnClose := false))]), AccessDenied)
        else
          Closed(u.(files := Release(t.files, k), slots := t.slots[idx := None],
                    deleted := if o.deleteOnClose && removed then t.deleted + [f.name] else t.deleted,
                    cleared := if PutBack(f, o.deleteOnClose, removed) then t.cleared - {f.name} else t.cleared),
                 Success)
  }

  /** Whether a file that is closed has its read-only attribute back, or is gone: not when it was to be
      deleted and could not be. */
  predicate PutBack(f: OsFile, deleteOnClose: bool, removed: bool)
  {
    f.count == 1 && if deleteOnClose then removed else f.readOnly
  }

  /** The request that schedules a deletion. */
  function Schedule(t: Table, handle: nat, empty: bool): Closed
  {
    var idx := IndexOf(handle);
    if Slot(t.slots, handle).None? then Closed(t, InvalidHandle)
    else
      var o := t.slots[idx].value;
      var k := FindId(t.files, o.file);
      if !o.access.delete then Closed(t, Success)
      else if k < |t.files| && t.files[k].dir && !empty then Closed(t, DirectoryNotEmpty)
      else Closed(t.(slots := t.slots[idx := Some(o.(deleteOnClose := true))]), Success)
  }
}
