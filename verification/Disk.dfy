/** The OS/2 disk: its table of handles and its list of open files, as requests change them. */
module Disk {
  import opened Wrappers
  import opened DiskSpec

  class DiskDevice {
    var files: seq<OsFile>
    /** The table of handles, allocated 256 places at a time, and how many are in use. */
    var handles: array<Option<Open>>
    var used: nat
    var nextId: nat
    var deleted: seq<string>
    var cleared: set<string>
    var stamp: bool
    var aborted: seq<nat>

    ghost predicate Valid()
      reads this
    {
      used <= handles.Length && handles.Length % 256 == 0
    }

    ghost function Slots(): seq<Option<Open>>
      requires Valid()
      reads this, handles
    {
      handles[..used]
    }

    ghost function Value(): Table
      requires Valid()
      reads this, handles
    {
      Table(files, Slots(), nextId, deleted, cleared, stamp, aborted)
    }

    constructor ()
      ensures Valid() && Value() == EMPTY
    {
      files, nextId, deleted := [], 0, [];
      cleared, stamp, aborted := {}, false, [];
      handles, used := new Option<Open>[0], 0;
    }

    /** The walk along the list of open files. */
    method FindFile(name: string) returns (k: nat)
      ensures k == Find(files, name)
    {
      k := 0;
      while k < |files| && files[k].name != name
        invariant k <= |files| && forall i :: 0 <= i < k ==> files[i].name != name
      {
        k := k + 1;
      }
    }

    /** The walk along the handles on one file. */
    method FindClash(id: nat, access: Access, share: Share) returns (clash: bool)
      requires Valid()
      ensures clash == Clash(Slots(), id, access, share)
    {
      var i := 0;
      while i < used
        invariant i <= used && forall j :: 0 <= j < i ==> !Clashes(handles[j], id, access, share)
      {
        if handles[i].Some? && handles[i].value.file == id {
          var o := handles[i].value;
          if (!o.share.read && access.Reads()) || (!o.share.write && access.Writes()) {
            assert Clashes(Slots()[i], id, access, share);
            return true;
          }
          if (!share.read && o.access.Reads()) || (!share.write && o.access.Writes()) {
            assert Clashes(Slots()[i], id, access, share);
            return true;
          }
        }
        i := i + 1;
      }
      clash := false;
    }

    /** The table is full and is moved to a larger allocation. */
    method Grow()
      requires Valid() && used % 256 == 0
      modifies this`handles
      ensures Valid() && fresh(handles) && handles.Length == used + 256 && Slots() == old(Slots())
    {
      var larger := new Option<Open>[used + 256];
      for i := 0 to used
        invariant handles == old(handles) && forall j :: 0 <= j < i ==> larger[j] == handles[j]
      {
        larger[i] := handles[i];
      }
      handles := larger;
    }

    /** The search for a free place, and the growth of the table without one. */
    method Place(o: Open) returns (idx: nat)
      requires Valid()
      modifies this`handles, this`used, handles
      ensures Valid() && (handles == old(handles) || fresh(handles))
      ensures Slots() == Grant(old(Slots()), o) && idx == FirstFree(old(Slots()))
    {
      idx := 0;
      while idx < used
        invariant idx <= used && forall i :: 0 <= i < idx ==> Slots()[i].Some?
      {
        if handles[idx].None? {
          FreeIs(Slots(), idx);
          handles[idx] := Some(o);
          return;
        }
        idx := idx + 1;
      }
      FreeIs(Slots(), idx);
      if used % 256 == 0 {
        Grow();
      }
      handles[used] := Some(o);
      used := used + 1;
    }

    /** The file is opened for real and put on the list; nobody has a handle on it yet. */
    method OpenReal(q: Request, w: World) returns (status: Status)
      modifies this`files, this`nextId, this`cleared
      ensures match OpenNew(q, w)
              case Failed(s, putBack) =>
                && status == s && files == old(files) && nextId == old(nextId)
                && cleared == if putBack then old(cleared) - {q.name} else old(cleared)
              case Fresh(dir, readOnly) =>
                && status.Success? && nextId == old(nextId) + 1
                && files == old(files) + [OsFile(old(nextId), q.name, 0, dir, readOnly)]
                && cleared == if readOnly && !dir then old(cleared) + {q.name} else old(cleared)
    {
      var wantDir, readOnly := q.wantDir, w.query == NO_ERROR && w.readOnly;
      if w.query == NO_ERROR {
        if q.disposition.CreateNew? {
          return NameCollision;
        }
        if w.dir {
          if q.wantFile {
            return IsADirectory;
          }
          wantDir := true;
        }
      } else if w.query == ERROR_SHARING_VIOLATION {
        return AccessDenied;
      } else if w.query == ERROR_FILE_NOT_FOUND || w.query == ERROR_PATH_NOT_FOUND {
        if wantDir {
          if q.disposition.OpenExisting? {
            return NoSuchFile;
          }
          var rc := w.makeDir;
          if rc != NO_ERROR {
            rc := ERROR_PATH_NOT_FOUND;
            return if rc != 0 then NoSuchFile else AccessDenied;
          }
        } else if q.disposition.OpenExisting? || q.disposition.TruncateExisting? {
          return NoSuchFile;
        }
      } else {
        return NoSuchFile;
      }
      if !wantDir {
        if readOnly {
          if q.access.Writes() {
            return AccessDenied;
          }
          cleared := cleared + {q.name};
        }
        if w.open != NO_ERROR {
          if readOnly {
            cleared := cleared - {q.name};
          }
          if w.open == ERROR_FILE_NOT_FOUND || w.open == ERROR_PATH_NOT_FOUND {
            return NoSuchFile;
          }
          return AccessDenied;
        }
      }
      files := files + [OsFile(nextId, q.name, 0, wantDir, readOnly)];
      nextId := nextId + 1;
      status := Success;
    }

    /** Whether a file that is open already may be opened once more. */
    method Check(f: OsFile, q: Request) returns (status: Status)
      requires Valid()
      ensures status == Refusal(f, Slots(), q)
    {
      hide Clash;
      if q.disposition.CreateAlways? || q.disposition.CreateNew? {
        return NameCollision;
      }
      if f.dir {
        if q.wantFile {
          return IsADirectory;
        }
      } else {
        if q.wantDir {
          return AccessDenied;
        }
        if f.readOnly && q.access.Writes() {
          return AccessDenied;
        }
      }
      var clash := FindClash(f.id, q.access, q.share);
      status := if clash then AccessDenied else Success;
    }

    /** One more handle on the file at k. */
    method Instance(k: nat, q: Request) returns (handle: nat)
      requires Valid() && k < |files|
      modifies this`files, this`stamp, this`handles, this`used, handles
      ensures Valid() && (handles == old(handles) || fresh(handles))
      ensures files == old(files)[k := old(files)[k].(count := old(files)[k].count + 1)]
      ensures stamp == (old(stamp) || q.access.Writes())
      ensures Slots() == Grant(old(Slots()), Open(q.device, old(files)[k].id, false, q.access, q.share))
      ensures handle == HandleOf(FirstFree(old(Slots())))
    {
      hide Grant, FirstFree, Flip;
      var o := Open(q.device, files[k].id, false, q.access, q.share);
      files := files[k := files[k].(count := files[k].count + 1)];
      if q.access.Writes() {
        stamp := true;
      }
      var idx := Place(o);
      handle := HandleOf(idx);
    }

    /** disk_create */
    method CreateFile(q: Request, w: World) returns (status: Status, handle: nat)
      requires Valid()
      modifies this, handles
      ensures Valid() && (handles == old(handles) || fresh(handles))
      ensures Value() == Create(old(Value()), q, w).t && status == Create(old(Value()), q, w).status
      ensures status.Success? ==> handle == HandleOf(Create(old(Value()), q, w).idx)
    {
      hide Find, Clash, FirstFree, Grant, Forbidden, Refusal, OpenNew, Flip;
      handle := 0;
      if Forbidden(q.name) {
        return AccessDenied, 0;
      }
      var k := FindFile(q.name);
      if k < |files| {
        status := Check(files[k], q);
      } else {
        NewRefused(q, w);
        status := OpenReal(q, w);
        assert status.Success? ==> files[k := files[k].(count := 1)] == old(files) + [files[k].(count := 1)];
      }
      if status.Success? {
        handle := Instance(k, q);
      }
    }

    /** _osfClose: true when the file itself is closed. */
    method OsfClose(k: nat) returns (closed: bool)
      requires k < |files|
      modifies this`files
      ensures files == Release(old(files), k) && closed == (old(files[k].count) == 1)
    {
      files := files[k := files[k].(count := files[k].count - 1)];
      closed := files[k].count == 0;
      if closed {
        files := files[..k] + files[k + 1..];
      }
    }

    /** The last handle on a file is closed: what is to be deleted is, or the close is refused, or the
        read-only attribute is put back. A file is closed before it is deleted. */
    method CloseLast(k: nat, deleteOnClose: bool, removed: bool) returns (refused: bool, gone: bool)
      requires k < |files| && files[k].count == 1
      modifies this`files, this`deleted, this`cleared
      ensures refused ==> files == old(files) && deleted == old(deleted) && cleared == old(cleared)
      ensures var f := old(files[k]);
              && refused == (deleteOnClose && f.dir && !removed)
              && (!refused ==>
                    && gone == (deleteOnClose && !f.dir)
                    && files == (if gone then Release(old(files), k) else old(files))
                    && deleted == (if deleteOnClose && removed then old(deleted) + [f.name] else old(deleted))
                    && cleared == if PutBack(f, deleteOnClose, removed) then old(cleared) - {f.name} else old(cleared))
    {
      var name := files[k].name;
      refused, gone := false, false;
      if deleteOnClose {
        if files[k].dir {
          if !removed {
            return true, false;
          }
          deleted, cleared := deleted + [name], cleared - {name};
        } else {
          gone := OsfClose(k);
          if removed {
            deleted, cleared := deleted + [name], cleared - {name};
          }
        }
      } else if files[k].readOnly {
        cleared := cleared - {name};
      }
    }

    /** disk_close */
    method CloseFile(handle: nat, removed: bool) returns (status: Status)
      requires Valid()
      requires forall i :: 0 <= i < used && handles[i].Some? ==> FindId(files, handles[i].value.file) < |files|
      modifies this, handles
      ensures Valid() && handles == old(handles)
      ensures Value() == Close(old(Value()), handle, removed).t && status == Close(old(Value()), handle, removed).status
    {
      hide Release, Flip, PutBack;
      var idx := IndexOf(handle);
      if idx >= used || handles[idx].None? {
        return InvalidHandle;
      }
      var o := handles[idx].value;
      var k := FindId(files, o.file);
      if o.access.Writes() {
        stamp := true;
      }
      aborted := aborted + [handle];
      var refused, gone := false, false;
      if files[k].count == 1 {
        refused, gone := CloseLast(k, o.deleteOnClose, removed);
      } else if o.deleteOnClose {
        refused := true;
      } else {
        NotLast(files[k], removed);
      }
      if refused {
        handles[idx] := Some(o.(deleteOnClose := false));
        return AccessDenied;
      }
      if !gone {
        var closed := OsfClose(k);
      }
      handles[idx] := None;
      status := Success;
    }

    /** The delete part of disk_set_information; `empty` says whether a directory is. */
    method ScheduleDelete(handle: nat, empty: bool) returns (status: Status)
      requires Valid()
      modifies handles
      ensures Value() == Schedule(old(Value()), handle, empty).t
              && status == Schedule(old(Value()), handle, empty).status
    {
      var idx := IndexOf(handle);
      if idx >= used || handles[idx].None? {
        return InvalidHandle;
      }
      var o := handles[idx].value;
      if o.access.delete {
        var k := FindId(files, o.file);
        if k < |files| && files[k].dir && !empty {
          return DirectoryNotEmpty;
        }
        handles[idx] := Some(o.(deleteOnClose := true));
      }
      status := Success;
    }
  }

  lemma NewRefused(q: Request, w: World)
    ensures OpenNew(q, w).Failed? ==> !OpenNew(q, w).status.Success?
  {
  }

  lemma NotLast(f: OsFile, removed: bool)
    requires f.count != 1
    ensures !PutBack(f, false, removed)
  {
  }

  lemma FreeIs(slots: seq<Option<Open>>, k: nat)
    requires k <= |slots| && (k < |slots| ==> slots[k].None?) && forall i :: 0 <= i < k ==> slots[i].Some?
    ensures FirstFree(slots) == k
  {
  }
}
