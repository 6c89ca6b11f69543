/** What the disk answers to an open, a close and a request for a deletion, status by status. */
module DiskMeaning {
  import opened Wrappers
  import opened DiskSpec
  import opened DiskProofs

  /** In every run, of any two handles on one file, each shares what the other may do. */
  lemma EachSharesWithEach(ops: seq<Op>, i: nat, j: nat)
    requires var slots := Run(ops).slots;
             && i < |slots| && j < |slots| && i != j && slots[i].Some? && slots[j].Some?
             && slots[i].value.file == slots[j].value.file
    ensures var mine, yours := Run(ops).slots[i].value, Run(ops).slots[j].value;
            && (yours.access.all || yours.access.write ==> mine.share.write)
            && (yours.access.all || yours.access.read || yours.access.execute ==> mine.share.read)
            && (mine.access.all || mine.access.write ==> yours.share.write)
            && (mine.access.all || mine.access.read || mine.access.execute ==> yours.share.read)
  {
    RunKeeps(ops);
    hide Run;
    var slots := Run(ops).slots;
    if i < j {
      assert Peaceful(slots[i], slots[j]);
    } else {
      assert Peaceful(slots[j], slots[i]);
    }
  }

  /** A handle on the file that does not share what is asked for, or does what would not be shared. */
  ghost predicate InTheWay(slots: seq<Option<Open>>, id: nat, q: Request)
  {
    exists i :: 0 <= i < |slots| && slots[i].Some? && slots[i].value.file == id
        && !(Admits(slots[i].value.share, q.access) && Admits(q.share, slots[i].value.access))
  }

  lemma ClashIs(slots: seq<Option<Open>>, id: nat, q: Request)
    ensures Clash(slots, id, q.access, q.share) <==> InTheWay(slots, id, q)
  {
    forall i | 0 <= i < |slots|
      ensures Clashes(slots[i], id, q.access, q.share) <==>
        (slots[i].Some? && slots[i].value.file == id
            && !(Admits(slots[i].value.share, q.access) && Admits(q.share, slots[i].value.access)))
    {
    }
  }

  predicate AsksToWrite(q: Request) { q.access.all || q.access.write }

  lemma FindIs(files: seq<OsFile>, nextId: nat, k: nat)
    requires Named(files, nextId) && k < |files|
    ensures Find(files, files[k].name) == k
  {
    hide Forbidden;
  }

  /** An open of a file that is open already, in every run. */
  lemma OpenOfListed(ops: seq<Op>, q: Request, w: World, k: nat)
    requires k < |Run(ops).files| && Run(ops).files[k].name == q.name
    ensures var t := Run(ops);
            var c, f := Create(t, q, w), t.files[k];
            var asNew := q.disposition.CreateAlways? || q.disposition.CreateNew?;
            var wrongKind := if f.dir then q.wantFile else q.wantDir;
            && (c.status.NameCollision? <==> asNew)
            && (c.status.IsADirectory? <==> !asNew && wrongKind && f.dir)
            && (c.status.AccessDenied? <==> !asNew && if wrongKind then !f.dir
                  else (!f.dir && f.readOnly && AsksToWrite(q)) || InTheWay(t.slots, f.id, q))
            && (c.status.Success? <==> !asNew && !wrongKind && !InTheWay(t.slots, f.id, q)
                                       && !(!f.dir && f.readOnly && AsksToWrite(q)))
            && (if c.status.Success? then
                  c.t.files == t.files[k := f.(count := f.count + 1)]
                      && c.t.stamp == (t.stamp || AsksToWrite(q)) && c.t.cleared == t.cleared
                else c.t == t)
  {
    var t := Run(ops);
    RunKeeps(ops);
    hide Run, Clash, InTheWay, Find, Grant, FirstFree, Forbidden, Counted, Shared;
    ClashIs(t.slots, t.files[k].id, q);
    FindIs(t.files, t.nextId, k);
    assert !Forbidden(q.name);
    hide Named;
  }

  /** The name holds a step up in the path. */
  ghost predicate StepsUp(name: string)
  {
    exists before, after :: name == before + "\\.." + after
  }

  lemma ForbiddenIs(name: string)
    ensures Forbidden(name) <==> StepsUp(name)
  {
    if before, after :| name == before + "\\.." + after {
      assert name[|before|] == '\\' && name[|before| + 1] == '.' && name[|before| + 2] == '.';
    }
    if Forbidden(name) {
      var i :| 0 <= i && i + 3 <= |name| && name[i] == '\\' && name[i + 1] == '.' && name[i + 2] == '.';
      assert name == name[..i] + "\\.." + name[i + 3..];
    }
  }

  /** What is there when it is asked about: return code 0; what is missing: 2 or 3. */
  predicate There(q: Request, w: World) { w.query == 0 && !q.disposition.CreateNew? }

  predicate Missing(w: World) { w.query == 2 || w.query == 3 }

  /** A file, not a directory, is really opened: one that is there and not protected, or one to be made. */
  predicate ReallyOpened(q: Request, w: World)
  {
    && !q.wantDir
    && if w.query == 0 then There(q, w) && !w.dir && !(w.readOnly && AsksToWrite(q))
       else Missing(w) && !q.disposition.OpenExisting? && !q.disposition.TruncateExisting?
  }

  predicate NotToBeFound(q: Request, w: World)
  {
    || (w.query != 0 && !Missing(w) && w.query != 32)
    || (Missing(w) && q.wantDir && (q.disposition.OpenExisting? || w.makeDir != 0))
    || (Missing(w) && !q.wantDir && (q.disposition.OpenExisting? || q.disposition.TruncateExisting?))
    || (ReallyOpened(q, w) && (w.open == 2 || w.open == 3))
  }

  /** An open of what is not open yet: when it is refused and why, and what is recorded otherwise. */
  lemma OpenOfOther(t: Table, q: Request, w: World)
    requires forall k :: 0 <= k < |t.files| ==> t.files[k].name != q.name
    ensures var c := Create(t, q, w);
            var fine := !StepsUp(q.name);
            && (c.status.NameCollision? <==> fine && w.query == 0 && q.disposition.CreateNew?)
            && (c.status.IsADirectory? <==> fine && There(q, w) && w.dir && q.wantFile)
            && (c.status.NoSuchFile? <==> fine && NotToBeFound(q, w) && !(There(q, w) && w.dir && q.wantFile))
            && (c.status.AccessDenied? <==> fine ==>
                  || w.query == 32
                  || (There(q, w) && !w.dir && !q.wantDir && w.readOnly && AsksToWrite(q))
                  || (ReallyOpened(q, w) && w.open != 0 && w.open != 2 && w.open != 3))
            && (c.status.Success? ==>
                  && c.t.files == t.files + [OsFile(t.nextId, q.name, 1, q.wantDir || (w.query == 0 && w.dir),
                                                    w.query == 0 && w.readOnly)]
                  && c.t.nextId == t.nextId + 1 && c.t.stamp == (t.stamp || AsksToWrite(q)))
            && (!c.status.Success? ==> c.t.files == t.files && c.t.slots == t.slots && c.t.stamp == t.stamp)
            && c.t.deleted == t.deleted && c.t.aborted == t.aborted
            && !c.status.InvalidHandle? && !c.status.DirectoryNotEmpty?
  {
    ForbiddenIs(q.name);
    hide Find, Forbidden, StepsUp, Grant, FirstFree;
    assert Find(t.files, q.name) == |t.files|;
  }

  /** The attribute of a read-only file that is really opened is off, and back on if the open fails; no
      other open of what is not open yet touches an attribute. */
  lemma OpenClears(t: Table, q: Request, w: World)
    requires forall k :: 0 <= k < |t.files| ==> t.files[k].name != q.name
    ensures Create(t, q, w).t.cleared ==
            if StepsUp(q.name) || !ReallyOpened(q, w) || w.query != 0 || !w.readOnly then t.cleared
            else if w.open == 0 then t.cleared + {q.name}
            else t.cleared - {q.name}
  {
    ForbiddenIs(q.name);
    hide Find, Forbidden, StepsUp, Grant, FirstFree;
    assert Find(t.files, q.name) == |t.files|;
  }

  /** A close, in every run: what it answers, and what it leaves of the handle, the file and the stamp. */
  lemma CloseMeans(ops: seq<Op>, handle: nat, removed: bool)
    ensures var t := Run(ops);
            var c := Close(t, handle, removed);
            && (c.status.InvalidHandle? <==> Slot(t.slots, handle).None?)
            && (c.status.InvalidHandle? ==> c.t == t)
            && (Slot(t.slots, handle).Some? ==>
                  var o := Slot(t.slots, handle).value;
                  && FindId(t.files, o.file) < |t.files|
                  && var k := FindId(t.files, o.file);
                     var refused := o.deleteOnClose && (Handles(t.slots, o.file) != 1 || (t.files[k].dir && !removed));
                     && (c.status.AccessDenied? <==> refused) && (c.status.Success? <==> !refused)
                     && Handles(c.t.slots, o.file) == Handles(t.slots, o.file) - (if refused then 0 else 1)
                     && (refused ==> c.t.files == t.files)
                     && (!refused && Handles(t.slots, o.file) == 1 ==> c.t.files == t.files[..k] + t.files[k + 1..])
                     && c.t.aborted == t.aborted + [handle]
                     && c.t.stamp == (t.stamp || o.access.all || o.access.write)
                     && c.t.deleted == if o.deleteOnClose && !refused && removed then t.deleted + [t.files[k].name]
                                       else t.deleted)
  {
    var t := Run(ops);
    RunKeeps(ops);
    hide Run, FindId, Named, Shared;
    if Slot(t.slots, handle).Some? {
      var k := FileOf(t, handle);
      var i := IndexOf(handle);
      var o := t.slots[i].value;
      hide Counted, IndexOf, Handles;
      HandlesUpdate(t.slots, i, None, o.file);
      HandlesUpdate(t.slots, i, Some(o.(deleteOnClose := false)), o.file);
    }
  }

  /** A request for a deletion: without the access it does nothing, though it succeeds; a directory must
      be empty. */
  lemma ScheduleMeans(ops: seq<Op>, handle: nat, empty: bool)
    ensures var t := Run(ops);
            var c := Schedule(t, handle, empty);
            && (c.status.InvalidHandle? <==> Slot(t.slots, handle).None?)
            && (c.status.InvalidHandle? ==> c.t == t)
            && (Slot(t.slots, handle).Some? ==>
                  var o := Slot(t.slots, handle).value;
                  && FindId(t.files, o.file) < |t.files|
                  && var k := FindId(t.files, o.file);
                     && (c.status.DirectoryNotEmpty? <==> o.access.delete && t.files[k].dir && !empty)
                     && (c.status.Success? <==> !(o.access.delete && t.files[k].dir && !empty))
                     && c.t == (if o.access.delete && c.status.Success? then
                                  t.(slots := t.slots[IndexOf(handle) := Some(o.(deleteOnClose := true))])
                                else t))
  {
    var t := Run(ops);
    RunKeeps(ops);
    hide Run, FindId, Named, Shared;
    if Slot(t.slots, handle).Some? {
      var k := FileOf(t, handle);
    }
  }
}
