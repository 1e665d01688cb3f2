/** Replacing and promoting schedule files on the flash file system so that a reset at any moment
    leaves a committed copy. Each document lives under three names: the final file, the
    temporary file a new version is written to, and the backup the old version is moved to. */
module FlashFiles {
  import opened Wrappers
  import opened Bytes

  const MAX_SCHEDULE_BYTES := 32768

  type Content = seq<byte>

  datatype Part = Final | Temporary | Backup

  datatype Document = Active | Staged

  /** The three files of one document, each there or not. */
  datatype Trio = Trio(final: Option<Content>, temporary: Option<Content>, backup: Option<Content>) {
    function Get(part: Part): Option<Content> {
      match part
      case Final => final
      case Temporary => temporary
      case Backup => backup
    }

    function Set(part: Part, content: Option<Content>): Trio {
      match part
      case Final => this.(final := content)
      case Temporary => this.(temporary := content)
      case Backup => this.(backup := content)
    }

    /** What the document holds as far as a reader is concerned: the final file, or the backup
        if a reset came between moving the old version away and moving the new one in. */
    function Committed(): Option<Content> {
      if final.Some? then final else backup
    }

    /** What reading the document returns. */
    function ReadResult(): Option<Content> {
      if Committed().Some? && 0 < |Committed().value| <= MAX_SCHEDULE_BYTES then Committed() else None
    }
  }

  datatype Files = Files(active: Trio, staged: Trio) {
    function Of(doc: Document): Trio {
      if doc == Active then active else staged
    }

    function With(doc: Document, trio: Trio): Files {
      if doc == Active then this.(active := trio) else this.(staged := trio)
    }

    function Get(doc: Document, part: Part): Option<Content> {
      Of(doc).Get(part)
    }

    function Set(doc: Document, part: Part, content: Option<Content>): Files {
      With(doc, Of(doc).Set(part, content))
    }
  }

  /** `content` is in a file that a reader may come to use. */
  predicate Readable(files: Files, content: Content) {
    || files.active.final == Some(content) || files.active.backup == Some(content)
    || files.staged.final == Some(content) || files.staged.backup == Some(content)
  }

  function OtherDocument(doc: Document): Document {
    if doc == Active then Staged else Active
  }

  /** While `doc` is replaced by `data`: the old version or the new one is committed, and the
      other document is untouched. */
  ghost predicate Replacing(start: Files, now: Files, doc: Document, data: Content) {
    && (now.Of(doc).Committed() == start.Of(doc).Committed() || now.Of(doc).Committed() == Some(data))
    && now.Of(OtherDocument(doc)) == start.Of(OtherDocument(doc))
    && forall c :: Readable(now, c) ==> Readable(start, c) || c == data
  }

  /** While the staged schedule is promoted: the active one is the old one or the staged one,
      and the staged one is not gone before it is active. */
  ghost predicate Promoting(start: Files, now: Files) {
    var staged := start.staged.Committed();
    && (now.active.Committed() == start.active.Committed() || now.active.Committed() == staged)
    && (now.staged.Committed() == staged || now.active.Committed() == staged)
    && forall c :: Readable(now, c) ==> Readable(start, c)
  }

  /** Files of `doc` may have been renamed or dropped, but its committed content has not changed. */
  ghost predicate SameCommitted(start: Files, now: Files, doc: Document) {
    && now.Of(doc).Committed() == start.Of(doc).Committed() && now.Of(doc).temporary == start.Of(doc).temporary
    && now.Of(OtherDocument(doc)) == start.Of(OtherDocument(doc))
    && forall c :: Readable(now, c) ==> Readable(start, c)
  }

  /** After a replacement that met one failing call: the final file is the old one or the new one,
      not only its backup, and no temporary file is left. */
  predicate PutRight(before: Trio, after: Trio, data: Content) {
    (after.final == before.Committed() || after.final == Some(data)) && after.temporary.None?
  }

  class Flash {
    var files: Files
    /** The contents now and after every earlier call that may change them, latest last. */
    ghost var history: seq<Files>
    /** How many calls have failed although nothing stood in their way. */
    ghost var failures: nat

    ghost predicate Valid()
      reads this
    {
      |history| > 0 && history[|history| - 1] == files
    }

    constructor (files: Files)
      ensures Valid() && this.files == files && history == [files] && failures == 0
    {
      this.files, history, failures := files, [files], 0;
    }

    // ----- File system calls. A failing call may or may not have taken effect.

    method Change(next: Files) returns (ok: bool)
      requires Valid()
      modifies this
      ensures Valid() && history == old(history) + [files]
      ensures ok ==> files == next && failures == old(failures)
      ensures !ok ==> (files == old(files) || files == next) && failures == old(failures) + 1
    {
      ok := *;
      var applied: bool := *;
      if ok || applied { files := next; }
      if !ok { failures := failures + 1; }
      history := history + [files];
    }

    method Remove(doc: Document, part: Part) returns (ok: bool)
      requires Valid()
      modifies this
      ensures Valid() && old(failures) <= failures
      ensures files == old(files) || files == old(files).Set(doc, part, None)
      ensures history == old(history) + [files]
      ensures ok ==> files == old(files).Set(doc, part, None)
      ensures failures == old(failures) ==> files == old(files).Set(doc, part, None)
    {
      if files.Get(doc, part).None? {
        history := history + [files];
        return false;
      }
      ok := Change(files.Set(doc, part, None));
    }

    /** Fails without effect when the source is missing or the target is there. */
    method Rename(doc: Document, part: Part, toDoc: Document, toPart: Part) returns (ok: bool)
      requires Valid() && (doc != toDoc || part != toPart)
      modifies this
      ensures Valid() && old(failures) <= failures
      ensures files == old(files) ||
              (old(files).Get(toDoc, toPart).None? && files == Moved(old(files), doc, part, toDoc, toPart))
      ensures history == old(history) + [files]
      ensures ok ==> old(files).Get(doc, part).Some? && files == Moved(old(files), doc, part, toDoc, toPart)
      ensures failures == old(failures) ==>
                ok == (old(files).Get(doc, part).Some? && old(files).Get(toDoc, toPart).None?)
    {
      if files.Get(doc, part).None? || files.Get(toDoc, toPart).Some? {
        history := history + [files];
        return false;
      }
      ok := Change(Moved(files, doc, part, toDoc, toPart));
    }

    /** Creates or truncates the temporary file and writes `data`; stopping anywhere leaves a
        prefix. */
    method WriteTemporary(doc: Document, data: Content) returns (ok: bool)
      requires Valid()
      modifies this
      ensures Valid() && old(history) <= history && old(failures) <= failures
      ensures forall i :: |old(history)| <= i < |history| ==>
                exists c :: history[i] == old(files).Set(doc, Temporary, c)
      ensures exists c :: files == old(files).Set(doc, Temporary, c)
      ensures ok ==> files == old(files).Set(doc, Temporary, Some(data))
      ensures failures == old(failures) ==> ok
    {
      ghost var start := files;
      assert start == start.Set(doc, Temporary, start.Get(doc, Temporary));
      ok := Change(files.Set(doc, Temporary, Some([])));
      if !ok { return; }
      var written :| 0 <= written <= |data|;
      files := files.Set(doc, Temporary, Some(data[..written]));
      history := history + [files];
      assert files == start.Set(doc, Temporary, Some(data[..written]));
      ok := Change(files.Set(doc, Temporary, Some(data)));
      assert files == start.Set(doc, Temporary, files.Get(doc, Temporary));
    }

    // ----- Replacing a document

    method RestoreBackup(doc: Document) returns (ok: bool)
      requires Valid()
      modifies this
      ensures Valid() && old(history) <= history && old(failures) <= failures
      ensures forall i :: |old(history)| <= i < |history| ==> SameCommitted(old(files), history[i], doc)
      ensures SameCommitted(old(files), files, doc)
      ensures ok ==> files.Get(doc, Final).Some? || files.Get(doc, Backup).None?
      ensures failures == old(failures) ==> ok && files.Get(doc, Final) == old(files).Of(doc).Committed()
      ensures old(files).Get(doc, Final).Some? ==> ok && files == old(files) && failures == old(failures)
    {
      if files.Get(doc, Final).Some? || files.Get(doc, Backup).None? { return true; }
      ok := Rename(doc, Backup, doc, Final);
    }

    /** Make room for a new final file: drop the old backup, move the final file there. */
    method MoveAside(doc: Document) returns (ok: bool)
      requires Valid() && (files.Get(doc, Final).Some? || files.Get(doc, Backup).None?)
      modifies this
      ensures Valid() && old(history) <= history && old(failures) <= failures
      ensures forall i :: |old(history)| <= i < |history| ==> SameCommitted(old(files), history[i], doc)
      ensures SameCommitted(old(files), files, doc)
      ensures ok ==> files.Get(doc, Final).None?
      ensures failures == old(failures) ==> ok && files.Get(doc, Backup) == old(files).Get(doc, Final)
    {
      var removed := Remove(doc, Backup);
      ok := true;
      if files.Get(doc, Final).Some? { ok := Rename(doc, Final, doc, Backup); }
    }

    method PutBack(doc: Document)
      requires Valid()
      modifies this
      ensures Valid() && old(history) <= history && old(failures) <= failures
      ensures forall i :: |old(history)| <= i < |history| ==> SameCommitted(old(files), history[i], doc)
      ensures SameCommitted(old(files), files, doc)
      ensures failures == old(failures) ==> files.Get(doc, Final) == old(files).Of(doc).Committed()
    {
      if files.Get(doc, Final).None? && files.Get(doc, Backup).Some? {
        var restored := Rename(doc, Backup, doc, Final);
      }
    }

    /** The new version is complete in the temporary file: move the old one to the backup and
        the new one in; if that fails, move the old one back. */
    method Install(doc: Document, ghost data: Content) returns (ok: bool)
      requires Valid() && files.Get(doc, Temporary) == Some(data)
      requires files.Get(doc, Final).Some? || files.Get(doc, Backup).None?
      modifies this
      ensures Valid() && old(history) <= history && old(failures) <= failures
      ensures forall i :: |old(history)| <= i < |history| ==> Replacing(old(files), history[i], doc, data)
      ensures ok ==> files.Get(doc, Final) == Some(data)
      ensures failures == old(failures) ==> ok && files.Of(doc) == Trio(Some(data), None, None)
      ensures !ok && failures <= old(failures) + 1 ==> PutRight(old(files).Of(doc), files.Of(doc), data)
    {
      var removed;
      ok := MoveAside(doc);
      if ok { ok := Rename(doc, Temporary, doc, Final); }
      assert Replacing(old(files), files, doc, data);
      if ok {
        removed := Remove(doc, Backup);
      } else {
        removed := Remove(doc, Temporary);
        assert Replacing(old(files), files, doc, data);
        PutBack(doc);
      }
    }

    /** `writeActiveSchedule` and `writeStagedNextSchedule`. From whatever earlier resets left
        behind, and whatever calls fail: at every point the old version or the new one is
        committed, and success means the new one. */
    method WriteSchedule(doc: Document, json: Content) returns (ok: bool)
      requires Valid()
      modifies this
      ensures Valid() && old(history) <= history && old(failures) <= failures
      ensures forall i :: |old(history)| <= i < |history| ==> Replacing(old(files), history[i], doc, json)
      ensures ok ==> files.Of(doc).ReadResult() == Some(json)
      ensures failures == old(failures) ==> ok == (0 < |json| <= MAX_SCHEDULE_BYTES)
      ensures failures == old(failures) && ok ==> files.Of(doc) == Trio(Some(json), None, None)
      ensures !(0 < |json| <= MAX_SCHEDULE_BYTES) ==> !ok && files == old(files)
      ensures 0 < |json| <= MAX_SCHEDULE_BYTES && old(files).Get(doc, Final).Some? ==>
                !ok && failures <= old(failures) + 1 ==> PutRight(old(files).Of(doc), files.Of(doc), json)
    {
      if |json| == 0 || |json| > MAX_SCHEDULE_BYTES { return false; }
      ok := RestoreBackup(doc);
      if !ok { return; }
      var removed := Remove(doc, Temporary);
      ok := WriteTemporary(doc, json);
      if ok {
        ok := Install(doc, json);
      } else {
        removed := Remove(doc, Temporary);
      }
    }

    /** `readActiveSchedule` and `readStagedNextSchedule`. */
    method ReadSchedule(doc: Document) returns (json: Option<Content>)
      requires Valid()
      modifies this
      ensures Valid() && old(history) <= history && old(failures) <= failures
      ensures forall i :: |old(history)| <= i < |history| ==> SameCommitted(old(files), history[i], doc)
      ensures json.Some? ==> json == old(files).Of(doc).ReadResult()
      ensures failures == old(failures) ==> json == old(files).Of(doc).ReadResult()
      ensures failures == old(failures) ==> files.Get(doc, Final) == old(files).Of(doc).Committed()
    {
      if files.Get(doc, Final).None? && files.Get(doc, Backup).Some? {
        var restored := Rename(doc, Backup, doc, Final);
      }
      var content := files.Get(doc, Final);
      if content.None? || |content.value| == 0 || |content.value| > MAX_SCHEDULE_BYTES { return None; }
      json := content;
    }

    // ----- Promoting the staged schedule

    /** Move the active schedule to its backup and the staged one in; if that fails, move the
        old one back. */
    method InstallStaged() returns (ok: bool)
      requires Valid() && files.staged.final.Some?
      requires files.active.final.Some? || files.active.backup.None?
      modifies this
      ensures Valid() && old(history) <= history && old(failures) <= failures
      ensures forall i :: |old(history)| <= i < |history| ==> Promoting(old(files), history[i])
      ensures ok ==> files.active.final == old(files).staged.final
      ensures failures == old(failures) ==> ok && files.staged == old(files).staged.(final := None)
      ensures !ok && failures <= old(failures) + 1 ==>
                files.active.final == old(files).active.Committed() || files.active.final == old(files).staged.final
    {
      ok := MoveAside(Active);
      if ok { ok := Rename(Staged, Final, Active, Final); }
      assert Promoting(old(files), files);
      if !ok { PutBack(Active); }
    }

    /** Clean-up after a promotion; the active final file stays. */
    method CleanUp()
      requires Valid() && files.active.final.Some?
      modifies this
      ensures Valid() && old(history) <= history && old(failures) <= failures
      ensures forall i :: |old(history)| <= i < |history| ==>
                && history[i].active.final == old(files).active.final
                && forall c :: Readable(history[i], c) ==> Readable(old(files), c)
      ensures files.active.final == old(files).active.final && files.staged.final == old(files).staged.final
      ensures failures == old(failures) ==>
                files == Files(Trio(old(files).active.final, None, None), Trio(old(files).staged.final, None, None))
    {
      var removed := Remove(Active, Temporary);
      removed := Remove(Active, Backup);
      removed := Remove(Staged, Temporary);
      removed := Remove(Staged, Backup);
    }

    /** `promoteStagedNextSchedule`. */
    method PromoteStaged() returns (ok: bool)
      requires Valid()
      modifies this
      ensures Valid() && old(history) <= history && old(failures) <= failures
      ensures forall i :: |old(history)| <= i < |history| ==> Promoting(old(files), history[i])
      ensures ok ==> old(files).staged.Committed().Some?
      ensures ok ==> files.active.Committed() == old(files).staged.Committed()
      ensures failures == old(failures) ==> ok == old(files).staged.Committed().Some?
      ensures failures == old(failures) && ok ==>
                files == Files(Trio(old(files).staged.Committed(), None, None), Trio(None, None, None))
    {
      if files.staged.final.None? && files.staged.backup.Some? {
        var restored := Rename(Staged, Backup, Staged, Final);
      }
      if files.staged.final.None? { return false; }
      ok := RestoreBackup(Active);
      if !ok { return; }
      ok := InstallStaged();
      if ok { CleanUp(); }
    }
  }

  function Moved(files: Files, doc: Document, part: Part, toDoc: Document, toPart: Part): Files {
    files.Set(doc, part, None).Set(toDoc, toPart, files.Get(doc, part))
  }

  // ----- Whole runs

  datatype Event = Wrote(doc: Document, data: Content) | Promoted | Read(doc: Document)

  /** `now` is a state that the event passes through or ends in. */
  ghost predicate Reached(start: Files, now: Files, event: Event) {
    match event
    case Wrote(doc, data) => Replacing(start, now, doc, data)
    case Promoted => Promoting(start, now)
    case Read(doc) => SameCommitted(start, now, doc)
  }

  ghost predicate Run(states: seq<Files>, events: seq<Event>) {
    |states| == |events| + 1 && forall i :: 0 <= i < |events| ==> Reached(states[i], states[i + 1], events[i])
  }

  /** Along any run of writes, promotions and reads, each cut short by a reset anywhere, what a
      reader gets was readable at the start or was handed to a write in full; a partly written
      file never becomes readable. */
  lemma {:induction false} NothingTornIsRead(states: seq<Files>, events: seq<Event>, n: nat, content: Content)
    requires Run(states, events) && n < |states| && Readable(states[n], content)
    ensures Readable(states[0], content) || exists i, doc :: 0 <= i < n && events[i] == Wrote(doc, content)
  {
    if n > 0 {
      assert Reached(states[n - 1], states[n - 1 + 1], events[n - 1]);
      if Readable(states[n - 1], content) {
        NothingTornIsRead(states, events, n - 1, content);
      } else {
        assert events[n - 1] == Wrote(events[n - 1].doc, content);
      }
    }
  }

  /** As long as nothing is written to it and nothing promoted over it, a document keeps its
      committed content through any run. */
  lemma {:induction false} UntouchedDocumentKept(states: seq<Files>, events: seq<Event>, n: nat, doc: Document)
    requires Run(states, events) && n < |states|
    requires forall i :: 0 <= i < n ==> !events[i].Promoted? && !(events[i].Wrote? && events[i].doc == doc)
    ensures states[n].Of(doc).Committed() == states[0].Of(doc).Committed()
  {
    if n > 0 {
      UntouchedDocumentKept(states, events, n - 1, doc);
      assert Reached(states[n - 1], states[n - 1 + 1], events[n - 1]);
    }
  }
}
