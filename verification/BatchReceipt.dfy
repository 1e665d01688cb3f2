/** The paid batch check: a durable receipt, written before and after every remote step, keeps
    the one paid request from ever being sent twice. */
module BatchReceipt {
  import opened Wrappers

  type Id = string

  datatype State = PreparedOnly | UploadStarted | CreateStarted | Pending | Harvested

  datatype Receipt = Receipt(
    state: State, identity: Id, inputFile: Option<Id>, remoteBatch: Option<Id>)

  /** The receipt on disk. The first save creates the file and can be cut short; every later
      save replaces it atomically. */
  datatype ReceiptFile = Missing | Torn | Saved(receipt: Receipt)

  /** What the provider knows about a batch and never changes. */
  datatype BatchInfo = BatchInfo(identity: Option<Id>, inputFile: Option<Id>)

  /** What has happened so far, in order. */
  datatype Event = Uploading
                 | Created(identity: Id, inputFile: Id)
                 | Durable(receipt: Receipt)
                 | Harvesting(batch: Id, receipt: Receipt)
                 | Deleting(file: Id)

  /** What the provider answers during one run: the file it stored the requests in, the batch it
      created, whether the batch reaches its end in time, and the files it left behind. No file or
      batch means that the call failed, or that its answer was lost. */
  datatype Answers = Answers(inputFile: Option<Id>, batch: Option<Id>, finished: bool, outputs: seq<Id>)

  /** One call of the command, or an operator removing a lock that a crash left behind. */
  datatype Request = Run(resume: bool, identity: Id, recovered: Option<Id>, answers: Answers)
                   | ClearLock

  // ----- What the log must look like

  function Creations(log: seq<Event>): nat {
    if |log| == 0 then 0
    else Creations(log[..|log| - 1]) + if log[|log| - 1].Created? then 1 else 0
  }

  predicate Matches(info: BatchInfo, receipt: Receipt) {
    info.identity == Some(receipt.identity) && info.inputFile == receipt.inputFile
  }

  ghost predicate HarvestsMatch(log: seq<Event>, batches: Id -> BatchInfo) {
    forall i :: 0 <= i < |log| && log[i].Harvesting? ==> Matches(batches(log[i].batch), log[i].receipt)
  }

  ghost predicate HarvestDurable(log: seq<Event>, n: nat)
    requires n <= |log|
  {
    exists i :: 0 <= i < n && log[i].Durable? && log[i].receipt.state == Harvested
  }

  ghost predicate DeletesAfterHarvest(log: seq<Event>) {
    forall i :: 0 <= i < |log| && log[i].Deleting? ==> HarvestDurable(log, i)
  }

  /** The remote files that are left once a batch is harvested. */
  function Leftovers(receipt: Receipt, outputs: seq<Id>): seq<Id> {
    outputs + if receipt.inputFile.Some? then [receipt.inputFile.value] else []
  }

  ghost predicate AllDeleted(log: seq<Event>, files: seq<Id>) {
    |files| == 0 || (Deleting(files[|files| - 1]) in log && AllDeleted(log, files[..|files| - 1]))
  }

  /** `receipt` has been harvested: it is on disk as such, and nothing is left of it remotely. */
  ghost predicate Done(file: ReceiptFile, log: seq<Event>, receipt: Receipt, outputs: seq<Id>) {
    file == Saved(receipt.(state := Harvested)) && AllDeleted(log, Leftovers(receipt, outputs))
  }

  /** A receipt that may replace the one on disk after `log`: it still names the paid request,
      and it says harvested once deleting has begun. */
  predicate Records(receipt: Receipt, log: seq<Event>) {
    && (forall e <- log :: e.Created? ==>
          receipt.state !in {PreparedOnly, UploadStarted} && receipt.identity == e.identity
          && receipt.inputFile == Some(e.inputFile))
    && (forall e <- log :: e.Deleting? ==> receipt.state == Harvested)
  }

  /** A save other than the first has returned. */
  ghost predicate AnyDurable(log: seq<Event>) {
    exists i :: 0 <= i < |log| && log[i].Durable?
  }

  predicate Quiet(log: seq<Event>) {
    forall e <- log :: !e.Created? && !e.Deleting?
  }

  /** The receipt on disk bounds what can have happened. */
  ghost predicate Consistent(file: ReceiptFile, fenced: bool, log: seq<Event>, batches: Id -> BatchInfo) {
    && Creations(log) <= 1
    && (fenced ==> file.Saved?)
    && (AnyDurable(log) ==> fenced)
    && (fenced || Quiet(log))
    && (file.Saved? ==> Records(file.receipt, log))
    && HarvestsMatch(log, batches) && DeletesAfterHarvest(log)
  }

  lemma {:induction false} QuietCreatesNothing(log: seq<Event>)
    requires forall e <- log :: !e.Created?
    ensures Creations(log) == 0
  {
    if |log| > 0 { QuietCreatesNothing(log[..|log| - 1]); }
  }

  lemma HarvestStaysDurable(log: seq<Event>, e: Event, n: nat)
    requires n <= |log| && (HarvestDurable(log, n) || (n == |log| && e.Durable? && e.receipt.state == Harvested))
    ensures HarvestDurable(log + [e], n) || (n == |log| && e.Durable?)
    ensures n == |log| ==> HarvestDurable(log + [e], n + 1)
  {
    var log' := log + [e];
    if HarvestDurable(log, n) {
      var i :| 0 <= i < n && log[i].Durable? && log[i].receipt.state == Harvested;
      assert log'[i].Durable? && log'[i].receipt.state == Harvested;
    } else {
      assert log'[n].Durable? && log'[n].receipt.state == Harvested;
    }
  }

  lemma DeletesMore(log: seq<Event>, e: Event)
    requires DeletesAfterHarvest(log) && (e.Deleting? ==> HarvestDurable(log, |log|))
    ensures DeletesAfterHarvest(log + [e])
  {
    var log' := log + [e];
    forall n | 0 <= n < |log'| && log'[n].Deleting?
      ensures HarvestDurable(log', n)
    {
      if n < |log| { assert log[n].Deleting?; }
      HarvestStaysDurable(log, e, n);
    }
  }

  lemma RecordsMore(receipt: Receipt, log: seq<Event>, e: Event)
    requires Records(receipt, log) && (e.Created? || e.Deleting? ==> Records(receipt, [e]))
    ensures Records(receipt, log + [e])
  {
    assert e in [e];
  }

  lemma HarvestsMore(log: seq<Event>, e: Event, batches: Id -> BatchInfo)
    requires HarvestsMatch(log, batches) && (e.Harvesting? ==> Matches(batches(e.batch), e.receipt))
    ensures HarvestsMatch(log + [e], batches)
  {
  }

  /** Adding an event that does not itself need a receipt. */
  lemma ConsistentMore(file: ReceiptFile, fenced: bool, log: seq<Event>, e: Event, batches: Id -> BatchInfo)
    requires Consistent(file, fenced, log, batches)
    requires e.Created? || e.Deleting? ==> file.Saved? && fenced && Records(file.receipt, [e])
    requires e.Created? ==> Creations(log) == 0
    requires e.Durable? ==> fenced
    requires e.Harvesting? ==> Matches(batches(e.batch), e.receipt)
    requires e.Deleting? ==> HarvestDurable(log, |log|)
    ensures Consistent(file, fenced, log + [e], batches)
    ensures Creations(log + [e]) == Creations(log) + if e.Created? then 1 else 0
  {
    assert (log + [e])[..|log|] == log;
    DeletesMore(log, e);
    HarvestsMore(log, e, batches);
    if file.Saved? { RecordsMore(file.receipt, log, e); }
  }

  // ----- Which answers are accepted

  /** One line of a result file, after parsing: `None` for the id when the line has none, no usage
      when the line fails before its usage is read, and `complete` when every later check passes. */
  datatype Line = Line(id: Option<Id>, usage: Option<nat>, complete: bool)

  datatype Counts = Counts(total: nat, completed: nat, failed: nat)

  predicate Good(line: Line) {
    line.id.Some? && line.usage.Some? && line.complete
  }

  predicate Answered(lines: seq<Line>, id: Id) {
    exists line <- lines :: line.id == Some(id)
  }

  /** Every line is good, answers a request, and is the only one to answer it. */
  ghost predicate AllGood(expected: seq<Id>, lines: seq<Line>) {
    && (forall i :: 0 <= i < |lines| ==> Good(lines[i]) && lines[i].id.value in expected)
    && (forall i, j :: 0 <= i < j < |lines| ==> lines[i].id != lines[j].id)
  }

  /** Every request is answered by exactly one good line, and there is no other line. */
  ghost predicate AnsweredOnce(expected: seq<Id>, lines: seq<Line>) {
    AllGood(expected, lines) && (forall id <- expected :: Answered(lines, id)) && |lines| == |expected|
  }

  lemma AnsweredMore(lines: seq<Line>, line: Line, id: Id)
    ensures Answered(lines + [line], id) <==> Answered(lines, id) || line.id == Some(id)
  {
    assert line in lines + [line];
    if Answered(lines, id) {
      var other :| other in lines && other.id == Some(id);
      assert other in lines + [line];
    }
  }

  lemma AllGoodMore(expected: seq<Id>, lines: seq<Line>, line: Line)
    ensures AllGood(expected, lines + [line]) <==>
              AllGood(expected, lines) && Good(line) && line.id.value in expected && !Answered(lines, line.id.value)
  {
    var more := lines + [line];
    assert more[|lines|] == line;
    assert forall i :: 0 <= i < |lines| ==> more[i] == lines[i];
    if Good(line) && !Answered(lines, line.id.value) {
      assert forall i :: 0 <= i < |lines| ==> lines[i] in lines && lines[i].id != line.id;
    }
  }

  function UsageOf(line: Line): nat {
    if line.usage.Some? then line.usage.value else 0
  }

  function TotalUsage(lines: seq<Line>): nat {
    if |lines| == 0 then 0
    else TotalUsage(lines[..|lines| - 1]) + UsageOf(lines[|lines| - 1])
  }

  /** Judges a finished batch from its status, its counts and its result lines. */
  method ValidateOutputs(completed: bool, counts: Counts, expected: seq<Id>, lines: seq<Line>)
    returns (accepted: bool, usage: nat, missing: set<Id>)
    ensures accepted <==> completed && AnsweredOnce(expected, lines)
                          && counts == Counts(|expected|, |expected|, 0)
    ensures accepted ==> usage == TotalUsage(lines)
    ensures forall id :: id in missing <==> id in expected && !Answered(lines, id)
  {
    var seen: set<Id> := {};
    var valid := completed;
    usage := 0;
    for i := 0 to |lines|
      invariant forall id :: id in seen <==> id in expected && Answered(lines[..i], id)
      invariant valid <==> completed && AllGood(expected, lines[..i])
      invariant valid ==> usage == TotalUsage(lines[..i])
    {
      var line := lines[i];
      assert lines[..i + 1] == lines[..i] + [line] && (lines[..i] + [line])[..i] == lines[..i];
      AllGoodMore(expected, lines[..i], line);
      forall id ensures Answered(lines[..i + 1], id) <==> Answered(lines[..i], id) || line.id == Some(id) {
        AnsweredMore(lines[..i], line, id);
      }
      if line.id.None? || line.id.value !in expected || line.id.value in seen {
        valid := false;
      } else {
        seen := seen + {line.id.value};
        if line.usage.None? {
          valid := false;
        } else {
          usage := usage + line.usage.value;
          valid := valid && line.complete;
        }
      }
    }
    assert lines[..|lines|] == lines;
    var wanted := set id <- expected;
    missing := wanted - seen;
    accepted := valid && seen == wanted && |lines| == |expected|
                && counts.total == |expected| && counts.completed == |expected| && counts.failed == 0;
  }

  /** The provider answers every call, records what it was asked for, and finishes. */
  predicate Granted(answers: Answers, identity: Id, batches: Id -> BatchInfo) {
    && answers.inputFile.Some? && answers.batch.Some? && answers.finished
    && batches(answers.batch.value) == BatchInfo(Some(identity), answers.inputFile)
  }

  /** The batch a receipt is bound to, or is to be bound to by hand. */
  function BatchOf(receipt: Receipt, recovered: Option<Id>): Option<Id> {
    if receipt.remoteBatch.Some? then receipt.remoteBatch else recovered
  }

  /** A receipt that is not harvested yet, with a batch that was asked for under its identity and
      with its input file. */
  predicate Resumable(file: ReceiptFile, recovered: Option<Id>, batches: Id -> BatchInfo) {
    && file.Saved? && file.receipt.state != Harvested && BatchOf(file.receipt, recovered).Some?
    && batches(BatchOf(file.receipt, recovered).value)
       == BatchInfo(Some(file.receipt.identity), file.receipt.inputFile)
  }

  lemma AllDeletedMore(log: seq<Event>, files: seq<Id>, i: nat)
    requires i < |files| && AllDeleted(log, files[..i])
    ensures AllDeleted(log + [Deleting(files[i])], files[..i + 1])
  {
    var more := log + [Deleting(files[i])];
    AllDeletedStill(log, more, files[..i]);
    assert more[|log|] == Deleting(files[i]);
    assert files[..i + 1][..i] == files[..i];
  }

  lemma {:induction false} AllDeletedStill(log: seq<Event>, more: seq<Event>, files: seq<Id>)
    requires AllDeleted(log, files) && log <= more
    ensures AllDeleted(more, files)
  {
    if |files| > 0 {
      var f := files[|files| - 1];
      var k :| 0 <= k < |log| && log[k] == Deleting(f);
      assert more[k] == Deleting(f);
      AllDeletedStill(log, more, files[..|files| - 1]);
    }
  }

  /** Every single one, that is. */
  lemma {:induction false} AllDeletedMeans(log: seq<Event>, files: seq<Id>, f: Id)
    requires AllDeleted(log, files) && f in files
    ensures Deleting(f) in log
  {
    var n := |files| - 1;
    if f != files[n] {
      assert files == files[..n] + [files[n]];
      AllDeletedMeans(log, files[..n], f);
    }
  }

  class Check {
    /** The provider's immutable facts about batches. */
    const batches: Id -> BatchInfo
    var file: ReceiptFile
    /** The directory entry of the receipt has been synchronised. The first save does not do so. */
    var fenced: bool
    var locked: bool
    ghost var log: seq<Event>
    /** How many saves have failed, and how often power was lost. */
    ghost var failures: nat

    ghost predicate Valid()
      reads this
    {
      Consistent(file, fenced, log, batches)
    }

    constructor (batches: Id -> BatchInfo)
      ensures Valid() && this.batches == batches && file == Missing && log == []
    {
      this.batches := batches;
      file, fenced, locked, log, failures := Missing, false, false, [], 0;
    }

    /** The first save. Losing power leaves nothing, an unreadable file or the receipt. */
    method SaveInitial(receipt: Receipt) returns (alive: bool)
      requires Valid() && file == Missing && receipt.state == PreparedOnly
      modifies this`file, this`fenced, this`failures
      ensures Valid() && Quiet(log) && failures == old(failures) + if alive then 0 else 1
      ensures alive ==> file == Saved(receipt)
    {
      alive := *;
      if !alive { failures := failures + 1; }
      var left: ReceiptFile :| left in {Missing, Torn, Saved(receipt)};
      file, fenced := if alive then Saved(receipt) else left, false;
    }

    /** A later save. Failing, or losing power, leaves the old receipt or the new one, or none
        at all while the first save's directory entry is not yet on disk. */
    method Save(receipt: Receipt) returns (alive: bool)
      requires Valid() && file.Saved? && Records(receipt, log)
      modifies this`file, this`fenced, this`log, this`failures
      ensures Valid() && Creations(log) == old(Creations(log))
      ensures failures == old(failures) + if alive then 0 else 1
      ensures alive ==> fenced && file == Saved(receipt) && log == old(log) + [Durable(receipt)]
      ensures !alive ==> log == old(log)
      ensures !alive && old(fenced) ==> file in {old(file), Saved(receipt)}
    {
      alive := *;
      if alive {
        ConsistentMore(Saved(receipt), true, log, Durable(receipt), batches);
        file, fenced, log := Saved(receipt), true, log + [Durable(receipt)];
      } else {
        var left: ReceiptFile :| left in {file, Saved(receipt)} + if fenced then {} else {Missing};
        file, failures := left, failures + 1;
      }
    }

    /** The paid request. It may take effect without an answer. */
    method CreateBatch(receipt: Receipt, answer: Option<Id>)
      requires Valid() && Creations(log) == 0 && file == Saved(receipt) && fenced
      requires receipt.state == CreateStarted && receipt.inputFile.Some?
      modifies this`log
      ensures Valid()
      ensures log == old(log) || log == old(log) + [Created(receipt.identity, receipt.inputFile.value)]
      ensures answer.Some? ==> log != old(log)
    {
      var sent: bool := *;
      if !sent && answer.None? { return; }
      var e := Created(receipt.identity, receipt.inputFile.value);
      ConsistentMore(file, fenced, log, e, batches);
      log := log + [e];
    }

    /** From a bound receipt to the end: check, poll, harvest, save, clean up. */
    method Harvest(receipt: Receipt, batch: Id, answers: Answers)
      requires Valid() && file.Saved? && Records(receipt, log) && receipt.state != Harvested
      modifies this`file, this`fenced, this`log, this`failures
      ensures Valid() && Creations(log) == old(Creations(log)) && old(log) <= log && old(failures) <= failures
      ensures !Matches(batches(batch), receipt) ==> log == old(log) && file == old(file)
      ensures Matches(batches(batch), receipt) && answers.finished && failures == old(failures) ==>
                Done(file, log, receipt, answers.outputs)
    {
      if !Matches(batches(batch), receipt) { return; }
      if !answers.finished { return; }
      ConsistentMore(file, fenced, log, Harvesting(batch, receipt), batches);
      log := log + [Harvesting(batch, receipt)];
      var harvested := receipt.(state := Harvested);
      var alive := Save(harvested);
      if !alive { return; }
      assert log[|log| - 1] == Durable(harvested);
      CleanUp(harvested, answers.outputs);
    }

    method Delete(remote: Id)
      requires Valid() && fenced && file.receipt.state == Harvested && HarvestDurable(log, |log|)
      modifies this`log
      ensures Valid() && Creations(log) == old(Creations(log)) && HarvestDurable(log, |log|)
      ensures log == old(log) + [Deleting(remote)]
    {
      var e := Deleting(remote);
      ConsistentMore(file, fenced, log, e, batches);
      HarvestStaysDurable(log, e, |log|);
      log := log + [e];
    }

    /** Deletes the remote files of a harvested batch and notes how that went. */
    method CleanUp(harvested: Receipt, outputs: seq<Id>)
      requires Valid() && file == Saved(harvested) && fenced
      requires harvested.state == Harvested && HarvestDurable(log, |log|)
      modifies this`file, this`fenced, this`log, this`failures
      ensures Valid() && Creations(log) == old(Creations(log)) && file == old(file) && old(log) <= log
      ensures old(failures) <= failures
      ensures failures == old(failures) ==> AllDeleted(log, Leftovers(harvested, outputs))
    {
      var files := Leftovers(harvested, outputs);
      var alive := DeleteAll(files);
      if !alive { return; }
      ghost var before := log;
      alive := Save(harvested);
      AllDeletedStill(before, log, files);
    }

    method DeleteAll(files: seq<Id>) returns (alive: bool)
      requires Valid() && fenced && file.receipt.state == Harvested && HarvestDurable(log, |log|)
      modifies this`log, this`failures
      ensures Valid() && Creations(log) == old(Creations(log)) && old(log) <= log
      ensures failures == old(failures) + if alive then 0 else 1
      ensures alive ==> AllDeleted(log, files)
    {
      for i := 0 to |files|
        invariant Valid() && Creations(log) == old(Creations(log)) && old(log) <= log && failures == old(failures)
        invariant HarvestDurable(log, |log|) && AllDeleted(log, files[..i])
      {
        AllDeletedMore(log, files, i);
        Delete(files[i]);
        var powerLost: bool := *;
        if powerLost {
          failures := failures + 1;
          return false;
        }
      }
      assert files[..|files|] == files;
      alive := true;
    }

    /** A run without `--resume`. If everything goes well and the provider records what it was
        asked for, it ends with a harvested receipt and nothing left behind. */
    method Fresh(identity: Id, answers: Answers)
      requires Valid()
      modifies this`file, this`fenced, this`log, this`failures
      ensures Valid() && old(log) <= log && old(failures) <= failures
      ensures old(file) != Missing ==> file == old(file) && log == old(log)
      ensures failures == old(failures) && old(file) == Missing && Granted(answers, identity, batches) ==>
                && Done(file, log, Receipt(Pending, identity, answers.inputFile, answers.batch), answers.outputs)
                && Created(identity, answers.inputFile.value) in log
    {
      if file != Missing { return; }
      var receipt := Receipt(PreparedOnly, identity, None, None);
      var alive := SaveInitial(receipt);
      if !alive { return; }
      var started := Upload(receipt, answers.inputFile);
      if started.Some? { Submit(started.value, answers); }
    }

    /** Uploads the requests, and returns once the receipt says durably that creating may start. */
    method Upload(receipt: Receipt, answer: Option<Id>) returns (started: Option<Receipt>)
      requires Valid() && file == Saved(receipt) && Quiet(log)
      modifies this`file, this`fenced, this`log, this`failures
      ensures Valid() && old(log) <= log && Creations(log) == 0 && old(failures) <= failures
      ensures started.Some? ==>
                && file == Saved(started.value) && fenced && answer.Some?
                && started.value == receipt.(state := CreateStarted, inputFile := answer)
      ensures started.None? && answer.Some? ==> failures > old(failures)
      ensures started.Some? ==>
                log == old(log) + [Durable(receipt.(state := UploadStarted)), Uploading, Durable(started.value)]
    {
      QuietCreatesNothing(log);
      var alive := StartUpload(receipt);
      if !alive || answer.None? { return None; }
      var receipt' := receipt.(state := CreateStarted, inputFile := answer);
      alive := Save(receipt');
      started := if alive then Some(receipt') else None;
    }

    /** Notes durably that the upload is about to start, and starts it. */
    method StartUpload(receipt: Receipt) returns (alive: bool)
      requires Valid() && file == Saved(receipt) && Quiet(log)
      modifies this`file, this`fenced, this`log, this`failures
      ensures Valid() && failures == old(failures) + if alive then 0 else 1
      ensures log == old(log) + if alive then [Durable(receipt.(state := UploadStarted)), Uploading] else []
      ensures Quiet(log) && Creations(log) == old(Creations(log)) && (alive ==> file.Saved?)
    {
      alive := Save(receipt.(state := UploadStarted));
      if !alive { return; }
      ConsistentMore(file, fenced, log, Uploading, batches);
      log := log + [Uploading];
    }

    /** Sends the paid request and follows the batch to its end. */
    method Submit(started: Receipt, answers: Answers)
      requires Valid() && Creations(log) == 0 && file == Saved(started) && fenced
      requires started.state == CreateStarted && started.inputFile.Some?
      modifies this`file, this`fenced, this`log, this`failures
      ensures Valid() && old(log) <= log && old(failures) <= failures
      ensures answers.batch.Some? ==> Created(started.identity, started.inputFile.value) in log
      ensures answers.batch.Some? && failures == old(failures) ==>
                old(log) + [Created(started.identity, started.inputFile.value),
                            Durable(started.(state := Pending, remoteBatch := answers.batch))] <= log
      ensures answers.batch.Some? && failures == old(failures) && answers.finished
              && Matches(batches(answers.batch.value), started) ==>
                Done(file, log, started.(state := Pending, remoteBatch := answers.batch), answers.outputs)
    {
      CreateBatch(started, answers.batch);
      if answers.batch.None? { return; }
      assert log[|log| - 1] == Created(started.identity, started.inputFile.value);
      var receipt := started.(state := Pending, remoteBatch := answers.batch);
      var alive := Save(receipt);
      if !alive { return; }
      Harvest(receipt, answers.batch.value, answers);
    }

    /** A run with `--resume`, possibly with a batch id recovered by hand. It never creates. If
        everything goes well and the batch matches the receipt, it ends with a harvested receipt
        and nothing left behind. */
    method Resume(recovered: Option<Id>, answers: Answers)
      requires Valid()
      modifies this`file, this`fenced, this`log, this`failures
      ensures Valid() && Creations(log) == old(Creations(log)) && old(log) <= log && old(failures) <= failures
      ensures !old(file).Saved? || old(file).receipt.state == Harvested ==> file == old(file) && log == old(log)
      ensures failures == old(failures) && Resumable(old(file), recovered, batches) && answers.finished ==>
                var r := old(file).receipt;
                Done(file, log, r.(remoteBatch := BatchOf(r, recovered)), answers.outputs)
    {
      if !file.Saved? { return; }
      var receipt := file.receipt;
      if receipt.state == Harvested { return; }
      if receipt.remoteBatch.None? && recovered.Some? {
        if !Matches(batches(recovered.value), receipt) { return; }
        receipt := receipt.(remoteBatch := recovered);
        var alive := Save(receipt);
        if !alive { return; }
      }
      if receipt.remoteBatch.None? { return; }
      Harvest(receipt, receipt.remoteBatch.value, answers);
    }

    /** Any number of runs over one receipt path, each of which may fail or lose power anywhere. */
    method Operate(requests: seq<Request>)
      requires Valid()
      modifies this
      ensures Valid()
      ensures Creations(log) <= 1 && HarvestsMatch(log, batches) && DeletesAfterHarvest(log)
      ensures AnyDurable(log) ==> file.Saved?
      ensures forall e <- log :: e.Harvesting? ==>
                && batches(e.batch).identity == Some(e.receipt.identity)
                && batches(e.batch).inputFile == e.receipt.inputFile
      ensures old(log) <= log
      ensures forall e <- log :: e.Created? ==>
                file.Saved? && file.receipt.identity == e.identity && file.receipt.inputFile == Some(e.inputFile)
    {
      for i := 0 to |requests|
        invariant Valid() && old(log) <= log
      {
        Serve(requests[i]);
      }
    }

    /** One run, refused while the lock file of another is there. Losing power leaves the lock. */
    method Serve(request: Request)
      requires Valid()
      modifies this
      ensures Valid() && old(log) <= log && old(failures) <= failures
      ensures request.Run? && old(locked) ==> file == old(file) && log == old(log) && locked
      ensures request.ClearLock? ==> file == old(file) && log == old(log) && !locked
      ensures request.Run? && !old(locked) && failures == old(failures) ==> !locked
    {
      match request
      case ClearLock =>
        locked := false;
      case Run(resume, identity, recovered, answers) =>
        if !locked {
          locked := true;
          if resume {
            Resume(recovered, answers);
          } else {
            Fresh(identity, answers);
          }
          var powerLost: bool := *;
          if powerLost { failures := failures + 1; } else { locked := false; }
        }
    }
  }
}
