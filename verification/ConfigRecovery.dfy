/** Crash safety of the configuration store: what the next `load` returns after power is lost
    at any point of a `save`, of a `load`, or of a run of loads and commits. */
module ConfigRecovery {
  import opened Wrappers
  import opened Bytes
  import opened ConfigCells

  /** The state a completed `load` leaves behind. */
  ghost predicate Repaired<P(!new)>(c: Cells<P>) {
    c.journal.Absent? && c.pointer.Holds? && Pointed(c, c.pointer.value).Some?
  }

  /** The contents after the first `k` writes of a trace that starts in `c`. */
  function CrashAt<P>(c: Cells<P>, trace: seq<Cells<P>>, k: nat): Cells<P>
    requires k <= |trace|
  {
    if k == 0 then c else trace[k - 1]
  }

  // ----- Power loss inside save

  ghost predicate CommittedWithin<P(!new)>(trace: seq<Cells<P>>, k: nat)
    requires k <= |trace|
  {
    exists i :: 0 <= i < k && trace[i].journal.Holds? && trace[i].journal.value.phase == ConfigCommitted
  }

  /** From a repaired store, power loss after any prefix of the writes of `save`, with the slot
      write itself cut short in any way, leaves a store whose next `load` returns the new
      payload if the committed journal has become durable, and the old payload otherwise. */
  lemma SaveIsAtomic<P(!new)>(c: Cells<P>, payload: P, torn: Cell<SlotValue<P>>, k: nat)
    requires Repaired(c) && c.pointer.value.generation < MAX_GENERATION
    requires k <= |SaveOutcome(c, payload, torn).trace|
    ensures LoadResult(c).Some?
    ensures var trace := SaveOutcome(c, payload, torn).trace;
            LoadResult(CrashAt(c, trace, k))
            == if CommittedWithin(trace, k) then Some(payload) else LoadResult(c)
  {
    SaveStates(c, payload, torn);
    var trace := SaveOutcome(c, payload, torn).trace;
    if k >= 5 { assert trace[4].journal.value.phase == ConfigCommitted; }
  }

  /** The six states of a save, and what each recovers to. */
  lemma SaveStates<P(!new)>(c: Cells<P>, payload: P, torn: Cell<SlotValue<P>>)
    requires Repaired(c) && c.pointer.value.generation < MAX_GENERATION
    ensures var trace := SaveOutcome(c, payload, torn).trace;
            var p := c.pointer.value;
            var next := Pointer(Other(p.slot), p.generation + 1);
            && |trace| == 6 && SaveOutcome(c, payload, torn).ok
            && (forall k :: 0 <= k < 6 ==> trace[k].Slot(p.slot) == c.Slot(p.slot))
            && (forall k :: 0 <= k < 4 ==> LoadResult(trace[k]) == LoadResult(c))
            && (forall k :: 0 <= k < 4 && trace[k].journal.Holds? ==> trace[k].journal.value.phase == Prepared)
            && trace[4].journal == Holds(Journal(ConfigCommitted, GENERIC_TARGET, Some(p), next))
            && LoadResult(trace[4]) == LoadResult(trace[5]) == Some(payload)
            && Repaired(trace[5]) && trace[5].pointer.value == next
  {
  }

  datatype SaveAttempt<+P> = SaveAttempt(payload: P, torn: Cell<SlotValue<P>>, writes: nat)

  /** An attempt to save that loses power after `writes` writes (or not at all), and the boot
      that follows it and loads. */
  function AttemptAndBoot<P(==)>(c: Cells<P>, s: SaveAttempt<P>): Cells<P> {
    var trace := SaveOutcome(c, s.payload, s.torn).trace;
    var crashed := CrashAt(c, trace, if s.writes <= |trace| then s.writes else |trace|);
    After(crashed, LoadTrace(crashed))
  }

  /** The fifth write is the committed journal. After the boot the store is ready for the next
      save, and at most one generation has been used. */
  lemma AttemptLeavesRepaired<P(!new)>(c: Cells<P>, s: SaveAttempt<P>)
    requires Repaired(c) && c.pointer.value.generation < MAX_GENERATION
    ensures var booted := AttemptAndBoot(c, s);
            && Repaired(booted)
            && LoadResult(booted) == (if s.writes >= 5 then Some(s.payload) else LoadResult(c))
            && booted.pointer.value.generation <= c.pointer.value.generation + 1
  {
    SaveStates(c, s.payload, s.torn);
    var trace := SaveOutcome(c, s.payload, s.torn).trace;
    LoadRepairs(CrashAt(c, trace, if s.writes <= |trace| then s.writes else |trace|));
  }

  /** A device life of saves, each cut short somewhere or complete. */
  function RunSaves<P(==)>(c: Cells<P>, attempts: seq<SaveAttempt<P>>): Cells<P>
    decreases |attempts|
  {
    if |attempts| == 0 then c else RunSaves(AttemptAndBoot(c, attempts[0]), attempts[1..])
  }

  /** The payload of the last attempt that got as far as the committed journal. */
  function LastCommitted<P>(initial: P, attempts: seq<SaveAttempt<P>>): P
    decreases |attempts|
  {
    if |attempts| == 0 then initial
    else LastCommitted(if attempts[0].writes >= 5 then attempts[0].payload else initial, attempts[1..])
  }

  /** Over a whole life of interrupted saves the store holds exactly the last payload whose
      commit became durable. */
  lemma {:induction false} SavesNeverLost<P(!new)>(c: Cells<P>, attempts: seq<SaveAttempt<P>>)
    requires Repaired(c) && c.pointer.value.generation + |attempts| <= MAX_GENERATION
    ensures LoadResult(c).Some?
    ensures Repaired(RunSaves(c, attempts))
    ensures LoadResult(RunSaves(c, attempts)) == Some(LastCommitted(LoadResult(c).value, attempts))
    decreases |attempts|
  {
    if |attempts| > 0 {
      AttemptLeavesRepaired(c, attempts[0]);
      SavesNeverLost(AttemptAndBoot(c, attempts[0]), attempts[1..]);
    }
  }

  // ----- Power loss inside load

  /** Whatever `load` would return, it returns again after a crash at any of its writes, and the
      second run ends in the same contents as an uninterrupted first one. */
  lemma LoadRestarts<P(!new)>(c: Cells<P>, k: nat)
    requires LoadResult(c).Some? && k < |LoadTrace(c)|
    ensures LoadResult(LoadTrace(c)[k]) == LoadResult(c)
    ensures After(LoadTrace(c)[k], LoadTrace(LoadTrace(c)[k])) == After(c, LoadTrace(c))
  {
  }

  lemma LoadRepairs<P(!new)>(c: Cells<P>)
    requires LoadResult(c).Some?
    ensures |LoadTrace(c)| > 0
    ensures var booted := After(c, LoadTrace(c));
            && LoadResult(booted) == LoadResult(c)
            && booted.pointer == Holds(LoadTarget(c).value)
            && (c.journal.Holds? && c.journal.value.phase == SchedulePromoted ==> booted.journal == c.journal)
            && (!(c.journal.Holds? && c.journal.value.phase == SchedulePromoted) ==> Repaired(booted))
  {
  }

  /** Each state is the previous one, or a crash point of a load started in the previous one. */
  ghost predicate InterruptedLoads<P(!new)>(states: seq<Cells<P>>) {
    forall i :: 0 <= i < |states| - 1 ==>
      states[i + 1] == states[i] || states[i + 1] in LoadTrace(states[i])
  }

  /** Recovery restarts safely any number of times. */
  lemma {:induction false} RecoveryConverges<P(!new)>(states: seq<Cells<P>>, n: nat)
    requires InterruptedLoads(states) && n < |states|
    requires LoadResult(states[0]).Some?
    ensures LoadResult(states[n]) == LoadResult(states[0])
    ensures After(states[n], LoadTrace(states[n])) == After(states[0], LoadTrace(states[0]))
  {
    if n > 0 {
      RecoveryConverges(states, n - 1);
      var c := states[n - 1];
      assert states[n - 1 + 1] == c || states[n - 1 + 1] in LoadTrace(c);
      if states[n] in LoadTrace(c) {
        var k :| 0 <= k < |LoadTrace(c)| && LoadTrace(c)[k] == states[n];
        LoadRestarts(c, k);
      }
    }
  }

  // ----- Schedule-bound transactions

  /** A configuration change tied to a schedule: `active` is in use, `candidate` is prepared in the
      other slot, and the journal names the target schedule. */
  datatype Bound<+P> = Bound(target: seq<byte>, previous: Pointer, active: P, prepared: Pointer, candidate: P)

  ghost predicate WellBound<P(!new)>(b: Bound<P>) {
    && 0 < |b.target| <= MAX_SCHEDULE_ID_BYTES && b.target != GENERIC_TARGET
    && b.previous.slot != b.prepared.slot
  }

  ghost predicate BoundTo<P(!new)>(c: Cells<P>, target: seq<byte>) {
    c.journal.Holds? && c.journal.value.target == target
  }

  /** Both slots are intact; a journal for the schedule still names `previous` and `prepared`;
      any other journal is a generic one for the candidate. */
  ghost predicate InTransaction<P(!new)>(c: Cells<P>, b: Bound<P>) {
    && WellBound(b)
    && Pointed(c, b.previous) == Some(b.active) && Pointed(c, b.prepared) == Some(b.candidate)
    && match c.journal
       case Absent => c.pointer == Holds(b.previous) || c.pointer == Holds(b.prepared)
       case Holds(j) =>
         && j.prepared == b.prepared
         && (j.target == b.target ==> j.previous == Some(b.previous))
         && (j.target != b.target ==>
               && j.target == GENERIC_TARGET
               && (j.previous == Some(b.previous) || j.previous == Some(b.prepared)))
       case _ => false
  }

  datatype Step = Load(writes: nat) | Commit(writes: nat) | PromoteSchedule

  /** A load or a commit of the candidate that loses power after `writes` writes (or not at
      all), or the schedule side marking a prepared transaction as promoted. */
  function Take<P(==)>(c: Cells<P>, b: Bound<P>, step: Step): Cells<P> {
    match step
    case Load(writes) =>
      var trace := LoadTrace(c);
      CrashAt(c, trace, if writes <= |trace| then writes else |trace|)
    case Commit(writes) =>
      var trace := CommitOutcome(c, b.prepared, b.candidate).trace;
      CrashAt(c, trace, if writes <= |trace| then writes else |trace|)
    case PromoteSchedule =>
      if c.journal.Holds? && c.journal.value.phase == Prepared && c.journal.value.target == b.target
      then c.(journal := Holds(c.journal.value.(phase := SchedulePromoted)))
      else c
  }

  function RunSteps<P(==)>(c: Cells<P>, b: Bound<P>, steps: seq<Step>): Cells<P>
    decreases |steps|
  {
    if |steps| == 0 then c else RunSteps(Take(c, b, steps[0]), b, steps[1..])
  }

  lemma StepKeepsTransaction<P(!new)>(c: Cells<P>, b: Bound<P>, step: Step)
    requires InTransaction(c, b)
    ensures InTransaction(Take(c, b, step), b)
  {
    if step.Commit? { CommitKeepsTransaction(c, b, step.writes); }
  }

  lemma CommitKeepsTransaction<P(!new)>(c: Cells<P>, b: Bound<P>, writes: nat)
    requires InTransaction(c, b)
    ensures InTransaction(Take(c, b, Commit(writes)), b)
  {
    var outcome := CommitOutcome(c, b.prepared, b.candidate);
    forall k | 0 <= k < |outcome.trace|
      ensures InTransaction(outcome.trace[k], b)
    {
      if c.journal.Holds? {
        var j := c.journal.value;
        if j.phase == Prepared || j.phase == SchedulePromoted {
          assert Pointed(c, j.prepared) == Some(b.candidate);
        }
      }
    }
  }

  /** On every run of loads, commits, schedule promotions and power losses, `load` returns the
      old or the candidate configuration whole; as long as the schedule-bound journal is not
      committed it returns the old one, and a commit in phase Prepared or Aborted is refused
      without a single write. */
  lemma {:induction false} CandidateWaitsForSchedule<P(!new)>(c: Cells<P>, b: Bound<P>, steps: seq<Step>)
    requires InTransaction(c, b)
    ensures var r := RunSteps(c, b, steps);
            && InTransaction(r, b)
            && (LoadResult(r) == Some(b.active) || LoadResult(r) == Some(b.candidate))
            && (BoundTo(r, b.target) && r.journal.value.phase != ConfigCommitted ==>
                  LoadResult(r) == Some(b.active))
            && (BoundTo(r, b.target) && (r.journal.value.phase == Prepared || r.journal.value.phase == Aborted) ==>
                  CommitOutcome(r, b.prepared, b.candidate) == Outcome([], false))
    decreases |steps|
  {
    if |steps| > 0 {
      StepKeepsTransaction(c, b, steps[0]);
      CandidateWaitsForSchedule(Take(c, b, steps[0]), b, steps[1..]);
    }
  }

  /** Partner of the previous theorem: once the schedule is promoted, an uninterrupted commit
      succeeds and makes the candidate what `load` returns. */
  lemma PromotedScheduleCommits<P(!new)>(c: Cells<P>, b: Bound<P>)
    requires InTransaction(c, b) && BoundTo(c, b.target) && c.journal.value.phase == SchedulePromoted
    ensures var outcome := CommitOutcome(c, b.prepared, b.candidate);
            && outcome.ok && Repaired(After(c, outcome.trace))
            && LoadResult(After(c, outcome.trace)) == Some(b.candidate)
  {
  }
}
