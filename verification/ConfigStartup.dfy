/** Stores that no load has repaired: a new device, a pointer or a journal that cannot be used, and
    commits that have to be given up. */
module ConfigStartup {
  import opened Wrappers
  import opened Bytes
  import opened ConfigCells
  import opened ConfigRecovery

  // ----- A new device

  /** Nothing usable is stored: no complete slot, no pointer, no journal. */
  predicate Blank<P>(c: Cells<P>) {
    !c.a.Holds? && !c.b.Holds? && c.pointer.Absent? && c.journal.Absent?
  }

  lemma BlankLoadsNothing<P(!new)>(c: Cells<P>)
    requires Blank(c)
    ensures LoadResult(c).None? && LoadTrace(c) == []
  {
  }

  /** No complete slot and no journal, but perhaps a pointer left over. */
  predicate Empty<P>(c: Cells<P>) {
    !c.a.Holds? && !c.b.Holds? && (c.pointer.Absent? || c.pointer.Holds?) && c.journal.Absent?
  }

  const FIRST := Pointer(A, 1)

  function FirstJournal<P>(c: Cells<P>, phase: Phase): Cell<Journal> {
    Holds(Journal(phase, GENERIC_TARGET, if c.pointer.Holds? then Some(c.pointer.value) else None, FIRST))
  }

  /** The six states of the first save: it goes to slot A with generation 1. */
  function FirstStates<P>(c: Cells<P>, payload: P, torn: Cell<SlotValue<P>>): seq<Cells<P>> {
    var written := c.(a := Holds(SlotValue(payload, 1)));
    var promoted := written.(pointer := Holds(FIRST));
    [c.(a := torn), written, written.(journal := FirstJournal(c, Prepared)),
     promoted.(journal := FirstJournal(c, Prepared)), promoted.(journal := FirstJournal(c, ConfigCommitted)), promoted]
  }

  lemma FirstSaveIs<P(!new)>(c: Cells<P>, payload: P, torn: Cell<SlotValue<P>>)
    requires Empty(c)
    ensures SaveOutcome(c, payload, torn) == Outcome(FirstStates(c, payload, torn), true)
  {
    var written := c.(a := Holds(SlotValue(payload, 1)));
    var begun := written.(journal := FirstJournal(c, Prepared));
    assert NextPointer(c) == Some(FIRST);
    assert PromoteOutcome(begun, begun.journal.value, payload)
        == Outcome(FirstStates(c, payload, torn)[3..], true);
    assert FirstStates(c, payload, torn)
        == [c.(a := torn)] + ([written] + ([begun] + FirstStates(c, payload, torn)[3..]));
  }

  /** The first save of a new device succeeds, also over a pointer that was left over. */
  lemma FirstSaveSucceeds<P(!new)>(c: Cells<P>, payload: P, torn: Cell<SlotValue<P>>)
    requires Empty(c)
    ensures var outcome := SaveOutcome(c, payload, torn);
            && outcome.ok && |outcome.trace| == 6
            && Repaired(After(c, outcome.trace)) && LoadResult(After(c, outcome.trace)) == Some(payload)
            && After(c, outcome.trace).pointer == Holds(FIRST)
  {
    FirstSaveIs(c, payload, torn);
  }

  /** Power loss after `k` writes of the first save of a new device. The complete slot is enough
      for `load` while there is no journal; once the journal is written it is not, until the
      journal is committed. */
  lemma FirstSaveCutAt<P(!new)>(c: Cells<P>, payload: P, torn: Cell<SlotValue<P>>, k: nat)
    requires Blank(c) && k <= 6 && !torn.Holds?
    ensures |SaveOutcome(c, payload, torn).trace| == 6
    ensures LoadResult(CrashAt(c, SaveOutcome(c, payload, torn).trace, k))
         == if k == 2 || k >= 5 then Some(payload) else None
  {
    FirstSaveIs(c, payload, torn);
    FirstStateLoads(c, payload, torn, k);
  }

  lemma FirstStateLoads<P(!new)>(c: Cells<P>, payload: P, torn: Cell<SlotValue<P>>, k: nat)
    requires Blank(c) && k <= 6 && !torn.Holds?
    ensures LoadResult(CrashAt(c, FirstStates(c, payload, torn), k)) == if k == 2 || k >= 5 then Some(payload) else None
  {
    assert k == 0 || k == 1 || k == 2 || k == 3 || k == 4 || k == 5 || k == 6;
  }

  /** The boot after it leaves a repaired store with the payload or a blank one; or, if the
      pointer was already written, an empty one with that pointer left over. */
  lemma FirstSaveThenBoot<P(!new)>(c: Cells<P>, payload: P, torn: Cell<SlotValue<P>>, k: nat)
    requires Blank(c) && k <= 6 && !torn.Holds?
    ensures |SaveOutcome(c, payload, torn).trace| == 6
    ensures var cut := CrashAt(c, SaveOutcome(c, payload, torn).trace, k);
            var booted := After(cut, LoadTrace(cut));
            if k == 2 || k >= 5 then Repaired(booted) && LoadResult(booted) == Some(payload)
            else if k == 4 then Empty(booted) && booted.pointer == Holds(FIRST)
            else Blank(booted)
  {
    FirstSaveIs(c, payload, torn);
    FirstStateLoads(c, payload, torn, k);
    var cut := CrashAt(c, FirstStates(c, payload, torn), k);
    if k == 2 || k >= 5 {
      LoadRepairs(cut);
    } else {
      assert k == 0 || k == 1 || k == 3 || k == 4;
    }
  }

  /** Power loss in a first save over a pointer that was left over. If it is the pointer that a
      first save itself leaves, `load` returns the payload from the moment the slot is complete.
      Any other one makes the journal name a slot that is not there. */
  lemma SaveOverLeftPointerCutAt<P(!new)>(c: Cells<P>, payload: P, torn: Cell<SlotValue<P>>, k: nat)
    requires Empty(c) && c.pointer.Holds? && k <= 6 && !torn.Holds?
    ensures |SaveOutcome(c, payload, torn).trace| == 6
    ensures LoadResult(CrashAt(c, SaveOutcome(c, payload, torn).trace, k))
         == if k == 2 || k >= 5 || (3 <= k && c.pointer.value == FIRST) then Some(payload) else None
  {
    FirstSaveIs(c, payload, torn);
    assert k == 0 || k == 1 || k == 2 || k == 3 || k == 4 || k == 5 || k == 6;
  }

  /** And then the store is locked: no load returns anything or changes anything, and every later
      save is refused. */
  lemma LeftPointerLocks<P(!new)>(c: Cells<P>, payload: P, torn: Cell<SlotValue<P>>, k: nat,
                                  later: P, torn': Cell<SlotValue<P>>)
    requires Empty(c) && c.pointer.Holds? && 3 <= k <= 4 && !torn.Holds?
    ensures |SaveOutcome(c, payload, torn).trace| == 6
    ensures var cut := CrashAt(c, SaveOutcome(c, payload, torn).trace, k);
            LoadResult(cut).None? && LoadTrace(cut) == [] && !SaveOutcome(cut, later, torn').ok
            <==> c.pointer.value != FIRST
  {
    FirstSaveIs(c, payload, torn);
    SaveOverLeftPointerCutAt(c, payload, torn, k);
    assert k == 3 || k == 4;
  }

  // ----- A pointer that cannot be used

  /** Without a journal, `load` returns something exactly if a complete slot remains, whatever the
      pointer, and repairs the store. */
  lemma SurvivingSlotIsFound<P(!new)>(c: Cells<P>)
    requires c.journal.Absent?
    ensures LoadResult(c).Some? <==> c.a.Holds? || c.b.Holds?
    ensures LoadResult(c).Some? ==> Repaired(After(c, LoadTrace(c)))
  {
    if LoadResult(c).Some? { LoadRepairs(c); }
  }

  /** A pointer that does not decode makes a save fail, before anything but the inactive slot is
      written; at every cut `load` returns what it returned before. */
  lemma DamagedPointerKeepsSaveOut<P(!new)>(c: Cells<P>, payload: P, torn: Cell<SlotValue<P>>, k: nat)
    requires c.journal.Absent? && c.pointer.Damaged? && (c.a.Holds? || c.b.Holds?) && !torn.Holds?
    requires k <= |SaveOutcome(c, payload, torn).trace|
    ensures !SaveOutcome(c, payload, torn).ok
    ensures LoadResult(CrashAt(c, SaveOutcome(c, payload, torn).trace, k)) == LoadResult(c)
  {
  }

  /** When the generations are used up, a save is refused without a write. */
  lemma GenerationsRunOut<P(!new)>(c: Cells<P>, payload: P, torn: Cell<SlotValue<P>>)
    requires Repaired(c) && c.pointer.value.generation >= MAX_GENERATION
    ensures SaveOutcome(c, payload, torn) == Outcome([], false)
  {
  }

  // ----- A journal that cannot be used

  /** A journal that does not decode stops loads and commits alike, and stays. */
  lemma UnreadableJournalStops<P(!new)>(c: Cells<P>, payload: P, torn: Cell<SlotValue<P>>)
    requires c.journal.Damaged? || c.journal.Oversized?
    ensures LoadResult(c).None? && LoadTrace(c) == []
    ensures !SaveOutcome(c, payload, torn).ok
    ensures forall d <- SaveOutcome(c, payload, torn).trace :: d.journal == c.journal && d.pointer == c.pointer
  {
  }

  /** A commit leaves the journal of another candidate alone. */
  lemma ForeignJournalRefuses<P(!new)>(c: Cells<P>, prepared: Pointer, payload: P)
    requires c.journal.Holds? && c.journal.value.prepared != prepared
    ensures CommitOutcome(c, prepared, payload) == Outcome([], false)
  {
  }

  /** A committed journal whose candidate is complete is finished by a commit. */
  lemma CommittedJournalFinishes<P(!new)>(c: Cells<P>, payload: P)
    requires c.journal.Holds? && c.journal.value.phase == ConfigCommitted
    requires Pointed(c, c.journal.value.prepared) == Some(payload)
    ensures var outcome := CommitOutcome(c, c.journal.value.prepared, payload);
            && outcome.ok && Repaired(After(c, outcome.trace))
            && LoadResult(After(c, outcome.trace)) == Some(payload)
            && forall k :: 0 <= k < |outcome.trace| ==> LoadResult(outcome.trace[k]) == Some(payload)
  {
  }

  // ----- Commits that are given up

  /** From the moment an abort is marked in the journal, every state recovers to the previous
      payload, whatever the promotion had done before. */
  lemma AbortDecides<P(!new)>(c: Cells<P>, j: Journal, k: nat)
    requires Encodable(j) && j.previous.Some? && Pointed(c, j.previous.value).Some?
    requires k < |AbortOutcome(c, j).trace|
    ensures LoadResult(AbortOutcome(c, j).trace[k]) == Pointed(c, j.previous.value)
    ensures Repaired(After(c, AbortOutcome(c, j).trace))
  {
  }

  /** A commit whose candidate is not what was prepared fails and leaves the old payload, at every
      cut. */
  lemma WrongCandidateIsGivenUp<P(!new)>(c: Cells<P>, prepared: Pointer, payload: P, k: nat)
    requires Repaired(c) && prepared.slot != c.pointer.value.slot && Pointed(c, prepared) != Some(payload)
    requires k <= |CommitOutcome(c, prepared, payload).trace|
    ensures !CommitOutcome(c, prepared, payload).ok
    ensures LoadResult(CrashAt(c, CommitOutcome(c, prepared, payload).trace, k)) == LoadResult(c)
    ensures Repaired(After(c, CommitOutcome(c, prepared, payload).trace))
  {
  }

  /** Without a previous configuration the wrong candidate is removed, and the store is blank. */
  lemma WrongFirstCandidateIsRemoved<P(!new)>(c: Cells<P>, prepared: Pointer, payload: P)
    requires c.pointer.Absent? && c.journal.Absent? && !c.Slot(Other(prepared.slot)).Holds?
    requires Pointed(c, prepared) != Some(payload)
    ensures !CommitOutcome(c, prepared, payload).ok
    ensures Blank(After(c, CommitOutcome(c, prepared, payload).trace))
  {
  }
}
