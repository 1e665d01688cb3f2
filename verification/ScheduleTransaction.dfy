/** A schedule and the configuration that belongs to it change together: the configuration goes
    through the journaled A/B store, the schedule through an atomic file replacement, and the
    next boot loads the configuration and then reconciles the two. */
module ScheduleTransaction {
  import opened Wrappers
  import opened Bytes
  import opened ConfigCells
  import opened ConfigRecovery

  /** The configuration namespace and the id of the active schedule (empty if there is none). */
  datatype World<+P> = World(cells: Cells<P>, schedule: seq<byte>)

  /** Every durable change of `commitActiveScheduleAndConfig`, in order: the slot (possibly cut
      short), the prepared journal, the schedule file, the promoted journal, the commit. */
  function TransactionTrace<P(==)>(w: World<P>, payload: P, torn: Cell<SlotValue<P>>, target: seq<byte>): seq<World<P>>
  {
    match NextPointer(w.cells)
    case None => []
    case Some(p) =>
      var written := WithSlot(w.cells, p.slot, Holds(SlotValue(payload, p.generation)));
      var j := Journal(Prepared, target, ReadCurrent(w.cells), p);
      var prepared := written.(journal := Holds(j));
      var promoted := written.(journal := Holds(j.(phase := SchedulePromoted)));
      [World(WithSlot(w.cells, p.slot, torn), w.schedule),
       World(written, w.schedule),
       World(prepared, w.schedule),
       World(prepared, target),
       World(promoted, target)]
      + Worlds(CommitOutcome(promoted, p, payload).trace, target)
  }

  function Worlds<P>(trace: seq<Cells<P>>, schedule: seq<byte>): seq<World<P>> {
    seq(|trace|, i requires 0 <= i < |trace| => World(trace[i], schedule))
  }

  /** `reconcilePendingScheduleConfigTransaction`, after `load`. */
  function ReconcileTrace<P(==)>(w: World<P>): seq<Cells<P>> {
    if !w.cells.journal.Holds? then []
    else
      var j := w.cells.journal.value;
      match Pointed(w.cells, j.prepared)
      case None => []
      case Some(payload) =>
        var current := ReadCurrent(w.cells);
        if j.phase == Prepared && w.schedule != j.target && current == j.previous
        then [w.cells.(journal := Absent)]
        else if j.phase != SchedulePromoted || |w.schedule| == 0 || w.schedule != j.target || current.None?
        then []
        else CommitOutcome(w.cells, j.prepared, payload).trace
  }

  /** Every durable change of a boot. */
  function BootTrace<P(==)>(w: World<P>): seq<World<P>> {
    var loaded := World(After(w.cells, LoadTrace(w.cells)), w.schedule);
    Worlds(LoadTrace(w.cells), w.schedule) + Worlds(ReconcileTrace(loaded), w.schedule)
  }

  function Boot<P(==)>(w: World<P>): World<P> {
    if |BootTrace(w)| == 0 then w else BootTrace(w)[|BootTrace(w)| - 1]
  }

  function CutAt<P>(w: World<P>, trace: seq<World<P>>, k: nat): World<P>
    requires k <= |trace|
  {
    if k == 0 then w else trace[k - 1]
  }

  ghost predicate Startable<P(!new)>(w: World<P>, target: seq<byte>) {
    && Repaired(w.cells) && w.cells.pointer.value.generation < MAX_GENERATION
    && 0 < |target| <= MAX_SCHEDULE_ID_BYTES && target != GENERIC_TARGET
  }

  /** Promote the pointer, commit the journal, drop it. */
  function Committing<P>(c: Cells<P>): seq<Cells<P>>
    requires c.journal.Holds?
  {
    var j := c.journal.value;
    var promoted := c.(pointer := Holds(j.prepared));
    [promoted, promoted.(journal := Holds(j.(phase := ConfigCommitted))), promoted.(journal := Absent)]
  }

  /** The commit that ends the transaction. */
  lemma CommitStates<P(!new)>(c: Cells<P>, payload: P)
    requires c.journal.Holds? && c.journal.value.phase == SchedulePromoted && Encodable(c.journal.value)
    requires c.pointer.Holds? && c.journal.value.previous == Some(c.pointer.value)
    requires c.pointer.value.slot != c.journal.value.prepared.slot
    requires Pointed(c, c.pointer.value).Some? && Pointed(c, c.journal.value.prepared) == Some(payload)
    ensures CommitOutcome(c, c.journal.value.prepared, payload).trace == Committing(c)
  {
  }

  /** The slot and generation the transaction prepares. */
  function Prepares<P>(w: World<P>): Pointer
    requires w.cells.pointer.Holds?
  {
    Pointer(Other(w.cells.pointer.value.slot), w.cells.pointer.value.generation + 1)
  }

  function BoundJournal<P>(w: World<P>, phase: Phase, target: seq<byte>): Cell<Journal>
    requires w.cells.pointer.Holds?
  {
    Holds(Journal(phase, target, Some(w.cells.pointer.value), Prepares(w)))
  }

  /** The store when the transaction has its candidate and a journal in `phase`. */
  function Bound<P>(w: World<P>, payload: P, phase: Phase, target: seq<byte>): Cells<P>
    requires w.cells.pointer.Holds?
  {
    WithSlot(w.cells, Prepares(w).slot, Holds(SlotValue(payload, Prepares(w).generation)))
    .(journal := BoundJournal(w, phase, target))
  }

  /** The states of the transaction, one by one. */
  lemma TransactionTraceIs<P(!new)>(w: World<P>, payload: P, torn: Cell<SlotValue<P>>, target: seq<byte>)
    requires Startable(w, target)
    ensures var prepared, promoted := Bound(w, payload, Prepared, target), Bound(w, payload, SchedulePromoted, target);
            var next := Holds(Prepares(w));
            TransactionTrace(w, payload, torn, target)
            == [World(WithSlot(w.cells, Prepares(w).slot, torn), w.schedule),
                World(prepared.(journal := Absent), w.schedule),
                World(prepared, w.schedule),
                World(prepared, target),
                World(promoted, target),
                World(promoted.(pointer := next), target),
                World(Bound(w, payload, ConfigCommitted, target).(pointer := next), target),
                World(promoted.(pointer := next, journal := Absent), target)]
  {
    CommitStates(Bound(w, payload, SchedulePromoted, target), payload);
  }

  /** What every state of the transaction keeps: the active payload, and from the second state
      on the candidate. */
  lemma BoundKeepsBoth<P(!new)>(w: World<P>, payload: P, phase: Phase, target: seq<byte>, torn: Cell<SlotValue<P>>)
    requires Startable(w, target)
    ensures Pointed(Bound(w, payload, phase, target), w.cells.pointer.value) == LoadResult(w.cells)
    ensures Pointed(Bound(w, payload, phase, target), Prepares(w)) == Some(payload)
    ensures Pointed(WithSlot(w.cells, Prepares(w).slot, torn), w.cells.pointer.value) == LoadResult(w.cells)
  {
  }

  /** What state `k` of the transaction holds: the active payload always and the candidate from
      the second state on, the journal in its phase, and the schedule on its side. */
  ghost predicate StateOfTransaction<P(!new)>(w: World<P>, payload: P, target: seq<byte>, s: World<P>, k: nat)
    requires w.cells.pointer.Holds?
  {
    && Pointed(s.cells, w.cells.pointer.value) == LoadResult(w.cells)
    && (k >= 1 ==> Pointed(s.cells, Prepares(w)) == Some(payload))
    && s.cells.pointer == Holds(if k < 5 then w.cells.pointer.value else Prepares(w))
    && s.cells.journal == (if k < 2 || k == 7 then Absent
                           else if k < 4 then BoundJournal(w, Prepared, target)
                           else if k < 6 then BoundJournal(w, SchedulePromoted, target)
                           else BoundJournal(w, ConfigCommitted, target))
    && s.schedule == (if k < 3 then w.schedule else target)
  }

  /** The states of the transaction. */
  lemma TransactionStates<P(!new)>(w: World<P>, payload: P, torn: Cell<SlotValue<P>>, target: seq<byte>, k: nat)
    requires Startable(w, target) && k < 8
    ensures var trace := TransactionTrace(w, payload, torn, target);
            |trace| == 8 && StateOfTransaction(w, payload, target, trace[k], k)
  {
    TransactionTraceIs(w, payload, torn, target);
    var phase := if k < 4 then Prepared else if k == 6 then ConfigCommitted else SchedulePromoted;
    BoundKeepsBoth(w, payload, phase, target, torn);
  }

  /** What a boot makes of the four kinds of states a transaction can leave. */
  lemma BootOutcome<P(!new)>(w: World<P>)
    requires LoadResult(w.cells).Some?
    requires w.cells.journal.Holds? && w.cells.journal.value.phase == SchedulePromoted ==>
               && Encodable(w.cells.journal.value)
               && Pointed(w.cells, w.cells.journal.value.prepared).Some?
               && w.cells.journal.value.target == w.schedule
    ensures Boot(w).schedule == w.schedule && Repaired(Boot(w).cells)
    ensures LoadResult(Boot(w).cells)
         == if w.cells.journal.Holds? && w.cells.journal.value.phase == SchedulePromoted
            then Pointed(w.cells, w.cells.journal.value.prepared)
            else LoadResult(w.cells)
  {
    LoadRepairs(w.cells);
    var loaded := World(After(w.cells, LoadTrace(w.cells)), w.schedule);
    if w.cells.journal.Holds? && w.cells.journal.value.phase == SchedulePromoted {
      var j := w.cells.journal.value;
      assert loaded.cells == w.cells.(pointer := Holds(j.previous.value));
      var candidate := Pointed(loaded.cells, j.prepared).value;
      assert ReconcileTrace(loaded) == CommitOutcome(loaded.cells, j.prepared, candidate).trace;
    } else {
      assert ReconcileTrace(loaded) == [];
    }
  }

  /** A promoted journal whose schedule is not the active one commits nothing: the boot returns the
      old configuration and keeps the journal. */
  lemma BootWaitsForSchedule<P(!new)>(w: World<P>)
    requires w.cells.journal.Holds? && w.cells.journal.value.phase == SchedulePromoted && LoadResult(w.cells).Some?
    requires w.schedule != w.cells.journal.value.target || |w.schedule| == 0
    ensures Boot(w).schedule == w.schedule && Boot(w).cells.journal == w.cells.journal
    ensures LoadResult(Boot(w).cells) == LoadResult(w.cells)
  {
    LoadRepairs(w.cells);
    var loaded := World(After(w.cells, LoadTrace(w.cells)), w.schedule);
    assert loaded.cells.journal == w.cells.journal && ReconcileTrace(loaded) == [];
  }

  /** A prepared journal that reconciliation still meets is dropped if and only if its schedule did
      not become active and the old configuration is in use; the configuration stays the same. */
  lemma PreparedIsDropped<P(!new)>(w: World<P>)
    requires w.cells.journal.Holds? && w.cells.journal.value.phase == Prepared
    requires Pointed(w.cells, w.cells.journal.value.prepared).Some? && LoadResult(w.cells).Some?
    ensures var after := After(w.cells, ReconcileTrace(w));
            && (after.journal.Absent? <==>
                  w.schedule != w.cells.journal.value.target
                  && ReadCurrent(w.cells) == w.cells.journal.value.previous)
            && LoadResult(after) == LoadResult(w.cells)
  {
  }

  /** Power loss after any `k` changes, followed by a boot: the old pair before the schedule file
      is replaced, the new pair once the promoted journal is durable. In the one state between
      those two the schedule is new and the configuration is still the old one. */
  lemma TransactionRecovery<P(!new)>(w: World<P>, payload: P, torn: Cell<SlotValue<P>>, target: seq<byte>, k: nat)
    requires Startable(w, target) && k <= |TransactionTrace(w, payload, torn, target)|
    ensures var b := Boot(CutAt(w, TransactionTrace(w, payload, torn, target), k));
            && Repaired(b.cells)
            && LoadResult(b.cells) == (if k >= 5 then Some(payload) else LoadResult(w.cells))
            && b.schedule == (if k >= 4 then target else w.schedule)
  {
    TransactionStates(w, payload, torn, target, if k == 0 then 0 else k - 1);
    var cut := CutAt(w, TransactionTrace(w, payload, torn, target), k);
    BootOutcome(cut);
  }

  /** The pair is the old one or the new one. */
  ghost predicate Together<P(!new)>(w: World<P>, b: World<P>, payload: P, target: seq<byte>) {
    || (LoadResult(b.cells) == LoadResult(w.cells) && b.schedule == w.schedule)
    || (LoadResult(b.cells) == Some(payload) && b.schedule == target)
  }

  /** The two change together exactly if power was not lost between replacing the schedule file
      and writing the promoted journal. */
  lemma ChangeTogetherUnlessCutAfterSchedule<P(!new)>(w: World<P>, payload: P, torn: Cell<SlotValue<P>>,
                                                      target: seq<byte>, k: nat)
    requires Startable(w, target) && k <= |TransactionTrace(w, payload, torn, target)|
    requires w.schedule != target && LoadResult(w.cells) != Some(payload)
    ensures Together(w, Boot(CutAt(w, TransactionTrace(w, payload, torn, target), k)), payload, target) <==> k != 4
  {
    TransactionRecovery(w, payload, torn, target, k);
  }

  /** A boot that is itself cut short anywhere is completed by the next one with the same
      result. */
  lemma BootRestarts<P(!new)>(w: World<P>, payload: P, torn: Cell<SlotValue<P>>, target: seq<byte>, k: nat, n: nat)
    requires Startable(w, target) && k <= |TransactionTrace(w, payload, torn, target)|
    requires n < |BootTrace(CutAt(w, TransactionTrace(w, payload, torn, target), k))|
    ensures var cut := CutAt(w, TransactionTrace(w, payload, torn, target), k);
            var again := Boot(BootTrace(cut)[n]);
            LoadResult(again.cells) == LoadResult(Boot(cut).cells) && again.schedule == Boot(cut).schedule
  {
    TransactionStates(w, payload, torn, target, if k == 0 then 0 else k - 1);
    var cut := CutAt(w, TransactionTrace(w, payload, torn, target), k);
    BootOutcome(cut);
    CutBootState(cut, n);
    BootOutcome(BootTrace(cut)[n]);
  }

  /** A state inside a boot recovers to what the boot recovers to. */
  lemma CutBootState<P(!new)>(w: World<P>, n: nat)
    requires LoadResult(w.cells).Some? && n < |BootTrace(w)|
    requires w.cells.journal.Holds? && w.cells.journal.value.phase == SchedulePromoted ==>
               && Encodable(w.cells.journal.value)
               && Pointed(w.cells, w.cells.journal.value.prepared).Some?
               && w.cells.journal.value.target == w.schedule
    ensures var s := BootTrace(w)[n];
            && s.schedule == w.schedule && LoadResult(s.cells).Some?
            && (s.cells.journal.Holds? && s.cells.journal.value.phase == SchedulePromoted ==>
                  && Encodable(s.cells.journal.value)
                  && s.cells.journal.value.target == s.schedule
                  && w.cells.journal == s.cells.journal
                  && Pointed(s.cells, s.cells.journal.value.prepared)
                     == Pointed(w.cells, s.cells.journal.value.prepared))
            && (!(s.cells.journal.Holds? && s.cells.journal.value.phase == SchedulePromoted) ==>
                  LoadResult(s.cells)
                  == if w.cells.journal.Holds? && w.cells.journal.value.phase == SchedulePromoted
                     then Pointed(w.cells, w.cells.journal.value.prepared)
                     else LoadResult(w.cells))
  {
    LoadRepairs(w.cells);
    var loaded := World(After(w.cells, LoadTrace(w.cells)), w.schedule);
    if w.cells.journal.Holds? && w.cells.journal.value.phase == SchedulePromoted {
      var j := w.cells.journal.value;
      assert loaded.cells == w.cells.(pointer := Holds(j.previous.value));
      var candidate := Pointed(loaded.cells, j.prepared).value;
      assert ReconcileTrace(loaded) == CommitOutcome(loaded.cells, j.prepared, candidate).trace;
    } else {
      assert ReconcileTrace(loaded) == [];
    }
  }
}
