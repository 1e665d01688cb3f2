/** What the configuration namespace of the device's NVS holds, and what a fault-free
    `load`, `prepare` and `commitPreparedSlot` do to it, write by write.

    Each of the four keys is a cell: absent, too long to read, readable but not decodable, or
    holding a decoded value. A transaction is described by its trace: the contents of the
    namespace after each of its durable writes, in order. Power loss after `k` writes leaves
    the `k`-th of these. */
module ConfigCells {
  import opened Wrappers
  import opened Bytes

  const MAX_GENERATION: nat := 0xFFFF_FFFF_FFFF_FFFF
  const MAX_SCHEDULE_ID_BYTES := 160
  const GENERIC_TARGET := Ascii("__config_commit__")

  datatype Cell<+T> = Absent | Oversized | Damaged | Holds(value: T)

  datatype SlotName = A | B

  datatype SlotValue<+P> = SlotValue(payload: P, generation: nat)

  datatype Pointer = Pointer(slot: SlotName, generation: nat)

  datatype Phase = Prepared | SchedulePromoted | ConfigCommitted | Aborted

  datatype Journal = Journal(
    phase: Phase, target: seq<byte>, previous: Option<Pointer>, prepared: Pointer)

  datatype Cells<+P> = Cells(
    a: Cell<SlotValue<P>>, b: Cell<SlotValue<P>>, pointer: Cell<Pointer>, journal: Cell<Journal>)
  {
    function Slot(slot: SlotName): Cell<SlotValue<P>> {
      if slot == A then a else b
    }
  }

  function Other(slot: SlotName): SlotName {
    if slot == A then B else A
  }

  function WithSlot<P>(c: Cells<P>, slot: SlotName, cell: Cell<SlotValue<P>>): Cells<P> {
    if slot == A then c.(a := cell) else c.(b := cell)
  }

  /** `encode_journal` refuses an empty or overlong schedule id; `decode_journal` does not
      refuse an empty one. */
  predicate Encodable(j: Journal) {
    0 < |j.target| <= MAX_SCHEDULE_ID_BYTES
  }

  function After<P>(c: Cells<P>, trace: seq<Cells<P>>): Cells<P> {
    if |trace| == 0 then c else trace[|trace| - 1]
  }

  // ----- Reading

  function ReadSlot<P>(c: Cells<P>, slot: SlotName): Option<SlotValue<P>> {
    if c.Slot(slot).Holds? then Some(c.Slot(slot).value) else None
  }

  /** The payload in the slot that `p` names, if that slot is valid with the same generation. */
  function Pointed<P>(c: Cells<P>, p: Pointer): Option<P> {
    match ReadSlot(c, p.slot)
    case Some(v) => if v.generation == p.generation then Some(v.payload) else None
    case None => None
  }

  /** Without a usable pointer the older complete slot is chosen; slot A wins a tie. */
  function FindNewest<P>(c: Cells<P>): Option<Pointer> {
    match (ReadSlot(c, A), ReadSlot(c, B))
    case (None, None) => None
    case (Some(va), None) => Some(Pointer(A, va.generation))
    case (None, Some(vb)) => Some(Pointer(B, vb.generation))
    case (Some(va), Some(vb)) =>
      if va.generation <= vb.generation then Some(Pointer(A, va.generation))
      else Some(Pointer(B, vb.generation))
  }

  function ReadCurrent<P>(c: Cells<P>): Option<Pointer> {
    if c.pointer.Holds? && Pointed(c, c.pointer.value).Some? then Some(c.pointer.value)
    else FindNewest(c)
  }

  // ----- load

  /** The slot a journal makes authoritative: the candidate once the configuration is
      committed, the previous one in every other phase. */
  function JournalTarget(j: Journal): Option<Pointer> {
    if j.phase == ConfigCommitted then Some(j.prepared) else j.previous
  }

  function LoadTarget<P>(c: Cells<P>): Option<Pointer> {
    match c.journal
    case Absent => ReadCurrent(c)
    case Holds(j) => JournalTarget(j)
    case _ => None
  }

  /** The payload a fault-free `load` returns. */
  function LoadResult<P>(c: Cells<P>): Option<P> {
    match LoadTarget(c)
    case Some(p) => Pointed(c, p)
    case None => None
  }

  function LoadTrace<P>(c: Cells<P>): seq<Cells<P>> {
    match LoadTarget(c)
    case Some(p) =>
      if Pointed(c, p).None? then []
      else
        var repaired := c.(pointer := Holds(p));
        if c.journal.Holds? && c.journal.value.phase != SchedulePromoted
        then [repaired, repaired.(journal := Absent)]
        else [repaired]
    case None =>
      if c.journal.Holds? && c.journal.value.phase != SchedulePromoted
      then DropCandidate(c, c.journal.value.prepared.slot)
      else []
  }

  function AbsentSlot<P>(c: Cells<P>, slot: SlotName): Cells<P> {
    WithSlot(c, slot, Absent)
  }

  /** `clearSlot` and then `clearJournal`; a key that is not there is not removed. */
  function DropCandidate<P>(c: Cells<P>, slot: SlotName): seq<Cells<P>> {
    var cleared := AbsentSlot(c, slot);
    (if c.Slot(slot).Absent? then [] else [cleared]) + [cleared.(journal := Absent)]
  }

  // ----- prepare

  /** The slot and generation `prepare` writes to. `None` when the generations are used up. */
  function NextPointer<P>(c: Cells<P>): Option<Pointer> {
    match ReadCurrent(c)
    case None => Some(Pointer(A, 1))
    case Some(p) =>
      if p.generation >= MAX_GENERATION then None
      else Some(Pointer(Other(p.slot), p.generation + 1))
  }

  /** A slot write is not atomic: it may be cut short and leave any cell, `torn`, behind. */
  function PrepareTrace<P>(c: Cells<P>, payload: P, torn: Cell<SlotValue<P>>): seq<Cells<P>> {
    match NextPointer(c)
    case None => []
    case Some(p) =>
      [WithSlot(c, p.slot, torn), WithSlot(c, p.slot, Holds(SlotValue(payload, p.generation)))]
  }

  // ----- commitPreparedSlot

  datatype Outcome<+P> = Outcome(trace: seq<Cells<P>>, ok: bool)

  function Prefixed<P>(first: Cells<P>, rest: Outcome<P>): Outcome<P> {
    Outcome([first] + rest.trace, rest.ok)
  }

  function CommitOutcome<P(==)>(c: Cells<P>, prepared: Pointer, payload: P): Outcome<P> {
    match c.journal
    case Oversized => Outcome([], false)
    case Damaged => Outcome([], false)
    case Holds(j) =>
      if j.prepared != prepared || j.phase == Aborted then Outcome([], false)
      else if j.phase == Prepared && j.target != GENERIC_TARGET && |j.target| > 0 then Outcome([], false)
      else if j.phase == ConfigCommitted then FinishOutcome(c, prepared, payload)
      else PromoteOutcome(c, j, payload)
    case Absent =>
      if c.pointer.Damaged? then Outcome([], false)
      else
        var previous := if c.pointer.Holds? then Some(c.pointer.value) else None;
        var j := Journal(Prepared, GENERIC_TARGET, previous, prepared);
        var begun := c.(journal := Holds(j));
        Prefixed(begun, PromoteOutcome(begun, j, payload))
  }

  predicate PreparedVerifies<P(==)>(c: Cells<P>, prepared: Pointer, payload: P) {
    c.pointer == Holds(prepared) && Pointed(c, prepared) == Some(payload)
  }

  /** A committed journal is recovered as candidate-wins. */
  function FinishOutcome<P(==)>(c: Cells<P>, prepared: Pointer, payload: P): Outcome<P> {
    var promoted := c.(pointer := Holds(prepared));
    if PreparedVerifies(c, prepared, payload) then Outcome([c.(journal := Absent)], true)
    else if PreparedVerifies(promoted, prepared, payload)
    then Outcome([promoted, promoted.(journal := Absent)], true)
    else Outcome([promoted], false)
  }

  function PromoteOutcome<P(==)>(c: Cells<P>, j: Journal, payload: P): Outcome<P> {
    if Pointed(c, j.prepared) != Some(payload) then AbortOutcome(c, j)
    else
      var promoted := c.(pointer := Holds(j.prepared));
      if !Encodable(j) then Prefixed(promoted, AbortOutcome(promoted, j))
      else
        var committed := promoted.(journal := Holds(j.(phase := ConfigCommitted)));
        Outcome([promoted, committed, committed.(journal := Absent)], true)
  }

  function RestoredPointer(j: Journal): Cell<Pointer> {
    if j.previous.Some? then Holds(j.previous.value) else Absent
  }

  /** The store once the journal is marked aborted and the previous pointer is back. */
  function AbortRestored<P>(c: Cells<P>, j: Journal): Cells<P> {
    (if Encodable(j) then c.(journal := Holds(j.(phase := Aborted))) else c).(pointer := RestoredPointer(j))
  }

  function AbortWrites<P>(c: Cells<P>, j: Journal): seq<Cells<P>> {
    (if Encodable(j) then [c.(journal := Holds(j.(phase := Aborted)))] else [])
    + (if j.previous.None? && c.pointer.Absent? then [] else [AbortRestored(c, j)])
  }

  /** Mark the journal aborted, put the previous pointer back, then drop what is left of the
      transaction. If the previous slot does not read back, everything else is kept. */
  function AbortOutcome<P>(c: Cells<P>, j: Journal): Outcome<P> {
    var restored := AbortRestored(c, j);
    var writes := AbortWrites(c, j);
    if j.previous.Some? && Pointed(restored, j.previous.value).None? then Outcome(writes, false)
    else if !Encodable(j) then Outcome(writes, false)
    else if j.previous.None? then Outcome(writes + DropCandidate(restored, j.prepared.slot), false)
    else Outcome(writes + [restored.(journal := Absent)], false)
  }

  // ----- save

  function SaveOutcome<P(==)>(c: Cells<P>, payload: P, torn: Cell<SlotValue<P>>): Outcome<P> {
    match NextPointer(c)
    case None => Outcome([], false)
    case Some(p) =>
      var written := WithSlot(c, p.slot, Holds(SlotValue(payload, p.generation)));
      Prefixed(WithSlot(c, p.slot, torn), Prefixed(written, CommitOutcome(written, p, payload)))
  }
}
