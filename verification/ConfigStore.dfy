/** The device's configuration store as the firmware runs it: every storage call may fail, and
    a failing write may or may not have reached the flash. */
module ConfigStore {
  import opened Wrappers
  import opened ConfigCells
  import opened ConfigRecovery
  import opened ConfigStartup

  /** What reading one key gives. A failing read looks like a failed or like a missing key. */
  datatype Fetched<+T> = Failed | Missing | Undecodable | Value(value: T)

  function Seen<T>(cell: Cell<T>): Fetched<T> {
    match cell
    case Absent => Missing
    case Oversized => Failed
    case Damaged => Undecodable
    case Holds(v) => Value(v)
  }

  function HeldIn<T>(cell: Cell<T>): Option<T> {
    if cell.Holds? then Some(cell.value) else None
  }

  /** `prepared` is a complete candidate beside the active slot of a repaired store. */
  ghost predicate ReadyToCommit<P(!new)>(c: Cells<P>, prepared: Pointer, payload: P) {
    && Repaired(c)
    && prepared.slot == Other(c.pointer.value.slot)
    && Pointed(c, prepared) == Some(payload)
  }

  /** `d` differs from `c` in `slot` at most. */
  ghost predicate OnlySlot<P(!new)>(c: Cells<P>, d: Cells<P>, slot: SlotName) {
    d.pointer == c.pointer && d.journal == c.journal && d.Slot(Other(slot)) == c.Slot(Other(slot))
  }

  /** Writing to the inactive slot of a repaired store leaves it repaired. */
  lemma InactiveSlotIsFree<P(!new)>(c: Cells<P>, d: Cells<P>, slot: SlotName)
    requires Repaired(c) && OnlySlot(c, d, slot) && slot == Other(c.pointer.value.slot)
    ensures Repaired(d) && LoadResult(d) == LoadResult(c)
  {
  }

  /** A state that dropping an aborted transaction passes through, started in `c`. */
  ghost predicate DropLeaves<P(!new)>(c: Cells<P>, d: Cells<P>, j: Journal) {
    && (d.journal == c.journal || d.journal.Absent?) && d.pointer == c.pointer
    && SlotsKept(c, d, j)
  }

  /** The slots are as before, except that a candidate without a predecessor may be gone. */
  ghost predicate SlotsKept<P(!new)>(c: Cells<P>, d: Cells<P>, j: Journal) {
    && d.Slot(Other(j.prepared.slot)) == c.Slot(Other(j.prepared.slot))
    && (|| d.Slot(j.prepared.slot) == c.Slot(j.prepared.slot)
        || (j.previous.None? && d.Slot(j.prepared.slot).Absent?))
  }

  /** A state an aborted commit passes through, started in `c` for journal `j`. */
  ghost predicate AbortLeaves<P(!new)>(c: Cells<P>, d: Cells<P>, j: Journal) {
    && (d.journal == c.journal || d.journal == Holds(j.(phase := Aborted)) || d.journal == Absent)
    && (d.pointer == c.pointer || d.pointer == RestoredPointer(j))
    && SlotsKept(c, d, j)
    && (j.previous.Some? && d.journal.Absent? && !c.journal.Absent? ==> d.pointer == Holds(j.previous.value))
    && (d.Slot(j.prepared.slot) != c.Slot(j.prepared.slot) ==>
          d.journal.Absent? || d.journal == Holds(j.(phase := Aborted)))
  }

  /** Dropping the rest of a transaction is part of its abort. */
  lemma DropIsAbort<P(!new)>(c: Cells<P>, restored: Cells<P>, d: Cells<P>, j: Journal)
    requires restored.journal == Holds(j.(phase := Aborted)) && restored.a == c.a && restored.b == c.b
    requires restored.pointer == c.pointer || restored.pointer == RestoredPointer(j)
    requires j.previous.Some? ==> restored.pointer == Holds(j.previous.value)
    requires DropLeaves(restored, d, j)
    ensures AbortLeaves(c, d, j)
  {
  }

  /** A state a commit of `j` passes through after its journal is written in `c`. */
  ghost predicate PromoteLeaves<P(!new)>(c: Cells<P>, d: Cells<P>, j: Journal) {
    && (|| d.journal == c.journal || d.journal == Holds(j.(phase := ConfigCommitted))
        || d.journal == Holds(j.(phase := Aborted)) || d.journal == Absent)
    && (d.pointer == c.pointer || d.pointer == Holds(j.prepared) || d.pointer == RestoredPointer(j))
    && SlotsKept(c, d, j)
    && (d.journal.Absent? && j.previous.Some? ==>
          d.pointer == Holds(j.prepared) || d.pointer == Holds(j.previous.value))
    && (d.Slot(j.prepared.slot) != c.Slot(j.prepared.slot) ==>
          d.journal.Absent? || d.journal == Holds(j.(phase := Aborted)))
  }

  /** The journal may be left behind committed when its removal fails unnoticed. */
  ghost predicate PromoteSucceeded<P(!new)>(c: Cells<P>, d: Cells<P>, j: Journal, payload: P) {
    && Pointed(c, j.prepared) == Some(payload)
    && (d == c.(pointer := Holds(j.prepared), journal := Absent)
        || d == c.(pointer := Holds(j.prepared), journal := Holds(j.(phase := ConfigCommitted))))
  }

  /** What a fault-free promotion does before it is known whether it has to abort. */
  ghost function TryOutcome<P(!new)>(history: seq<Cells<P>>, c: Cells<P>, j: Journal, payload: P): Outcome<P> {
    var promoted := c.(pointer := Holds(j.prepared));
    var committed := promoted.(journal := Holds(j.(phase := ConfigCommitted)));
    if Pointed(c, j.prepared) != Some(payload) then Outcome(history, false)
    else if !Encodable(j) then Outcome(history + [promoted], false)
    else Outcome(history + [promoted, committed, committed.(journal := Absent)], true)
  }

  ghost predicate TryLeaves<P(!new)>(c: Cells<P>, d: Cells<P>, j: Journal) {
    && d.a == c.a && d.b == c.b
    && (d.pointer == c.pointer || d.pointer == Holds(j.prepared))
    && (d.journal == c.journal || d.journal == Holds(j.(phase := ConfigCommitted)) || d.journal == Absent)
    && (d.journal.Absent? ==> d.pointer == Holds(j.prepared))
  }

  ghost predicate Committable<P(!new)>(c: Cells<P>, j: Journal, payload: P) {
    && Encodable(j) && Pointed(c, j.prepared) == Some(payload)
    && (j.previous.Some? ==> Pointed(c, j.previous.value).Some?)
  }

  /** An abort that meets no failure itself undoes whatever the promotion had done. */
  lemma AbortAfterTry<P(!new)>(c: Cells<P>, d: Cells<P>, j: Journal, payload: P)
    requires c.journal == Holds(j) && (d == c || TryLeaves(c, d, j))
    ensures forall e: Cells<P> :: AbortLeaves(d, e, j) ==> PromoteLeaves(c, e, j)
    ensures Committable(c, j, payload) ==>
              var final := After(d, AbortOutcome(d, j).trace);
              final.journal.Absent? && final.pointer == RestoredPointer(j) && SlotsKept(c, final, j)
  {
  }

  /** The next load from `d` returns what one from `c` returns, or `payload`. */
  ghost predicate Recovers<P(!new)>(c: Cells<P>, d: Cells<P>, payload: P) {
    LoadResult(c).Some? && (LoadResult(d) == LoadResult(c) || LoadResult(d) == Some(payload))
  }

  /** As `Recovers`, or the next load returns nothing and the one after it returns the old payload. */
  ghost predicate RecoversLate<P(!new)>(c: Cells<P>, d: Cells<P>, payload: P) {
    || Recovers(c, d, payload)
    || (LoadResult(d).None? && LoadResult(c).Some? && LoadResult(After(d, LoadTrace(d))) == LoadResult(c))
  }

  lemma PromoteLeavesRecovers<P(!new)>(c: Cells<P>, begun: Cells<P>, d: Cells<P>, j: Journal, payload: P)
    requires ReadyToCommit(c, j.prepared, payload)
    requires begun == c.(journal := Holds(j)) && j.phase == Prepared
    requires j.previous.None? || j.previous == Some(c.pointer.value)
    requires d == begun || PromoteLeaves(begun, d, j)
    ensures j.previous.Some? ==> Recovers(c, d, payload)
    ensures RecoversLate(c, d, payload)
  {
  }

  lemma FreshOutcome<P(!new)>(history: seq<Cells<P>>, c: Cells<P>, j: Journal, payload: P)
    requires c.journal.Absent? && !c.pointer.Damaged?
    requires j == Journal(Prepared, GENERIC_TARGET, HeldIn(c.pointer), j.prepared)
    ensures var begun := c.(journal := Holds(j));
            && (history + [begun]) + PromoteOutcome(begun, j, payload).trace
            == history + CommitOutcome(c, j.prepared, payload).trace
            && PromoteOutcome(begun, j, payload).ok == CommitOutcome(c, j.prepared, payload).ok
  {
  }

  lemma PrepareThenCommit<P(!new)>(history: seq<Cells<P>>, c: Cells<P>, payload: P, torn: Cell<SlotValue<P>>)
    requires NextPointer(c).Some?
    ensures var p := NextPointer(c).value;
            var written := WithSlot(c, p.slot, Holds(SlotValue(payload, p.generation)));
            && After(c, PrepareTrace(c, payload, torn)) == written
            && (history + PrepareTrace(c, payload, torn)) + CommitOutcome(written, p, payload).trace
            == history + SaveOutcome(c, payload, torn).trace
            && CommitOutcome(written, p, payload).ok == SaveOutcome(c, payload, torn).ok
  {
  }

  /** A new device, or a repaired store with generations left. */
  ghost predicate Savable<P(!new)>(c: Cells<P>) {
    Empty(c) || (Repaired(c) && c.pointer.value.generation < MAX_GENERATION)
  }

  /** Saving succeeds there, and leaves a repaired store with the new payload. */
  lemma SavableIsSaved<P(!new)>(c: Cells<P>, payload: P, torn: Cell<SlotValue<P>>)
    requires Savable(c)
    ensures var outcome := SaveOutcome(c, payload, torn);
            && outcome.ok && |outcome.trace| == 6
            && Repaired(outcome.trace[5]) && LoadResult(outcome.trace[5]) == Some(payload)
  {
    if Empty(c) { FirstSaveSucceeds(c, payload, torn); } else { SaveStates(c, payload, torn); }
  }

  // ----- What a pointer that cannot be read costs

  /** A generic journal written over a repaired store lets the next load recover exactly when
      the active pointer was recorded in it. */
  lemma LostPointerForgetsPrevious<P(!new)>(c: Cells<P>, j: Journal)
    requires Repaired(c) && j.phase == Prepared
    requires j.previous.None? || j.previous == Some(c.pointer.value)
    ensures LoadResult(c.(journal := Holds(j))).Some? <==> j.previous.Some?
  {
  }

  /** A store in which choosing a slot without the active pointer goes wrong: beside the active
      slot there is a complete one that is older, or equally old with B active. */
  ghost predicate OtherIsOlder<P(!new)>(c: Cells<P>)
    requires c.pointer.Holds?
  {
    var active, other := c.pointer.value, c.Slot(Other(c.pointer.value.slot));
    && other.Holds?
    && (|| other.value.generation < active.generation
        || (other.value.generation == active.generation && active.slot == B))
  }

  /** A complete save of a repaired store leaves exactly that: the old payload, one generation
      older, beside the new one. */
  lemma EverySaveLeavesOlder<P(!new)>(c: Cells<P>, payload: P, torn: Cell<SlotValue<P>>)
    requires Repaired(c) && c.pointer.value.generation < MAX_GENERATION
    ensures var saved := After(c, SaveOutcome(c, payload, torn).trace);
            && Repaired(saved) && OtherIsOlder(saved)
            && ReadSlot(saved, Other(saved.pointer.value.slot)) == ReadSlot(c, c.pointer.value.slot)
  {
    SaveStates(c, payload, torn);
  }

  /** Once the read of the pointer or of the active slot fails, `readCurrent` takes what
      `findNewest` picks. From a repaired store that is the active slot if and only if no older
      complete slot lies beside it. */
  lemma LostReadPicksOlder<P(!new)>(c: Cells<P>)
    requires Repaired(c)
    ensures FindNewest(c).Some? && Pointed(c, FindNewest(c).value).Some?
    ensures FindNewest(c) == Some(c.pointer.value) <==> !OtherIsOlder(c)
    ensures FindNewest(c).value.slot == c.pointer.value.slot <==> !OtherIsOlder(c)
  {
  }

  /** What a lost read costs `prepare`: it writes to the active slot if and only if an older
      complete slot lies beside it, and cutting that write short then brings the older
      configuration back. */
  lemma LostReadTargetsActiveSlot<P(!new)>(c: Cells<P>, torn: Cell<SlotValue<P>>)
    requires Repaired(c) && !torn.Holds?
    ensures var target := Other(FindNewest(c).value.slot);
            && (target == c.pointer.value.slot <==> OtherIsOlder(c))
            && LoadResult(WithSlot(c, target, torn))
               == if OtherIsOlder(c) then Some(c.Slot(Other(c.pointer.value.slot)).value.payload) else LoadResult(c)
  {
    LostReadPicksOlder(c);
  }

  /** What a lost read costs `load`: moving the pointer to the slot it picked changes nothing if
      no older complete slot lies beside the active one, and else makes the older configuration
      the active one for good. */
  lemma LostReadMovesPointer<P(!new)>(c: Cells<P>)
    requires Repaired(c)
    ensures var moved := c.(pointer := Holds(FindNewest(c).value));
            && (moved == c <==> !OtherIsOlder(c)) && Repaired(moved)
            && LoadResult(moved)
               == if OtherIsOlder(c) then Some(c.Slot(Other(c.pointer.value.slot)).value.payload) else LoadResult(c)
  {
    LostReadPicksOlder(c);
  }

  /** What a lost read of the journal costs `load`: for that one call the journal counts for
      nothing and the pointer decides, which is the same slot if and only if the pointer is
      already where the journal wants it. */
  lemma LostJournalReadFollowsPointer<P(!new)>(c: Cells<P>)
    requires c.journal.Holds? && LoadResult(c).Some?
    requires c.pointer.Holds? && Pointed(c, c.pointer.value).Some?
    ensures LoadResult(c.(journal := Absent)) == Pointed(c, c.pointer.value)
    ensures LoadTarget(c.(journal := Absent)) == LoadTarget(c) <==>
              Some(c.pointer.value) == JournalTarget(c.journal.value)
  {
  }

  class DeviceConfigStore<P(==, !new)> {
    /** `validate_payload`. */
    const valid: P -> bool

    var nvs: Cells<P>
    /** The contents of the namespace now and after every earlier write, latest last. */
    ghost var history: seq<Cells<P>>
    /** How many storage calls have failed. */
    ghost var failures: nat

    ghost predicate Valid()
      reads this
    {
      |history| > 0 && history[|history| - 1] == nvs
    }

    constructor (valid: P -> bool, nvs: Cells<P>)
      ensures Valid() && this.valid == valid && this.nvs == nvs
      ensures history == [nvs] && failures == 0
    {
      this.valid, this.nvs := valid, nvs;
      history, failures := [nvs], 0;
    }

    // ----- Storage calls

    method Begin() returns (ok: bool)
      modifies this`failures
      ensures failures == old(failures) + if ok then 0 else 1
    {
      ok := *;
      if !ok { failures := failures + 1; }
    }

    method Fetch<T>(cell: Cell<T>) returns (r: Fetched<T>)
      modifies this`failures
      ensures failures == old(failures) || failures == old(failures) + 1
      ensures failures == old(failures) ==> r == Seen(cell)
      ensures failures > old(failures) ==> r == Failed || r == Missing
    {
      var ok: bool := *;
      if ok {
        r := Seen(cell);
      } else {
        failures := failures + 1;
        var short: bool := *;
        r := if short then Failed else Missing;
      }
    }

    method IsKey<T>(cell: Cell<T>) returns (there: bool)
      modifies this`failures
      ensures failures == old(failures) || failures == old(failures) + 1
      ensures failures == old(failures) ==> there == !cell.Absent?
      ensures failures > old(failures) ==> !there
    {
      var ok: bool := *;
      there := ok && !cell.Absent?;
      if !ok { failures := failures + 1; }
    }

    /** One durable put or remove. */
    method Write(next: Cells<P>) returns (ok: bool)
      requires Valid()
      modifies this
      ensures Valid()
      ensures ok ==> failures == old(failures) && nvs == next && history == old(history) + [next]
      ensures !ok ==> failures == old(failures) + 1
      ensures !ok ==> || (nvs == old(nvs) && history == old(history))
                      || (nvs == next && history == old(history) + [next])
    {
      ok := *;
      var applied: bool := *;
      if ok || applied {
        nvs := next;
        history := history + [next];
      }
      if !ok { failures := failures + 1; }
    }

    // ----- Reading

    method ReadSlot(slot: SlotName) returns (v: Option<SlotValue<P>>)
      modifies this`failures
      ensures old(failures) <= failures <= old(failures) + 1
      ensures failures == old(failures) ==> v == ConfigCells.ReadSlot(nvs, slot)
      ensures v.Some? ==> v == ConfigCells.ReadSlot(nvs, slot)
    {
      var r := Fetch(nvs.Slot(slot));
      v := if r.Value? then Some(r.value) else None;
    }

    /** A pointer that cannot be read is reported as one that is not there. */
    method ReadPointer() returns (ok: bool, p: Option<Pointer>)
      modifies this`failures
      ensures old(failures) <= failures <= old(failures) + 1
      ensures failures == old(failures) ==> ok == !nvs.pointer.Damaged? && p == HeldIn(nvs.pointer)
      ensures p.Some? ==> ok && p == HeldIn(nvs.pointer)
      ensures failures > old(failures) ==> ok && p.None?
    {
      var r := Fetch(nvs.pointer);
      ok := r != Undecodable;
      p := if r.Value? then Some(r.value) else None;
    }

    method ReadJournal() returns (ok: bool, j: Option<Journal>)
      modifies this`failures
      ensures old(failures) <= failures
      ensures failures == old(failures) ==> ok == !(nvs.journal.Damaged? || nvs.journal.Oversized?)
      ensures failures == old(failures) ==> j == HeldIn(nvs.journal)
      ensures j.Some? ==> ok && j == HeldIn(nvs.journal)
    {
      j := None;
      ok := Begin();
      if !ok { return; }
      var r := Fetch(nvs.journal);
      ok := r.Missing? || r.Value?;
      if r.Value? { j := Some(r.value); }
    }

    method FindNewest() returns (p: Option<Pointer>)
      modifies this`failures
      ensures old(failures) <= failures
      ensures failures == old(failures) ==> p == ConfigCells.FindNewest(nvs)
      ensures p.Some? ==> Pointed(nvs, p.value).Some?
    {
      var a := ReadSlot(A);
      var b := ReadSlot(B);
      if a.None? && b.None? { return None; }
      if a.Some? && (b.None? || a.value.generation <= b.value.generation) {
        p := Some(Pointer(A, a.value.generation));
      } else {
        p := Some(Pointer(B, b.value.generation));
      }
    }

    method ReadCurrent() returns (current: Option<Pointer>)
      modifies this`failures
      ensures old(failures) <= failures
      ensures failures == old(failures) ==> current == ConfigCells.ReadCurrent(nvs)
      ensures current.Some? ==> Pointed(nvs, current.value).Some?
      ensures Repaired(nvs) && failures <= old(failures) + 1 ==>
                current == Some(nvs.pointer.value) || current == ConfigCells.FindNewest(nvs)
    {
      var ok, p := ReadPointer();
      if ok && p.Some? {
        var v := ReadSlot(p.value.slot);
        if v.Some? && v.value.generation == p.value.generation { return p; }
      }
      current := FindNewest();
    }

    // ----- Single-key writes with read-back

    method WriteJournal(j: Journal) returns (ok: bool)
      requires Valid()
      modifies this
      ensures Valid() && old(failures) <= failures
      ensures || (nvs == old(nvs) && history == old(history))
              || (nvs == old(nvs).(journal := Holds(j)) && history == old(history) + [nvs])
      ensures ok ==> nvs == old(nvs).(journal := Holds(j)) && history == old(history) + [nvs]
      ensures failures == old(failures) ==> ok == Encodable(j)
      ensures !Encodable(j) ==> !ok && failures == old(failures) && history == old(history)
    {
      if !Encodable(j) { return false; }
      ok := Begin();
      if !ok { return; }
      ok := Write(nvs.(journal := Holds(j)));
      if !ok { return; }
      ok := Begin();
      if !ok { return; }
      var readback := Fetch(nvs.journal);
      ok := readback == Value(j);
    }

    method ClearJournal() returns (ok: bool)
      requires Valid()
      modifies this
      ensures Valid() && old(failures) <= failures
      ensures || (nvs == old(nvs) && history == old(history))
              || (nvs == old(nvs).(journal := Absent) && history == old(history) + [nvs])
      ensures ok && failures <= old(failures) + 1 ==> nvs == old(nvs).(journal := Absent)
      ensures failures == old(failures) ==>
                ok && history == old(history) + if old(nvs).journal.Absent? then [] else [nvs]
    {
      ok := Begin();
      if !ok { return; }
      var there := IsKey(nvs.journal);
      if there { ok := Write(nvs.(journal := Absent)); }
      if !ok { return; }
      ok := Begin();
      if !ok { return; }
      there := IsKey(nvs.journal);
      ok := !there;
    }

    method ClearSlot(slot: SlotName) returns (ok: bool)
      requires Valid()
      modifies this
      ensures Valid() && old(failures) <= failures
      ensures || (nvs == old(nvs) && history == old(history))
              || (nvs == AbsentSlot(old(nvs), slot) && history == old(history) + [nvs])
      ensures ok && failures <= old(failures) + 1 ==> nvs == AbsentSlot(old(nvs), slot)
      ensures failures == old(failures) ==>
                ok && history == old(history) + if old(nvs).Slot(slot).Absent? then [] else [nvs]
    {
      ok := Begin();
      if !ok { return; }
      var there := IsKey(nvs.Slot(slot));
      if there { ok := Write(AbsentSlot(nvs, slot)); }
      if !ok { return; }
      ok := Begin();
      if !ok { return; }
      there := IsKey(nvs.Slot(slot));
      ok := !there;
    }

    /** A slot write may be cut short; `torn` is what the slot held on the way. */
    method PutSlot(slot: SlotName, value: SlotValue<P>) returns (ok: bool, ghost torn: Cell<SlotValue<P>>)
      requires Valid()
      modifies this
      ensures Valid()
      ensures ok ==>
                && failures == old(failures) && nvs == WithSlot(old(nvs), slot, Holds(value))
                && history == old(history) + [WithSlot(old(nvs), slot, torn), nvs]
      ensures !ok ==>
                && failures == old(failures) + 1 && nvs == WithSlot(old(nvs), slot, torn)
                && history == old(history) + [nvs]
    {
      var cut: Cell<SlotValue<P>> := *;
      torn := cut;
      nvs := WithSlot(nvs, slot, cut);
      history := history + [nvs];
      ok := *;
      if ok {
        nvs := WithSlot(nvs, slot, Holds(value));
        history := history + [nvs];
      } else {
        failures := failures + 1;
      }
    }

    // ----- load

    /** Point at `p`, read pointer and slot back, and return the payload. */
    method RepairTo(p: Pointer) returns (payload: Option<P>)
      requires Valid()
      modifies this
      ensures Valid() && old(failures) <= failures
      ensures || (nvs == old(nvs) && history == old(history))
              || (nvs == old(nvs).(pointer := Holds(p)) && history == old(history) + [nvs])
      ensures payload.Some? ==>
                && payload == Pointed(old(nvs), p)
                && nvs == old(nvs).(pointer := Holds(p)) && history == old(history) + [nvs]
      ensures failures == old(failures) ==>
                && payload == Pointed(old(nvs), p)
                && (payload.None? ==> history == old(history))
    {
      payload := None;
      var ok := Begin();
      if !ok { return; }
      var selected := ReadSlot(p.slot);
      if selected.None? || selected.value.generation != p.generation { return; }
      ok := Write(nvs.(pointer := Holds(p)));
      if !ok { return; }
      ok := Begin();
      if !ok { return; }
      var readable, readback := ReadPointer();
      if !readable || readback != Some(p) { return; }
      var verified := ReadSlot(p.slot);
      if verified == selected { payload := Some(selected.value.payload); }
    }

    /** Without failing calls, exactly the writes of `LoadTrace` and the result `LoadResult`.
        Whatever fails, a payload that is returned is the one that is durably active, the slots
        are left alone unless the journal names no previous slot, and a load that a journal
        decides stays decided. From a repaired store one failing call can at most move the
        pointer to the slot that `findNewest` picks; see `LostReadMovesPointer`. */
    method Load() returns (payload: Option<P>)
      requires Valid()
      modifies this
      ensures Valid() && old(failures) <= failures
      ensures failures == old(failures) ==>
                payload == LoadResult(old(nvs)) && history == old(history) + LoadTrace(old(nvs))
      ensures payload.Some? ==> nvs.pointer.Holds? && Pointed(nvs, nvs.pointer.value) == payload
      ensures !(old(nvs).journal.Holds? && JournalTarget(old(nvs).journal.value).None?) ==>
                nvs.a == old(nvs).a && nvs.b == old(nvs).b
      ensures Repaired(old(nvs)) && failures <= old(failures) + 1 ==>
                nvs == old(nvs) || nvs == old(nvs).(pointer := Holds(ConfigCells.FindNewest(old(nvs)).value))
      ensures Repaired(old(nvs)) && !OtherIsOlder(old(nvs)) && failures <= old(failures) + 1 ==>
                && nvs == old(nvs) && LoadResult(nvs) == LoadResult(old(nvs))
                && (payload.Some? ==> payload == LoadResult(old(nvs)))
      ensures old(nvs).journal.Holds? && LoadResult(old(nvs)).Some? ==> LoadResult(nvs) == LoadResult(old(nvs))
      ensures old(nvs).journal.Holds? && payload.Some? && failures <= old(failures) + 1 ==>
                payload == LoadResult(old(nvs)) || payload == LoadResult(old(nvs).(journal := Absent))
    {
      if Repaired(nvs) { LostReadPicksOlder(nvs); }
      payload := None;
      var ok, j := ReadJournal();
      if !ok { return; }
      if j.Some? {
        var target := JournalTarget(j.value);
        var pending := j.value.phase == SchedulePromoted;
        if target.None? {
          if pending { return; }
          ok := ClearSlot(j.value.prepared.slot);
          if ok { ok := ClearJournal(); }
          return;
        }
        var recovered := RepairTo(target.value);
        if recovered.None? { return; }
        if !pending {
          ok := ClearJournal();
          if !ok { return; }
        }
        return recovered;
      }
      ok := Begin();
      if !ok { return; }
      var current := ReadCurrent();
      if current.Some? { payload := RepairTo(current.value); }
    }

    // ----- prepare

    /** `target` is the only slot that is written to. It is the inactive one unless a read failed. */
    method Prepare(payload: P)
        returns (prepared: Option<Pointer>, ghost torn: Cell<SlotValue<P>>, ghost target: SlotName)
      requires Valid()
      modifies this
      ensures Valid() && old(failures) <= failures
      ensures failures == old(failures) ==>
                && prepared == (if valid(payload) then NextPointer(old(nvs)) else None)
                && history == old(history) + if valid(payload) then PrepareTrace(old(nvs), payload, torn) else []
      ensures failures == old(failures) && NextPointer(old(nvs)).Some? ==> target == NextPointer(old(nvs)).value.slot
      ensures prepared.Some? ==> prepared.value.slot == target && Pointed(nvs, prepared.value) == Some(payload)
      ensures old(history) <= history
      ensures forall i :: |old(history)| <= i < |history| ==> OnlySlot(old(nvs), history[i], target)
      ensures OnlySlot(old(nvs), nvs, target)
      ensures Repaired(old(nvs)) && !OtherIsOlder(old(nvs)) && failures <= old(failures) + 1 ==>
                && target == Other(old(nvs).pointer.value.slot)
                && Repaired(nvs) && LoadResult(nvs) == LoadResult(old(nvs))
    {
      if Repaired(nvs) { LostReadPicksOlder(nvs); }
      prepared, torn := None, Absent;
      target := if Repaired(nvs) then Other(nvs.pointer.value.slot)
                else if NextPointer(nvs).Some? then NextPointer(nvs).value.slot else A;
      if !valid(payload) { return; }
      var ok := Begin();
      if !ok { return; }
      var current := ReadCurrent();
      if current.Some? && current.value.generation >= MAX_GENERATION { return; }
      var p := if current.None? then Pointer(A, 1)
               else Pointer(Other(current.value.slot), current.value.generation + 1);
      target := p.slot;
      ok, torn := PutSlot(p.slot, SlotValue(payload, p.generation));
      if !ok { return; }
      ok := Begin();
      if !ok { return; }
      var readback := ReadSlot(p.slot);
      if readback == Some(SlotValue(payload, p.generation)) { prepared := Some(p); }
    }

    // ----- commitPreparedSlot

    method VerifyPrepared(prepared: Pointer, payload: P) returns (ok: bool)
      modifies this`failures
      ensures old(failures) <= failures
      ensures ok ==> PreparedVerifies(nvs, prepared, payload)
      ensures failures == old(failures) ==> ok == PreparedVerifies(nvs, prepared, payload)
    {
      ok := Begin();
      if !ok { return; }
      var readable, p := ReadPointer();
      if !readable || p != Some(prepared) { return false; }
      var v := ReadSlot(prepared.slot);
      ok := v == Some(SlotValue(payload, prepared.generation));
    }

    method RestorePreviousPointer(j: Journal) returns (ok: bool)
      requires Valid()
      modifies this
      ensures Valid() && old(failures) <= failures
      ensures || (nvs == old(nvs) && history == old(history))
              || (nvs == old(nvs).(pointer := RestoredPointer(j)) && history == old(history) + [nvs])
      ensures ok && j.previous.Some? ==> nvs.pointer == Holds(j.previous.value)
      ensures failures == old(failures) ==>
                && ok == (j.previous.Some? ==> Pointed(old(nvs), j.previous.value).Some?)
                && history == old(history)
                            + (if j.previous.None? && old(nvs).pointer.Absent? then [] else [nvs])
                && nvs.pointer == RestoredPointer(j)
    {
      ok := Begin();
      if !ok { return; }
      if j.previous.Some? {
        ok := Write(nvs.(pointer := Holds(j.previous.value)));
      } else {
        var there := IsKey(nvs.pointer);
        if there { ok := Write(nvs.(pointer := Absent)); }
      }
      if !ok { return; }
      ok := Begin();
      if !ok { return; }
      var readable, p := ReadPointer();
      ok := readable && p == j.previous;
      if ok && j.previous.Some? {
        var v := ReadSlot(j.previous.value.slot);
        ok := v.Some? && v.value.generation == j.previous.value.generation;
      }
    }

    /** Once the abort is marked and the pointer restored: drop the candidate if there was no
        previous slot, then the journal. */
    method DropTransaction(j: Journal)
      requires Valid() && nvs.journal == Holds(j.(phase := Aborted))
      modifies this
      ensures Valid() && old(failures) <= failures && old(history) <= history
      ensures failures == old(failures) ==>
                history == old(history) + if j.previous.None? then DropCandidate(old(nvs), j.prepared.slot)
                                          else [old(nvs).(journal := Absent)]
      ensures forall i :: |old(history)| <= i < |history| ==> DropLeaves(old(nvs), history[i], j)
    {
      if j.previous.None? {
        var cleared := ClearSlot(j.prepared.slot);
        if !cleared { return; }
      }
      var ok := ClearJournal();
    }

    /** Mark the journal aborted, then put the previous pointer back, whether or not it could be
        marked. */
    method MarkAndRestore(j: Journal) returns (marked: bool, restored: bool)
      requires Valid()
      modifies this
      ensures Valid() && old(failures) <= failures && old(history) <= history
      ensures failures == old(failures) ==>
                && history == old(history) + AbortWrites(old(nvs), j) && nvs == AbortRestored(old(nvs), j)
                && marked == Encodable(j)
                && restored == (j.previous.Some? ==> Pointed(old(nvs), j.previous.value).Some?)
      ensures forall i :: |old(history)| <= i < |history| ==> AbortLeaves(old(nvs), history[i], j)
      ensures marked && restored ==>
                && nvs.journal == Holds(j.(phase := Aborted)) && nvs.a == old(nvs).a && nvs.b == old(nvs).b
                && (nvs.pointer == old(nvs).pointer || nvs.pointer == RestoredPointer(j))
                && (j.previous.Some? ==> nvs.pointer == Holds(j.previous.value))
    {
      marked := WriteJournal(j.(phase := Aborted));
      assert |history| > |old(history)| ==> AbortLeaves(old(nvs), nvs, j);
      restored := RestorePreviousPointer(j);
      assert |history| > |old(history)| ==> AbortLeaves(old(nvs), nvs, j);
    }

    /** Always a failed commit; what it leaves is bounded by `AbortLeaves`. */
    method AbortCommit(j: Journal)
      requires Valid()
      modifies this
      ensures Valid() && old(failures) <= failures && old(history) <= history
      ensures failures == old(failures) ==> history == old(history) + AbortOutcome(old(nvs), j).trace
      ensures forall i :: |old(history)| <= i < |history| ==> AbortLeaves(old(nvs), history[i], j)
    {
      var marked, restored := MarkAndRestore(j);
      if !restored || !marked { return; }
      ghost var c, past := nvs, |history|;
      DropTransaction(j);
      forall i | past <= i < |history|
        ensures AbortLeaves(old(nvs), history[i], j)
      {
        DropIsAbort(old(nvs), c, history[i], j);
      }
    }

    /** Check the candidate, point at it, mark the journal committed and remove it. */
    method TryPromote(j: Journal, payload: P) returns (ok: bool)
      requires Valid() && nvs.journal == Holds(j)
      modifies this
      ensures Valid() && old(failures) <= failures && old(history) <= history
      ensures failures == old(failures) ==> Outcome(history, ok) == TryOutcome(old(history), old(nvs), j, payload)
      ensures forall i :: |old(history)| <= i < |history| ==> TryLeaves(old(nvs), history[i], j)
      ensures ok ==> PromoteSucceeded(old(nvs), nvs, j, payload)
    {
      var candidate := ReadSlot(j.prepared.slot);
      ok := candidate == Some(SlotValue(payload, j.prepared.generation));
      if !ok { return; }
      ok := Begin();
      if !ok { return; }
      ok := Write(nvs.(pointer := Holds(j.prepared)));
      if !ok { return; }
      ok := VerifyPrepared(j.prepared, payload);
      if !ok { return; }
      ok := WriteJournal(j.(phase := ConfigCommitted));
      if !ok { return; }
      ok := ClearJournal();
    }

    /** From a written journal that is not committed yet to the end of the commit. */
    method Promote(j: Journal, payload: P) returns (ok: bool)
      requires Valid() && nvs.journal == Holds(j)
      modifies this
      ensures Valid() && old(failures) <= failures && old(history) <= history
      ensures failures == old(failures) ==>
                && history == old(history) + PromoteOutcome(old(nvs), j, payload).trace
                && ok == PromoteOutcome(old(nvs), j, payload).ok
      ensures forall i :: |old(history)| <= i < |history| ==> PromoteLeaves(old(nvs), history[i], j)
      ensures ok ==> PromoteSucceeded(old(nvs), nvs, j, payload)
      ensures !ok && failures <= old(failures) + 1 && Committable(old(nvs), j, payload) ==>
                || nvs == old(nvs)
                || (nvs.journal.Absent? && nvs.pointer == RestoredPointer(j) && SlotsKept(old(nvs), nvs, j))
    {
      ok := Begin();
      if !ok { return; }
      ok := TryPromote(j, payload);
      if !ok {
        ghost var tried := nvs;
        ghost var before := failures;
        AbortCommit(j);
        AbortAfterTry(old(nvs), tried, j, payload);
        forall i | |old(history)| <= i < |history|
          ensures PromoteLeaves(old(nvs), history[i], j)
        {
        }
      }
    }

    /** A committed journal left by a power loss: point at the candidate and finish. */
    method FinishCommitted(prepared: Pointer, payload: P) returns (ok: bool)
      requires Valid() && nvs.journal.Holds?
      modifies this
      ensures Valid() && old(failures) <= failures && old(history) <= history
      ensures failures == old(failures) ==>
                && history == old(history) + FinishOutcome(old(nvs), prepared, payload).trace
                && ok == FinishOutcome(old(nvs), prepared, payload).ok
      ensures ok ==>
                && PreparedVerifies(nvs, prepared, payload)
                && (nvs.journal == old(nvs).journal || nvs.journal.Absent?)
    {
      ok := VerifyPrepared(prepared, payload);
      if !ok {
        ok := Begin();
        if !ok { return; }
        ok := Write(nvs.(pointer := Holds(prepared)));
        if !ok { return; }
        ok := VerifyPrepared(prepared, payload);
        if !ok { return; }
      }
      ok := ClearJournal();
    }

    /** Record the active pointer in a generic journal before anything else is touched. */
    method BeginCommit(prepared: Pointer) returns (ok: bool, j: Journal, ghost lostPointer: bool)
      requires Valid()
      modifies this
      ensures Valid() && old(failures) <= failures
      ensures || (nvs == old(nvs) && history == old(history))
              || (nvs == old(nvs).(journal := Holds(j)) && history == old(history) + [nvs])
      ensures ok ==> nvs == old(nvs).(journal := Holds(j)) && history == old(history) + [nvs]
      ensures failures == old(failures) ==>
                ok == !old(nvs).pointer.Damaged? && j.previous == HeldIn(old(nvs).pointer)
      ensures failures == old(failures) && !ok ==> history == old(history)
      ensures j == Journal(Prepared, GENERIC_TARGET, j.previous, prepared)
      ensures j.previous.Some? ==> old(nvs).pointer == Holds(j.previous.value)
      ensures j.previous.None? && old(nvs).pointer.Holds? && nvs != old(nvs) ==> lostPointer
      ensures !ok && lostPointer ==> failures >= old(failures) + 2
      ensures lostPointer ==> failures > old(failures)
    {
      lostPointer := false;
      j := Journal(Prepared, GENERIC_TARGET, None, prepared);
      ok := Begin();
      if !ok { return; }
      var readable, previous := ReadPointer();
      if !readable { return false, j, false; }
      lostPointer := nvs.pointer.Holds? && previous.None?;
      j := j.(previous := previous);
      ok := WriteJournal(j);
    }

    /** A commit that finds no journal: write a generic one, then promote. */
    method CommitFresh(prepared: Pointer, payload: P) returns (ok: bool, ghost lostPointer: bool)
      requires Valid()
      modifies this
      ensures Valid() && old(failures) <= failures && old(history) <= history
      ensures failures == old(failures) && old(nvs).journal.Absent? ==>
                && history == old(history) + CommitOutcome(old(nvs), prepared, payload).trace
                && ok == CommitOutcome(old(nvs), prepared, payload).ok
      ensures ok ==> LoadResult(nvs) == Some(payload)
      ensures ReadyToCommit(old(nvs), prepared, payload) && !ok && failures <= old(failures) + 1 ==>
                LoadResult(nvs) == LoadResult(old(nvs))
      ensures ReadyToCommit(old(nvs), prepared, payload) ==>
                forall i :: |old(history)| <= i < |history| ==>
                  if lostPointer then RecoversLate(old(nvs), history[i], payload)
                  else Recovers(old(nvs), history[i], payload)
      ensures lostPointer ==> failures > old(failures)
    {
      var j;
      ok, j, lostPointer := BeginCommit(prepared);
      ghost var c, begun := old(nvs), old(nvs).(journal := Holds(j));
      if ok {
        ok := Promote(j, payload);
        if failures == old(failures) && c.journal.Absent? { FreshOutcome(old(history), c, j, payload); }
      }
      if ReadyToCommit(c, prepared, payload) {
        forall i | |old(history)| <= i < |history|
          ensures if lostPointer then RecoversLate(c, history[i], payload)
                  else Recovers(c, history[i], payload)
        {
          PromoteLeavesRecovers(c, begun, history[i], j, payload);
        }
      }
    }

    /** Without failing calls: exactly the writes and the result of `CommitOutcome`, from any
        store. Whatever calls fail, and from any store, success means that the next load returns
        the candidate. From a repaired store with a complete candidate, whatever calls fail:
        - failure after at most one failing call means that it returns the old payload;
        - at every point in between, the next load returns one or the other, unless the active
          pointer could not be read (`lostPointer`); then it may return nothing once, and the
          load after it returns the old payload. */
    method CommitPreparedSlot(prepared: Pointer, payload: P) returns (ok: bool, ghost lostPointer: bool)
      requires Valid()
      modifies this
      ensures Valid() && old(failures) <= failures && old(history) <= history
      ensures failures == old(failures) ==>
                && history == old(history) + CommitOutcome(old(nvs), prepared, payload).trace
                && ok == CommitOutcome(old(nvs), prepared, payload).ok
      ensures ok ==> LoadResult(nvs) == Some(payload)
      ensures ReadyToCommit(old(nvs), prepared, payload) && !ok && failures <= old(failures) + 1 ==>
                LoadResult(nvs) == LoadResult(old(nvs))
      ensures ReadyToCommit(old(nvs), prepared, payload) ==>
                forall i :: |old(history)| <= i < |history| ==>
                  if lostPointer then RecoversLate(old(nvs), history[i], payload)
                  else Recovers(old(nvs), history[i], payload)
      ensures lostPointer ==> failures > old(failures)
    {
      lostPointer := false;
      var readable, found := ReadJournal();
      if !readable { return false, false; }
      if found.None? {
        ok, lostPointer := CommitFresh(prepared, payload);
        return;
      }
      var j := found.value;
      if j.prepared != prepared || j.phase == Aborted { return false, false; }
      if j.phase == Prepared && j.target != GENERIC_TARGET && |j.target| > 0 { return false, false; }
      if j.phase == ConfigCommitted {
        ok := FinishCommitted(prepared, payload);
      } else {
        ok := Promote(j, payload);
      }
    }

    // ----- save

    /** Without failing calls, exactly the writes and the result of `SaveOutcome`. Whatever calls
        fail, success means that the next load returns the new payload. From a repaired store,
        as long as the inactive slot is the `target`, a failure after at most one failing call
        leaves the old payload, and every state on the way recovers as in `CommitPreparedSlot`.
        With at most one failing call the inactive slot is the target of every save that finds
        no older complete slot beside the active one; see `LostReadTargetsActiveSlot`. */
    method Save(payload: P)
        returns (ok: bool, ghost torn: Cell<SlotValue<P>>, ghost target: SlotName, ghost lostPointer: bool)
      requires Valid()
      modifies this
      ensures Valid() && old(failures) <= failures && old(history) <= history
      ensures failures == old(failures) && !valid(payload) ==> !ok && history == old(history)
      ensures failures == old(failures) && valid(payload) ==>
                && history == old(history) + SaveOutcome(old(nvs), payload, torn).trace
                && ok == SaveOutcome(old(nvs), payload, torn).ok
      ensures ok ==> LoadResult(nvs) == Some(payload)
      ensures Repaired(old(nvs)) && target == Other(old(nvs).pointer.value.slot) ==>
                && (!ok && failures <= old(failures) + 1 ==> LoadResult(nvs) == LoadResult(old(nvs)))
                && forall i :: |old(history)| <= i < |history| ==>
                     if lostPointer then RecoversLate(old(nvs), history[i], payload)
                     else Recovers(old(nvs), history[i], payload)
      ensures failures == old(failures) && NextPointer(old(nvs)).Some? ==> target == NextPointer(old(nvs)).value.slot
      ensures lostPointer ==> failures > old(failures)
      ensures Repaired(old(nvs)) && !OtherIsOlder(old(nvs)) && failures <= old(failures) + 1 ==>
                && (!ok ==> LoadResult(nvs) == LoadResult(old(nvs)))
                && forall i :: |old(history)| <= i < |history| ==> RecoversLate(old(nvs), history[i], payload)
      ensures failures == old(failures) && valid(payload) && Savable(old(nvs)) ==>
                ok && Repaired(nvs) && LoadResult(nvs) == Some(payload)
    {
      var prepared;
      prepared, torn, target := Prepare(payload);
      if Savable(old(nvs)) { SavableIsSaved(old(nvs), payload, torn); }
      lostPointer := false;
      ghost var c, d, written := old(nvs), nvs, history;
      ghost var inactive := Repaired(c) && target == Other(c.pointer.value.slot);
      if inactive {
        InactiveSlotIsFree(c, d, target);
        forall i | |old(history)| <= i < |written|
          ensures Recovers(c, written[i], payload)
        {
          InactiveSlotIsFree(c, written[i], target);
        }
      }
      if prepared.None? { return false, torn, target, false; }
      if failures == old(failures) { PrepareThenCommit(old(history), old(nvs), payload, torn); }
      ok, lostPointer := CommitPreparedSlot(prepared.value, payload);
      assert inactive ==> ReadyToCommit(d, prepared.value, payload);
    }
  }
}
