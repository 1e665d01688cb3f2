/** Pending acknowledgements: a copy-on-write journal with two banks and an active pointer, and
    the RAM journal that remembers which acknowledgements were already sent. */
module AckJournal {
  import opened Wrappers

  const MAXIMUM_ENTRIES := 32

  // ----- The replacement in RAM

  /** `appendEntry`: refused when the journal is full. */
  method AppendEntry<T>(entries: array<T>, count: nat, capacity: nat, pending: T) returns (ok: bool, newCount: nat)
    requires count <= entries.Length && capacity <= entries.Length
    modifies entries
    ensures ok <==> count < capacity
    ensures newCount <= entries.Length
    ensures entries[..newCount] == old(entries[..count]) + if ok then [pending] else []
  {
    if count >= capacity { return false, count; }
    entries[count] := pending;
    newCount := count + 1;
    assert entries[..count] == old(entries[..count]);
    ok := true;
  }

  /** `eraseEntry`: shifts the later entries down and clears the last place. */
  method EraseEntry<T>(entries: array<T>, count: nat, index: nat, empty: T) returns (ok: bool, newCount: nat)
    requires count <= entries.Length
    modifies entries
    ensures ok <==> index < count
    ensures ok ==> newCount == count - 1 && entries[count - 1] == empty
    ensures ok ==> entries[..newCount] == old(entries[..index]) + old(entries[index + 1..count])
    ensures !ok ==> newCount == count && entries[..] == old(entries[..])
    ensures forall i :: count <= i < entries.Length ==> entries[i] == old(entries[i])
  {
    if index >= count { return false, count; }
    for next := index + 1 to count
      invariant forall i :: 0 <= i < index ==> entries[i] == old(entries[i])
      invariant forall i :: index <= i < next - 1 ==> entries[i] == old(entries[i + 1])
      invariant forall i :: next - 1 <= i < entries.Length ==> entries[i] == old(entries[i])
    {
      entries[next - 1] := entries[next];
    }
    entries[count - 1] := empty;
    ok, newCount := true, count - 1;
  }

  // ----- The durable journal

  datatype Bank = G | H

  datatype Snapshot<+T> = Snapshot(bank: Bank, generation: nat, records: seq<T>)

  datatype Metadata<+T> = Metadata(generation: nat, records: seq<T>)

  /** One bank: the records under their indices, and the metadata that seals them. */
  datatype BankData<T> = BankData(records: map<nat, T>, metadata: Option<Metadata<T>>)

  datatype Pointer = Pointer(bank: Bank, generation: nat, count: nat)

  datatype Banks<T> = Banks(g: BankData<T>, h: BankData<T>, pointer: Option<Pointer>) {
    function Of(bank: Bank): BankData<T> {
      if bank == G then g else h
    }

    function With(bank: Bank, data: BankData<T>): Banks<T> {
      if bank == G then this.(g := data) else this.(h := data)
    }
  }

  ghost predicate Complete<T(!new)>(data: BankData<T>, records: seq<T>, generation: nat) {
    && data.metadata == Some(Metadata(generation, records))
    && forall i :: 0 <= i < |records| ==> i in data.records && data.records[i] == records[i]
  }

  /** What a reader of the journal finds: the complete snapshot in the active bank. */
  ghost function ActiveSnapshot<T(!new)>(s: Banks<T>): Option<Snapshot<T>> {
    match s.pointer
    case None => None
    case Some(p) =>
      var data := s.Of(p.bank);
      if data.metadata.Some? && |data.metadata.value.records| == p.count
        && Complete(data, data.metadata.value.records, p.generation)
      then Some(Snapshot(p.bank, p.generation, data.metadata.value.records))
      else None
  }

  ghost predicate SafeSnapshot<T(!new)>(s: Banks<T>, previous: Option<Snapshot<T>>, next: Snapshot<T>) {
    ActiveSnapshot(s) == previous || ActiveSnapshot(s) == Some(next)
  }

  /** A snapshot that may replace the active one: in the other bank, with a generation, and not
      too long. */
  predicate Acceptable<T>(previousBank: Option<Bank>, next: Snapshot<T>) {
    previousBank != Some(next.bank) && next.generation > 0 && |next.records| <= MAXIMUM_ENTRIES
  }

  /** Storage as its interface demands it: a write touches only its own bank or the pointer, and
      success means that the exact value was read back. A failing write leaves anything in its
      own place. */
  class Storage<T(==, !new)> {
    var banks: Banks<T>
    /** The contents now and after every earlier call that may change them, latest last. */
    ghost var history: seq<Banks<T>>
    ghost var failures: nat
    /** The banks that were cleaned up, in order. */
    ghost var cleaned: seq<Option<Bank>>

    ghost predicate Valid()
      reads this
    {
      |history| > 0 && history[|history| - 1] == banks
    }

    constructor (banks: Banks<T>)
      ensures Valid() && this.banks == banks && history == [banks] && failures == 0
    {
      this.banks, history, failures, cleaned := banks, [banks], 0, [];
    }

    method WriteBank(bank: Bank, data: BankData<T>) returns (ok: bool)
      requires Valid()
      modifies this
      ensures Valid() && history == old(history) + [banks] && old(failures) <= failures && cleaned == old(cleaned)
      ensures banks == old(banks).With(bank, banks.Of(bank))
      ensures ok ==> banks == old(banks).With(bank, data)
      ensures failures == old(failures) ==> ok
    {
      ok := *;
      var left: BankData<T> := data;
      if !ok {
        failures := failures + 1;
        var records: map<nat, T> := *;
        var metadata: Option<Metadata<T>> := *;
        left := BankData(records, metadata);
      }
      banks := banks.With(bank, left);
      history := history + [banks];
    }

    method WriteRecord(bank: Bank, index: nat, record: T) returns (ok: bool)
      requires Valid()
      modifies this
      ensures Valid() && history == old(history) + [banks] && old(failures) <= failures && cleaned == old(cleaned)
      ensures banks == old(banks).With(bank, banks.Of(bank))
      ensures ok ==> banks.Of(bank).records == old(banks).Of(bank).records[index := record]
      ensures failures == old(failures) ==> ok
    {
      var data := banks.Of(bank);
      ok := WriteBank(bank, data.(records := data.records[index := record]));
    }

    method WriteSnapshotMetadata(bank: Bank, generation: nat, records: seq<T>) returns (ok: bool)
      requires Valid()
      modifies this
      ensures Valid() && history == old(history) + [banks] && old(failures) <= failures && cleaned == old(cleaned)
      ensures banks == old(banks).With(bank, banks.Of(bank))
      ensures ok ==> banks.Of(bank) == BankData(old(banks).Of(bank).records, Some(Metadata(generation, records)))
      ensures failures == old(failures) ==> ok
    {
      ok := WriteBank(bank, banks.Of(bank).(metadata := Some(Metadata(generation, records))));
    }

    method WriteActivePointer(p: Pointer) returns (ok: bool)
      requires Valid()
      modifies this
      ensures Valid() && history == old(history) + [banks] && old(failures) <= failures && cleaned == old(cleaned)
      ensures banks == old(banks) || banks == old(banks).(pointer := Some(p))
      ensures ok ==> banks == old(banks).(pointer := Some(p))
      ensures failures == old(failures) ==> ok
    {
      ok := *;
      var applied: bool := *;
      if ok || applied { banks := banks.(pointer := Some(p)); }
      if !ok { failures := failures + 1; }
      history := history + [banks];
    }

    /** The read-back of the whole active snapshot may fail, but does not confirm a wrong one. */
    method VerifyActiveSnapshot(ghost expected: Snapshot<T>) returns (ok: bool)
      modifies this`failures
      ensures old(failures) <= failures
      ensures failures == old(failures) ==> ok
    {
      ok := *;
      if !ok { failures := failures + 1; }
    }

    method CleanupPrevious(bank: Option<Bank>)
      requires Valid()
      modifies this
      ensures Valid() && history == old(history) + [banks] && failures == old(failures)
      ensures cleaned == old(cleaned) + [bank]
      ensures bank.None? ==> banks == old(banks)
      ensures bank.Some? ==> banks == old(banks).With(bank.value, banks.Of(bank.value))
    {
      if bank.Some? {
        var records: map<nat, T> := *;
        var metadata: Option<Metadata<T>> := *;
        banks := banks.With(bank.value, BankData(records, metadata));
      }
      history, cleaned := history + [banks], cleaned + [bank];
    }

    /** All records of the replacement, into the bank that is not active. */
    method WriteRecords(next: Snapshot<T>) returns (ok: bool)
      requires Valid()
      modifies this
      ensures Valid() && old(history) <= history && old(failures) <= failures && cleaned == old(cleaned)
      ensures forall i :: |old(history)| <= i < |history| ==>
                history[i] == old(banks).With(next.bank, history[i].Of(next.bank))
      ensures banks == old(banks).With(next.bank, banks.Of(next.bank))
      ensures ok ==> forall i :: 0 <= i < |next.records| ==>
                i in banks.Of(next.bank).records && banks.Of(next.bank).records[i] == next.records[i]
      ensures failures == old(failures) ==> ok
    {
      for index := 0 to |next.records|
        invariant Valid() && old(history) <= history && old(failures) <= failures && cleaned == old(cleaned)
        invariant forall i :: |old(history)| <= i < |history| ==>
                    history[i] == old(banks).With(next.bank, history[i].Of(next.bank))
        invariant banks == old(banks).With(next.bank, banks.Of(next.bank))
        invariant forall i :: 0 <= i < index ==>
                    i in banks.Of(next.bank).records && banks.Of(next.bank).records[i] == next.records[i]
      {
        ok := WriteRecord(next.bank, index, next.records[index]);
        if !ok { return; }
      }
      ok := true;
    }

    /** `commitSnapshot`. Whatever fails and wherever power is lost, the active bank holds the
        complete previous snapshot or the complete next one; success means the next one, and
        `pointerTried` tells whether the pointer write was reached. */
    method CommitSnapshot(previousBank: Option<Bank>, next: Snapshot<T>) returns (ok: bool, ghost pointerTried: bool)
      requires Valid()
      requires banks.pointer.Some? ==> previousBank == Some(banks.pointer.value.bank)
      modifies this
      ensures Valid() && old(history) <= history && old(failures) <= failures
      ensures forall i :: |old(history)| <= i < |history| ==>
                SafeSnapshot(history[i], ActiveSnapshot(old(banks)), next)
      ensures ok ==> ActiveSnapshot(banks) == Some(next)
      ensures !pointerTried ==> ActiveSnapshot(banks) == ActiveSnapshot(old(banks))
      ensures !Acceptable(previousBank, next) ==> !ok && banks == old(banks)
      ensures Acceptable(previousBank, next) && failures == old(failures) ==> ok
      ensures cleaned == old(cleaned) + if ok then [previousBank] else []
    {
      pointerTried := false;
      if !Acceptable(previousBank, next) { return false, false; }
      ok := WriteRecords(next);
      if !ok { return; }
      ok := WriteSnapshotMetadata(next.bank, next.generation, next.records);
      if !ok { return; }
      pointerTried := true;
      ok := WriteActivePointer(Pointer(next.bank, next.generation, |next.records|));
      if !ok { return; }
      ok := VerifyActiveSnapshot(next);
      if !ok { return; }
      CleanupPrevious(previousBank);
    }

    /** Any number of edits, each committed as a new snapshot in the other bank; any of the
        commits may fail or lose power anywhere. `states` are the journals a reader finds. */
    method CommitEdits(edits: seq<Edit<T>>) returns (ghost states: seq<seq<T>>)
      requires Valid() && ActiveSnapshot(banks).Some?
      modifies this
      ensures Valid() && ActiveSnapshot(banks).Some?
      ensures JournalRun(states, edits)
      ensures states[0] == ActiveSnapshot(old(banks)).value.records
      ensures states[|edits|] == ActiveSnapshot(banks).value.records
    {
      states := [ActiveSnapshot(banks).value.records];
      for i := 0 to |edits|
        invariant Valid() && ActiveSnapshot(banks).Some?
        invariant JournalRun(states, edits[..i])
        invariant states[0] == ActiveSnapshot(old(banks)).value.records
        invariant states[i] == ActiveSnapshot(banks).value.records
      {
        var active := banks.pointer.value;
        var records := banks.Of(active.bank).metadata.value.records;
        var next := Snapshot(if active.bank == G then H else G, active.generation + 1, Edited(records, edits[i]));
        ghost var before, past := banks, |history|;
        var ok, tried := CommitSnapshot(Some(active.bank), next);
        assert SafeSnapshot(banks, ActiveSnapshot(before), next) by {
          if |history| > past { assert history[|history| - 1] == banks; }
        }
        JournalRunMore(states, edits, i, ActiveSnapshot(banks).value.records);
        states := states + [ActiveSnapshot(banks).value.records];
      }
      assert edits[..|edits|] == edits;
    }
  }

  // ----- Whole runs of appends and erasures

  datatype Edit<+T> = Append(entry: T) | Erase(index: nat)

  /** The replacement that an edit prepares; an edit that is refused changes nothing. */
  function Edited<T>(records: seq<T>, edit: Edit<T>): seq<T> {
    match edit
    case Append(e) => if |records| < MAXIMUM_ENTRIES then records + [e] else records
    case Erase(i) => if i < |records| then records[..i] + records[i + 1..] else records
  }

  /** Each commit either takes effect or leaves the journal as it was. */
  ghost predicate JournalRun<T(!new)>(states: seq<seq<T>>, edits: seq<Edit<T>>) {
    && |states| == |edits| + 1
    && forall i :: 0 <= i < |edits| ==> states[i + 1] == states[i] || states[i + 1] == Edited(states[i], edits[i])
  }

  lemma JournalRunMore<T(!new)>(states: seq<seq<T>>, edits: seq<Edit<T>>, i: nat, after: seq<T>)
    requires i < |edits| && JournalRun(states, edits[..i])
    requires after == states[i] || after == Edited(states[i], edits[i])
    ensures JournalRun(states + [after], edits[..i + 1])
  {
    var more := states + [after];
    forall k | 0 <= k < i + 1
      ensures more[k + 1] == more[k] || more[k + 1] == Edited(more[k], edits[..i + 1][k])
    {
      if k < i { assert states[k + 1] == states[k] || states[k + 1] == Edited(states[k], edits[..i][k]); }
    }
  }

  lemma EditedKeeps<T(!new)>(records: seq<T>, edit: Edit<T>, ack: T)
    requires ack in records
    requires !(edit.Erase? && edit.index < |records| && records[edit.index] == ack)
    ensures ack in Edited(records, edit)
  {
    var k :| 0 <= k < |records| && records[k] == ack;
    match edit
    case Append(e) =>
      assert Edited(records, edit)[k] == ack;
    case Erase(i) =>
      if i < |records| { ErasedAt(records, i, k); }
  }

  lemma ErasedAt<T(!new)>(records: seq<T>, i: nat, k: nat)
    requires i < |records| && k < |records| && k != i
    ensures records[k] in records[..i] + records[i + 1..]
  {
    assert (records[..i] + records[i + 1..])[if k < i then k else k - 1] == records[k];
  }

  /** A pending acknowledgement disappears only by being erased. */
  lemma {:induction false} NoAckLost<T(!new)>(states: seq<seq<T>>, edits: seq<Edit<T>>, n: nat, ack: T)
    requires JournalRun(states, edits) && n < |states| && ack in states[0] && ack !in states[n]
    ensures exists i :: 0 <= i < n && edits[i].Erase? && edits[i].index < |states[i]|
                        && states[i][edits[i].index] == ack
  {
    if ack !in states[n - 1] {
      NoAckLost(states, edits, n - 1, ack);
    } else {
      assert states[n - 1 + 1] == Edited(states[n - 1], edits[n - 1]);
      var edit := edits[n - 1];
      if !(edit.Erase? && edit.index < |states[n - 1]| && states[n - 1][edit.index] == ack) {
        EditedKeeps(states[n - 1], edit, ack);
      }
    }
  }

  // ----- Which acknowledgements were already sent

  const KEY_BYTES := 96

  /** What a buffer of 96 bytes keeps of a key, the terminator included. */
  function Stored(key: string): string {
    if |key| < KEY_BYTES then key else key[..KEY_BYTES - 1]
  }

  /** The journal of sent keys as a queue. */
  function Remembered(queue: seq<string>, key: string): seq<string> {
    if key == "" || key in queue then queue
    else (if |queue| == MAXIMUM_ENTRIES then queue[1..] else queue) + [Stored(key)]
  }

  ghost predicate ShortKeys(queue: seq<string>) {
    |queue| <= MAXIMUM_ENTRIES && forall i :: 0 <= i < |queue| ==> 0 < |queue[i]| < KEY_BYTES
  }

  ghost predicate Distinct(queue: seq<string>) {
    forall i, k :: 0 <= i < k < |queue| ==> queue[i] != queue[k]
  }

  class SentJournal {
    const keys: array<string>
    var count: nat

    ghost predicate Valid()
      reads this, keys
    {
      keys.Length == MAXIMUM_ENTRIES && count <= MAXIMUM_ENTRIES && ShortKeys(keys[..count])
    }

    ghost function Queue(): seq<string>
      requires Valid()
      reads this, keys
    {
      keys[..count]
    }

    constructor ()
      ensures Valid() && fresh(keys) && Queue() == []
    {
      keys := new string[MAXIMUM_ENTRIES](_ => "");
      count := 0;
    }

    method Contains(key: string) returns (found: bool)
      requires Valid()
      ensures found <==> key != "" && key in Queue()
    {
      if key == "" { return false; }
      for index := 0 to count
        invariant key !in keys[..index]
      {
        if keys[index] == key { return true; }
      }
      found := false;
    }

    /** Shifts every key but the oldest one place down. */
    method DropOldest()
      requires Valid() && count > 0
      modifies this, keys
      ensures Valid() && count == old(count) - 1
      ensures keys[..count] == old(keys[1..count])
    {
      ghost var before := keys[..count];
      for index := 1 to count
        modifies keys
        invariant forall i :: 0 <= i < index - 1 ==> keys[i] == before[i + 1]
        invariant forall i :: index - 1 <= i < count ==> keys[i] == before[i]
      {
        keys[index - 1] := keys[index];
      }
      count := count - 1;
    }

    method Append(stored: string)
      requires Valid() && count < MAXIMUM_ENTRIES && 0 < |stored| < KEY_BYTES
      modifies this, keys
      ensures Valid() && keys[..count] == old(keys[..count]) + [stored]
    {
      ghost var before := keys[..count];
      keys[count] := stored;
      count := count + 1;
      assert keys[..count] == before + [stored];
    }

    method Remember(key: string) returns (ok: bool)
      requires Valid()
      modifies this, keys
      ensures Valid()
      ensures ok <==> key != ""
      ensures Queue() == Remembered(old(Queue()), key)
    {
      if key == "" { return false; }
      var known := Contains(key);
      if known { return true; }
      ghost var queue := Queue();
      if count == MAXIMUM_ENTRIES { DropOldest(); }
      assert Queue() == if |queue| == MAXIMUM_ENTRIES then queue[1..] else queue;
      Append(Stored(key));
      ok := true;
    }
  }

  function RunRemembered(queue: seq<string>, sent: seq<string>): seq<string>
    decreases |sent|
  {
    if |sent| == 0 then queue else RunRemembered(Remembered(queue, sent[0]), sent[1..])
  }

  lemma RememberedKeepsShape(queue: seq<string>, key: string)
    requires ShortKeys(queue)
    ensures ShortKeys(Remembered(queue, key))
    ensures key != "" && |key| < KEY_BYTES ==> key in Remembered(queue, key)
    ensures Distinct(queue) && |key| < KEY_BYTES ==> Distinct(Remembered(queue, key))
  {
    var next := Remembered(queue, key);
    if key != "" && key !in queue { assert next[|next| - 1] == Stored(key); }
  }

  /** Remembering a key makes the journal contain it exactly if the key fits its buffer. */
  lemma LongKeysAreForgotten(queue: seq<string>, key: string)
    requires ShortKeys(queue)
    ensures key != "" ==> (key in Remembered(queue, key) <==> |key| < KEY_BYTES)
  {
    RememberedKeepsShape(queue, key);
  }

  /** A key is evicted only as the oldest: the key at position `p` survives every run of at most
      `p` more calls, and the free places on top of that. */
  lemma {:induction false} OnlyOldestEvicted(queue: seq<string>, sent: seq<string>, p: nat)
    requires ShortKeys(queue) && p < |queue|
    requires |sent| <= p + MAXIMUM_ENTRIES - |queue|
    ensures queue[p] in RunRemembered(queue, sent)
    decreases |sent|
  {
    if |sent| > 0 {
      var key := sent[0];
      var next := Remembered(queue, key);
      RememberedKeepsShape(queue, key);
      if key == "" || key in queue {
        OnlyOldestEvicted(queue, sent[1..], p);
      } else if |queue| == MAXIMUM_ENTRIES {
        assert next[p - 1] == queue[p];
        OnlyOldestEvicted(next, sent[1..], p - 1);
      } else {
        assert next[p] == queue[p];
        OnlyOldestEvicted(next, sent[1..], p);
      }
    }
  }

  /** After any run of keys that fit, the journal is free of duplicates and within its limit. */
  lemma {:induction false} RunKeepsShape(queue: seq<string>, sent: seq<string>)
    requires ShortKeys(queue) && Distinct(queue)
    requires forall i :: 0 <= i < |sent| ==> |sent[i]| < KEY_BYTES
    ensures ShortKeys(RunRemembered(queue, sent)) && Distinct(RunRemembered(queue, sent))
    decreases |sent|
  {
    if |sent| > 0 {
      RememberedKeepsShape(queue, sent[0]);
      RunKeepsShape(Remembered(queue, sent[0]), sent[1..]);
    }
  }
}
