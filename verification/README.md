# InkTime durable state, modelled and proved

InkTime drives battery-powered e-paper photo frames. This project models, in Dafny 4.11, the parts
of its repository that must keep their promises through power loss, failing storage and repeated
requests, and proves those promises for every input, every run and every point of interruption.
`dafny verify dfyconfig.toml` checks all of it.

| module | what it models |
|---|---|
| ConfigCells, ConfigRecovery, ConfigStartup, ConfigStore | the A/B configuration store: two slots, an active pointer and a recovery journal in NVS |
| ScheduleTransaction | changing a schedule file and the configuration together, and the boot that reconciles them |
| Crc, CrcResidue, Fields, ConfigPayload, ConfigSchemas, ConfigEnvelopes, ConfigBlobs | the byte formats under the store, all five schemas, down to the checksum |
| FlashFiles | replacing and promoting schedule files with temporary and backup copies |
| FrameGc | the garbage collector of stored frames |
| AckJournal | the two-bank journal of pending acknowledgements and the list of sent ones |
| PanelFrame | converting a wire frame to the panel's order, and the notice drawn over it |
| CivilDate | Gregorian day numbers and the next ISO date |
| GrahamBound, TestSharding | spreading test files over CI shards |
| BatchReceipt | the receipt that keeps a paid batch from being sent twice |
| MaxAwake | the back-off record of a device that cannot get to sleep |
| QueueKeys | idempotency keys of queue acknowledgements |

How faults are modelled. Each put or remove of one NVS key and each rename is atomic; a slot write
and a file write can be cut short and leave anything, or a prefix. In the classes every storage
call may fail at its own will, and a failing write may or may not have taken effect. A ghost
`history` records the contents after every durable change, so that a clause about all of `history`
is a clause about power loss at any moment, and a ghost `failures` counts failing calls. The
classes are tied to pure functions (`LoadTrace`, `CommitOutcome`, `SaveOutcome`, ...) about which the
crash theorems are stated.

## Findings

- One failing read can cost the active configuration. `readCurrent` falls back to `findNewest` not
  only for a damaged pointer but also when the read of the pointer or of the active slot fails, and
  `findNewest` picks the older of two complete slots. Every complete save leaves such an older slot
  (`EverySaveLeavesOlder`). Then one lost read makes `load` move the pointer to the older
  configuration for good (`LostReadMovesPointer`), or makes `prepare` overwrite the active slot
  (`LostReadTargetsActiveSlot`). Both happen if and only if an older complete slot lies beside the
  active one; without it, `Load`, `Prepare` and `Save` keep their promises through any one failing
  call.
- `readPointer` reports a pointer that could not be read as one that is not there. In a commit this
  makes the journal forget the active slot: the next `load` then returns nothing once, and the one
  after it the old configuration (`RecoversLate`, `LostPointerForgetsPrevious`).
- A journal whose length reads as zero counts as absent. That one `load` returns what the pointer is
  on, whatever the journal says, but the journal still decides the next one
  (`LostJournalReadFollowsPointer`).
- The first save of a new device is not monotone: cut after its slot is written, the next `load`
  returns the new payload; cut after its journal is written, it returns nothing until the journal is
  committed (`FirstSaveCutAt`). A first save over a pointer to a slot that is gone, cut in the same
  place, locks the store (`LeftPointerLocks`, with the exact condition).
- A schema-2 record with an issued credential is refused, since schema 2 has no pairing; every other
  valid payload is read back from every schema that can hold it (`ValidStaysValid`).
- The generation in a slot header is outside the checksum; a changed generation is accepted
  (`GenerationIsNotChecked`). Pointer and journal are covered whole.
- Schedule and configuration change together at every crash point but one: power lost between
  replacing the schedule file and writing the SchedulePromoted journal leaves the new schedule with
  the old configuration, because `load` clears the Prepared journal before it can be reconciled
  (`ChangeTogetherUnlessCutAfterSchedule`).
- A sent-acknowledgement key of 96 bytes or more is cut when stored and never recognised again
  (`LongKeysAreForgotten`).
- Being reset in the middle of recording a timeout or a supervisor failure never loses a demanded
  sleep, starting from a valid or uninitialised record, and neither these writes nor that of a
  completed sleep can make the record unsafe for later ones (`RunKeepsSound`,
  `DemandLasts`). Resetting the record itself does not have that property: cut after one or two of
  its words while the sleep of the last stage is marked completed, it leaves a record that demands a
  sleep which one more cut can drop (`CutResetDropsSleep`). It is safe wherever it is cut if and
  only if that mark is not there (`ResetSafeWhereverCut`).
- `queueEventCanFollow` lets DISPLAY_FAILED follow itself, and that is the only way a run repeats an
  idempotency key (`KeysRepeatOnlyFailures`).
- The first save of the batch receipt does not synchronise the directory, so losing power can take
  the receipt away again. The later saves do, before the paid request: once one of them has
  returned, no run and no power loss takes the receipt away (`Operate`).

## Model

| member | source | states |
|---|---|---|
| ConfigRecovery.SaveIsAtomic | esp32/ink-display-7C-photo/device_config_store.cpp:500-778 | from a repaired store, for every old and new payload, every way of cutting the slot write short and power loss after any prefix of the writes of `save`, the next `load` returns the new payload if the ConfigCommitted journal is already durable and the old one otherwise |
| ConfigRecovery.SaveStates | esp32/ink-display-7C-photo/device_config_store.cpp:500-778 | a save from a repaired store makes six durable states; the active slot is never touched, the first four recover to the old payload, the last two to the new one, and the last is repaired again |
| ConfigRecovery.AttemptLeavesRepaired | esp32/ink-display-7C-photo/device_config_store.cpp:338-778 | a save cut short anywhere, followed by a boot, leaves a repaired store holding the old or the new payload and uses up at most one generation |
| ConfigRecovery.SavesNeverLost | esp32/ink-display-7C-photo/device_config_store.cpp:338-778 | over any sequence of saves, each complete or cut short anywhere and followed by a boot, the store holds exactly the payload of the last save whose commit became durable |
| ConfigRecovery.LoadRestarts | esp32/ink-display-7C-photo/device_config_store.cpp:338-479 | a `load` cut short after any of its writes returns, when run again, the payload of the uninterrupted one and ends in the same contents |
| ConfigRecovery.LoadRepairs | esp32/ink-display-7C-photo/device_config_store.cpp:395-479 | a `load` that returns a payload leaves the pointer on it, keeps a SchedulePromoted journal and removes every other one |
| ConfigRecovery.RecoveryConverges | esp32/ink-display-7C-photo/device_config_store.cpp:338-479 | any number of interrupted loads gives the same payload and the same final contents as one uninterrupted load |
| ConfigRecovery.StepKeepsTransaction | esp32/ink-display-7C-photo/device_config_store.cpp:402-453 | every load, commit or schedule promotion, cut short anywhere, keeps both slots of a schedule-bound transaction and the journal that names them |
| ConfigRecovery.CommitKeepsTransaction | esp32/ink-display-7C-photo/device_config_store.cpp:587-605 | every state a commit of the candidate passes through keeps the transaction invariant |
| ConfigRecovery.CandidateWaitsForSchedule | esp32/ink-display-7C-photo/device_config_store.cpp:402-453 | on every run of loads, commits, schedule promotions and power losses, `load` returns the old configuration as long as the schedule-bound journal is not committed, and a commit in phase Prepared or Aborted is refused without a write |
| ConfigRecovery.PromotedScheduleCommits | esp32/ink-display-7C-photo/device_config_store.cpp:606-772 | once the schedule is promoted an uninterrupted commit succeeds and the candidate is what `load` returns |
| ConfigStartup.FirstSaveIs | esp32/ink-display-7C-photo/device_config_store.cpp:500-772 | the six durable states of the first save of a store without a complete slot: slot A, generation 1 |
| ConfigStartup.FirstSaveSucceeds | esp32/ink-display-7C-photo/device_config_store.cpp:500-778 | the first save succeeds, also over a left-over pointer, and leaves a repaired store that loads the payload |
| ConfigStartup.FirstSaveCutAt | esp32/ink-display-7C-photo/device_config_store.cpp:338-778 | power loss after k writes of the first save of a new device: the next load returns the payload if k is 2 or at least 5, and nothing otherwise |
| ConfigStartup.FirstSaveThenBoot | esp32/ink-display-7C-photo/device_config_store.cpp:338-778 | the boot after it leaves a repaired store, a blank one, or an empty one with the pointer left over |
| ConfigStartup.SaveOverLeftPointerCutAt | esp32/ink-display-7C-photo/device_config_store.cpp:338-778 | the same for a first save over a left-over pointer |
| ConfigStartup.LeftPointerLocks | esp32/ink-display-7C-photo/device_config_store.cpp:338-778 | a first save cut between its journal and its commit locks the store, with nothing to load and a later save refused, if and only if a pointer other than slot A generation 1 was left over |
| ConfigStartup.SurvivingSlotIsFound | esp32/ink-display-7C-photo/device_config_store.cpp:164-195 | without a journal, load returns something if and only if a complete slot remains, whatever the pointer, and repairs the store |
| ConfigStartup.DamagedPointerKeepsSaveOut | esp32/ink-display-7C-photo/device_config_store.cpp:606-619 | with an undecodable pointer a save fails and at every cut load returns what it returned before |
| ConfigStartup.GenerationsRunOut | esp32/ink-display-7C-photo/device_config_store.cpp:522-533 | with the generations used up a save is refused without a write |
| ConfigStartup.UnreadableJournalStops | esp32/ink-display-7C-photo/device_config_store.cpp:395-401 | an undecodable journal stops loads and commits, and stays |
| ConfigStartup.ForeignJournalRefuses | esp32/ink-display-7C-photo/device_config_store.cpp:587-592 | a commit leaves the journal of another candidate alone |
| ConfigStartup.CommittedJournalFinishes | esp32/ink-display-7C-photo/device_config_store.cpp:715-739 | a commit finishes a committed journal, and every state on the way loads the candidate |
| ConfigStartup.AbortDecides | esp32/ink-display-7C-photo/device_config_store.cpp:681-713 | once an abort is marked, every later state of it recovers to the previous payload |
| ConfigStartup.WrongCandidateIsGivenUp | esp32/ink-display-7C-photo/device_config_store.cpp:741-752 | a commit whose candidate is not what was prepared fails and leaves the old payload at every cut |
| ConfigStartup.WrongFirstCandidateIsRemoved | esp32/ink-display-7C-photo/device_config_store.cpp:697-710 | without a predecessor the wrong candidate is removed and the store is blank |
| ConfigStore.DeviceConfigStore.ReadSlot | esp32/ink-display-7C-photo/device_config_store.cpp:54-73 | a slot that is returned is the stored one; without a failing call the result is exactly what the key holds |
| ConfigStore.DeviceConfigStore.ReadPointer | esp32/ink-display-7C-photo/device_config_store.cpp:75-91 | a pointer that cannot be read is reported as absent, an undecodable one as an error |
| ConfigStore.DeviceConfigStore.ReadJournal | esp32/ink-display-7C-photo/device_config_store.cpp:824-857 | a journal that is returned is the stored one; an undecodable or oversized one is an error |
| ConfigStore.DeviceConfigStore.FindNewest | esp32/ink-display-7C-photo/device_config_store.cpp:140-162 | without a failing call, the older complete slot, slot A on a tie |
| ConfigStore.DeviceConfigStore.ReadCurrent | esp32/ink-display-7C-photo/device_config_store.cpp:164-195 | without failing calls, the slot of the active pointer if its generation matches, else the one `findNewest` picks; whatever fails, a complete slot or none; from a repaired store with at most one failing call, the active slot or the one `findNewest` picks |
| ConfigStore.DeviceConfigStore.WriteJournal | esp32/ink-display-7C-photo/device_config_store.cpp:859-905 | true means the journal is durable and read back; an unencodable journal is refused without a call; nothing but the journal key changes |
| ConfigStore.DeviceConfigStore.ClearJournal | esp32/ink-display-7C-photo/device_config_store.cpp:907-931 | only the journal key can change, and after at most one failing call true means that it is gone |
| ConfigStore.DeviceConfigStore.ClearSlot | esp32/ink-display-7C-photo/device_config_store.cpp:111-138 | only the named slot can change, and after at most one failing call true means that it is gone |
| ConfigStore.DeviceConfigStore.RepairTo | esp32/ink-display-7C-photo/device_config_store.cpp:345-393 | a returned payload is the one in the named slot with matching generation, which is then the active one |
| ConfigStore.DeviceConfigStore.Load | esp32/ink-display-7C-photo/device_config_store.cpp:338-479 | without failing calls, exactly the writes and the result of the recovery function the theorems are about; whatever fails, a returned payload is the one that is durably active, slots survive unless the journal names no predecessor, and a load decided by a journal stays decided; from a repaired store one failing call can at most move the pointer to the slot `findNewest` picks, and moves nothing if no older complete slot lies beside the active one; with one failing call and a journal, the returned payload is the one the journal or the one the pointer decides |
| ConfigStore.DeviceConfigStore.Prepare | esp32/ink-display-7C-photo/device_config_store.cpp:500-560 | without failing calls, exactly the slot write to the inactive slot with the next generation; whatever fails, only one slot changes and a reported candidate is complete; with at most one failing call that slot is the inactive one of every repaired store without an older complete slot beside the active one |
| ConfigStore.DeviceConfigStore.VerifyPrepared | esp32/ink-display-7C-photo/device_config_store.cpp:663-679 | true only if the active pointer is on the candidate and the slot holds exactly its payload |
| ConfigStore.DeviceConfigStore.RestorePreviousPointer | esp32/ink-display-7C-photo/device_config_store.cpp:633-661 | only the pointer can change, to the previous one or to none; true means it names the previous slot |
| ConfigStore.DeviceConfigStore.DropTransaction | esp32/ink-display-7C-photo/device_config_store.cpp:697-710 | dropping an aborted transaction removes the candidate only if there was no previous slot, and then the journal |
| ConfigStore.DeviceConfigStore.MarkAndRestore | esp32/ink-display-7C-photo/device_config_store.cpp:681-696 | the journal is marked aborted and then the previous pointer put back, whether or not it could be marked |
| ConfigStore.DeviceConfigStore.AbortCommit | esp32/ink-display-7C-photo/device_config_store.cpp:681-713 | every state an abort passes through keeps the previous slot, and the journal goes only when the pointer is back on it |
| ConfigStore.DeviceConfigStore.TryPromote | esp32/ink-display-7C-photo/device_config_store.cpp:741-771 | success means the pointer is on the verified candidate and the journal committed or gone; no slot changes |
| ConfigStore.DeviceConfigStore.Promote | esp32/ink-display-7C-photo/device_config_store.cpp:681-772 | a failed promotion after at most one failing call has either not started or is completely undone |
| ConfigStore.DeviceConfigStore.FinishCommitted | esp32/ink-display-7C-photo/device_config_store.cpp:715-739 | a committed journal is completed as candidate-wins |
| ConfigStore.DeviceConfigStore.BeginCommit | esp32/ink-display-7C-photo/device_config_store.cpp:606-631 | a generic journal naming the active pointer is durable before anything else changes; the pointer is forgotten only if its read failed |
| ConfigStore.DeviceConfigStore.CommitFresh | esp32/ink-display-7C-photo/device_config_store.cpp:606-772 | the guarantees of a commit that finds no journal |
| ConfigStore.DeviceConfigStore.CommitPreparedSlot | esp32/ink-display-7C-photo/device_config_store.cpp:570-772 | from any store, without failing calls exactly the modelled writes and result, and whatever fails true means the next load returns the candidate; from a repaired store with a complete candidate and any failing calls, false after at most one failing call means the old payload, and at every durable state in between it is one of the two, or, if the pointer read failed, nothing once and the old payload after that |
| ConfigStore.DeviceConfigStore.Save | esp32/ink-display-7C-photo/device_config_store.cpp:774-778 | without failing calls, exactly the writes and the result that the crash theorems quantify over; whatever fails, true means the next load returns the new payload; from a repaired store without an older complete slot beside the active one, and with at most one failing call, false means the old payload and every state in between recovers as for a commit; the same holds with more failing calls as long as the inactive slot was written; and a valid payload is saved with success, without failing calls, by a new device and by a repaired store with generations left |
| ConfigStore.InactiveSlotIsFree | esp32/ink-display-7C-photo/device_config_store.cpp:500-560 | whatever is written to the inactive slot of a repaired store, it stays repaired and `load` returns the same payload |
| ConfigStore.SavableIsSaved | esp32/ink-display-7C-photo/device_config_store.cpp:500-778 | a new device, or a repaired store with generations left, is saved to with success |
| ConfigStore.PromoteLeavesRecovers | esp32/ink-display-7C-photo/device_config_store.cpp:570-772 | every state a commit can leave recovers to the old or the new payload |
| ConfigStore.AbortAfterTry | esp32/ink-display-7C-photo/device_config_store.cpp:681-713 | an abort that meets no failure undoes whatever the promotion had done |
| ConfigStore.LostPointerForgetsPrevious | esp32/ink-display-7C-photo/device_config_store.cpp:606-631 | a generic journal over a repaired store lets the next load recover if and only if it records the active pointer |
| ConfigStore.EverySaveLeavesOlder | esp32/ink-display-7C-photo/device_config_store.cpp:500-778 | after every complete save of a repaired store the old payload lies beside the new one as an older complete slot |
| ConfigStore.LostReadPicksOlder | esp32/ink-display-7C-photo/device_config_store.cpp:140-195 | once the read of the pointer or of the active slot fails, `readCurrent` still takes the active slot if and only if no older complete slot lies beside it |
| ConfigStore.LostReadTargetsActiveSlot | esp32/ink-display-7C-photo/device_config_store.cpp:500-560 | after such a lost read `prepare` writes to the active slot if and only if an older complete slot lies beside it, and cutting that write short brings the older payload back |
| ConfigStore.LostReadMovesPointer | esp32/ink-display-7C-photo/device_config_store.cpp:338-479 | after such a lost read `load` leaves the store as it was if and only if no older complete slot lies beside the active one, and otherwise makes the older payload the active one |
| ConfigStore.LostJournalReadFollowsPointer | esp32/ink-display-7C-photo/device_config_store.cpp:395-479 | a load that misses the journal returns what the active pointer is on, which is where the journal sends it if and only if the two agree |
| ScheduleTransaction.TransactionStates | esp32/ink-display-7C-photo/ink-display-7C-photo.ino:4684-4733 | the eight durable states of a joint schedule and configuration change: which slots, journal phase, pointer and schedule each holds |
| ScheduleTransaction.BootOutcome | esp32/ink-display-7C-photo/ink-display-7C-photo.ino:5248-5309 | loading and reconciling keeps the schedule, and returns the candidate exactly if the journal is SchedulePromoted |
| ScheduleTransaction.BootWaitsForSchedule | esp32/ink-display-7C-photo/ink-display-7C-photo.ino:5248-5309 | a promoted journal whose schedule is not the active one commits nothing, and stays |
| ScheduleTransaction.PreparedIsDropped | esp32/ink-display-7C-photo/ink-display-7C-photo.ino:5248-5309 | a prepared journal that reconciliation meets is dropped if and only if its schedule did not become active and the old configuration is in use |
| ScheduleTransaction.TransactionRecovery | esp32/ink-display-7C-photo/ink-display-7C-photo.ino:4684-4733 | power loss after any number of changes and a boot: configuration and schedule are both determined by that number |
| ScheduleTransaction.ChangeTogetherUnlessCutAfterSchedule | esp32/ink-display-7C-photo/ink-display-7C-photo.ino:4684-4733 | after power loss and a boot the two have changed together if and only if power was not lost between replacing the schedule file and writing the promoted journal |
| ScheduleTransaction.BootRestarts | esp32/ink-display-7C-photo/ink-display-7C-photo.ino:5248-5309 | a boot cut short at any of its changes is completed by the next one with the same result |
| ScheduleTransaction.CutBootState | esp32/ink-display-7C-photo/ink-display-7C-photo.ino:5248-5309 | every state inside a boot recovers to what the boot recovers to |
| Crc.ComputeCrc32 | esp32/ink-display-7C-photo/device_config_store_core.h:220-229 | the byte-at-a-time loop with eight shifts is bit-by-bit polynomial division |
| Crc.PolynomialIs | esp32/ink-display-7C-photo/device_config_store_core.h:220-229 | the bits of the polynomial are the number 0xEDB88320 |
| CrcResidue.EmptyChecksum | esp32/ink-display-7C-photo/device_config_store_core.h:220-229 | the empty message has checksum zero |
| CrcResidue.ChecksumResidue | esp32/ink-display-7C-photo/device_config_store_core.h:220-229 | every message followed by its own checksum, low byte first, has the checksum 0x2144DF1C, which fixes initial value, final complement, bit order and byte order |
| Crc.BurstDetected | esp32/ink-display-7C-photo/device_config_store_core.h:220-229 | from any register, two messages that differ only inside a window of at most 32 bits end in different registers |
| Crc.ChecksumDetectsBurst | esp32/ink-display-7C-photo/device_config_store_core.h:220-229 | every error burst of at most 32 bits changes the checksum |
| Crc.ChecksumDetectsFourBytes | esp32/ink-display-7C-photo/device_config_store_core.h:220-229 | every change confined to four consecutive bytes changes the checksum |
| Fields.AppendNumber | esp32/ink-display-7C-photo/device_config_store_core.h:131-154 | writes the little-endian bytes of the number |
| Fields.TakeNumber | esp32/ink-display-7C-photo/device_config_store_core.h:156-195 | advances over exactly the bytes of the number, or reports that they are missing |
| Fields.AppendField | esp32/ink-display-7C-photo/device_config_store_core.h:131-202 | appends the encoding of a field if and only if it fits its kind |
| Fields.ReadField | esp32/ink-display-7C-photo/device_config_store_core.h:156-218 | the offset-driven reader agrees with the specification parser on every input and offset |
| Fields.ReadFields | esp32/ink-display-7C-photo/device_config_store_core.h:156-218 | reading a table of fields agrees with the specification parser |
| Fields.ParseEncoded | esp32/ink-display-7C-photo/device_config_store_core.h:131-218 | parsing an encoded table in front of any bytes returns the fields and those bytes |
| Fields.EncodeParsed | esp32/ink-display-7C-photo/device_config_store_core.h:131-218 | encoding what was parsed gives back the input |
| ConfigPayload.ValidatePayload | esp32/ink-display-7C-photo/device_config_store_core.h:262-327 | true exactly for payloads within all size limits, with allowed choices, consistent pairing and strictly ascending slots |
| ConfigPayload.SyncTimeIsClock | esp32/ink-display-7C-photo/device_config_store_core.h:235-245 | a sync time is accepted if and only if it is empty or the text of a time of day |
| ConfigPayload.DefaultIsValid | esp32/ink-display-7C-photo/device_config_store_core.h:43-70 | a payload that nothing was set in is valid |
| ConfigPayload.SerializePayload | esp32/ink-display-7C-photo/device_config_store_core.h:329-374 | succeeds exactly on valid payloads; the 8192-byte limit never refuses one |
| ConfigPayload.DeserializePayload | esp32/ink-display-7C-photo/device_config_store_core.h:376-465 | agrees with the specification parser on every byte string, for all five schemas |
| ConfigPayload.DeserializeSerialize | esp32/ink-display-7C-photo/device_config_store_core.h:329-465 | deserializing a serialized valid payload returns it |
| ConfigPayload.SerializeDeserialize | esp32/ink-display-7C-photo/device_config_store_core.h:376-465 | serializing what was read from an accepted schema-5 string gives back the string |
| ConfigPayload.DeserializedIsValid | esp32/ink-display-7C-photo/device_config_store_core.h:376-465 | whatever is accepted, in any schema, is a valid payload |
| ConfigPayload.SerializedFits | esp32/ink-display-7C-photo/device_config_store_core.h:329-374 | every payload within the size limits serializes to at most 6308 bytes |
| ConfigSchemas.SerializeIsRecord | esp32/ink-display-7C-photo/device_config_store_core.h:329-374 | the serialized form is the record of schema 5, field by field in the order of the writer |
| ConfigSchemas.ReadsEverySchema | esp32/ink-display-7C-photo/device_config_store_core.h:376-465 | the record of any schema 1 to 5 of a payload is read as that payload with exactly the members replaced that the schema lacks, and refused exactly if that is no valid payload or counts slots the schema lacks |
| ConfigSchemas.ValidStaysValid | esp32/ink-display-7C-photo/device_config_store_core.h:376-465 | a valid payload that an old schema can hold is read back from it, except from schema 2 with an issued credential |
| ConfigSchemas.UpgradeKeepsPairing | esp32/ink-display-7C-photo/device_config_store_core.h:403-413 | a schema-1 record is read as paired if and only if it has a device token |
| ConfigEnvelopes.WriteSlot | esp32/ink-display-7C-photo/device_config_store_core.h:467-484 | encodes exactly the valid payloads |
| ConfigEnvelopes.ReadSlotBlob | esp32/ink-display-7C-photo/device_config_store_core.h:486-514 | agrees with the specification decoder on every byte string |
| ConfigEnvelopes.DecodeEncodeSlot | esp32/ink-display-7C-photo/device_config_store_core.h:467-514 | decoding an encoded slot returns payload and generation |
| ConfigEnvelopes.EncodedSlotFits | esp32/ink-display-7C-photo/device_config_store_core.h:467-484 | an encoded slot is within the length limit |
| ConfigEnvelopes.WrongChecksumRejected | esp32/ink-display-7C-photo/device_config_store_core.h:486-514 | a slot whose serialized part is replaced by bytes with another checksum is rejected |
| ConfigEnvelopes.SlotBurstRejected | esp32/ink-display-7C-photo/device_config_store_core.h:486-514 | every burst of at most 32 changed bits in the serialized part of an encoded slot is rejected |
| ConfigEnvelopes.SlotFourBytesRejected | esp32/ink-display-7C-photo/device_config_store_core.h:486-514 | every change confined to four consecutive bytes of the serialized part is rejected |
| ConfigEnvelopes.GenerationIsNotChecked | esp32/ink-display-7C-photo/device_config_store_core.h:467-514 | the generation lies outside the checksum: changing just its eight bytes gives a slot that is accepted with the changed generation |
| ConfigEnvelopes.WritePointer | esp32/ink-display-7C-photo/device_config_store_core.h:520-532 | the loop-built pointer blob is the specified encoding |
| ConfigEnvelopes.ReadPointerBlob | esp32/ink-display-7C-photo/device_config_store_core.h:534-560 | agrees with the specification decoder on every byte string |
| ConfigEnvelopes.DecodeEncodePointer | esp32/ink-display-7C-photo/device_config_store_core.h:520-560 | decoding an encoded pointer returns it, from 18 bytes |
| ConfigEnvelopes.WrongPointerRejected | esp32/ink-display-7C-photo/device_config_store_core.h:534-560 | a stored pointer whose body is replaced by bytes with another checksum is rejected |
| ConfigEnvelopes.PointerBurstRejected | esp32/ink-display-7C-photo/device_config_store_core.h:534-560 | every burst of at most 32 changed bits in the body of a stored pointer is rejected |
| ConfigEnvelopes.WriteJournal | esp32/ink-display-7C-photo/device_config_store_core.h:562-585 | encodes exactly the journals whose schedule id is neither empty nor overlong |
| ConfigEnvelopes.ReadJournalBlob | esp32/ink-display-7C-photo/device_config_store_core.h:587-619 | agrees with the specification decoder on every byte string |
| ConfigEnvelopes.DecodeEncodeJournal | esp32/ink-display-7C-photo/device_config_store_core.h:562-619 | decoding an encoded journal returns it |
| ConfigEnvelopes.WrongJournalRejected | esp32/ink-display-7C-photo/device_config_store_core.h:587-619 | a stored journal whose body is replaced by bytes with another checksum is rejected, also where the change moves the end of the schedule id |
| ConfigEnvelopes.JournalBurstRejected | esp32/ink-display-7C-photo/device_config_store_core.h:587-619 | every burst of at most 32 changed bits in the body of a stored journal is rejected |
| ConfigBlobs.SlotBytes | esp32/ink-display-7C-photo/device_config_store_core.h:467-484 | an encoded slot byte by byte: letters, version, schema, generation, length, checksum, record |
| ConfigBlobs.PointerBytes | esp32/ink-display-7C-photo/device_config_store_core.h:520-532 | an encoded pointer byte by byte: letters, version, letter of the slot, generation |
| ConfigBlobs.JournalBytes | esp32/ink-display-7C-photo/device_config_store_core.h:562-585 | an encoded journal byte by byte: letters, version, phase, previous and prepared slot, their generations, schedule id |
| ConfigEnvelopes.StoringSetsTheCell | esp32/ink-display-7C-photo/device_config_store.cpp:54-138 | storing an encoded value or removing a key is exactly the cell update the protocol proofs use |
| FlashFiles.Flash.RestoreBackup | esp32/ink-display-7C-photo/photopainter_support.cpp:88-91 | the committed content does not change; success means a final file or no backup |
| FlashFiles.Flash.Install | esp32/ink-display-7C-photo/photopainter_support.cpp:1362-1397 | from a complete temporary file, every state has the old or the new version committed |
| FlashFiles.Flash.WriteSchedule | esp32/ink-display-7C-photo/photopainter_support.cpp:1348-1397 | from any mix of final, temporary and backup files and under any failing calls, every state commits the old or the new version, the other document is untouched, and true means the new one is read; without failing calls no temporary or backup file is left, and after one the final file itself is right |
| FlashFiles.Flash.ReadSchedule | esp32/ink-display-7C-photo/photopainter_support.cpp:1399-1438 | returns the committed content if its size is allowed, and never changes what is committed |
| FlashFiles.Flash.PromoteStaged | esp32/ink-display-7C-photo/photopainter_support.cpp:1576-1618 | every state has the old or the staged schedule active, the staged one is not gone before it is active, true means it is active, and without failing calls nothing else is left |
| FlashFiles.NothingTornIsRead | esp32/ink-display-7C-photo/photopainter_support.cpp:1348-1618 | over any run of writes, promotions and reads cut short anywhere, whatever is read was there at the start or was handed to a write in full |
| FlashFiles.UntouchedDocumentKept | esp32/ink-display-7C-photo/photopainter_support.cpp:1348-1618 | a document nobody writes or promotes over keeps its content through any run |
| FrameGc.FrameNames | esp32/ink-display-7C-photo/photopainter_support.cpp:1161-1171 | a frame file is one named after a hash and one of the two rotations, and nothing else |
| FrameGc.ProtectedFrames.Add | esp32/ink-display-7C-photo/photopainter_support.cpp:1107-1115 | adds exactly the hash; it is refused only when 80 others are protected, and text that is not a hash is ignored |
| FrameGc.ProtectedFrames.Contains | esp32/ink-display-7C-photo/photopainter_support.cpp:1117-1122 | membership without regard to case |
| FrameGc.ProtectedFrames.AddSchedule | esp32/ink-display-7C-photo/photopainter_support.cpp:1129-1147 | adds exactly the hashes of the schedule; refused exactly if it is unreadable, has more than 80 slots, or holds too many hashes |
| FrameGc.FrameStore.CountFrames | esp32/ink-display-7C-photo/photopainter_support.cpp:1173-1197 | a count below 40 is exact; without failing calls it is exact up to 40 frames in 64 entries |
| FrameGc.FrameStore.CountMissing | esp32/ink-display-7C-photo/photopainter_support.cpp:1269-1291 | every incoming hash is tried once, the count is the number of different hashes that could not be loaded, and all of them are protected |
| FrameGc.FrameStore.DeleteUnreferenced | esp32/ink-display-7C-photo/photopainter_support.cpp:1301-1343 | only unreferenced frame files go; without failing calls exactly the first ones in directory order, until 4 (40 for a batch) are gone, all scanned, or for a batch as soon as there is room and not later |
| FrameGc.CollectedKeeps | esp32/ink-display-7C-photo/photopainter_support.cpp:1325-1343 | what a sweep leaves still has every file that is no frame or that something refers to, and lacks exactly as many frames as were deleted |
| FrameGc.EndedWithoutBatch | esp32/ink-display-7C-photo/photopainter_support.cpp:1325-1343 | a sweep without a batch deletes the first four unreferenced frames among the first 64 entries, or all |
| FrameGc.EndedWithoutRoom | esp32/ink-display-7C-photo/photopainter_support.cpp:1325-1345 | in a directory within the limits, a batch that ends without room has deleted every unreferenced frame |
| FrameGc.FrameStore.RunGc | esp32/ink-display-7C-photo/photopainter_support.cpp:1236-1346 | no file of a frame referenced by the active, staged or incoming schedule or by the current, last-good, recovery or in-flight hashes is deleted; it starts if and only if every stored schedule is readable and at most 80 hashes are referenced; without failing calls a run without a batch deletes exactly the first min(4, n) unreferenced frames if there are 40 or too little space and none otherwise, and a refused batch means that room is missing and, within the limits, that nothing unreferenced is left; a batch that returns true with missing frames leaves room for all of them |
| AckJournal.AppendEntry | esp32/ink-display-7C-photo/ack_journal_transaction_core.h:15-21 | appends at the end, refused exactly when full |
| AckJournal.EraseEntry | esp32/ink-display-7C-photo/ack_journal_transaction_core.h:23-31 | removes exactly the entry at the index and clears the freed place |
| AckJournal.Storage.CommitSnapshot | esp32/ink-display-7C-photo/ack_journal_transaction_core.h:79-117 | under any failure or crash the active bank holds the complete previous or the complete next snapshot; true means next; a failure before the pointer write means previous; an unacceptable snapshot is refused without a write, an acceptable one succeeds without failing calls, and only then is the previous bank cleaned up |
| AckJournal.Storage.CommitEdits | esp32/ink-display-7C-photo/ack_journal_transaction_core.h:79-117 | over any sequence of edits, each commit failing or cut short anywhere, the journal a reader finds always moves by exactly one edit or stays |
| AckJournal.NoAckLost | esp32/ink-display-7C-photo/ack_journal_transaction_core.h:15-31 | over any such run a pending acknowledgement disappears only by being erased |
| AckJournal.SentJournal.Contains | esp32/ink-display-7C-photo/offline_schedule_core.h:371-377 | exactly membership in the queue |
| AckJournal.SentJournal.Remember | esp32/ink-display-7C-photo/offline_schedule_core.h:379-390 | refines a queue of at most 32 keys without duplicates, in which only the oldest is dropped |
| AckJournal.RunKeepsShape | esp32/ink-display-7C-photo/offline_schedule_core.h:369-412 | after any sequence of keys that fit, no duplicates and at most 32 keys |
| AckJournal.OnlyOldestEvicted | esp32/ink-display-7C-photo/offline_schedule_core.h:379-390 | the key at position p survives every run of at most p further keys beyond the free places |
| AckJournal.LongKeysAreForgotten | esp32/ink-display-7C-photo/offline_schedule_core.h:393-411 | a remembered key is found again if and only if it is shorter than 96 bytes |
| PanelFrame.WritePacked4 | esp32/ink-display-7C-photo/photopainter_core.h:129-145 | sets one pixel and no other |
| PanelFrame.IndicesInverse | esp32/ink-display-7C-photo/photopainter_core.h:170-185 | wire order and panel order are a bijection at both rotations |
| PanelFrame.RotationReverses | esp32/ink-display-7C-photo/photopainter_core.h:170-185 | the two rotations put every wire pixel at mirrored panel positions |
| PanelFrame.ConvertWireFrame | esp32/ink-display-7C-photo/photopainter_core.h:187-223 | succeeds exactly on frames of the right size whose colours are all valid, and puts the palette image of every wire pixel at its own panel position |
| PanelFrame.ShownInItsColor | esp32/ink-display-7C-photo/photopainter_core.h:147-223 | for both formats and rotations, the pixel in column x and row y of the wire frame is shown in its own colour at column 799-y and row x of the panel, or at the mirrored place |
| PanelFrame.PixelsOfByte | esp32/ink-display-7C-photo/photopainter_core.h:114-123 | the order of pixels in a byte, for both formats |
| PanelFrame.WireFrameRecoverable | esp32/ink-display-7C-photo/photopainter_core.h:147-223 | two indexed frames that convert to the same native frame are equal |
| PanelFrame.ConversionDeterminesFrame | esp32/ink-display-7C-photo/photopainter_core.h:187-223 | a successful conversion determines every byte of the native frame |
| PanelFrame.Rotate180IsReversal | esp32/ink-display-7C-photo/photopainter_core.h:170-223 | the Rotate180 result is the pixel reversal of the Rotate0 result |
| PanelFrame.OverlayContentNotice | esp32/ink-display-7C-photo/content_notice_core.h:25-58 | draws the notice into the 44 visually lowest rows and changes no other pixel |
| PanelFrame.TextIsCentred | esp32/ink-display-7C-photo/content_notice_core.h:36-46 | the text is centred in the notice, row by row, and nothing else but the two separator rows is black |
| PanelFrame.BitsOfByte | esp32/ink-display-7C-photo/content_notice_core.h:44-45 | the order of bits in a byte of the bitmap |
| PanelFrame.OverlayCommutesWithReversal | esp32/ink-display-7C-photo/content_notice_core.h:25-58 | drawing over a turned frame is the reversal of drawing over the upright one |
| PanelFrame.NoticeAfterConversionIsReversal | esp32/ink-display-7C-photo/content_notice_core.h:25-58 | converting and drawing at the two rotations gives frames that are each other's reversal, for every frame and notice |
| CivilDate.DayNumberByYears | esp32/ink-display-7C-photo/photopainter_support.cpp:395-405 | the era formula with truncating division equals the plain count of days for every year, negative ones included |
| CivilDate.NextDayNumber | esp32/ink-display-7C-photo/photopainter_support.cpp:395-405 | for every Gregorian date of any year, the day number of the next date is one more |
| CivilDate.Epoch | esp32/ink-display-7C-photo/photopainter_support.cpp:395-405 | day zero is 1970-01-01 |
| CivilDate.OrderPreserved | esp32/ink-display-7C-photo/photopainter_support.cpp:395-405 | calendar order and day-number order coincide |
| CivilDate.EveryDayHasOneDate | esp32/ink-display-7C-photo/photopainter_support.cpp:395-405 | every integer is the day number of exactly one date |
| CivilDate.StepsBetween | esp32/ink-display-7C-photo/photopainter_support.cpp:395-405 | one date is reached from an earlier one by exactly as many next-date steps as their day numbers differ |
| CivilDate.NextIsoLocalDate | esp32/ink-display-7C-photo/offline_schedule_core.h:81-114 | writes the next date, refused exactly for invalid text, a short buffer and 9999-12-31 |
| CivilDate.NextIsoIsNextDay | esp32/ink-display-7C-photo/offline_schedule_core.h:81-114 | the text written is the only valid text one day later |
| CivilDate.TextOrderIsDayOrder | esp32/ink-display-7C-photo/offline_schedule_core.h:59-79 | valid dates compare as texts as their days do |
| CivilDate.ParseFormat | esp32/ink-display-7C-photo/offline_schedule_core.h:101-112 | reading a written date returns it |
| CivilDate.FormatParse | esp32/ink-display-7C-photo/offline_schedule_core.h:68-71 | writing a read date returns its text |
| GrahamBound.LongestFirstBound | scripts/ci/run_selected_suites.py:411-417 | 3m times any load of the longest-first greedy assignment is at most 4m-1 times the heaviest load of any other assignment of the same weights |
| GrahamBound.LargeJobsFit | scripts/ci/run_selected_suites.py:411-417 | if every weight exceeds a third of the bound another assignment keeps, the greedy loads keep that bound too |
| GrahamBound.ListBound | scripts/ci/run_selected_suites.py:411-417 | for any order of placement, m times any load is at most the total plus m-1 times the largest weight |
| GrahamBound.SumLoadsIsTotal | scripts/ci/run_selected_suites.py:411-417 | the loads of any assignment add up to the total weight |
| TestSharding.TestFileByName | scripts/ci/run_selected_suites.py:394-396 | a file is selected by its last path component alone |
| TestSharding.ShardWeighsItsTests | scripts/ci/run_selected_suites.py:400-409 | a shard weighs as much as its tests, a file without tests counting as one, with integration and security tests counted nine more times |
| TestSharding.WeightOfFile | scripts/ci/run_selected_suites.py:408-409 | ten times the tests for a file under tests/integration/ or tests/security/, at least one test each |
| TestSharding.PathBeforeIs | scripts/ci/run_selected_suites.py:413-413 | the order of equally heavy files is the usual order of strings |
| TestSharding.PlacementOrder | scripts/ci/run_selected_suites.py:390-413 | lists every selected file once, heaviest first and equally heavy ones by path |
| TestSharding.LeastLoadedSlot | scripts/ci/run_selected_suites.py:414-414 | the first of the least loaded shards |
| TestSharding.PlaceAll | scripts/ci/run_selected_suites.py:411-417 | the greedy loop places every file once and makes a greedy assignment |
| TestSharding.LongestFirstShards | scripts/ci/run_selected_suites.py:400-417 | the 4/3 bound for lists of files against any other sharding |
| TestSharding.SortedIsUnique | scripts/ci/run_selected_suites.py:413-413 | the same files have only one placement order |
| TestSharding.ShardTestPaths | scripts/ci/run_selected_suites.py:381-417 | fails exactly for a non-positive count or no test file; otherwise every selected file is in exactly one shard, no shard exceeds the 4/3 bound against any other sharding, and the result depends on the set of files alone |
| BatchReceipt.Check.SaveInitial | scripts/openai_batch_live_smoke.py:32-40 | the first save leaves nothing, an unreadable file or the receipt |
| BatchReceipt.Check.Save | scripts/openai_batch_live_smoke.py:41-56 | a later save is atomic, and durable if it returns |
| BatchReceipt.Check.Upload | scripts/openai_batch_live_smoke.py:184-188 | returns a receipt only once it says durably that creating may start, creates nothing, and uploads only behind a durable upload_started receipt |
| BatchReceipt.Check.Submit | scripts/openai_batch_live_smoke.py:189-194 | the paid request behind that receipt, and everything after it |
| BatchReceipt.Check.CreateBatch | scripts/openai_batch_live_smoke.py:187-190 | the paid request, allowed only behind a durable create_started receipt |
| BatchReceipt.Check.Harvest | scripts/openai_batch_live_smoke.py:195-224 | a batch whose identity or input file differs from the receipt is left alone; deleting starts behind the durable harvested receipt; a finished matching batch ends, if every save returns, with a harvested receipt and every remote file deleted |
| BatchReceipt.Check.Fresh | scripts/openai_batch_live_smoke.py:179-194 | refuses if there is a receipt file in any condition; if everything goes well, ends with the batch created, harvested and cleaned up |
| BatchReceipt.Check.Resume | scripts/openai_batch_live_smoke.py:161-178 | never creates a batch; leaves unreadable and harvested receipts alone; if everything goes well, a bound or hand-bound receipt of a matching finished batch ends harvested and cleaned up |
| BatchReceipt.Check.Serve | scripts/openai_batch_live_smoke.py:59-67 | a run changes nothing while another one holds the lock |
| BatchReceipt.Check.Operate | scripts/openai_batch_live_smoke.py:158-224 | over any number of runs and crashes on one receipt path: at most one batch is created, the receipt on disk still names it, the receipt is never lost once any save but the first has returned, every harvest is from a batch that matches the receipt, and no remote file is deleted before the harvested receipt is durable |
| BatchReceipt.ValidateOutputs | scripts/openai_batch_live_smoke.py:70-113 | accepted exactly if the batch completed, every request is answered by exactly one good line and by no other line, and the counts agree; the usage is then the sum over all lines, and the missing ids are the unanswered ones |
| MaxAwake.RecoveryRecord.Reset | esp32/ink-display-7C-photo/max_awake_recovery_core.h:38-44 | a valid record that demands nothing; a cut leaves a prefix of the five words |
| MaxAwake.RecoveryRecord.Write | esp32/ink-display-7C-photo/max_awake_recovery_core.h:46-55 | a reset during the write leaves a prefix of the five words |
| MaxAwake.RecoveryRecord.RecordTimeout | esp32/ink-display-7C-photo/max_awake_recovery_core.h:57-64 | a valid record that demands a sleep exactly at or past the threshold |
| MaxAwake.RecoveryRecord.RecordSupervisorFailure | esp32/ink-display-7C-photo/max_awake_recovery_core.h:66-73 | a valid record that demands a sleep |
| MaxAwake.RecoveryRecord.MarkSleepCompleted | esp32/ink-display-7C-photo/max_awake_recovery_core.h:90-96 | a valid record at or past the threshold that demands nothing |
| MaxAwake.SleepNeverShrinks | esp32/ink-display-7C-photo/max_awake_recovery_core.h:31-96 | from any memory contents, along any run of events and resets during writes, the safe sleep never gets shorter |
| MaxAwake.DemandedWhileOwed | esp32/ink-display-7C-photo/max_awake_recovery_core.h:46-96 | from any memory contents and along any run without a reset during a write, every written record is valid and a sleep is demanded exactly while a failure at or past the threshold has no completed sleep after it |
| MaxAwake.DemandLasts | esp32/ink-display-7C-photo/max_awake_recovery_core.h:46-81 | from sound memory a demand survives every run of failures and every reset during their writes |
| MaxAwake.DemandSurvivesCuts | esp32/ink-display-7C-photo/max_awake_recovery_core.h:46-81 | a demanded sleep survives a reset during any later failure if and only if the memory is sound, that is, does not pair a completed last stage with a damaged count |
| MaxAwake.ValidOrFreshIsSound | esp32/ink-display-7C-photo/max_awake_recovery_core.h:23-36 | valid records and uninitialised memory are sound |
| MaxAwake.RunKeepsSound | esp32/ink-display-7C-photo/max_awake_recovery_core.h:46-96 | every run of timeouts, supervisor failures and completed sleeps, cut during any write, keeps sound memory sound |
| MaxAwake.CutResetSound | esp32/ink-display-7C-photo/max_awake_recovery_core.h:38-44 | resetting sound memory keeps it sound unless it is cut after one or two words while the sleep of the last stage is marked completed, and then it does not |
| MaxAwake.ResetSafeWhereverCut | esp32/ink-display-7C-photo/max_awake_recovery_core.h:38-44 | resetting is safe at every cut if and only if the sleep of the last stage is not marked completed |
| MaxAwake.CutResetFailsClosed | esp32/ink-display-7C-photo/max_awake_recovery_core.h:38-44 | a valid record whose reset is cut is unchanged, as good as new, or demands the longest sleep |
| MaxAwake.CutResetDropsSleep | esp32/ink-display-7C-photo/max_awake_recovery_core.h:38-81 | a valid record, a reset cut after two words and a timeout cut after two words that together drop a demanded sleep |
| MaxAwake.ActionsKeepSound | esp32/ink-display-7C-photo/max_awake_recovery_core.h:38-96 | every run of events and resets, each cut anywhere, keeps sound memory sound as long as no reset is cut in that one place |
| MaxAwake.SleepAfterTimeouts | esp32/ink-display-7C-photo/max_awake_recovery_core.h:57-88 | from a fresh device, an hour of sleep up to the third timeout, six at the fourth, a day from the fifth on, demanded from the third on |
| MaxAwake.SupervisorFailureStage | esp32/ink-display-7C-photo/max_awake_recovery_core.h:66-73 | a supervisor failure counts as the third timeout at least, and otherwise as one more |
| MaxAwake.CompletedSleepStage | esp32/ink-display-7C-photo/max_awake_recovery_core.h:90-96 | a completed sleep leaves the stage, raised to the third |
| MaxAwake.DamagedFailsClosed | esp32/ink-display-7C-photo/max_awake_recovery_core.h:31-36 | damaged memory demands the daily sleep, uninitialised memory none |
| MaxAwake.DamagedMemoryDropsSleep | esp32/ink-display-7C-photo/max_awake_recovery_core.h:46-81 | a damaged record for which one reset during a timeout drops the demand |
| MaxAwake.StageCountsFailures | esp32/ink-display-7C-photo/max_awake_recovery_core.h:57-73 | every failure raises the stage by at least one up to the last, and timeouts alone by exactly one |
| QueueKeys.IdempotencyMaterial | esp32/ink-display-7C-photo/queue_client_core.h:233-253 | succeeds exactly if the arguments are allowed and the key fits, and then the buffer holds the whole key and a terminator |
| QueueKeys.MaterialIsUnambiguous | esp32/ink-display-7C-photo/queue_client_core.h:233-253 | different items, versions or events never share a key, even if identifiers contain the separator |
| QueueKeys.KeysFit | esp32/ink-display-7C-photo/ink-display-7C-photo.ino:3789-3791 | every key of a 64-bit version fits the buffer of its only caller |
| QueueKeys.KeyExample | esp32/ink-display-7C-photo/queue_client_core.h:233-253 | one key written out |
| QueueKeys.FollowsByRank | esp32/ink-display-7C-photo/queue_client_core.h:169-182 | an event may follow the one before it in order, only the start of the display may be left out, and a failure may follow anything but a completed display |
| QueueKeys.CompleteRuns | esp32/ink-display-7C-photo/queue_client_core.h:169-182 | both ways to a completed display are runs, and so are those that break off with a failure |
| QueueKeys.KeysRepeatOnlyFailures | esp32/ink-display-7C-photo/queue_client_core.h:169-182 | along any run of events for one item, two reports share a key exactly if they are the same or both report a failure |
| QueueKeys.DisplayNeedsVerifiedHash | esp32/ink-display-7C-photo/queue_client_core.h:169-182 | a run that starts with the manifest reaches a display only through the whole download and the hash check |

## Left out

- Legacy migration in the configuration store (`loadLegacy`, `removeLegacyFormalKeys`, the old `journal` key): those keys are taken to be absent.
- `save` while a schedule journal is pending: modelled by `CommitOutcome` and `SaveOutcome`, but no rollback is claimed there.
- Error codes and messages, and slot names as characters: results are success, failure or a value, and slots are a datatype.
- ConfigStore.DeviceConfigStore.Save: promises nothing about the old payload when two or more calls fail and the active slot was written, or when one fails and an older complete slot lies beside the active one; there it can be lost, as `LostReadTargetsActiveSlot` shows.
- Fields and Crc: numbers are unbounded with explicit widths, and a 32-bit register is the sequence of its bits; the store's C++ strings are byte sequences.
- FlashFiles.Flash: `exists` is taken to be reliable, `rename` refuses an existing target, `clearStagedNextSchedule` is not modelled, and a staged schedule that reappears from an older backup after a promotion is allowed.
- Writing, loading and recovering frame files (`writeFormalFrame`, `loadFormalFrame`, `recoverFormalFrameArtifacts`): the same replacement scheme as the schedules, with hashing and headers on top; the collector sees loading only as success or failure.
- FrameGc.FrameStore.RunGc: schedules are already parsed into slots; while incoming frames are tried, files of those frames themselves may be dropped or renamed, so the deletion clauses start at the directory as it is when the deletion loop begins. Statistics counters are left out.
- The concrete storage adapter of the acknowledgement journal: `Storage` is modelled by its stated interface.
- PanelFrame.OverlayContentNotice: the three notice bitmaps are a parameter.
- TestSharding: finding test files on disk and counting the tests in them are inputs; a path is taken as already expanded.
- BatchReceipt: what the provider knows about a batch id is taken not to change between retrievals, since the script compares identity and input file on the first retrieval only. The four token counters are treated alike and modelled as one. Preparing the request, prices and time-outs are left out, and runs on one receipt are sequential because of the lock file; an operator may remove a stale lock at any time between runs.
- The event names of QueueKeys, like every other constant text and limit, are taken from the source; `KeyExample` writes one key out.
- Offline retry planning (`buildOfflineRetryPlan`, `nextOfflinePreviewSlot`), HTTP decisions of the queue client and cache headers: they would only add case tables.
- Hardware (PMIC, RTC, SPI, deep sleep, panel commands), networking, TLS, JSON, SHA-256, image decoding and the web application.
