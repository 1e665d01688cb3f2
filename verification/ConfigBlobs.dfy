/** The stored blobs byte by byte, as any other reader of the flash would find them. */
module ConfigBlobs {
  import opened Wrappers
  import opened Bytes
  import opened Fields
  import opened ConfigPayload
  import opened ConfigCells
  import opened ConfigSchemas
  import opened ConfigEnvelopes
  import Crc

  /** Numbers are written low byte first. */
  lemma FourLittleEndian(a: byte, b: byte, c: byte, d: byte)
    ensures LittleEndian(a + 0x100 * b + 0x1_0000 * c + 0x100_0000 * d, 4) == [a, b, c, d]
  {
    LowByte(a, b + 0x100 * c + 0x1_0000 * d);
    LowByte(b, c + 0x100 * d);
    LowByte(c, d);
    assert LittleEndian(d, 1) == [d];
    assert LittleEndian(c + 0x100 * d, 2) == [c] + LittleEndian(d, 1);
    assert LittleEndian(b + 0x100 * (c + 0x100 * d), 3) == [b] + LittleEndian(c + 0x100 * d, 2);
  }

  lemma OneByte(a: byte)
    ensures LittleEndian(a, 1) == [a]
  {
  }

  /** The magic words spell INKC, INKP and INKJ, last letter first. */
  lemma MagicBytes(magic: nat, letter: char)
    requires (magic, letter) in {(SLOT_MAGIC, 'C'), (POINTER_MAGIC, 'P'), (JOURNAL_MAGIC, 'J')}
    ensures LittleEndian(magic, 4) == Ascii([letter, 'K', 'N', 'I'])
  {
    var first := if letter == 'C' then 0x43 else if letter == 'P' then 0x50 else 0x4A;
    assert magic == first + 0x100 * 0x4B + 0x1_0000 * 0x4E + 0x100_0000 * 0x49;
    FourLittleEndian(first, 0x4B, 0x4E, 0x49);
  }

  /** The letter a slot is stored under. */
  function Letter(slot: SlotName): seq<byte> {
    if slot == A then Ascii("A") else Ascii("B")
  }

  lemma SlotByteIsLetter(slot: SlotName)
    ensures LittleEndian(SlotByte(slot), 1) == Letter(slot)
  {
    OneByte(SlotByte(slot));
  }

  /** A pointer: magic, version, slot, generation, checksum. */
  lemma PointerBytes(p: Pointer)
    requires p.generation <= MAX_GENERATION
    ensures EncodePointer(p)[..|EncodePointer(p)| - 4]
         == Ascii("PKNI") + [1] + Letter(p.slot) + LittleEndian(p.generation, 8)
  {
    PointerBody(p);
    var f := PointerFields(p);
    Powers();
    EncodeFour(f[0], Num(4), f[1], Num(1), f[2], Num(1), f[3], Num(8));
    assert f == [f[0], f[1], f[2], f[3]];
    MagicBytes(POINTER_MAGIC, 'P');
    OneByte(1);
    SlotByteIsLetter(p.slot);
    SealedParts(Encode(f, POINTER_BODY));
  }

  /** The phase of a journal as it is stored. */
  function PhaseByte(phase: Phase): byte {
    match phase
    case Prepared => 1
    case SchedulePromoted => 2
    case ConfigCommitted => 3
    case Aborted => 4
  }

  function PreviousLetter(j: Journal): seq<byte> {
    if j.previous.Some? then Letter(j.previous.value.slot) else [0]
  }

  function PreviousGeneration(j: Journal): nat {
    if j.previous.Some? then j.previous.value.generation else 0
  }

  /** A journal: magic, version, phase, previous slot, prepared slot, previous generation, prepared
      generation, and the schedule id behind its length. */
  lemma JournalBytes(j: Journal)
    requires StorableJournal(j)
    ensures EncodeJournal(j)[..|EncodeJournal(j)| - 4]
         == (Ascii("JKNI") + [1] + [PhaseByte(j.phase)] + PreviousLetter(j))
            + (Letter(j.prepared.slot) + LittleEndian(PreviousGeneration(j), 8)
               + LittleEndian(j.prepared.generation, 8) + TextBytes(j.target))
  {
    JournalFieldsFit(j);
    var f := JournalFields(j);
    Powers();
    JournalFirstHalf(j);
    JournalSecondHalf(j);
    EncodeConcat(f[..4], JOURNAL_BODY[..4], f[4..], JOURNAL_BODY[4..]);
    assert f[..4] + f[4..] == f && JOURNAL_BODY[..4] + JOURNAL_BODY[4..] == JOURNAL_BODY;
    SealedParts(Encode(f, JOURNAL_BODY));
  }

  lemma JournalFirstHalf(j: Journal)
    requires StorableJournal(j)
    ensures AllFit(JournalFields(j)[..4], JOURNAL_BODY[..4])
    ensures Encode(JournalFields(j)[..4], JOURNAL_BODY[..4])
         == Ascii("JKNI") + [1] + [PhaseByte(j.phase)] + PreviousLetter(j)
  {
    JournalFieldsFit(j);
    var f := JournalFields(j);
    Powers();
    EncodeFour(f[0], Num(4), f[1], Num(1), f[2], Num(1), f[3], Num(1));
    assert f[..4] == [f[0], f[1], f[2], f[3]] && JOURNAL_BODY[..4] == [Num(4), Num(1), Num(1), Num(1)];
    MagicBytes(JOURNAL_MAGIC, 'J');
    OneByte(1);
    OneByte(PhaseNumber(j.phase));
    if j.previous.Some? { SlotByteIsLetter(j.previous.value.slot); } else { OneByte(0); }
  }

  lemma JournalSecondHalf(j: Journal)
    requires StorableJournal(j)
    ensures AllFit(JournalFields(j)[4..], JOURNAL_BODY[4..])
    ensures Encode(JournalFields(j)[4..], JOURNAL_BODY[4..])
         == Letter(j.prepared.slot) + LittleEndian(PreviousGeneration(j), 8)
            + LittleEndian(j.prepared.generation, 8) + TextBytes(j.target)
  {
    JournalFieldsFit(j);
    var f := JournalFields(j);
    Powers();
    EncodeFour(f[4], Num(1), f[5], Num(8), f[6], Num(8), f[7], Text(160));
    assert f[4..] == [f[4], f[5], f[6], f[7]] && JOURNAL_BODY[4..] == [Num(1), Num(8), Num(8), Text(160)];
    SlotByteIsLetter(j.prepared.slot);
  }

  /** A slot: magic, version, schema, generation, length, checksum, and the record of its payload. */
  lemma SlotBytes(v: SlotValue<ConfigPayload>)
    requires Storable(v)
    ensures var record := Record(v.payload, 5);
            EncodeSlot(v) == (Ascii("CKNI") + [1] + [5])
                             + (LittleEndian(v.generation, 8)
                                + (LittleEndian(|record|, 4) + LittleEndian(SlotChecksum(v), 4))) + record
  {
    SerializedFits(v.payload);
    SerializeIsRecord(v.payload);
    SlotHeaderBytes(v.generation, Serialize(v.payload));
  }

  lemma SlotHeaderBytes(generation: nat, serialized: seq<byte>)
    requires generation <= MAX_GENERATION && |serialized| <= MAX_CONFIG_PAYLOAD_BYTES
    ensures AllFit(SlotHeader(generation, serialized), SLOT_HEADER)
    ensures Encode(SlotHeader(generation, serialized), SLOT_HEADER)
         == (Ascii("CKNI") + [1] + [5])
            + (LittleEndian(generation, 8)
               + (LittleEndian(|serialized|, 4) + LittleEndian(Crc.Crc32(serialized), 4)))
  {
    SlotHeaderParts(generation, serialized);
    SlotHeaderFits(0, serialized);
    var f := SlotHeader(0, serialized);
    EncodeThree(f[0], Num(4), f[1], Num(1), f[2], Num(1));
    EncodeTwo(f[4], Num(4), f[5], Num(4));
    assert f[..3] == [f[0], f[1], f[2]] && SLOT_HEADER[..3] == [Num(4), Num(1), Num(1)];
    assert f[4..] == [f[4], f[5]] && SLOT_HEADER[4..] == [Num(4), Num(4)];
    MagicBytes(SLOT_MAGIC, 'C');
    OneByte(1);
    OneByte(5);
  }

  ghost function SlotChecksum(v: SlotValue<ConfigPayload>): nat
    requires Storable(v)
  {
    Crc.Crc32(Record(v.payload, 5))
  }
}
