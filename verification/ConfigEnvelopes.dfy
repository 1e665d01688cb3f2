/** The blobs behind the cells: slot, pointer and journal envelopes, each protected by a
    checksum, and the correspondence between blobs and cells. */
module ConfigEnvelopes {
  import opened Wrappers
  import opened Bytes
  import opened Crc
  import opened Fields
  import opened ConfigPayload
  import opened ConfigCells

  const SLOT_MAGIC := 0x494E4B43
  const POINTER_MAGIC := 0x494E4B50
  const JOURNAL_MAGIC := 0x494E4B4A
  const ENVELOPE_VERSION := 1
  const MAX_BLOB_BYTES := MAX_CONFIG_PAYLOAD_BYTES + 64

  const SLOT_HEADER: seq<Kind> := [Num(4), Num(1), Num(1), Num(8), Num(4), Num(4)]
  const POINTER_BODY: seq<Kind> := [Num(4), Num(1), Num(1), Num(8)]
  const JOURNAL_BODY: seq<Kind> := [Num(4), Num(1), Num(1), Num(1), Num(1), Num(8), Num(8), Text(160)]
  const CHECKSUM: seq<Kind> := [Num(4)]

  lemma Crc32Fits(bytes: seq<byte>)
    ensures Crc32(bytes) < 0x1_0000_0000
  {
    NumberBound(Xor(Divide(ONES, AllBits(bytes)), ONES));
  }

  // ----- Slots

  ghost function SlotHeader(generation: nat, serialized: seq<byte>): seq<Field> {
    [Number(SLOT_MAGIC), Number(ENVELOPE_VERSION), Number(PAYLOAD_SCHEMA_VERSION), Number(generation),
     Number(|serialized|), Number(Crc32(serialized))]
  }

  lemma SlotHeaderFits(generation: nat, serialized: seq<byte>)
    requires generation <= MAX_GENERATION && |serialized| <= MAX_CONFIG_PAYLOAD_BYTES
    ensures AllFit(SlotHeader(generation, serialized), SLOT_HEADER)
  {
    Powers();
    Crc32Fits(serialized);
  }

  ghost predicate Storable(v: SlotValue<ConfigPayload>) {
    Typed(v.payload) && Valid(v.payload) && v.generation <= MAX_GENERATION
  }

  ghost function EncodeSlot(v: SlotValue<ConfigPayload>): seq<byte>
    requires Storable(v)
  {
    var serialized := Serialize(v.payload);
    SerializedFits(v.payload);
    SlotHeaderFits(v.generation, serialized);
    Encode(SlotHeader(v.generation, serialized), SLOT_HEADER) + serialized
  }

  /** The header checks of `decode_slot` on the parsed header and the bytes behind it. */
  predicate SlotHeaderOk(f: seq<Field>, rest: seq<byte>)
    requires |f| == 6
  {
    && f[0] == Number(SLOT_MAGIC) && f[1] == Number(ENVELOPE_VERSION)
    && f[2].Number? && 1 <= f[2].n <= PAYLOAD_SCHEMA_VERSION
    && f[4].Number? && f[4].n <= MAX_CONFIG_PAYLOAD_BYTES && f[4].n == |rest|
  }

  ghost function DecodeSlot(input: seq<byte>): Option<SlotValue<ConfigPayload>> {
    var parsed :- Parse(SLOT_HEADER, input);
    var f := parsed.value;
    if |f| != 6 || !SlotHeaderOk(f, parsed.rest) || f[5] != Number(Crc32(parsed.rest)) then None
    else
      var payload :- Deserialize(parsed.rest);
      Some(SlotValue(payload, NumberOf(f[3])))
  }

  /** Decoding a header in front of any bytes. */
  lemma DecodeBehindHeader(f: seq<Field>, rest: seq<byte>)
    requires AllFit(f, SLOT_HEADER) && |f| == 6
    ensures DecodeSlot(Encode(f, SLOT_HEADER) + rest)
         == if !SlotHeaderOk(f, rest) || f[5] != Number(Crc32(rest)) || Deserialize(rest).None? then None
            else Some(SlotValue(Deserialize(rest).value, NumberOf(f[3])))
  {
    ParseEncoded(f, SLOT_HEADER, rest);
  }

  lemma DecodeEncodeSlot(v: SlotValue<ConfigPayload>)
    requires Storable(v)
    ensures DecodeSlot(EncodeSlot(v)) == Some(v)
  {
    var serialized := Serialize(v.payload);
    SerializedFits(v.payload);
    DeserializeSerialize(v.payload);
    DecodeOwnHeader(v.generation, serialized);
  }

  /** Bytes behind their own header decode to whatever they deserialize to. */
  lemma DecodeOwnHeader(generation: nat, serialized: seq<byte>)
    requires generation <= MAX_GENERATION && |serialized| <= MAX_CONFIG_PAYLOAD_BYTES
    requires Deserialize(serialized).Some?
    ensures AllFit(SlotHeader(generation, serialized), SLOT_HEADER)
    ensures DecodeSlot(Encode(SlotHeader(generation, serialized), SLOT_HEADER) + serialized)
         == Some(SlotValue(Deserialize(serialized).value, generation))
  {
    SlotHeaderFits(generation, serialized);
    OwnHeaderOk(generation, serialized);
    DecodeBehindHeader(SlotHeader(generation, serialized), serialized);
  }

  lemma OwnHeaderOk(generation: nat, serialized: seq<byte>)
    requires |serialized| <= MAX_CONFIG_PAYLOAD_BYTES
    ensures var f := SlotHeader(generation, serialized);
            |f| == 6 && SlotHeaderOk(f, serialized) && f[5] == Number(Crc32(serialized)) && NumberOf(f[3]) == generation
  {
  }

  /** An encoded slot is within the limit of `encode_slot`, so that storing it never fails. */
  lemma EncodedSlotFits(v: SlotValue<ConfigPayload>)
    requires Storable(v)
    ensures 0 < |EncodeSlot(v)| <= MAX_CONFIG_PAYLOAD_BYTES + 32
  {
    var serialized := Serialize(v.payload);
    SerializedFits(v.payload);
    SlotHeaderFits(v.generation, serialized);
    EncodedLength(SlotHeader(v.generation, serialized), SLOT_HEADER);
    SlotHeaderSize();
  }

  lemma SlotHeaderSize()
    ensures LongestTotal(SLOT_HEADER) == 22
  {
    LongestOfFour(Num(4), Num(1), Num(1), Num(8));
    LongestOfParts([Num(4), Num(1), Num(1), Num(8)], [Num(4)], [Num(4)], []);
    assert SLOT_HEADER == [Num(4), Num(1), Num(1), Num(8)] + ([Num(4)] + ([Num(4)] + []));
  }

  /** A slot whose serialized part is replaced by bytes with another checksum is rejected. */
  lemma WrongChecksumRejected(v: SlotValue<ConfigPayload>, changed: seq<byte>)
    requires Storable(v) && Crc32(changed) != Crc32(Serialize(v.payload))
    ensures |Serialize(v.payload)| <= |EncodeSlot(v)|
    ensures DecodeSlot(EncodeSlot(v)[..|EncodeSlot(v)| - |Serialize(v.payload)|] + changed) == None
  {
    var serialized := Serialize(v.payload);
    SerializedFits(v.payload);
    SlotHeaderFits(v.generation, serialized);
    var f := SlotHeader(v.generation, serialized);
    assert EncodeSlot(v)[..|EncodeSlot(v)| - |serialized|] == Encode(f, SLOT_HEADER);
    DecodeBehindHeader(f, changed);
  }

  /** Every error burst of up to 32 consecutive bits in the serialized part of a stored slot is
      rejected when the slot is read. */
  lemma SlotBurstRejected(v: SlotValue<ConfigPayload>, changed: seq<byte>,
                          prefix: seq<bool>, s: seq<bool>, s': seq<bool>, suffix: seq<bool>)
    requires Storable(v) && BurstApart(Serialize(v.payload), changed, prefix, s, s', suffix)
    ensures |Serialize(v.payload)| <= |EncodeSlot(v)|
    ensures DecodeSlot(EncodeSlot(v)[..|EncodeSlot(v)| - |Serialize(v.payload)|] + changed) == None
  {
    ChecksumDetectsBurst(Serialize(v.payload), changed, prefix, s, s', suffix);
    WrongChecksumRejected(v, changed);
  }

  /** In particular, any change confined to four consecutive bytes. */
  lemma SlotFourBytesRejected(v: SlotValue<ConfigPayload>,
                              prefix: seq<byte>, s: seq<byte>, s': seq<byte>, suffix: seq<byte>)
    requires Storable(v) && Serialize(v.payload) == prefix + s + suffix
    requires |s| == |s'| <= 4 && s != s'
    ensures |Serialize(v.payload)| <= |EncodeSlot(v)|
    ensures DecodeSlot(EncodeSlot(v)[..|EncodeSlot(v)| - |Serialize(v.payload)|] + (prefix + s' + suffix)) == None
  {
    ChecksumDetectsFourBytes(prefix, s, s', suffix);
    WrongChecksumRejected(v, prefix + s' + suffix);
  }

  /** The header in three parts: what comes before the generation, the generation, and the rest. */
  lemma SlotHeaderParts(generation: nat, serialized: seq<byte>)
    requires generation <= MAX_GENERATION && |serialized| <= MAX_CONFIG_PAYLOAD_BYTES
    ensures AllFit(SlotHeader(generation, serialized), SLOT_HEADER)
    ensures AllFit(SlotHeader(0, serialized)[..3], SLOT_HEADER[..3])
    ensures AllFit(SlotHeader(0, serialized)[4..], SLOT_HEADER[4..])
    ensures Encode(SlotHeader(generation, serialized), SLOT_HEADER)
         == Encode(SlotHeader(0, serialized)[..3], SLOT_HEADER[..3])
          + (LittleEndian(generation, 8) + Encode(SlotHeader(0, serialized)[4..], SLOT_HEADER[4..]))
    ensures |Encode(SlotHeader(0, serialized)[..3], SLOT_HEADER[..3])| == 6
  {
    SlotHeaderFits(generation, serialized);
    SlotHeaderFits(0, serialized);
    var f, f0 := SlotHeader(generation, serialized), SlotHeader(0, serialized);
    assert f == f0[..3] + ([Number(generation)] + f0[4..]);
    assert SLOT_HEADER == SLOT_HEADER[..3] + ([Num(8)] + SLOT_HEADER[4..]);
    OneNumber(generation);
    EncodeConcat([Number(generation)], [Num(8)], f0[4..], SLOT_HEADER[4..]);
    EncodeConcat(f0[..3], SLOT_HEADER[..3], [Number(generation)] + f0[4..], [Num(8)] + SLOT_HEADER[4..]);
    FixedLength(f0[..3], SLOT_HEADER[..3]);
    assert SLOT_HEADER[..3] == [Num(4), Num(1), Num(1)];
    LongestOfThree(Num(4), Num(1), Num(1));
  }

  lemma OneNumber(generation: nat)
    requires generation <= MAX_GENERATION
    ensures AllFit([Number(generation)], [Num(8)])
    ensures Encode([Number(generation)], [Num(8)]) == LittleEndian(generation, 8)
  {
    Powers();
  }

  /** The generation is outside the checksum: a slot in which only the eight bytes of the
      generation are changed is accepted, with the changed generation. */
  lemma GenerationIsNotChecked(v: SlotValue<ConfigPayload>, generation: nat)
    requires Storable(v) && generation <= MAX_GENERATION
    ensures |EncodeSlot(v)| >= 14
    ensures DecodeSlot(EncodeSlot(v)[..6] + LittleEndian(generation, 8) + EncodeSlot(v)[14..])
         == Some(v.(generation := generation))
  {
    var serialized := Serialize(v.payload);
    SerializedFits(v.payload);
    SlotHeaderParts(v.generation, serialized);
    SlotHeaderParts(generation, serialized);
    var front := Encode(SlotHeader(0, serialized)[..3], SLOT_HEADER[..3]);
    var back := Encode(SlotHeader(0, serialized)[4..], SLOT_HEADER[4..]);
    Replaced(front, LittleEndian(v.generation, 8), LittleEndian(generation, 8), back, serialized);
    DecodeEncodeSlot(v.(generation := generation));
  }

  lemma Replaced(front: seq<byte>, s: seq<byte>, t: seq<byte>, back: seq<byte>, rest: seq<byte>)
    requires |front| == 6 && |s| == |t| == 8
    ensures var whole := front + (s + back) + rest;
            whole[..6] + t + whole[14..] == front + (t + back) + rest
  {
    var whole := front + (s + back) + rest;
    assert whole[..6] == front && whole[14..] == back + rest;
  }

  // ----- A body followed by its own checksum

  ghost function Sealed(body: seq<byte>): (r: seq<byte>)
    ensures |r| == |body| + 4
  {
    Crc32Fits(body);
    Powers();
    assert Encode([Number(Crc32(body))], CHECKSUM) == LittleEndian(Crc32(body), 4);
    body + Encode([Number(Crc32(body))], CHECKSUM)
  }

  lemma SealedParts(body: seq<byte>)
    ensures |Sealed(body)| == |body| + 4 && Sealed(body)[..|body|] == body
    ensures Parse(CHECKSUM, Sealed(body)[|body|..]) == Some(Parsed([Number(Crc32(body))], []))
  {
    Crc32Fits(body);
    Powers();
    var sum := [Number(Crc32(body))];
    assert Encode(sum, CHECKSUM) == LittleEndian(Crc32(body), 4);
    assert Sealed(body)[|body|..] == Encode(sum, CHECKSUM);
    ParseEncoded(sum, CHECKSUM, []);
    assert Encode(sum, CHECKSUM) + [] == Encode(sum, CHECKSUM);
  }

  // ----- Pointers

  function SlotByte(slot: SlotName): byte {
    if slot == A then 65 else 66
  }

  function SlotFromByte(n: nat): Option<SlotName> {
    if n == 65 then Some(A) else if n == 66 then Some(B) else None
  }

  function PointerFields(p: Pointer): seq<Field> {
    [Number(POINTER_MAGIC), Number(ENVELOPE_VERSION), Number(SlotByte(p.slot)), Number(p.generation)]
  }

  ghost function EncodePointer(p: Pointer): (r: seq<byte>)
    requires p.generation <= MAX_GENERATION
    ensures |r| >= 4
  {
    Powers();
    Sealed(Encode(PointerFields(p), POINTER_BODY))
  }

  ghost function DecodePointer(input: seq<byte>): Option<Pointer> {
    if |input| != 18 then None
    else
      var body :- Parse(POINTER_BODY, input[..14]);
      var sum :- Parse(CHECKSUM, input[14..]);
      var f := body.value;
      if |f| != 4 || sum.value != [Number(Crc32(input[..14]))] then None else PointerFrom(f)
  }

  function PointerFrom(f: seq<Field>): Option<Pointer>
    requires |f| == 4
  {
    if f[0] != Number(POINTER_MAGIC) || f[1] != Number(ENVELOPE_VERSION) then None
    else
      var slot :- SlotFromByte(NumberOf(f[2]));
      Some(Pointer(slot, NumberOf(f[3])))
  }

  lemma PointerFromFields(p: Pointer)
    ensures PointerFrom(PointerFields(p)) == Some(p)
  {
  }

  lemma DecodeEncodePointer(p: Pointer)
    requires p.generation <= MAX_GENERATION
    ensures |EncodePointer(p)| == 18 && DecodePointer(EncodePointer(p)) == Some(p)
  {
    PointerBody(p);
    PointerFromFields(p);
    SealedParts(Encode(PointerFields(p), POINTER_BODY));
  }

  /** The body of a pointer: fourteen bytes that parse to its fields. */
  lemma PointerBody(p: Pointer)
    requires p.generation <= MAX_GENERATION
    ensures AllFit(PointerFields(p), POINTER_BODY)
    ensures var body := Encode(PointerFields(p), POINTER_BODY);
            |body| == 14 && Parse(POINTER_BODY, body) == Some(Parsed(PointerFields(p), []))
  {
    Powers();
    var f := PointerFields(p);
    var body := Encode(f, POINTER_BODY);
    FixedLength(f, POINTER_BODY);
    LongestOfFour(Num(4), Num(1), Num(1), Num(8));
    ParseEncoded(f, POINTER_BODY, []);
    assert body + [] == body;
  }

  /** A stored pointer whose body is replaced by bytes with another checksum is rejected. */
  lemma WrongPointerRejected(p: Pointer, changed: seq<byte>)
    requires p.generation <= MAX_GENERATION
    requires Crc32(changed) != Crc32(EncodePointer(p)[..|EncodePointer(p)| - 4])
    ensures DecodePointer(changed + EncodePointer(p)[|EncodePointer(p)| - 4..]) == None
  {
    PointerBody(p);
    SealedParts(Encode(PointerFields(p), POINTER_BODY));
    if |changed| == 14 {
      var input := changed + EncodePointer(p)[14..];
      assert input[..14] == changed && input[14..] == EncodePointer(p)[14..];
    }
  }

  /** Every burst of up to 32 bits in the body of a stored pointer is rejected. */
  lemma PointerBurstRejected(p: Pointer, changed: seq<byte>,
                             prefix: seq<bool>, s: seq<bool>, s': seq<bool>, suffix: seq<bool>)
    requires p.generation <= MAX_GENERATION
    requires BurstApart(EncodePointer(p)[..|EncodePointer(p)| - 4], changed, prefix, s, s', suffix)
    ensures DecodePointer(changed + EncodePointer(p)[|EncodePointer(p)| - 4..]) == None
  {
    ChecksumDetectsBurst(EncodePointer(p)[..|EncodePointer(p)| - 4], changed, prefix, s, s', suffix);
    WrongPointerRejected(p, changed);
  }

  /** Numbers alone take exactly their widths. */
  lemma {:induction false} FixedLength(fs: seq<Field>, ks: seq<Kind>)
    requires AllFit(fs, ks) && forall i :: 0 <= i < |ks| ==> ks[i].Num?
    ensures |Encode(fs, ks)| == LongestTotal(ks)
    decreases |fs|
  {
    if |fs| > 0 { FixedLength(fs[1..], ks[1..]); }
  }

  // ----- Journals

  function PhaseNumber(phase: Phase): nat {
    match phase
    case Prepared => 1
    case SchedulePromoted => 2
    case ConfigCommitted => 3
    case Aborted => 4
  }

  function PhaseFrom(n: nat): Option<Phase> {
    if n == 1 then Some(Prepared)
    else if n == 2 then Some(SchedulePromoted)
    else if n == 3 then Some(ConfigCommitted)
    else if n == 4 then Some(Aborted)
    else None
  }

  /** No previous slot is written as slot 0; its generation is then meaningless. */
  function PreviousFrom(slot: nat, generation: nat): Option<Option<Pointer>> {
    if slot == 0 then Some(None)
    else
      var name :- SlotFromByte(slot);
      Some(Some(Pointer(name, generation)))
  }

  function JournalFields(j: Journal): seq<Field> {
    [Number(JOURNAL_MAGIC), Number(ENVELOPE_VERSION), Number(PhaseNumber(j.phase)),
     Number(if j.previous.Some? then SlotByte(j.previous.value.slot) else 0),
     Number(SlotByte(j.prepared.slot)),
     Number(if j.previous.Some? then j.previous.value.generation else 0),
     Number(j.prepared.generation), Bytes(j.target)]
  }

  ghost predicate StorableJournal(j: Journal) {
    && Encodable(j) && j.prepared.generation <= MAX_GENERATION
    && (j.previous.Some? ==> j.previous.value.generation <= MAX_GENERATION)
  }

  lemma JournalFieldsFit(j: Journal)
    requires StorableJournal(j)
    ensures AllFit(JournalFields(j), JOURNAL_BODY)
  {
    Powers();
  }

  ghost function EncodeJournal(j: Journal): (r: seq<byte>)
    requires StorableJournal(j)
    ensures |r| >= 4
  {
    JournalFieldsFit(j);
    Sealed(Encode(JournalFields(j), JOURNAL_BODY))
  }

  function JournalFrom(f: seq<Field>): Option<Journal>
    requires |f| == 8
  {
    if f[0] != Number(JOURNAL_MAGIC) || f[1] != Number(ENVELOPE_VERSION) then None
    else
      var phase :- PhaseFrom(NumberOf(f[2]));
      var previous :- PreviousFrom(NumberOf(f[3]), NumberOf(f[5]));
      var prepared :- SlotFromByte(NumberOf(f[4]));
      Some(Journal(phase, TextOf(f[7]), previous, Pointer(prepared, NumberOf(f[6]))))
  }

  ghost function DecodeJournal(input: seq<byte>): Option<Journal> {
    if |input| < 30 then None
    else
      var body :- Parse(JOURNAL_BODY, input);
      var sum :- Parse(CHECKSUM, body.rest);
      if |body.value| != 8 || sum.rest != [] || sum.value != [Number(Crc32(input[..|input| - 4]))] then None
      else JournalFrom(body.value)
  }

  lemma DecodeSealedJournal(f: seq<Field>)
    requires AllFit(f, JOURNAL_BODY) && |f| == 8
    ensures 30 <= |Sealed(Encode(f, JOURNAL_BODY))| <= 190
    ensures DecodeJournal(Sealed(Encode(f, JOURNAL_BODY))) == JournalFrom(f)
  {
    var body := Encode(f, JOURNAL_BODY);
    JournalSize(f);
    SealedParts(body);
    var sum := Sealed(body)[|body|..];
    assert Sealed(body) == body + sum;
    ParseEncoded(f, JOURNAL_BODY, sum);
  }

  lemma JournalFromFields(j: Journal)
    ensures JournalFrom(JournalFields(j)) == Some(j)
  {
  }

  lemma DecodeEncodeJournal(j: Journal)
    requires StorableJournal(j)
    ensures DecodeJournal(EncodeJournal(j)) == Some(j)
  {
    JournalFieldsFit(j);
    DecodeSealedJournal(JournalFields(j));
    JournalFromFields(j);
  }

  /** The last four bytes of an accepted journal are the checksum of the bytes before them. */
  lemma AcceptedJournalSum(changed: seq<byte>, sum: seq<byte>)
    requires |sum| == 4 && DecodeJournal(changed + sum).Some?
    ensures Parse(CHECKSUM, sum) == Some(Parsed([Number(Crc32(changed))], []))
  {
    var input := changed + sum;
    var body := Parse(JOURNAL_BODY, input).value;
    var tail := Parse(CHECKSUM, body.rest).value;
    EncodeParsed(JOURNAL_BODY, input);
    EncodeParsed(CHECKSUM, body.rest);
    FixedLength(tail.value, CHECKSUM);
    assert LongestTotal(CHECKSUM) == 4;
    LastFour(changed, sum, Encode(body.value, JOURNAL_BODY), body.rest);
    assert input[..|input| - 4] == changed;
  }

  lemma LastFour(s: seq<byte>, t: seq<byte>, u: seq<byte>, v: seq<byte>)
    requires s + t == u + v && |t| == |v|
    ensures t == v
  {
    assert (s + t)[|s|..] == t && (u + v)[|u|..] == v && |s| == |u|;
  }

  /** A stored journal whose body is replaced by bytes with another checksum is rejected, even if
      the change moves the end of the schedule id. */
  lemma WrongJournalRejected(j: Journal, changed: seq<byte>)
    requires StorableJournal(j)
    requires Crc32(changed) != Crc32(EncodeJournal(j)[..|EncodeJournal(j)| - 4])
    ensures DecodeJournal(changed + EncodeJournal(j)[|EncodeJournal(j)| - 4..]) == None
  {
    JournalFieldsFit(j);
    var body := Encode(JournalFields(j), JOURNAL_BODY);
    SealedParts(body);
    var sum := EncodeJournal(j)[|EncodeJournal(j)| - 4..];
    if DecodeJournal(changed + sum).Some? { AcceptedJournalSum(changed, sum); }
  }

  /** Every burst of up to 32 bits in the body of a stored journal is rejected. */
  lemma JournalBurstRejected(j: Journal, changed: seq<byte>,
                             prefix: seq<bool>, s: seq<bool>, s': seq<bool>, suffix: seq<bool>)
    requires StorableJournal(j)
    requires BurstApart(EncodeJournal(j)[..|EncodeJournal(j)| - 4], changed, prefix, s, s', suffix)
    ensures DecodeJournal(changed + EncodeJournal(j)[|EncodeJournal(j)| - 4..]) == None
  {
    ChecksumDetectsBurst(EncodeJournal(j)[..|EncodeJournal(j)| - 4], changed, prefix, s, s', suffix);
    WrongJournalRejected(j, changed);
  }

  lemma EncodedJournalFits(j: Journal)
    requires StorableJournal(j)
    ensures 0 < |EncodeJournal(j)| <= MAX_BLOB_BYTES
  {
    JournalFieldsFit(j);
    DecodeSealedJournal(JournalFields(j));
  }

  lemma JournalSize(f: seq<Field>)
    requires AllFit(f, JOURNAL_BODY)
    ensures 26 <= |Encode(f, JOURNAL_BODY)| <= 186
  {
    var ns, ts := JOURNAL_BODY[..7], JOURNAL_BODY[7..];
    assert f == f[..7] + f[7..] && JOURNAL_BODY == ns + ts;
    assert AllFit(f[..7], ns) && AllFit(f[7..], ts);
    EncodeConcat(f[..7], ns, f[7..], ts);
    FixedLength(f[..7], ns);
    EncodedLength(f[7..], ts);
    LongestOfFour(Num(4), Num(1), Num(1), Num(1));
    LongestOfThree(Num(1), Num(8), Num(8));
    LongestTotalConcat([Num(4), Num(1), Num(1), Num(1)], [Num(1), Num(8), Num(8)]);
    assert ns == [Num(4), Num(1), Num(1), Num(1)] + [Num(1), Num(8), Num(8)];
    assert ts == [Text(160)];
  }

  // ----- Blobs and cells

  /** The four keys of the namespace as they are stored. */
  datatype Blobs = Blobs(
    a: Option<seq<byte>>, b: Option<seq<byte>>, pointer: Option<seq<byte>>, journal: Option<seq<byte>>)

  ghost function CellOf<T>(blob: Option<seq<byte>>, decode: seq<byte> -> Option<T>): Cell<T> {
    if blob.None? || |blob.value| == 0 then Absent
    else if |blob.value| > MAX_BLOB_BYTES then Oversized
    else
      match decode(blob.value)
      case None => Damaged
      case Some(v) => Holds(v)
  }

  ghost function SlotCell(blob: Option<seq<byte>>): Cell<SlotValue<ConfigPayload>> {
    CellOf(blob, b => DecodeSlot(b))
  }

  ghost function PointerCell(blob: Option<seq<byte>>): Cell<Pointer> {
    CellOf(blob, b => DecodePointer(b))
  }

  ghost function JournalCell(blob: Option<seq<byte>>): Cell<Journal> {
    CellOf(blob, b => DecodeJournal(b))
  }

  ghost function CellsOf(s: Blobs): Cells<ConfigPayload> {
    Cells(SlotCell(s.a), SlotCell(s.b), PointerCell(s.pointer), JournalCell(s.journal))
  }

  lemma StoringSlot(v: SlotValue<ConfigPayload>)
    requires Storable(v)
    ensures SlotCell(Some(EncodeSlot(v))) == Holds(v)
  {
    DecodeEncodeSlot(v);
    EncodedSlotFits(v);
  }

  lemma StoringPointer(p: Pointer)
    requires p.generation <= MAX_GENERATION
    ensures PointerCell(Some(EncodePointer(p))) == Holds(p)
  {
    DecodeEncodePointer(p);
  }

  lemma StoringJournal(j: Journal)
    requires StorableJournal(j)
    ensures JournalCell(Some(EncodeJournal(j))) == Holds(j)
  {
    DecodeEncodeJournal(j);
    EncodedJournalFits(j);
  }

  /** Storing an encoded value sets the cell to that value and leaves the other cells alone, and
      removing a key empties its cell: the protocol on cells is the protocol on blobs. */
  lemma StoringSetsTheCell(s: Blobs, v: SlotValue<ConfigPayload>, p: Pointer, j: Journal)
    requires Storable(v) && p.generation <= MAX_GENERATION && StorableJournal(j)
    ensures CellsOf(s.(a := Some(EncodeSlot(v)))) == WithSlot(CellsOf(s), A, Holds(v))
    ensures CellsOf(s.(b := Some(EncodeSlot(v)))) == WithSlot(CellsOf(s), B, Holds(v))
    ensures CellsOf(s.(pointer := Some(EncodePointer(p)))) == CellsOf(s).(pointer := Holds(p))
    ensures CellsOf(s.(journal := Some(EncodeJournal(j)))) == CellsOf(s).(journal := Holds(j))
    ensures CellsOf(s.(pointer := None)) == CellsOf(s).(pointer := Absent)
    ensures CellsOf(s.(journal := None)) == CellsOf(s).(journal := Absent)
    ensures CellsOf(s.(a := None)) == AbsentSlot(CellsOf(s), A)
    ensures CellsOf(s.(b := None)) == AbsentSlot(CellsOf(s), B)
  {
    StoringSlot(v);
    StoringPointer(p);
    StoringJournal(j);
  }

  // ----- The source's writers and readers

  method WriteEnvelope(generation: nat, serialized: seq<byte>) returns (output: seq<byte>)
    requires generation <= MAX_GENERATION && |serialized| <= MAX_CONFIG_PAYLOAD_BYTES
    ensures AllFit(SlotHeader(generation, serialized), SLOT_HEADER)
    ensures output == Encode(SlotHeader(generation, serialized), SLOT_HEADER) + serialized
  {
    var checksum := ComputeCrc32(serialized);
    SlotHeaderFits(generation, serialized);
    var header := [Number(SLOT_MAGIC), Number(ENVELOPE_VERSION), Number(PAYLOAD_SCHEMA_VERSION),
                   Number(generation), Number(|serialized|), Number(checksum)];
    output := AppendFields([], header, SLOT_HEADER);
    output := output + serialized;
  }

  method WriteSlot(payload: ConfigPayload, generation: nat) returns (output: Option<seq<byte>>)
    requires Typed(payload) && generation <= MAX_GENERATION
    ensures output.Some? <==> Valid(payload)
    ensures output.Some? ==> output.value == EncodeSlot(SlotValue(payload, generation))
  {
    var serialized := SerializePayload(payload);
    if serialized.None? { return None; }
    SerializedFits(payload);
    var bytes := WriteEnvelope(generation, serialized.value);
    EncodedSlotFits(SlotValue(payload, generation));
    output := if |bytes| <= MAX_CONFIG_PAYLOAD_BYTES + 32 then Some(bytes) else None;
  }

  method ReadSlotBlob(input: seq<byte>) returns (value: Option<SlotValue<ConfigPayload>>)
    ensures value == DecodeSlot(input)
  {
    var f, offset := ReadFields(input, 0, SLOT_HEADER);
    assert input[0..] == input;
    if f.None? || |f.value| != 6 || !SlotHeaderOk(f.value, input[offset..]) { return None; }
    var serialized := input[offset..];
    var checksum := ComputeCrc32(serialized);
    if f.value[5] != Number(checksum) { return None; }
    var payload := DeserializePayload(serialized);
    if payload.None? { return None; }
    value := Some(SlotValue(payload.value, NumberOf(f.value[3])));
  }

  method WritePointer(p: Pointer) returns (output: seq<byte>)
    requires p.generation <= MAX_GENERATION
    ensures output == EncodePointer(p)
  {
    Powers();
    output := AppendFields([], PointerFields(p), POINTER_BODY);
    assert output == Encode(PointerFields(p), POINTER_BODY);
    var checksum := ComputeCrc32(output);
    Crc32Fits(output);
    output := AppendFields(output, [Number(checksum)], CHECKSUM);
  }

  method ReadPointerBlob(input: seq<byte>) returns (value: Option<Pointer>)
    ensures value == DecodePointer(input)
  {
    if |input| != 18 { return None; }
    var expected := ComputeCrc32(input[..14]);
    var f, offset := ReadFields(input[..14], 0, POINTER_BODY);
    assert input[..14][0..] == input[..14];
    var sum, end := ReadFields(input[14..], 0, CHECKSUM);
    assert input[14..][0..] == input[14..];
    if f.None? || sum.None? || |f.value| != 4 || sum.value != [Number(expected)] { return None; }
    value := PointerFrom(f.value);
  }

  method WriteJournal(j: Journal) returns (output: Option<seq<byte>>)
    requires j.prepared.generation <= MAX_GENERATION
    requires j.previous.Some? ==> j.previous.value.generation <= MAX_GENERATION
    ensures output.Some? <==> Encodable(j)
    ensures output.Some? ==> output.value == EncodeJournal(j)
  {
    if |j.target| == 0 || |j.target| > MAX_SCHEDULE_ID_BYTES { return None; }
    JournalFieldsFit(j);
    var body := AppendFields([], JournalFields(j), JOURNAL_BODY);
    assert body == Encode(JournalFields(j), JOURNAL_BODY);
    var checksum := ComputeCrc32(body);
    Crc32Fits(body);
    Powers();
    var bytes := AppendFields(body, [Number(checksum)], CHECKSUM);
    output := Some(bytes);
  }

  method ReadJournalBlob(input: seq<byte>) returns (value: Option<Journal>)
    ensures value == DecodeJournal(input)
  {
    if |input| < 30 { return None; }
    var expected := ComputeCrc32(input[..|input| - 4]);
    var f, offset := ReadFields(input, 0, JOURNAL_BODY);
    assert input[0..] == input;
    if f.None? { return None; }
    var sum, end := ReadFields(input, offset, CHECKSUM);
    if sum.None? || |f.value| != 8 || end != |input| || sum.value != [Number(expected)] { return None; }
    value := JournalFrom(f.value);
  }
}
