/** The device configuration, when it is valid, and its serialized form. */
module ConfigPayload {
  import opened Wrappers
  import opened Bytes
  import opened Fields

  const MAX_CONFIG_SLOTS := 24
  const LEGACY_CONFIG_SLOTS := 12
  const MAX_CONFIG_PAYLOAD_BYTES := 8192
  const PAYLOAD_SCHEMA_VERSION := 5

  datatype ScheduleSlot = ScheduleSlot(hour: nat, minute: nat)

  datatype ConfigPayload = ConfigPayload(
    wifiSsid: seq<byte>, wifiPass: seq<byte>, backendHostport: seq<byte>, caPem: seq<byte>,
    deviceToken: seq<byte>, deviceSecret: seq<byte>, deviceId: seq<byte>, authState: seq<byte>,
    credentialVersion: nat, pairingId: seq<byte>, pairingNonce: seq<byte>,
    pairingExpiresAtEpoch: nat, pairingRetryAtEpoch: nat, pairingRetryAttempt: nat,
    tzOffsetMinutes: int, refreshHour: nat, refreshMinute: nat, rotate180: bool,
    scheduleSlots: seq<ScheduleSlot>, scheduleCount: nat, prefetchLeadMinutes: nat,
    deliveryMode: seq<byte>, buttonWakeAction: seq<byte>, syncStrategy: seq<byte>,
    syncTime: seq<byte>, configVersion: nat)

  // ----- Validity

  /** The widths of the fixed-size members and the fixed number of schedule slots. */
  ghost predicate Typed(p: ConfigPayload) {
    && p.credentialVersion < 0x1_0000_0000 && p.configVersion < 0x1_0000_0000
    && p.pairingExpiresAtEpoch < 0x1_0000_0000_0000_0000 && p.pairingRetryAtEpoch < 0x1_0000_0000_0000_0000
    && p.pairingRetryAttempt < 256 && p.refreshHour < 256 && p.refreshMinute < 256
    && p.scheduleCount < 256 && p.prefetchLeadMinutes < 0x1_0000
    && -0x8000_0000 <= p.tzOffsetMinutes < 0x8000_0000
    && |p.scheduleSlots| == MAX_CONFIG_SLOTS
    && forall i :: 0 <= i < |p.scheduleSlots| ==> p.scheduleSlots[i].hour < 256 && p.scheduleSlots[i].minute < 256
  }

  predicate ValidSizes(p: ConfigPayload) {
    && |p.wifiSsid| <= 64 && |p.wifiPass| <= 128 && |p.backendHostport| <= 512 && |p.caPem| <= 3500
    && |p.deviceToken| <= 1024 && |p.deviceSecret| <= 256 && |p.deviceId| <= 128 && |p.authState| <= 32
    && |p.pairingId| <= 128 && |p.pairingNonce| <= 256 && |p.deliveryMode| <= 64
    && |p.buttonWakeAction| <= 64 && |p.syncStrategy| <= 32 && |p.syncTime| <= 8
  }

  predicate IsDigit(b: byte) {
    48 <= b <= 57
  }

  predicate ValidSyncTime(t: seq<byte>) {
    || |t| == 0
    || (&& |t| == 5 && t[2] == 58
        && IsDigit(t[0]) && IsDigit(t[1]) && IsDigit(t[3]) && IsDigit(t[4])
        && (t[0] - 48) * 10 + t[1] - 48 < 24 && (t[3] - 48) * 10 + t[4] - 48 < 60)
  }

  predicate ValidSyncPolicy(strategy: seq<byte>, time: seq<byte>) {
    if strategy == Ascii("first_display_lead") then |time| == 0
    else strategy == Ascii("fixed_daily") && |time| != 0 && ValidSyncTime(time)
  }

  predicate ValidModes(deliveryMode: seq<byte>, buttonWakeAction: seq<byte>) {
    && (|| deliveryMode == Ascii("legacy_online") || deliveryMode == Ascii("stock_compat")
        || deliveryMode == Ascii("inktime_offline_schedule"))
    && (buttonWakeAction == Ascii("check_new") || buttonWakeAction == Ascii("local_next"))
  }

  predicate ValidAuthState(s: seq<byte>) {
    || s == Ascii("unpaired") || s == Ascii("pairing_pending") || s == Ascii("paired")
    || s == Ascii("credential_issued") || s == Ascii("revoked") || s == Ascii("auth_invalid")
    || s == Ascii("pairing_expired")
  }

  predicate ValidChoices(p: ConfigPayload) {
    && -720 <= p.tzOffsetMinutes <= 840
    && p.refreshHour < 24 && p.refreshMinute < 60
    && 0 < p.scheduleCount <= MAX_CONFIG_SLOTS && p.prefetchLeadMinutes <= 120
    && ValidModes(p.deliveryMode, p.buttonWakeAction) && ValidSyncPolicy(p.syncStrategy, p.syncTime)
    && ValidAuthState(p.authState)
  }

  predicate ValidPairing(p: ConfigPayload) {
    && p.pairingRetryAttempt <= 8
    && (|p.pairingId| != 0 ==> |p.pairingNonce| != 0)
    && (|p.pairingNonce| != 0 && |p.pairingId| == 0 ==> p.authState == Ascii("pairing_pending"))
    && (p.authState == Ascii("credential_issued") ==>
          |p.deviceSecret| != 0 && |p.pairingId| != 0 && |p.pairingNonce| != 0)
  }

  function Minutes(s: ScheduleSlot): nat {
    s.hour * 60 + s.minute
  }

  /** The slots in use are times of day in strictly ascending order. */
  ghost predicate ValidSchedule(slots: seq<ScheduleSlot>, count: nat) {
    && count <= |slots|
    && (forall i :: 0 <= i < count ==> slots[i].hour < 24 && slots[i].minute < 60)
    && (forall i, k :: 0 <= i < k < count ==> Minutes(slots[i]) < Minutes(slots[k]))
  }

  ghost predicate Valid(p: ConfigPayload) {
    ValidSizes(p) && ValidChoices(p) && ValidPairing(p) && ValidSchedule(p.scheduleSlots, p.scheduleCount)
  }

  method ValidatePayload(p: ConfigPayload) returns (ok: bool)
    requires |p.scheduleSlots| == MAX_CONFIG_SLOTS
    ensures ok <==> Valid(p)
  {
    if !ValidSizes(p) || !ValidChoices(p) || !ValidPairing(p) { return false; }
    for index := 0 to p.scheduleCount
      invariant ValidSchedule(p.scheduleSlots, index)
    {
      var slot := p.scheduleSlots[index];
      if !(slot.hour < 24 && slot.minute < 60) { return false; }
      if index > 0 && Minutes(slot) <= Minutes(p.scheduleSlots[index - 1]) { return false; }
    }
    ok := true;
  }

  /** A time of day as text: two digits, a colon, two digits. */
  function ClockText(hour: nat, minute: nat): seq<byte>
    requires hour < 24 && minute < 60
  {
    [48 + hour / 10, 48 + hour % 10, 58, 48 + minute / 10, 48 + minute % 10]
  }

  /** A fixed sync time is accepted exactly if it is the text of a time of day. */
  lemma SyncTimeIsClock(t: seq<byte>)
    ensures ValidSyncTime(t) <==> t == [] || exists h: nat, m: nat :: h < 24 && m < 60 && t == ClockText(h, m)
  {
    if ValidSyncTime(t) && t != [] {
      var h, m := (t[0] - 48) * 10 + t[1] - 48, (t[3] - 48) * 10 + t[4] - 48;
      assert h / 10 == t[0] - 48 && h % 10 == t[1] - 48 && m / 10 == t[3] - 48 && m % 10 == t[4] - 48;
      assert t == ClockText(h, m);
    }
  }

  /** What a payload holds before anything is set. */
  function DefaultPayload(): ConfigPayload {
    ConfigPayload([], [], [], [], [], [], [], Ascii("unpaired"), 0, [], [], 0, 0, 0, 480, 8, 0, false,
                  seq(MAX_CONFIG_SLOTS, _ => ScheduleSlot(0, 0)), 1, 5, Ascii("legacy_online"), Ascii("check_new"),
                  Ascii("first_display_lead"), [], 0)
  }

  lemma DefaultIsValid()
    ensures Typed(DefaultPayload()) && Valid(DefaultPayload())
  {
    var p := DefaultPayload();
    assert |Ascii("unpaired")| == 8 && |Ascii("legacy_online")| == 13 && |Ascii("check_new")| == 9;
    assert |Ascii("first_display_lead")| == 18;
    assert ValidModes(p.deliveryMode, p.buttonWakeAction) && ValidSyncPolicy(p.syncStrategy, p.syncTime);
    assert ValidAuthState(p.authState) && ValidPairing(p);
  }

  // ----- The table of fields, in the groups the reader takes them

  const CORE: seq<Kind> :=
    [Text(64), Text(128), Text(512), Text(3500), Text(1024), Num(4), Num(1), Num(1), Num(1), Num(1),
     Num(2), Text(64), Text(64)]
  const SYNC: seq<Kind> := [Text(32), Text(8)]
  const CREDENTIALS: seq<Kind> := [Text(256), Text(128), Text(32)]
  const PAIRING: seq<Kind> := [Text(128), Text(256)]
  const VERSION: seq<Kind> := [Num(4)]
  const PAIRING_NUMBERS: seq<Kind> := [Num(8), Num(8), Num(1)]

  function SlotKinds(count: nat): seq<Kind> {
    seq(2 * count, _ => Num(1))
  }

  /** Two's complement of a 32-bit signed number. */
  function Unsigned32(n: int): (u: int) {
    if n < 0 then n + 0x1_0000_0000 else n
  }

  function Signed32(u: nat): int {
    if u < 0x8000_0000 then u else u - 0x1_0000_0000
  }

  /** A record as the groups of its fields: core, sync, credentials, pairing, configuration
      version, credential version, pairing numbers, schedule slots. */
  type Groups = seq<seq<Field>>

  function SlotFields(slots: seq<ScheduleSlot>): seq<Field> {
    seq(2 * |slots|, i requires 0 <= i < 2 * |slots| =>
      Number(if i % 2 == 0 then slots[i / 2].hour else slots[i / 2].minute))
  }

  function CoreFields(p: ConfigPayload): seq<Field>
    requires -0x8000_0000 <= p.tzOffsetMinutes
  {
    [Bytes(p.wifiSsid), Bytes(p.wifiPass), Bytes(p.backendHostport), Bytes(p.caPem), Bytes(p.deviceToken),
     Number(Unsigned32(p.tzOffsetMinutes)), Number(p.refreshHour), Number(p.refreshMinute),
     Number(if p.rotate180 then 1 else 0), Number(p.scheduleCount), Number(p.prefetchLeadMinutes),
     Bytes(p.deliveryMode), Bytes(p.buttonWakeAction)]
  }

  function ToGroups(p: ConfigPayload): Groups
    requires -0x8000_0000 <= p.tzOffsetMinutes
  {
    [CoreFields(p),
     [Bytes(p.syncStrategy), Bytes(p.syncTime)],
     [Bytes(p.deviceSecret), Bytes(p.deviceId), Bytes(p.authState)],
     [Bytes(p.pairingId), Bytes(p.pairingNonce)],
     [Number(p.configVersion)],
     [Number(p.credentialVersion)],
     [Number(p.pairingExpiresAtEpoch), Number(p.pairingRetryAtEpoch), Number(p.pairingRetryAttempt)],
     SlotFields(p.scheduleSlots)]
  }

  function TextOf(f: Field): seq<byte> {
    if f.Bytes? then f.text else []
  }

  function NumberOf(f: Field): nat {
    if f.Number? then f.n else 0
  }

  /** Slots beyond those that were read are empty. */
  function SlotsFrom(fs: seq<Field>): seq<ScheduleSlot> {
    seq(MAX_CONFIG_SLOTS, i requires 0 <= i < MAX_CONFIG_SLOTS =>
      if 2 * i + 1 < |fs| then ScheduleSlot(NumberOf(fs[2 * i]), NumberOf(fs[2 * i + 1]))
      else ScheduleSlot(0, 0))
  }

  predicate Shaped(g: Groups) {
    && |g| == 8 && |g[0]| == 13 && |g[1]| == 2 && |g[2]| == 3 && |g[3]| == 2
    && |g[4]| == 1 && |g[5]| == 1 && |g[6]| == 3
  }

  function FromGroups(g: Groups): ConfigPayload
    requires Shaped(g)
  {
    ConfigPayload(
      TextOf(g[0][0]), TextOf(g[0][1]), TextOf(g[0][2]), TextOf(g[0][3]), TextOf(g[0][4]),
      TextOf(g[2][0]), TextOf(g[2][1]), TextOf(g[2][2]),
      NumberOf(g[5][0]), TextOf(g[3][0]), TextOf(g[3][1]),
      NumberOf(g[6][0]), NumberOf(g[6][1]), NumberOf(g[6][2]),
      Signed32(NumberOf(g[0][5])), NumberOf(g[0][6]), NumberOf(g[0][7]), NumberOf(g[0][8]) != 0,
      SlotsFrom(g[7]), NumberOf(g[0][9]), NumberOf(g[0][10]),
      TextOf(g[0][11]), TextOf(g[0][12]), TextOf(g[1][0]), TextOf(g[1][1]), NumberOf(g[4][0]))
  }

  /** What a record with all groups looks like when it holds `slotCount` slots. */
  function FullTables(slotCount: nat): seq<seq<Kind>> {
    [CORE, SYNC, CREDENTIALS, PAIRING, VERSION, VERSION, PAIRING_NUMBERS, SlotKinds(slotCount)]
  }

  lemma Powers()
    ensures Pow256(1) == 256 && Pow256(2) == 0x1_0000 && Pow256(4) == 0x1_0000_0000
    ensures Pow256(8) == 0x1_0000_0000_0000_0000
  {
    assert Pow256(3) == 0x100_0000;
    assert Pow256(5) == 0x100_0000_0000;
    assert Pow256(6) == 0x1_0000_0000_0000;
  }

  // ----- Configurations and groups correspond

  lemma ToGroupsFit(p: ConfigPayload)
    requires Typed(p) && ValidSizes(p)
    ensures AllGroupsFit(ToGroups(p), FullTables(MAX_CONFIG_SLOTS))
  {
    Powers();
    var g, t := ToGroups(p), FullTables(MAX_CONFIG_SLOTS);
    assert AllFit(g[0], t[0]) && AllFit(g[1], t[1]) && AllFit(g[2], t[2]) && AllFit(g[3], t[3]);
    assert AllFit(g[4], t[4]) && AllFit(g[5], t[5]) && AllFit(g[6], t[6]) && AllFit(g[7], t[7]);
  }

  lemma FromToGroups(p: ConfigPayload)
    requires Typed(p)
    ensures Shaped(ToGroups(p)) && FromGroups(ToGroups(p)) == p
  {
    assert SlotsFrom(SlotFields(p.scheduleSlots)) == p.scheduleSlots;
  }

  lemma SlotsFromTyped(fs: seq<Field>, slotCount: nat)
    requires AllFit(fs, SlotKinds(slotCount))
    ensures forall i :: 0 <= i < MAX_CONFIG_SLOTS ==> SlotsFrom(fs)[i].hour < 256 && SlotsFrom(fs)[i].minute < 256
  {
    Powers();
    forall i | 0 <= i < MAX_CONFIG_SLOTS && 2 * i + 1 < |fs|
      ensures NumberOf(fs[2 * i]) < 256 && NumberOf(fs[2 * i + 1]) < 256
    {
      assert Fits(fs[2 * i], SlotKinds(slotCount)[2 * i]);
      assert Fits(fs[2 * i + 1], SlotKinds(slotCount)[2 * i + 1]);
    }
  }

  lemma FromGroupsTyped(g: Groups, slotCount: nat)
    requires AllGroupsFit(g, FullTables(slotCount))
    ensures Shaped(g) && Typed(FromGroups(g))
  {
    Powers();
    var t := FullTables(slotCount);
    assert AllFit(g[0], t[0]) && AllFit(g[1], t[1]) && AllFit(g[2], t[2]) && AllFit(g[3], t[3]);
    assert AllFit(g[4], t[4]) && AllFit(g[5], t[5]) && AllFit(g[6], t[6]) && AllFit(g[7], t[7]);
    assert Fits(g[0][5], CORE[5]) && Fits(g[0][6], CORE[6]) && Fits(g[0][7], CORE[7]);
    assert Fits(g[0][9], CORE[9]) && Fits(g[0][10], CORE[10]);
    SlotsFromTyped(g[7], slotCount);
  }

  lemma CoreRestored(g: Groups)
    requires Shaped(g) && AllFit(g[0], CORE) && g[0][8] in [Number(0), Number(1)]
    ensures -0x8000_0000 <= FromGroups(g).tzOffsetMinutes
    ensures CoreFields(FromGroups(g)) == g[0]
  {
    Powers();
    forall i | 0 <= i < 13
      ensures Fits(g[0][i], CORE[i])
    {
    }
    assert Fits(g[0][5], CORE[5]);
  }

  lemma SlotsRestored(fs: seq<Field>)
    requires AllFit(fs, SlotKinds(MAX_CONFIG_SLOTS))
    ensures SlotFields(SlotsFrom(fs)) == fs
  {
    forall i | 0 <= i < 48
      ensures SlotFields(SlotsFrom(fs))[i] == fs[i]
    {
      assert Fits(fs[i], SlotKinds(MAX_CONFIG_SLOTS)[i]);
    }
  }

  lemma ToFromGroups(g: Groups)
    requires AllGroupsFit(g, FullTables(MAX_CONFIG_SLOTS)) && |g[0]| == 13 && g[0][8] in [Number(0), Number(1)]
    ensures Shaped(g) && Typed(FromGroups(g)) && ToGroups(FromGroups(g)) == g
  {
    FromGroupsTyped(g, MAX_CONFIG_SLOTS);
    var t := FullTables(MAX_CONFIG_SLOTS);
    assert AllFit(g[0], t[0]) && AllFit(g[1], t[1]) && AllFit(g[2], t[2]) && AllFit(g[3], t[3]);
    assert AllFit(g[4], t[4]) && AllFit(g[5], t[5]) && AllFit(g[6], t[6]) && AllFit(g[7], t[7]);
    CoreRestored(g);
    SlotsRestored(g[7]);
    var h := ToGroups(FromGroups(g));
    assert h[1] == g[1] && h[2] == g[2] && h[3] == g[3] && h[4] == g[4] && h[5] == g[5] && h[6] == g[6];
  }

  // ----- Serialized form

  ghost function Serialize(p: ConfigPayload): seq<byte>
    requires Typed(p) && ValidSizes(p)
  {
    ToGroupsFit(p);
    [PAYLOAD_SCHEMA_VERSION] + EncodeGroups(ToGroups(p), FullTables(MAX_CONFIG_SLOTS))
  }

  function SlotCountFor(schema: nat): nat {
    if schema <= 4 then LEGACY_CONFIG_SLOTS else MAX_CONFIG_SLOTS
  }

  /** Older schemas lack some groups. */
  function Tables(schema: nat): seq<seq<Kind>> {
    if schema >= 4 then FullTables(SlotCountFor(schema))
    else
      [CORE, [], if schema >= 2 then CREDENTIALS else [], if schema >= 3 then PAIRING else [], VERSION,
       if schema >= 2 then VERSION else [], if schema >= 3 then PAIRING_NUMBERS else [],
       SlotKinds(SlotCountFor(schema))]
  }

  const DEFAULT_SYNC: seq<Field> := [Bytes(Ascii("first_display_lead")), Bytes([])]

  function DefaultCredentials(core: seq<Field>): seq<Field>
    requires |core| == 13
  {
    [Bytes([]), Bytes([]), Bytes(if |TextOf(core[4])| == 0 then Ascii("unpaired") else Ascii("paired"))]
  }

  /** A group that the schema does not have takes its default. */
  function WithDefaults(schema: nat, g: Groups): Groups
    requires |g| == 8 && |g[0]| == 13
  {
    if schema >= 4 then g
    else
      [g[0],
       DEFAULT_SYNC,
       if schema >= 2 then g[2] else DefaultCredentials(g[0]),
       if schema >= 3 then g[3] else [Bytes([]), Bytes([])],
       g[4],
       if schema >= 2 then g[5] else [Number(0)],
       if schema >= 3 then g[6] else [Number(0), Number(0), Number(0)],
       g[7]]
  }

  /** What the reader checks besides the shape of the bytes. */
  ghost predicate Accepted(g: Groups, schema: nat) {
    && Shaped(g) && g[0][8] in [Number(0), Number(1)]
    && 0 < NumberOf(g[0][9]) <= SlotCountFor(schema)
    && Valid(FromGroups(g))
  }

  /** The groups of a complete record of a known schema, with defaults filled in. */
  function ReadGroups(input: seq<byte>): Option<Groups> {
    if |input| == 0 || !(1 <= input[0] <= PAYLOAD_SCHEMA_VERSION) then None
    else
      var parsed :- ParseGroups(Tables(input[0]), input[1..]);
      if parsed.rest != [] then None
      else
        ParsedShape(input[0], input[1..]);
        Some(WithDefaults(input[0], parsed.value))
  }

  ghost function Deserialize(input: seq<byte>): Option<ConfigPayload> {
    var g :- ReadGroups(input);
    if Accepted(g, input[0]) then Some(FromGroups(g)) else None
  }

  lemma ParsedShape(schema: nat, input: seq<byte>)
    requires ParseGroups(Tables(schema), input).Some?
    ensures var g := ParseGroups(Tables(schema), input).value.value;
            && |g| == 8 && |g[0]| == 13
            && AllGroupsFit(WithDefaults(schema, g), FullTables(SlotCountFor(schema)))
  {
    EncodeParsedGroups(Tables(schema), input);
    var g := ParseGroups(Tables(schema), input).value.value;
    assert AllFit(g[0], Tables(schema)[0]);
    if schema < 4 { FilledGroupsFit(schema, g); }
  }

  lemma FilledGroupsFit(schema: nat, g: Groups)
    requires schema < 4 && AllGroupsFit(g, Tables(schema)) && |g[0]| == 13
    ensures AllGroupsFit(WithDefaults(schema, g), FullTables(SlotCountFor(schema)))
  {
    var t := Tables(schema);
    assert AllFit(g[0], t[0]) && AllFit(g[2], t[2]) && AllFit(g[3], t[3]) && AllFit(g[4], t[4]);
    assert AllFit(g[5], t[5]) && AllFit(g[6], t[6]) && AllFit(g[7], t[7]);
    DefaultsFit(g[0]);
    var d, f := WithDefaults(schema, g), FullTables(SlotCountFor(schema));
    assert AllFit(d[0], f[0]) && AllFit(d[1], f[1]) && AllFit(d[2], f[2]) && AllFit(d[3], f[3]);
    assert AllFit(d[4], f[4]) && AllFit(d[5], f[5]) && AllFit(d[6], f[6]) && AllFit(d[7], f[7]);
  }

  lemma DefaultsFit(core: seq<Field>)
    requires |core| == 13
    ensures AllFit(DEFAULT_SYNC, SYNC) && AllFit(DefaultCredentials(core), CREDENTIALS)
    ensures AllFit([Bytes([]), Bytes([])], PAIRING) && AllFit([Number(0)], VERSION)
    ensures AllFit([Number(0), Number(0), Number(0)], PAIRING_NUMBERS)
  {
    Powers();
  }

  // ----- Main results

  /** Reading back what was written. */
  lemma DeserializeSerialize(p: ConfigPayload)
    requires Typed(p) && Valid(p)
    ensures Deserialize(Serialize(p)) == Some(p)
  {
    ToGroupsFit(p);
    FromToGroups(p);
    var g, t := ToGroups(p), FullTables(MAX_CONFIG_SLOTS);
    ParseEncodedRecord(g, t);
    assert Serialize(p)[1..] == EncodeGroups(g, t);
  }

  lemma ReadGroupsTyped(input: seq<byte>)
    requires ReadGroups(input).Some?
    ensures Shaped(ReadGroups(input).value) && Typed(FromGroups(ReadGroups(input).value))
  {
    ParsedShape(input[0], input[1..]);
    FromGroupsTyped(ReadGroups(input).value, SlotCountFor(input[0]));
  }

  /** Whatever is accepted is a valid configuration, of any schema. */
  lemma DeserializedIsValid(input: seq<byte>)
    requires Deserialize(input).Some?
    ensures Typed(Deserialize(input).value) && Valid(Deserialize(input).value)
  {
    ReadGroupsTyped(input);
    assert Accepted(ReadGroups(input).value, input[0]);
  }

  lemma CurrentGroups(input: seq<byte>)
    requires ReadGroups(input).Some? && input[0] == PAYLOAD_SCHEMA_VERSION
    ensures var g := ReadGroups(input).value;
            && AllGroupsFit(g, FullTables(MAX_CONFIG_SLOTS))
            && input == [PAYLOAD_SCHEMA_VERSION] + EncodeGroups(g, FullTables(MAX_CONFIG_SLOTS))
  {
    EncodeParsedRecord(FullTables(MAX_CONFIG_SLOTS), input[1..]);
    assert input == [input[0]] + input[1..];
  }

  /** Every accepted byte string of the current schema is the one the writer produces. */
  lemma SerializeDeserialize(input: seq<byte>)
    requires Deserialize(input).Some? && input[0] == PAYLOAD_SCHEMA_VERSION
    ensures var p := Deserialize(input).value;
            Typed(p) && ValidSizes(p) && Serialize(p) == input
  {
    CurrentGroups(input);
    ToFromGroups(ReadGroups(input).value);
  }

  lemma CoreSize()
    ensures LongestTotal(CORE) == 5380
  {
    var a: seq<Kind> := [Text(64), Text(128), Text(512), Text(3500)];
    var b: seq<Kind> := [Text(1024), Num(4), Num(1), Num(1)];
    var c: seq<Kind> := [Num(1), Num(1), Num(2), Text(64)];
    LongestOfFour(Text(64), Text(128), Text(512), Text(3500));
    LongestOfFour(Text(1024), Num(4), Num(1), Num(1));
    LongestOfFour(Num(1), Num(1), Num(2), Text(64));
    var d: seq<Kind> := [Text(64)];
    LongestOfParts(a, b, c, d);
    assert CORE == a + (b + (c + d));
  }

  lemma SmallSizes()
    ensures LongestTotal(SYNC) == 44 && LongestTotal(CREDENTIALS) == 422 && LongestTotal(PAIRING) == 388
    ensures LongestTotal(VERSION) == 4 && LongestTotal(PAIRING_NUMBERS) == 17
  {
    LongestOfThree(Text(256), Text(128), Text(32));
    LongestOfThree(Num(8), Num(8), Num(1));
  }

  lemma {:induction false} SlotKindsSize(count: nat)
    ensures LongestTotal(SlotKinds(count)) == 2 * count
  {
    if count > 0 {
      SlotKindsSize(count - 1);
      assert SlotKinds(count) == [Num(1), Num(1)] + SlotKinds(count - 1);
      LongestTotalConcat([Num(1), Num(1)], SlotKinds(count - 1));
    }
  }

  lemma LongestRecord()
    ensures LongestGroups(FullTables(MAX_CONFIG_SLOTS)) == 6307
  {
    LongestOfEight(FullTables(MAX_CONFIG_SLOTS));
    CoreSize();
    SmallSizes();
    SlotKindsSize(MAX_CONFIG_SLOTS);
  }

  /** Every valid configuration fits the size limit, so writing one never fails. */
  lemma SerializedFits(p: ConfigPayload)
    requires Typed(p) && ValidSizes(p)
    ensures 0 < |Serialize(p)| <= 6308 < MAX_CONFIG_PAYLOAD_BYTES
  {
    ToGroupsFit(p);
    EncodedGroupsLength(ToGroups(p), FullTables(MAX_CONFIG_SLOTS));
    LongestRecord();
  }

  // ----- The writer and the reader

  method SerializePayload(p: ConfigPayload) returns (output: Option<seq<byte>>)
    requires Typed(p)
    ensures output.Some? <==> Valid(p)
    ensures output.Some? ==> output.value == Serialize(p)
  {
    var ok := ValidatePayload(p);
    if !ok { return None; }
    ToGroupsFit(p);
    var bytes := AppendGroups([PAYLOAD_SCHEMA_VERSION], ToGroups(p), FullTables(MAX_CONFIG_SLOTS));
    SerializedFits(p);
    if |bytes| > MAX_CONFIG_PAYLOAD_BYTES { return None; }
    output := Some(bytes);
  }

  method CheckGroups(g: Groups, schema: nat) returns (ok: bool)
    requires Shaped(g)
    ensures ok <==> Accepted(g, schema)
  {
    if !(g[0][8] == Number(0) || g[0][8] == Number(1)) { return false; }
    if !(0 < NumberOf(g[0][9]) <= SlotCountFor(schema)) { return false; }
    ok := ValidatePayload(FromGroups(g));
  }

  method DeserializePayload(input: seq<byte>) returns (payload: Option<ConfigPayload>)
    ensures payload == Deserialize(input)
  {
    var schema, offset := TakeNumber(input, 0, 1);
    if schema.None? { return None; }
    assert input[0..1] == [input[0]];
    if !(1 <= input[0] <= PAYLOAD_SCHEMA_VERSION) { return None; }
    var groups;
    groups, offset := ReadGroupFields(input, offset, Tables(input[0]));
    if groups.None? || offset != |input| { return None; }
    ParsedShape(input[0], input[1..]);
    var g := WithDefaults(input[0], groups.value);
    ReadGroupsTyped(input);
    var ok := CheckGroups(g, input[0]);
    payload := if ok then Some(FromGroups(g)) else None;
  }
}
