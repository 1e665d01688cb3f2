/** The records that earlier firmware stored: what each schema writes, byte by byte, and what the
    current reader makes of it. */
module ConfigSchemas {
  import opened Wrappers
  import opened Bytes
  import opened Fields
  import opened ConfigPayload

  // ----- What a writer of a schema appends, in its order

  function TextBytes(text: seq<byte>): seq<byte> {
    LittleEndian(|text|, 2) + text
  }

  function CoreBytes(p: ConfigPayload): seq<byte> {
    (TextBytes(p.wifiSsid) + TextBytes(p.wifiPass) + TextBytes(p.backendHostport) + TextBytes(p.caPem))
    + ((TextBytes(p.deviceToken) + LittleEndian(p.tzOffsetMinutes % 0x1_0000_0000, 4)
        + LittleEndian(p.refreshHour, 1) + LittleEndian(p.refreshMinute, 1))
       + ((LittleEndian(if p.rotate180 then 1 else 0, 1) + LittleEndian(p.scheduleCount, 1)
           + LittleEndian(p.prefetchLeadMinutes, 2) + TextBytes(p.deliveryMode))
          + TextBytes(p.buttonWakeAction)))
  }

  function SyncBytes(p: ConfigPayload): seq<byte> {
    TextBytes(p.syncStrategy) + TextBytes(p.syncTime)
  }

  function CredentialBytes(p: ConfigPayload): seq<byte> {
    TextBytes(p.deviceSecret) + TextBytes(p.deviceId) + TextBytes(p.authState)
  }

  function PairingBytes(p: ConfigPayload): seq<byte> {
    TextBytes(p.pairingId) + TextBytes(p.pairingNonce)
  }

  function PairingNumberBytes(p: ConfigPayload): seq<byte> {
    LittleEndian(p.pairingExpiresAtEpoch, 8) + LittleEndian(p.pairingRetryAtEpoch, 8)
    + LittleEndian(p.pairingRetryAttempt, 1)
  }

  function SlotBytes(slots: seq<ScheduleSlot>): seq<byte> {
    if |slots| == 0 then []
    else
      var n := |slots| - 1;
      SlotBytes(slots[..n]) + (LittleEndian(slots[n].hour, 1) + LittleEndian(slots[n].minute, 1))
  }

  /** A group that may be missing. */
  function Given<T>(there: bool, s: seq<T>): seq<T> {
    if there then s else []
  }

  /** Twelve slots up to schema 4; sync settings since schema 4, pairing since schema 3,
      credentials since schema 2. */
  function Record(p: ConfigPayload, schema: byte): seq<byte>
    requires |p.scheduleSlots| == MAX_CONFIG_SLOTS
  {
    [schema]
    + (CoreBytes(p)
       + (Given(schema >= 4, SyncBytes(p))
          + (Given(schema >= 2, CredentialBytes(p))
             + (Given(schema >= 3, PairingBytes(p))
                + (LittleEndian(p.configVersion, 4)
                   + (Given(schema >= 2, LittleEndian(p.credentialVersion, 4))
                      + (Given(schema >= 3, PairingNumberBytes(p))
                         + SlotBytes(p.scheduleSlots[..if schema <= 4 then 12 else 24]))))))))
  }

  // ----- What such a record means today

  /** The members a schema does not have take their defaults; all others are kept. */
  function Upgraded(p: ConfigPayload, schema: byte): ConfigPayload
    requires |p.scheduleSlots| == MAX_CONFIG_SLOTS
  {
    var p := if schema < 5
             then p.(scheduleSlots := p.scheduleSlots[..12] + seq(12, _ => ScheduleSlot(0, 0)))
             else p;
    var p := if schema < 4 then p.(syncStrategy := Ascii("first_display_lead"), syncTime := []) else p;
    var p := if schema < 3
             then p.(pairingId := [], pairingNonce := [], pairingExpiresAtEpoch := 0, pairingRetryAtEpoch := 0,
                     pairingRetryAttempt := 0)
             else p;
    if schema < 2
    then p.(deviceSecret := [], deviceId := [], credentialVersion := 0,
            authState := if p.deviceToken == [] then Ascii("unpaired") else Ascii("paired"))
    else p
  }

  // ----- The record as groups of fields

  function OldGroups(p: ConfigPayload, schema: byte): Groups
    requires Typed(p)
  {
    [CoreFields(p),
     Given(schema >= 4, [Bytes(p.syncStrategy), Bytes(p.syncTime)]),
     Given(schema >= 2, [Bytes(p.deviceSecret), Bytes(p.deviceId), Bytes(p.authState)]),
     Given(schema >= 3, [Bytes(p.pairingId), Bytes(p.pairingNonce)]),
     [Number(p.configVersion)],
     Given(schema >= 2, [Number(p.credentialVersion)]),
     Given(schema >= 3, [Number(p.pairingExpiresAtEpoch), Number(p.pairingRetryAtEpoch),
                         Number(p.pairingRetryAttempt)]),
     SlotFields(p.scheduleSlots[..SlotCountFor(schema)])]
  }

  lemma EightGroupsFit(g: Groups, t: seq<seq<Kind>>)
    requires |g| == |t| == 8
    requires AllFit(g[0], t[0]) && AllFit(g[1], t[1]) && AllFit(g[2], t[2]) && AllFit(g[3], t[3])
    requires AllFit(g[4], t[4]) && AllFit(g[5], t[5]) && AllFit(g[6], t[6]) && AllFit(g[7], t[7])
    ensures AllGroupsFit(g, t)
  {
  }

  lemma SlotFieldsFit(slots: seq<ScheduleSlot>)
    requires forall i :: 0 <= i < |slots| ==> slots[i].hour < 256 && slots[i].minute < 256
    ensures AllFit(SlotFields(slots), SlotKinds(|slots|))
  {
    Powers();
  }

  lemma EncodeCons(f: Field, k: Kind, fs: seq<Field>, ks: seq<Kind>)
    requires Fits(f, k) && AllFit(fs, ks)
    ensures AllFit([f] + fs, [k] + ks)
    ensures Encode([f] + fs, [k] + ks) == EncodeField(f, k) + Encode(fs, ks)
  {
    assert ([f] + fs)[1..] == fs && ([k] + ks)[1..] == ks;
  }

  lemma EncodeOne(f: Field, k: Kind)
    requires Fits(f, k)
    ensures AllFit([f], [k]) && Encode([f], [k]) == EncodeField(f, k)
  {
    EncodeCons(f, k, [], []);
    assert [f] + [] == [f] && [k] + [] == [k];
    assert EncodeField(f, k) + [] == EncodeField(f, k);
  }

  lemma EncodeTwo(f: Field, k: Kind, g: Field, l: Kind)
    requires Fits(f, k) && Fits(g, l)
    ensures AllFit([f, g], [k, l]) && Encode([f, g], [k, l]) == EncodeField(f, k) + EncodeField(g, l)
  {
    EncodeOne(g, l);
    EncodeCons(f, k, [g], [l]);
    assert [f] + [g] == [f, g] && [k] + [l] == [k, l];
  }

  lemma EncodeThree(f: Field, k: Kind, g: Field, l: Kind, h: Field, m: Kind)
    requires Fits(f, k) && Fits(g, l) && Fits(h, m)
    ensures AllFit([f, g, h], [k, l, m])
    ensures Encode([f, g, h], [k, l, m]) == EncodeField(f, k) + EncodeField(g, l) + EncodeField(h, m)
  {
    EncodeTwo(g, l, h, m);
    EncodeCons(f, k, [g, h], [l, m]);
    assert [f] + [g, h] == [f, g, h] && [k] + [l, m] == [k, l, m];
    Regroup(EncodeField(f, k), EncodeField(g, l), EncodeField(h, m));
  }

  lemma EncodeFour(f: Field, k: Kind, g: Field, l: Kind, h: Field, m: Kind, i: Field, n: Kind)
    requires Fits(f, k) && Fits(g, l) && Fits(h, m) && Fits(i, n)
    ensures AllFit([f, g, h, i], [k, l, m, n])
    ensures Encode([f, g, h, i], [k, l, m, n])
         == EncodeField(f, k) + EncodeField(g, l) + EncodeField(h, m) + EncodeField(i, n)
  {
    EncodeTwo(f, k, g, l);
    EncodeTwo(h, m, i, n);
    EncodeConcat([f, g], [k, l], [h, i], [m, n]);
    assert [f, g] + [h, i] == [f, g, h, i] && [k, l] + [m, n] == [k, l, m, n];
    Regroup(EncodeField(f, k) + EncodeField(g, l), EncodeField(h, m), EncodeField(i, n));
  }

  lemma CoreTexts(p: ConfigPayload)
    requires ValidSizes(p)
    ensures var f := [Bytes(p.wifiSsid), Bytes(p.wifiPass), Bytes(p.backendHostport), Bytes(p.caPem)];
            var k := [Text(64), Text(128), Text(512), Text(3500)];
            AllFit(f, k)
            && Encode(f, k) == TextBytes(p.wifiSsid) + TextBytes(p.wifiPass) + TextBytes(p.backendHostport)
                               + TextBytes(p.caPem)
  {
    EncodeFour(Bytes(p.wifiSsid), Text(64), Bytes(p.wifiPass), Text(128),
               Bytes(p.backendHostport), Text(512), Bytes(p.caPem), Text(3500));
  }

  lemma CoreClock(p: ConfigPayload)
    requires Typed(p) && ValidSizes(p)
    ensures var f := [Bytes(p.deviceToken), Number(Unsigned32(p.tzOffsetMinutes)),
                      Number(p.refreshHour), Number(p.refreshMinute)];
            var k := [Text(1024), Num(4), Num(1), Num(1)];
            AllFit(f, k)
            && Encode(f, k) == TextBytes(p.deviceToken) + LittleEndian(p.tzOffsetMinutes % 0x1_0000_0000, 4)
                               + LittleEndian(p.refreshHour, 1) + LittleEndian(p.refreshMinute, 1)
  {
    Powers();
    assert Unsigned32(p.tzOffsetMinutes) == p.tzOffsetMinutes % 0x1_0000_0000;
    EncodeFour(Bytes(p.deviceToken), Text(1024), Number(Unsigned32(p.tzOffsetMinutes)), Num(4),
               Number(p.refreshHour), Num(1), Number(p.refreshMinute), Num(1));
  }

  lemma CoreDisplay(p: ConfigPayload)
    requires Typed(p) && ValidSizes(p)
    ensures var f := [Number(if p.rotate180 then 1 else 0), Number(p.scheduleCount),
                      Number(p.prefetchLeadMinutes), Bytes(p.deliveryMode)];
            var k := [Num(1), Num(1), Num(2), Text(64)];
            AllFit(f, k)
            && Encode(f, k) == LittleEndian(if p.rotate180 then 1 else 0, 1) + LittleEndian(p.scheduleCount, 1)
                               + LittleEndian(p.prefetchLeadMinutes, 2) + TextBytes(p.deliveryMode)
  {
    Powers();
    EncodeFour(Number(if p.rotate180 then 1 else 0), Num(1), Number(p.scheduleCount), Num(1),
               Number(p.prefetchLeadMinutes), Num(2), Bytes(p.deliveryMode), Text(64));
  }

  lemma EncodeParts(a: seq<Field>, k: seq<Kind>, b: seq<Field>, l: seq<Kind>,
                    c: seq<Field>, m: seq<Kind>, d: seq<Field>, n: seq<Kind>)
    requires AllFit(a, k) && AllFit(b, l) && AllFit(c, m) && AllFit(d, n)
    ensures AllFit(a + (b + (c + d)), k + (l + (m + n)))
    ensures Encode(a + (b + (c + d)), k + (l + (m + n)))
         == Encode(a, k) + (Encode(b, l) + (Encode(c, m) + Encode(d, n)))
  {
    EncodeConcat(c, m, d, n);
    EncodeConcat(b, l, c + d, m + n);
    EncodeConcat(a, k, b + (c + d), l + (m + n));
  }

  lemma CoreEncodes(p: ConfigPayload)
    requires Typed(p) && ValidSizes(p)
    ensures AllFit(CoreFields(p), CORE) && Encode(CoreFields(p), CORE) == CoreBytes(p)
  {
    CoreTexts(p);
    CoreClock(p);
    CoreDisplay(p);
    EncodeOne(Bytes(p.buttonWakeAction), Text(64));
    var a := [Bytes(p.wifiSsid), Bytes(p.wifiPass), Bytes(p.backendHostport), Bytes(p.caPem)];
    var b := [Bytes(p.deviceToken), Number(Unsigned32(p.tzOffsetMinutes)),
              Number(p.refreshHour), Number(p.refreshMinute)];
    var c := [Number(if p.rotate180 then 1 else 0), Number(p.scheduleCount),
              Number(p.prefetchLeadMinutes), Bytes(p.deliveryMode)];
    EncodeParts(a, [Text(64), Text(128), Text(512), Text(3500)], b, [Text(1024), Num(4), Num(1), Num(1)],
                c, [Num(1), Num(1), Num(2), Text(64)], [Bytes(p.buttonWakeAction)], [Text(64)]);
    CoreInParts(p, a, b, c);
  }

  lemma CoreInParts(p: ConfigPayload, a: seq<Field>, b: seq<Field>, c: seq<Field>)
    requires Typed(p)
    requires a == [Bytes(p.wifiSsid), Bytes(p.wifiPass), Bytes(p.backendHostport), Bytes(p.caPem)]
    requires b == [Bytes(p.deviceToken), Number(Unsigned32(p.tzOffsetMinutes)),
                   Number(p.refreshHour), Number(p.refreshMinute)]
    requires c == [Number(if p.rotate180 then 1 else 0), Number(p.scheduleCount),
                   Number(p.prefetchLeadMinutes), Bytes(p.deliveryMode)]
    ensures CoreFields(p) == a + (b + (c + [Bytes(p.buttonWakeAction)]))
    ensures CORE == [Text(64), Text(128), Text(512), Text(3500)]
                    + ([Text(1024), Num(4), Num(1), Num(1)] + ([Num(1), Num(1), Num(2), Text(64)] + [Text(64)]))
  {
  }

  lemma {:induction false} SlotsEncode(slots: seq<ScheduleSlot>)
    requires forall i :: 0 <= i < |slots| ==> slots[i].hour < 256 && slots[i].minute < 256
    ensures AllFit(SlotFields(slots), SlotKinds(|slots|))
    ensures Encode(SlotFields(slots), SlotKinds(|slots|)) == SlotBytes(slots)
  {
    SlotFieldsFit(slots);
    if |slots| > 0 {
      var n := |slots| - 1;
      SlotsEncode(slots[..n]);
      var last := [Number(slots[n].hour), Number(slots[n].minute)];
      Powers();
      EncodeTwo(last[0], Num(1), last[1], Num(1));
      EncodeConcat(SlotFields(slots[..n]), SlotKinds(n), last, [Num(1), Num(1)]);
      SlotFieldsLast(slots);
    }
  }

  lemma SlotFieldsLast(slots: seq<ScheduleSlot>)
    requires |slots| > 0
    ensures var n := |slots| - 1;
            && SlotFields(slots) == SlotFields(slots[..n]) + [Number(slots[n].hour), Number(slots[n].minute)]
            && SlotKinds(|slots|) == SlotKinds(n) + [Num(1), Num(1)]
  {
  }

  lemma SyncEncodes(p: ConfigPayload, there: bool)
    requires ValidSizes(p)
    ensures var f, k := Given(there, [Bytes(p.syncStrategy), Bytes(p.syncTime)]), Given(there, SYNC);
            AllFit(f, k) && Encode(f, k) == Given(there, SyncBytes(p))
  {
    EncodeTwo(Bytes(p.syncStrategy), Text(32), Bytes(p.syncTime), Text(8));
  }

  lemma CredentialsEncode(p: ConfigPayload, there: bool)
    requires ValidSizes(p)
    ensures var f := Given(there, [Bytes(p.deviceSecret), Bytes(p.deviceId), Bytes(p.authState)]);
            var k := Given(there, CREDENTIALS);
            AllFit(f, k) && Encode(f, k) == Given(there, CredentialBytes(p))
  {
    EncodeThree(Bytes(p.deviceSecret), Text(256), Bytes(p.deviceId), Text(128), Bytes(p.authState), Text(32));
  }

  lemma PairingEncodes(p: ConfigPayload, there: bool)
    requires ValidSizes(p)
    ensures var f, k := Given(there, [Bytes(p.pairingId), Bytes(p.pairingNonce)]), Given(there, PAIRING);
            AllFit(f, k) && Encode(f, k) == Given(there, PairingBytes(p))
  {
    EncodeTwo(Bytes(p.pairingId), Text(128), Bytes(p.pairingNonce), Text(256));
  }

  lemma VersionEncodes(n: nat, there: bool)
    requires n < 0x1_0000_0000
    ensures var f, k := Given(there, [Number(n)]), Given(there, VERSION);
            AllFit(f, k) && Encode(f, k) == Given(there, LittleEndian(n, 4))
  {
    Powers();
    EncodeOne(Number(n), Num(4));
  }

  lemma PairingNumbersEncode(p: ConfigPayload, there: bool)
    requires Typed(p)
    ensures var f := Given(there, [Number(p.pairingExpiresAtEpoch), Number(p.pairingRetryAtEpoch),
                                   Number(p.pairingRetryAttempt)]);
            var k := Given(there, PAIRING_NUMBERS);
            AllFit(f, k) && Encode(f, k) == Given(there, PairingNumberBytes(p))
  {
    Powers();
    EncodeThree(Number(p.pairingExpiresAtEpoch), Num(8), Number(p.pairingRetryAtEpoch), Num(8),
                Number(p.pairingRetryAttempt), Num(1));
  }

  lemma TablesGiven(schema: byte)
    requires 1 <= schema <= 5
    ensures Tables(schema)
         == [CORE, Given(schema >= 4, SYNC), Given(schema >= 2, CREDENTIALS), Given(schema >= 3, PAIRING), VERSION,
             Given(schema >= 2, VERSION), Given(schema >= 3, PAIRING_NUMBERS), SlotKinds(SlotCountFor(schema))]
  {
  }

  /** The first four groups of an old record are encoded to the bytes its writer appends. */
  ghost predicate TextsWrite(p: ConfigPayload, schema: byte, g: Groups, t: seq<seq<Kind>>)
    requires |g| == |t| == 8
  {
    && AllFit(g[0], t[0]) && AllFit(g[1], t[1]) && AllFit(g[2], t[2]) && AllFit(g[3], t[3])
    && Encode(g[0], t[0]) == CoreBytes(p)
    && Encode(g[1], t[1]) == Given(schema >= 4, SyncBytes(p))
    && Encode(g[2], t[2]) == Given(schema >= 2, CredentialBytes(p))
    && Encode(g[3], t[3]) == Given(schema >= 3, PairingBytes(p))
  }

  /** And so are the last four. */
  ghost predicate NumbersWrite(p: ConfigPayload, schema: byte, g: Groups, t: seq<seq<Kind>>)
    requires |p.scheduleSlots| == MAX_CONFIG_SLOTS && |g| == |t| == 8
  {
    && AllFit(g[4], t[4]) && AllFit(g[5], t[5]) && AllFit(g[6], t[6]) && AllFit(g[7], t[7])
    && Encode(g[4], t[4]) == LittleEndian(p.configVersion, 4)
    && Encode(g[5], t[5]) == Given(schema >= 2, LittleEndian(p.credentialVersion, 4))
    && Encode(g[6], t[6]) == Given(schema >= 3, PairingNumberBytes(p))
    && Encode(g[7], t[7]) == SlotBytes(p.scheduleSlots[..SlotCountFor(schema)])
  }

  lemma OldTextsWrite(p: ConfigPayload, schema: byte)
    requires Typed(p) && ValidSizes(p) && 1 <= schema <= 5
    ensures TextsWrite(p, schema, OldGroups(p, schema), Tables(schema))
  {
    TablesGiven(schema);
    CoreEncodes(p);
    SyncEncodes(p, schema >= 4);
    CredentialsEncode(p, schema >= 2);
    PairingEncodes(p, schema >= 3);
  }

  lemma OldNumbersWrite(p: ConfigPayload, schema: byte)
    requires Typed(p) && ValidSizes(p) && 1 <= schema <= 5
    ensures NumbersWrite(p, schema, OldGroups(p, schema), Tables(schema))
  {
    TablesGiven(schema);
    VersionEncodes(p.configVersion, true);
    VersionEncodes(p.credentialVersion, schema >= 2);
    PairingNumbersEncode(p, schema >= 3);
    SlotGroupEncodes(p, SlotCountFor(schema));
  }

  lemma SlotGroupEncodes(p: ConfigPayload, count: nat)
    requires Typed(p) && count <= MAX_CONFIG_SLOTS
    ensures var f, k := SlotFields(p.scheduleSlots[..count]), SlotKinds(count);
            AllFit(f, k) && Encode(f, k) == SlotBytes(p.scheduleSlots[..count])
  {
    assert |p.scheduleSlots[..count]| == count;
    SlotsEncode(p.scheduleSlots[..count]);
  }

  lemma EncodeEightGroups(g: Groups, t: seq<seq<Kind>>)
    requires |g| == 8 && AllGroupsFit(g, t)
    ensures AllFit(g[0], t[0]) && AllFit(g[1], t[1]) && AllFit(g[2], t[2]) && AllFit(g[3], t[3])
    ensures AllFit(g[4], t[4]) && AllFit(g[5], t[5]) && AllFit(g[6], t[6]) && AllFit(g[7], t[7])
    ensures EncodeGroups(g, t)
         == Encode(g[0], t[0])
            + (Encode(g[1], t[1])
               + (Encode(g[2], t[2])
                  + (Encode(g[3], t[3])
                     + (Encode(g[4], t[4]) + (Encode(g[5], t[5]) + (Encode(g[6], t[6]) + Encode(g[7], t[7])))))))
  {
    EncodeFourGroups(g[4..], t[4..]);
    NextGroup(g, t, 0);
    NextGroup(g, t, 1);
    NextGroup(g, t, 2);
    NextGroup(g, t, 3);
    assert g[0..] == g && t[0..] == t;
  }

  lemma EncodeFourGroups(g: Groups, t: seq<seq<Kind>>)
    requires |g| == 4 && AllGroupsFit(g, t)
    ensures EncodeGroups(g, t)
         == Encode(g[0], t[0]) + (Encode(g[1], t[1]) + (Encode(g[2], t[2]) + Encode(g[3], t[3])))
  {
    NextGroup(g, t, 0);
    NextGroup(g, t, 1);
    NextGroup(g, t, 2);
    NextGroup(g, t, 3);
    assert g[0..] == g && t[0..] == t;
    assert Encode(g[3], t[3]) + [] == Encode(g[3], t[3]);
  }

  lemma NextGroup(g: Groups, t: seq<seq<Kind>>, i: nat)
    requires AllGroupsFit(g, t) && i < |g|
    ensures AllGroupsFit(g[i..], t[i..]) && AllGroupsFit(g[i + 1..], t[i + 1..]) && AllFit(g[i], t[i])
    ensures EncodeGroups(g[i..], t[i..]) == Encode(g[i], t[i]) + EncodeGroups(g[i + 1..], t[i + 1..])
  {
    assert g[i..][1..] == g[i + 1..] && t[i..][1..] == t[i + 1..];
  }

  lemma RecordEncodes(p: ConfigPayload, schema: byte)
    requires Typed(p) && ValidSizes(p) && 1 <= schema <= 5
    ensures AllGroupsFit(OldGroups(p, schema), Tables(schema))
    ensures Record(p, schema) == [schema] + EncodeGroups(OldGroups(p, schema), Tables(schema))
  {
    OldTextsWrite(p, schema);
    OldNumbersWrite(p, schema);
    EightGroupsFit(OldGroups(p, schema), Tables(schema));
    EncodeEightGroups(OldGroups(p, schema), Tables(schema));
  }

  lemma OldSlots(slots: seq<ScheduleSlot>)
    requires |slots| == MAX_CONFIG_SLOTS
    ensures SlotsFrom(SlotFields(slots[..12])) == slots[..12] + seq(12, _ => ScheduleSlot(0, 0))
    ensures SlotsFrom(SlotFields(slots[..24])) == slots
  {
    assert slots[..24] == slots;
  }

  /** Groups that agree with those of `u` but for the slots they leave out. */
  lemma FromGroupsLike(d: Groups, u: ConfigPayload)
    requires Typed(u) && |d| == 8 && SlotsFrom(d[7]) == u.scheduleSlots
    requires forall i :: 0 <= i < 7 ==> d[i] == ToGroups(u)[i]
    ensures Shaped(d) && FromGroups(d) == u
    ensures d[0][8] in [Number(0), Number(1)] && NumberOf(d[0][9]) == u.scheduleCount
  {
    assert d[0] == CoreFields(u);
    FromToGroups(u);
  }

  lemma UpgradedTyped(p: ConfigPayload, schema: byte)
    requires Typed(p)
    ensures Typed(Upgraded(p, schema)) && Upgraded(p, schema).scheduleCount == p.scheduleCount
  {
    var slots := Upgraded(p, schema).scheduleSlots;
    forall i | 0 <= i < |slots|
      ensures slots[i].hour < 256 && slots[i].minute < 256
    {
      assert schema >= 5 || i >= 12 || slots[i] == p.scheduleSlots[i];
    }
  }

  lemma UpgradedSlots(p: ConfigPayload, schema: byte)
    requires Typed(p)
    ensures SlotsFrom(SlotFields(p.scheduleSlots[..SlotCountFor(schema)])) == Upgraded(p, schema).scheduleSlots
  {
    OldSlots(p.scheduleSlots);
  }

  lemma DefaultGroups(p: ConfigPayload, schema: byte)
    requires Typed(p) && 1 <= schema <= 5
    ensures |OldGroups(p, schema)| == 8 && |OldGroups(p, schema)[0]| == 13
    ensures -0x8000_0000 <= Upgraded(p, schema).tzOffsetMinutes
    ensures var d, e := WithDefaults(schema, OldGroups(p, schema)), ToGroups(Upgraded(p, schema));
            && |d| == 8 && (forall i :: 0 <= i < 7 ==> d[i] == e[i])
            && d[7] == SlotFields(p.scheduleSlots[..SlotCountFor(schema)])
  {
  }

  /** With the defaults filled in, the groups of an old record are those of the upgraded
      configuration. */
  lemma DefaultsUpgrade(p: ConfigPayload, schema: byte)
    requires Typed(p) && 1 <= schema <= 5
    ensures |OldGroups(p, schema)| == 8 && |OldGroups(p, schema)[0]| == 13
    ensures var g := WithDefaults(schema, OldGroups(p, schema));
            Shaped(g) && FromGroups(g) == Upgraded(p, schema)
            && g[0][8] in [Number(0), Number(1)] && NumberOf(g[0][9]) == p.scheduleCount
  {
    DefaultGroups(p, schema);
    UpgradedTyped(p, schema);
    UpgradedSlots(p, schema);
    FromGroupsLike(WithDefaults(schema, OldGroups(p, schema)), Upgraded(p, schema));
  }

  // ----- Main results

  /** The writer of the current schema writes exactly this record. */
  lemma SerializeIsRecord(p: ConfigPayload)
    requires Typed(p) && ValidSizes(p)
    ensures Serialize(p) == Record(p, 5)
  {
    RecordEncodes(p, 5);
    assert p.scheduleSlots[..24] == p.scheduleSlots;
    assert OldGroups(p, 5) == ToGroups(p);
  }

  /** Reading a record of any schema returns the configuration it was written from, with the
      members that the schema does not have at their defaults; it is refused exactly if that is
      not a valid configuration, or counts slots that the schema does not have. */
  lemma ReadsEverySchema(p: ConfigPayload, schema: byte)
    requires Typed(p) && ValidSizes(p) && 1 <= schema <= 5
    ensures Deserialize(Record(p, schema))
         == if Valid(Upgraded(p, schema)) && p.scheduleCount <= (if schema <= 4 then 12 else 24)
            then Some(Upgraded(p, schema)) else None
  {
    RecordGroups(p, schema);
    DefaultsUpgrade(p, schema);
  }

  lemma RecordGroups(p: ConfigPayload, schema: byte)
    requires Typed(p) && ValidSizes(p) && 1 <= schema <= 5
    ensures |OldGroups(p, schema)[0]| == 13
    ensures ReadGroups(Record(p, schema)) == Some(WithDefaults(schema, OldGroups(p, schema)))
    ensures Record(p, schema)[0] == schema
  {
    RecordEncodes(p, schema);
    var record, g := Record(p, schema), OldGroups(p, schema);
    ParseEncodedRecord(g, Tables(schema));
    assert record[1..] == EncodeGroups(g, Tables(schema));
  }

  /** A valid configuration that an old schema can hold is read back from it, except one of
      schema 2 with an issued credential, which needs the pairing that schema 2 does not have. */
  lemma ValidStaysValid(p: ConfigPayload, schema: byte)
    requires Typed(p) && Valid(p) && 1 <= schema <= 5
    requires p.scheduleCount <= if schema <= 4 then 12 else 24
    ensures Valid(Upgraded(p, schema)) <==> !(schema == 2 && p.authState == Ascii("credential_issued"))
  {
    DifferentTexts();
    UpgradedSchedule(p, schema);
    UpgradedPairing(p, schema);
    UpgradedChoices(p, schema);
    UpgradedSizes(p, schema);
  }

  lemma UpgradedSchedule(p: ConfigPayload, schema: byte)
    requires |p.scheduleSlots| == MAX_CONFIG_SLOTS && ValidSchedule(p.scheduleSlots, p.scheduleCount)
    requires p.scheduleCount <= if schema <= 4 then 12 else 24
    ensures ValidSchedule(Upgraded(p, schema).scheduleSlots, p.scheduleCount)
    ensures Upgraded(p, schema).scheduleCount == p.scheduleCount
  {
    var u := Upgraded(p, schema);
    assert forall i :: 0 <= i < p.scheduleCount ==> u.scheduleSlots[i] == p.scheduleSlots[i];
  }

  lemma UpgradedPairing(p: ConfigPayload, schema: byte)
    requires |p.scheduleSlots| == MAX_CONFIG_SLOTS && ValidPairing(p) && 1 <= schema <= 5
    ensures ValidPairing(Upgraded(p, schema)) <==> !(schema == 2 && p.authState == Ascii("credential_issued"))
  {
    DifferentTexts();
  }

  lemma UpgradedSizes(p: ConfigPayload, schema: byte)
    requires |p.scheduleSlots| == MAX_CONFIG_SLOTS && ValidSizes(p)
    ensures ValidSizes(Upgraded(p, schema))
  {
    DifferentTexts();
  }

  lemma UpgradedAuthState(p: ConfigPayload, schema: byte)
    requires |p.scheduleSlots| == MAX_CONFIG_SLOTS && ValidAuthState(p.authState)
    ensures ValidAuthState(Upgraded(p, schema).authState)
  {
  }

  lemma UpgradedSyncPolicy(p: ConfigPayload, schema: byte)
    requires |p.scheduleSlots| == MAX_CONFIG_SLOTS && ValidSyncPolicy(p.syncStrategy, p.syncTime)
    ensures ValidSyncPolicy(Upgraded(p, schema).syncStrategy, Upgraded(p, schema).syncTime)
  {
  }

  lemma UpgradedChoices(p: ConfigPayload, schema: byte)
    requires |p.scheduleSlots| == MAX_CONFIG_SLOTS && ValidChoices(p)
    ensures ValidChoices(Upgraded(p, schema))
  {
    UpgradedAuthState(p, schema);
    UpgradedSyncPolicy(p, schema);
    ChoicesKept(p, Upgraded(p, schema));
  }

  lemma ChoicesKept(p: ConfigPayload, u: ConfigPayload)
    requires ValidChoices(p)
    requires ValidAuthState(u.authState) && ValidSyncPolicy(u.syncStrategy, u.syncTime)
    requires u.deliveryMode == p.deliveryMode && u.buttonWakeAction == p.buttonWakeAction
    requires u.tzOffsetMinutes == p.tzOffsetMinutes && u.refreshHour == p.refreshHour
    requires u.refreshMinute == p.refreshMinute && u.scheduleCount == p.scheduleCount
    requires u.prefetchLeadMinutes == p.prefetchLeadMinutes
    ensures ValidChoices(u)
  {
  }

  lemma DifferentTexts()
    ensures Ascii("paired") != Ascii("credential_issued") && Ascii("unpaired") != Ascii("credential_issued")
    ensures |Ascii("paired")| == 6 && |Ascii("unpaired")| == 8 && |Ascii("first_display_lead")| == 18
    ensures Ascii("paired") != Ascii("unpaired")
  {
  }

  /** What an upgrade from schema 1 does to the pairing: kept exactly if there is a token. */
  lemma UpgradeKeepsPairing(p: ConfigPayload)
    requires Typed(p) && Valid(p) && p.scheduleCount <= 12
    ensures var read := Deserialize(Record(p, 1));
            && read.Some?
            && (read.value.authState == Ascii("paired") <==> p.deviceToken != [])
            && (read.value.authState == Ascii("unpaired") <==> p.deviceToken == [])
  {
    ReadsEverySchema(p, 1);
    ValidStaysValid(p, 1);
    DifferentTexts();
  }
}
