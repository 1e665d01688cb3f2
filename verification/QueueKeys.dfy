/** The key that makes a queue acknowledgement idempotent, and the order of the events it names. */
module QueueKeys {

  const IDENTIFIER_MAX_BYTES := 128

  datatype Event = ManifestReceived | DownloadStarted | DownloadCompleted | HashVerified
                 | DisplayStarted | DisplayCompleted | DisplayFailed

  function Name(event: Event): string {
    match event
    case ManifestReceived => "MANIFEST_RECEIVED"
    case DownloadStarted => "DOWNLOAD_STARTED"
    case DownloadCompleted => "DOWNLOAD_COMPLETED"
    case HashVerified => "HASH_VERIFIED"
    case DisplayStarted => "DISPLAY_STARTED"
    case DisplayCompleted => "DISPLAY_COMPLETED"
    case DisplayFailed => "DISPLAY_FAILED"
  }

  predicate CanFollow(previous: Event, next: Event) {
    if next == DisplayFailed then previous != DisplayCompleted
    else
      match previous
      case ManifestReceived => next == DownloadStarted
      case DownloadStarted => next == DownloadCompleted
      case DownloadCompleted => next == HashVerified
      case HashVerified => next == DisplayStarted || next == DisplayCompleted
      case DisplayStarted => next == DisplayCompleted
      case DisplayCompleted => false
      case DisplayFailed => false
  }

  // ----- Decimal numbers

  function Digit(d: nat): char
    requires d < 10
  {
    ('0' as int + d) as char
  }

  function Decimal(n: nat): (s: string)
    ensures |s| > 0 && forall i :: 0 <= i < |s| ==> '0' <= s[i] <= '9'
  {
    if n < 10 then [Digit(n)] else Decimal(n / 10) + [Digit(n % 10)]
  }

  function Value(s: string): nat
    requires forall i :: 0 <= i < |s| ==> '0' <= s[i] <= '9'
  {
    if |s| == 0 then 0
    else 10 * Value(s[..|s| - 1]) + (s[|s| - 1] as int - '0' as int)
  }

  lemma {:induction false} ValueDecimal(n: nat)
    ensures Value(Decimal(n)) == n
  {
    if n >= 10 {
      ValueDecimal(n / 10);
      var front := Decimal(n / 10);
      assert (front + [Digit(n % 10)])[..|front|] == front;
    } else {
      assert [Digit(n)][..0] == [];
    }
  }

  function Pow10(k: nat): nat {
    if k == 0 then 1 else 10 * Pow10(k - 1)
  }

  lemma {:induction false} DecimalLength(n: nat, k: nat)
    requires n < Pow10(k) && k > 0
    ensures |Decimal(n)| <= k
  {
    if n >= 10 { DecimalLength(n / 10, k - 1); }
  }

  // ----- The key

  /** What the key is built from. Identifiers may themselves contain bars. */
  function Material(item: string, version: nat, event: Event): string {
    "inktime-queue-v1|" + item + "|" + Decimal(version) + "|" + Name(event)
  }

  predicate NoBar(s: string) {
    forall i :: 0 <= i < |s| ==> s[i] != '|'
  }

  lemma NameHasNoBar(event: Event)
    ensures NoBar(Name(event))
  {
    match event
    case ManifestReceived => assert NoBar("MANIFEST_RECEIVED");
    case DownloadStarted => assert NoBar("DOWNLOAD_STARTED");
    case DownloadCompleted => assert NoBar("DOWNLOAD_COMPLETED");
    case HashVerified => assert NoBar("HASH_VERIFIED");
    case DisplayStarted => assert NoBar("DISPLAY_STARTED");
    case DisplayCompleted => assert NoBar("DISPLAY_COMPLETED");
    case DisplayFailed => assert NoBar("DISPLAY_FAILED");
  }

  lemma NamesDiffer(e: Event, f: Event)
    requires Name(e) == Name(f)
    ensures e == f
  {
    var n, m := Name(e), Name(f);
    assert |n| == |m| && n[0] == m[0] && n[8] == m[8] && n[9] == m[9] && n[|n| - 1] == m[|m| - 1];
  }

  /** A text splits in one way only at its last bar. */
  lemma LastBarSplits(s: string, x: string, t: string, y: string)
    requires NoBar(x) && NoBar(y) && s + "|" + x == t + "|" + y
    ensures s == t && x == y
  {
    var whole := s + "|" + x;
    assert whole[|s|] == '|' && whole[|t|] == '|';
    assert forall i :: |s| < i < |whole| ==> whole[i] == x[i - |s| - 1];
    assert forall i :: |t| < i < |whole| ==> whole[i] == y[i - |t| - 1];
    assert whole[..|s|] == s && whole[..|t|] == t;
    assert whole[|s| + 1..] == x && whole[|t| + 1..] == y;
  }

  /** Different acknowledgements never share a key. */
  lemma MaterialIsUnambiguous(item: string, version: nat, event: Event,
                              item': string, version': nat, event': Event)
    requires Material(item, version, event) == Material(item', version', event')
    ensures item == item' && version == version' && event == event'
  {
    var start := "inktime-queue-v1|";
    NameHasNoBar(event);
    NameHasNoBar(event');
    LastBarSplits(start + item + "|" + Decimal(version), Name(event),
                  start + item' + "|" + Decimal(version'), Name(event'));
    NamesDiffer(event, event');
    LastBarSplits(start + item, Decimal(version), start + item', Decimal(version'));
    ValueDecimal(version);
    ValueDecimal(version');
    assert (start + item)[|start|..] == item && (start + item')[|start|..] == item';
  }

  predicate BoundedText(s: string, maximum: nat) {
    0 < |s| <= maximum
  }

  /** `idempotencyMaterial`: formats into a buffer, ending the text with a zero and cutting it
      where the buffer ends. Only an uncut key is reported. */
  method IdempotencyMaterial(item: string, version: int, event: Event, output: array<char>) returns (ok: bool)
    modifies output
    ensures ok <==> BoundedText(item, IDENTIFIER_MAX_BYTES) && version >= 0 && output.Length >= 32
                    && |Material(item, version, event)| < output.Length
    ensures ok ==> var key := Material(item, version, event);
                   output[..|key|] == key && output[|key|] == 0 as char
  {
    if !BoundedText(item, IDENTIFIER_MAX_BYTES) || version < 0 || output.Length < 32 { return false; }
    var key := Material(item, version, event);
    var written := if |key| < output.Length then |key| else output.Length - 1;
    for i := 0 to written
      invariant output[..i] == key[..i]
    {
      output[i] := key[i];
    }
    output[written] := 0 as char;
    ok := |key| < output.Length;
  }

  const KEY_BUFFER_BYTES := 320

  /** Every key of a 64-bit version fits the buffer its caller uses, so no key is ever cut. */
  lemma KeysFit(item: string, version: nat, event: Event)
    requires BoundedText(item, IDENTIFIER_MAX_BYTES) && version < 0x8000_0000_0000_0000
    ensures |Material(item, version, event)| <= 184 < KEY_BUFFER_BYTES
  {
    var p9 := Pow10(9);
    assert p9 == 1_000_000_000;
    assert Pow10(14) == 100_000 * p9;
    assert Pow10(19) == 100_000 * Pow10(14);
    DecimalLength(version, 19);
    assert |Name(event)| <= 18;
  }

  // ----- Runs of events

  ghost predicate Run(events: seq<Event>) {
    forall i :: 0 < i < |events| ==> CanFollow(events[i - 1], events[i])
  }

  function Rank(event: Event): nat {
    match event
    case ManifestReceived => 0
    case DownloadStarted => 1
    case DownloadCompleted => 2
    case HashVerified => 3
    case DisplayStarted => 4
    case DisplayCompleted => 5
    case DisplayFailed => 6
  }

  lemma {:induction false} RunsClimb(events: seq<Event>, i: nat, k: nat)
    requires Run(events) && i < k < |events|
    ensures Rank(events[i]) < Rank(events[k]) || events[i] == events[k] == DisplayFailed
  {
    assert CanFollow(events[k - 1], events[k]);
    if i < k - 1 { RunsClimb(events, i, k - 1); }
  }

  /** Along any run for one item and version, two acknowledgements share a key exactly when they
      are the same one or both report a failure. */
  lemma KeysRepeatOnlyFailures(item: string, version: nat, events: seq<Event>, i: nat, k: nat)
    requires Run(events) && i < |events| && k < |events|
    ensures Material(item, version, events[i]) == Material(item, version, events[k]) <==>
              i == k || events[i] == events[k] == DisplayFailed
  {
    if Material(item, version, events[i]) == Material(item, version, events[k]) {
      MaterialIsUnambiguous(item, version, events[i], item, version, events[k]);
      if i < k { RunsClimb(events, i, k); } else if k < i { RunsClimb(events, k, i); }
    }
  }

  /** A run that starts with the manifest reaches a display only through the whole download and
      the hash check. */
  lemma {:induction false} DisplayNeedsVerifiedHash(events: seq<Event>, k: nat)
    requires Run(events) && k < |events| && events[0] == ManifestReceived && events[k] != DisplayFailed
    ensures forall j: nat :: j <= k && j < 4 ==> Rank(events[j]) == j
    ensures k >= 4 ==> events[k] in {DisplayStarted, DisplayCompleted}
  {
    if k > 0 {
      assert CanFollow(events[k - 1], events[k]);
      DisplayNeedsVerifiedHash(events, k - 1);
      if k <= 4 { assert Rank(events[k - 1]) == k - 1; }
    }
  }

  /** The events in their order, each following the one before; only the start of the display may
      be left out; and a failure may follow anything but a completed display. */
  lemma FollowsByRank(previous: Event, next: Event)
    ensures CanFollow(previous, next) <==>
              if next == DisplayFailed then previous != DisplayCompleted
              else previous != DisplayFailed
                   && (Rank(next) == Rank(previous) + 1 || (previous == HashVerified && next == DisplayCompleted))
  {
  }

  /** Both ways to the end are runs, and each may break off with a failure before the end. */
  lemma CompleteRuns(broken: nat)
    requires 0 < broken < 6
    ensures var download := [ManifestReceived, DownloadStarted, DownloadCompleted, HashVerified];
            && Run(download + [DisplayStarted, DisplayCompleted]) && Run(download + [DisplayCompleted])
            && Run((download + [DisplayStarted, DisplayCompleted])[..broken] + [DisplayFailed])
  {
  }

  /** A key as the server sees it. */
  lemma KeyExample()
    ensures Material("item-1", 7, HashVerified) == "inktime-queue-v1|item-1|7|HASH_VERIFIED"
  {
    assert Decimal(7) == "7";
  }
}
