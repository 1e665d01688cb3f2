/** The bounded garbage collector for stored frames: it may delete only frames that nothing
    refers to, and a batch it approves has room. */
module FrameGc {
  import opened Wrappers

  const MAXIMUM_FILES := 40
  const MAX_DELETES_PER_WAKE := 4
  const MAX_SCANS_PER_WAKE := 64
  const REFERENCE_LIMIT := 80
  const MAX_BATCH_SLOTS := 16
  const RECORD_BYTES := 54 + 192000
  const FREE_SPACE_FLOOR_BYTES := 1536 * 1024 + RECORD_BYTES

  // ----- Names

  predicate IsHexDigit(c: char) {
    '0' <= c <= '9' || 'a' <= c <= 'f' || 'A' <= c <= 'F'
  }

  predicate IsSha(s: string) {
    |s| == 64 && forall i :: 0 <= i < 64 ==> IsHexDigit(s[i])
  }

  function LowerChar(c: char): char {
    if 'A' <= c <= 'Z' then (c as int + 32) as char else c
  }

  function Lower(s: string): string {
    seq(|s|, i requires 0 <= i < |s| => LowerChar(s[i]))
  }

  /** `equalsIgnoreCase`. */
  predicate SameSha(s: string, t: string) {
    Lower(s) == Lower(t)
  }

  datatype Entry = Entry(name: string, isDirectory: bool, size: nat)

  /** The hash a file name stands for, if it names a stored frame. */
  function ShaOf(e: Entry): Option<string> {
    if e.isDirectory || |e.name| < 64 then None
    else if (e.name[64..] == "-r0.itf" || e.name[64..] == "-r180.itf") && IsSha(e.name[..64]) then Some(e.name[..64])
    else None
  }

  /** A frame file is named after its hash and its rotation, and nothing else is one. */
  lemma FrameNames(e: Entry, sha: string)
    ensures ShaOf(e) == Some(sha) <==>
              !e.isDirectory && IsSha(sha) && (e.name == sha + "-r0.itf" || e.name == sha + "-r180.itf")
  {
    if ShaOf(e) == Some(sha) {
      assert e.name == e.name[..64] + e.name[64..];
    }
    if IsSha(sha) && (e.name == sha + "-r0.itf" || e.name == sha + "-r180.itf") {
      assert e.name[..64] == sha;
      assert e.name[64..] == "-r0.itf" || e.name[64..] == "-r180.itf";
    }
  }

  function FrameCount(entries: seq<Entry>): nat {
    if |entries| == 0 then 0
    else FrameCount(entries[..|entries| - 1]) + if ShaOf(entries[|entries| - 1]).Some? then 1 else 0
  }

  lemma {:induction false} FrameCountConcat(s: seq<Entry>, t: seq<Entry>)
    ensures FrameCount(s + t) == FrameCount(s) + FrameCount(t)
  {
    if |t| == 0 {
      assert s + t == s;
    } else {
      assert (s + t)[..|s + t| - 1] == s + t[..|t| - 1];
      FrameCountConcat(s, t[..|t| - 1]);
    }
  }

  // ----- References

  /** A schedule as the collector sees it: no text, text that is not a schedule, or slots, each
      with the hash it carries (empty if it carries none); a slot may not be an object at all. */
  datatype Schedule = NoText | Unreadable | Slots(slots: seq<Option<string>>)

  /** The hashes among `texts` count as references if they are hashes at all. */
  ghost predicate RefersTo(texts: seq<string>, sha: string) {
    exists i :: 0 <= i < |texts| && IsSha(texts[i]) && SameSha(texts[i], sha)
  }

  /** The different hashes among `texts`. */
  ghost function Hashes(texts: seq<string>): set<string> {
    if |texts| == 0 then {}
    else
      var n := |texts| - 1;
      Hashes(texts[..n]) + if IsSha(texts[n]) then {Lower(texts[n])} else {}
  }

  lemma {:induction false} RefersToHash(texts: seq<string>, sha: string)
    ensures RefersTo(texts, sha) <==> Lower(sha) in Hashes(texts)
  {
    if |texts| > 0 {
      var n := |texts| - 1;
      RefersToHash(texts[..n], sha);
      if RefersTo(texts, sha) {
        var i :| 0 <= i < |texts| && IsSha(texts[i]) && SameSha(texts[i], sha);
        assert i == n || texts[..n][i] == texts[i];
      }
      if RefersTo(texts[..n], sha) {
        var i :| 0 <= i < n && IsSha(texts[..n][i]) && SameSha(texts[..n][i], sha);
        assert SameSha(texts[i], sha);
      }
    }
  }

  lemma HashesNext(texts: seq<string>, index: nat)
    requires index < |texts|
    ensures Hashes(texts[..index + 1])
         == Hashes(texts[..index]) + if IsSha(texts[index]) then {Lower(texts[index])} else {}
  {
    assert texts[..index + 1][..index] == texts[..index];
  }

  lemma {:induction false} HashesConcat(s: seq<string>, t: seq<string>)
    ensures Hashes(s + t) == Hashes(s) + Hashes(t)
  {
    if |t| == 0 {
      assert s + t == s;
    } else {
      var n := |t| - 1;
      HashesConcat(s, t[..n]);
      assert (s + t)[..|s| + n] == s + t[..n];
    }
  }

  /** The hashes of `texts` up to and with `index` are among all of them. */
  lemma HashesPrefix(texts: seq<string>, index: nat)
    requires index <= |texts|
    ensures Hashes(texts[..index]) <= Hashes(texts)
  {
    HashesConcat(texts[..index], texts[index..]);
    assert texts[..index] + texts[index..] == texts;
  }

  lemma SeenIsHashed(texts: seq<string>, index: nat)
    requires index < |texts| && AllSha(texts, index) && IsSha(texts[index])
    ensures Lower(texts[index]) in Hashes(texts[..index]) <==>
              exists k :: 0 <= k < index && SameSha(texts[index], texts[k])
  {
    RefersToHash(texts[..index], texts[index]);
    if k :| 0 <= k < index && SameSha(texts[index], texts[k]) {
      AllShaAt(texts, index, k);
      assert SameSha(texts[..index][k], texts[index]);
    }
  }

  ghost function AllLower(values: seq<string>): set<string> {
    if |values| == 0 then {} else AllLower(values[..|values| - 1]) + {Lower(values[|values| - 1])}
  }

  lemma {:induction false} AllLowerHas(values: seq<string>, sha: string)
    ensures Lower(sha) in AllLower(values) <==> exists k :: 0 <= k < |values| && SameSha(values[k], sha)
  {
    if |values| > 0 {
      var n := |values| - 1;
      AllLowerHas(values[..n], sha);
      if k :| 0 <= k < |values| && SameSha(values[k], sha) {
        assert k == n || values[..n][k] == values[k];
      }
    }
  }

  lemma AllLowerMore(values: seq<string>, sha: string)
    ensures AllLower(values + [sha]) == AllLower(values) + {Lower(sha)}
  {
    assert (values + [sha])[..|values|] == values;
  }

  lemma SubsetIsSmaller(s: set<string>, t: set<string>)
    requires s <= t
    ensures |s| <= |t|
  {
    assert t == s + (t - s);
  }

  lemma OverLimit(s: set<string>, sha: string, t: set<string>)
    requires |s| == REFERENCE_LIMIT && sha !in s && s <= t && sha in t
    ensures |t| > REFERENCE_LIMIT
  {
    SubsetIsSmaller(s + {sha}, t);
  }

  /** With `now` protected, text `i` is one hash too many. */
  ghost predicate Overflows(start: set<string>, texts: seq<string>, i: nat, now: set<string>) {
    && i < |texts| && IsSha(texts[i]) && now == start + Hashes(texts[..i])
    && Lower(texts[i]) !in now && |now| == REFERENCE_LIMIT
  }

  lemma TooMany(start: set<string>, texts: seq<string>, i: nat, now: set<string>)
    requires Overflows(start, texts, i, now)
    ensures |start + Hashes(texts)| > REFERENCE_LIMIT
  {
    HashesNext(texts, i);
    HashesPrefix(texts, i + 1);
    OverLimit(now, Lower(texts[i]), start + Hashes(texts));
  }

  /** The hash text of every slot; a slot that is not an object has none. */
  function SlotTexts(slots: seq<Option<string>>): seq<string> {
    seq(|slots|, i requires 0 <= i < |slots| => if slots[i].Some? then slots[i].value else "")
  }

  function ScheduleTexts(s: Schedule): seq<string> {
    if s.Slots? then SlotTexts(s.slots) else []
  }

  /** The set of hashes that must not be deleted, compared without regard to case. */
  class ProtectedFrames {
    var values: seq<string>
    /** The values as a set, in lower case. */
    ghost var hashed: set<string>

    ghost predicate Valid()
      reads this
    {
      hashed == AllLower(values) && |hashed| == |values| <= REFERENCE_LIMIT
    }

    constructor ()
      ensures Valid() && hashed == {}
    {
      values, hashed := [], {};
    }

    method Contains(sha: string) returns (found: bool)
      requires Valid()
      ensures found <==> Lower(sha) in hashed
    {
      for i := 0 to |values|
        invariant forall k :: 0 <= k < i ==> !SameSha(values[k], sha)
      {
        if SameSha(values[i], sha) {
          AllLowerHas(values, sha);
          return true;
        }
      }
      AllLowerHas(values, sha);
      found := false;
    }

    /** Text that is not a hash needs no protection; a hash is refused only when the set is full. */
    method Add(sha: string) returns (ok: bool)
      requires Valid()
      modifies this
      ensures Valid()
      ensures ok ==> hashed == old(hashed) + if IsSha(sha) then {Lower(sha)} else {}
      ensures !ok ==> && IsSha(sha) && hashed == old(hashed) && Lower(sha) !in hashed
                      && |hashed| == REFERENCE_LIMIT
    {
      if !IsSha(sha) { return true; }
      var known := Contains(sha);
      if known { return true; }
      if |values| >= REFERENCE_LIMIT { return false; }
      AllLowerMore(values, sha);
      values, hashed := values + [sha], hashed + {Lower(sha)};
      ok := true;
    }

    /** All hashes among `texts`, up to the first one too many. */
    method AddEach(texts: seq<string>) returns (ok: bool, ghost at: nat)
      requires Valid()
      modifies this
      ensures Valid()
      ensures ok ==> hashed == old(hashed) + Hashes(texts)
      ensures !ok ==> Overflows(old(hashed), texts, at, hashed)
    {
      ghost var start := hashed;
      assert texts[..0] == [];
      at := 0;
      for i := 0 to |texts|
        invariant Valid() && hashed == start + Hashes(texts[..i])
      {
        ok := AddNext(texts, i, start);
        if !ok { return false, i; }
      }
      assert texts[..|texts|] == texts;
      ok := true;
    }

    method AddNext(texts: seq<string>, i: nat, ghost start: set<string>) returns (ok: bool)
      requires Valid() && i < |texts| && hashed == start + Hashes(texts[..i])
      modifies this
      ensures Valid()
      ensures if ok then hashed == start + Hashes(texts[..i + 1]) else Overflows(start, texts, i, hashed)
    {
      HashesNext(texts, i);
      ok := Add(texts[i]);
    }

    /** All hashes among `texts`; refused exactly if that would be too many. */
    method AddAll(texts: seq<string>) returns (ok: bool)
      requires Valid()
      modifies this
      ensures Valid()
      ensures ok ==> hashed == old(hashed) + Hashes(texts)
      ensures !ok ==> |old(hashed) + Hashes(texts)| > REFERENCE_LIMIT
    {
      ghost var at;
      ok, at := AddEach(texts);
      if !ok { TooMany(old(hashed), texts, at, hashed); }
    }

    /** `addScheduleFrameReferences`. */
    method AddSchedule(s: Schedule) returns (ok: bool)
      requires Valid()
      modifies this
      ensures Valid()
      ensures ok ==> Addable(s) && hashed == old(hashed) + Hashes(ScheduleTexts(s))
      ensures !ok ==> !Addable(s) || |old(hashed) + Hashes(ScheduleTexts(s))| > REFERENCE_LIMIT
    {
      if s.NoText? { return true; }
      if s.Unreadable? || |s.slots| > REFERENCE_LIMIT { return false; }
      ok := AddAll(SlotTexts(s.slots));
    }

    /** Protects what the schedules and the other texts refer to, `all` together. */
    method AddKnown(active: Schedule, staged: Schedule, others: seq<string>, ghost all: set<string>)
        returns (ok: bool)
      requires Valid() && hashed == {}
      requires all == Hashes(ScheduleTexts(active)) + Hashes(ScheduleTexts(staged)) + Hashes(others)
      modifies this
      ensures Valid()
      ensures ok ==> hashed == all
      ensures ok <==> Addable(active) && Addable(staged) && |all| <= REFERENCE_LIMIT
    {
      ok := AddSchedule(active);
      if !ok {
        SubsetIsSmaller({} + Hashes(ScheduleTexts(active)), all);
        return;
      }
      ghost var some := hashed;
      ok := AddSchedule(staged);
      if !ok {
        SubsetIsSmaller(some + Hashes(ScheduleTexts(staged)), all);
        return;
      }
      some := hashed;
      ok := AddAll(others);
      assert some + Hashes(others) == all;
    }
  }

  /** A schedule the collector can take references from. */
  predicate Addable(s: Schedule) {
    s.NoText? || (s.Slots? && |s.slots| <= REFERENCE_LIMIT)
  }

  lemma HashesOfReferences(active: Schedule, staged: Schedule, others: seq<string>, incoming: Option<Schedule>)
    ensures Hashes(References(active, staged, others, incoming))
         == Hashes(ScheduleTexts(active)) + Hashes(ScheduleTexts(staged)) + Hashes(others)
            + Hashes(IncomingTexts(incoming))
  {
    var two := ScheduleTexts(active) + ScheduleTexts(staged);
    HashesConcat(ScheduleTexts(active), ScheduleTexts(staged));
    HashesConcat(two, others);
    HashesConcat(two + others, IncomingTexts(incoming));
  }

  // ----- The directory

  /** A file of one of the frames in `hashes`, or of an artifact beside it. */
  ghost predicate About(e: Entry, hashes: set<string>) {
    |e.name| >= 64 && Lower(e.name[..64]) in hashes
  }

  /** Only files of the frames in `hashes` have come, gone or been renamed. */
  ghost predicate OnlyAbout(before: seq<Entry>, after: seq<Entry>, hashes: set<string>) {
    forall e :: !About(e, hashes) ==> (e in before <==> e in after)
  }

  lemma OnlyAboutThen(first: seq<Entry>, second: seq<Entry>, third: seq<Entry>, some: set<string>, more: set<string>)
    requires OnlyAbout(first, second, some) && OnlyAbout(second, third, more)
    ensures OnlyAbout(first, third, some + more)
  {
    forall e | !About(e, some + more)
      ensures e in first <==> e in third
    {
      assert !About(e, some) && !About(e, more);
    }
  }

  // ----- What a sweep of the directory leaves

  /** A frame file that nothing refers to. */
  ghost predicate Loose(e: Entry, texts: seq<string>) {
    ShaOf(e).Some? && !RefersTo(texts, ShaOf(e).value)
  }

  /** `after` is `before` without `deleted` loose files, in the same order. */
  ghost predicate Collected(before: seq<Entry>, after: seq<Entry>, texts: seq<string>, deleted: nat)
    decreases |before|
  {
    if |before| == 0 then |after| == 0 && deleted == 0
    else
      var n, m := |before| - 1, |after| - 1;
      || (m >= 0 && after[m] == before[n] && Collected(before[..n], after[..m], texts, deleted))
      || (Loose(before[n], texts) && deleted > 0 && Collected(before[..n], after, texts, deleted - 1))
  }

  lemma {:induction false} CollectedNothing(entries: seq<Entry>, texts: seq<string>)
    ensures Collected(entries, entries, texts, 0)
  {
    if |entries| > 0 { CollectedNothing(entries[..|entries| - 1], texts); }
  }

  /** Deleting one more loose file. */
  lemma {:induction false} CollectedMore(before: seq<Entry>, after: seq<Entry>, texts: seq<string>,
                                         deleted: nat, at: nat)
    requires Collected(before, after, texts, deleted) && at < |after| && Loose(after[at], texts)
    ensures Collected(before, after[..at] + after[at + 1..], texts, deleted + 1)
    decreases |before|
  {
    var n, m := |before| - 1, |after| - 1;
    var left := after[..at] + after[at + 1..];
    if after[m] == before[n] && Collected(before[..n], after[..m], texts, deleted) {
      if at == m {
        assert left == after[..m];
      } else {
        CollectedMore(before[..n], after[..m], texts, deleted, at);
        assert left[..m - 1] == after[..m][..at] + after[..m][at + 1..];
      }
    } else {
      CollectedMore(before[..n], after, texts, deleted - 1, at);
    }
  }

  /** Nothing else is lost: every file that is referred to or is no frame is still there. */
  lemma {:induction false} CollectedKeeps(before: seq<Entry>, after: seq<Entry>, texts: seq<string>, deleted: nat)
    requires Collected(before, after, texts, deleted)
    ensures forall e <- after :: e in before
    ensures forall e <- before :: ShaOf(e).None? || RefersTo(texts, ShaOf(e).value) ==> e in after
    ensures FrameCount(before) == FrameCount(after) + deleted && |before| == |after| + deleted
    decreases |before|
  {
    if |before| > 0 {
      var n, m := |before| - 1, |after| - 1;
      assert before == before[..n] + [before[n]];
      if m >= 0 && after[m] == before[n] && Collected(before[..n], after[..m], texts, deleted) {
        assert after == after[..m] + [after[m]];
        CollectedKeeps(before[..n], after[..m], texts, deleted);
      } else {
        CollectedKeeps(before[..n], after, texts, deleted - 1);
      }
    }
  }

  ghost function Kept(entries: seq<Entry>, texts: seq<string>): seq<Entry> {
    if |entries| == 0 then []
    else
      var n := |entries| - 1;
      Kept(entries[..n], texts) + if Loose(entries[n], texts) then [] else [entries[n]]
  }

  ghost function LooseCount(entries: seq<Entry>, texts: seq<string>): nat {
    if |entries| == 0 then 0
    else
      var n := |entries| - 1;
      LooseCount(entries[..n], texts) + if Loose(entries[n], texts) then 1 else 0
  }

  /** The first `n` entries have been swept of everything loose, the others not touched. */
  ghost predicate SweptTo(start: seq<Entry>, entries: seq<Entry>, texts: seq<string>, n: nat, deleted: nat) {
    && n <= |start| && entries == Kept(start[..n], texts) + start[n..]
    && deleted == LooseCount(start[..n], texts)
  }

  lemma PrefixNext(start: seq<Entry>, n: nat)
    requires n < |start|
    ensures start[..n + 1][..n] == start[..n] && start[..n + 1][n] == start[n]
    ensures start[n..] == [start[n]] + start[n + 1..]
  {
  }

  lemma SweptKeep(start: seq<Entry>, entries: seq<Entry>, texts: seq<string>, n: nat, deleted: nat)
    requires SweptTo(start, entries, texts, n, deleted) && n < |start| && !Loose(start[n], texts)
    ensures SweptTo(start, entries, texts, n + 1, deleted)
  {
    PrefixNext(start, n);
    assert Kept(start[..n + 1], texts) == Kept(start[..n], texts) + [start[n]];
  }

  lemma {:induction false} KeptIsNotLoose(entries: seq<Entry>, texts: seq<string>, k: nat)
    requires k < |Kept(entries, texts)|
    ensures !Loose(Kept(entries, texts)[k], texts)
  {
    var n := |entries| - 1;
    if k < |Kept(entries[..n], texts)| { KeptIsNotLoose(entries[..n], texts, k); }
  }

  /** Deleting the first file that equals the next loose one deletes that one. */
  lemma SweptDelete(start: seq<Entry>, entries: seq<Entry>, texts: seq<string>, n: nat, deleted: nat, at: nat)
    requires SweptTo(start, entries, texts, n, deleted) && n < |start| && Loose(start[n], texts)
    requires at < |entries| && entries[at] == start[n] && forall k :: 0 <= k < at ==> entries[k] != start[n]
    ensures SweptTo(start, entries[..at] + entries[at + 1..], texts, n + 1, deleted + 1)
  {
    var kept := Kept(start[..n], texts);
    PrefixNext(start, n);
    assert entries[|kept|] == start[n];
    if at < |kept| { KeptIsNotLoose(start[..n], texts, at); }
    assert entries[..at] == kept && entries[at + 1..] == start[n + 1..];
    assert Kept(start[..n + 1], texts) == kept + [];
  }

  lemma SweptStillThere(start: seq<Entry>, entries: seq<Entry>, texts: seq<string>, n: nat, deleted: nat)
    requires SweptTo(start, entries, texts, n, deleted) && n < |start|
    ensures start[n] in entries
  {
    assert entries[|Kept(start[..n], texts)|] == start[n];
  }

  lemma {:induction false} LooseCountConcat(s: seq<Entry>, t: seq<Entry>, texts: seq<string>)
    ensures LooseCount(s + t, texts) == LooseCount(s, texts) + LooseCount(t, texts)
  {
    if |t| == 0 {
      assert s + t == s;
    } else {
      var n := |t| - 1;
      assert (s + t)[..|s| + n] == s + t[..n];
      LooseCountConcat(s, t[..n], texts);
    }
  }

  lemma {:induction false} LooseCountBounds(entries: seq<Entry>, texts: seq<string>)
    ensures LooseCount(entries, texts) <= FrameCount(entries)
    ensures LooseCount(Kept(entries, texts), texts) == 0
  {
    if |entries| > 0 {
      var n := |entries| - 1;
      LooseCountBounds(entries[..n], texts);
      var kept := Kept(entries[..n], texts);
      LooseCountConcat(kept, if Loose(entries[n], texts) then [] else [entries[n]], texts);
      assert [entries[n]][..0] == [];
    }
  }

  /** What a count may be when no call fails. */
  predicate Counted(entries: seq<Entry>, count: nat) {
    if |entries| > MAX_SCANS_PER_WAKE then count == MAXIMUM_FILES
    else count == FrameCount(entries) || (count == MAXIMUM_FILES && FrameCount(entries) > MAXIMUM_FILES)
  }

  /** A directory within the limits the firmware keeps. */
  predicate Countable(entries: seq<Entry>) {
    |entries| <= MAX_SCANS_PER_WAKE && FrameCount(entries) <= MAXIMUM_FILES
  }

  /** There is room for `missing` frames once `deleted` of `count` are gone. */
  predicate RoomAfter(count: nat, deleted: nat, missing: nat, required: nat, free: nat) {
    count + missing <= MAXIMUM_FILES + deleted && free >= required
  }

  /** There was no room after any deletion but the last; `frees` is the free space after each. */
  ghost predicate NoRoomBefore(count: nat, missing: nat, required: nat, frees: seq<nat>) {
    forall i :: 0 <= i < |frees| - 1 ==> !RoomAfter(count, i + 1, missing, required, frees[i])
  }

  ghost predicate RoomNow(count: nat, missing: nat, required: nat, frees: seq<nat>) {
    |frees| > 0 && RoomAfter(count, |frees|, missing, required, frees[|frees| - 1])
  }

  lemma NoRoomMore(count: nat, missing: nat, required: nat, frees: seq<nat>, free: nat)
    requires NoRoomBefore(count, missing, required, frees) && !RoomNow(count, missing, required, frees)
    ensures NoRoomBefore(count, missing, required, frees + [free])
    ensures RoomNow(count, missing, required, frees + [free]) <==>
              RoomAfter(count, |frees| + 1, missing, required, free)
  {
    var more := frees + [free];
    forall i | 0 <= i < |more| - 1
      ensures !RoomAfter(count, i + 1, missing, required, more[i])
    {
      assert more[i] == frees[i];
    }
  }

  function RequiredFree(missing: nat): nat {
    FREE_SPACE_FLOOR_BYTES + missing * RECORD_BYTES
  }

  function Scanned(entries: seq<Entry>): (n: nat)
    ensures n <= |entries|
  {
    if |entries| < MAX_SCANS_PER_WAKE then |entries| else MAX_SCANS_PER_WAKE
  }

  function Min(a: nat, b: nat): nat {
    if a <= b then a else b
  }

  function Limit(batch: bool): nat {
    if batch then MAXIMUM_FILES else MAX_DELETES_PER_WAKE
  }

  /** The free space in the middle of a sweep; `room` as soon as a batch may stop. */
  ghost predicate Watching(batch: bool, count: nat, missing: nat, required: nat, frees: seq<nat>,
                           first: nat, free: nat, room: bool)
  {
    && |frees| <= Limit(batch) && free == (if |frees| == 0 then first else frees[|frees| - 1])
    && room == (batch && RoomNow(count, missing, required, frees))
    && (batch ==> NoRoomBefore(count, missing, required, frees))
  }

  lemma WatchingMore(batch: bool, count: nat, missing: nat, required: nat, frees: seq<nat>, first: nat, free: nat)
    requires |frees| < Limit(batch) && (batch ==> NoRoomBefore(count, missing, required, frees))
    requires batch ==> !RoomNow(count, missing, required, frees)
    ensures Watching(batch, count, missing, required, frees + [free], first, free,
                     batch && RoomAfter(count, |frees| + 1, missing, required, free))
  {
    if batch { NoRoomMore(count, missing, required, frees, free); }
  }

  /** The directory in the middle of a sweep; `clean` as long as no call has failed. */
  ghost predicate Sweeping(start: seq<Entry>, entries: seq<Entry>, texts: seq<string>, n: nat, deleted: nat,
                           clean: bool)
  {
    Collected(start, entries, texts, deleted) && (clean ==> SweptTo(start, entries, texts, n, deleted))
  }

  lemma SweepingKeep(start: seq<Entry>, entries: seq<Entry>, texts: seq<string>, n: nat, deleted: nat, clean: bool)
    requires Sweeping(start, entries, texts, n, deleted, clean) && n < |start| && !Loose(start[n], texts)
    ensures Sweeping(start, entries, texts, n + 1, deleted, clean)
  {
    if clean { SweptKeep(start, entries, texts, n, deleted); }
  }

  lemma SweepingDelete(start: seq<Entry>, entries: seq<Entry>, texts: seq<string>, n: nat, deleted: nat, clean: bool,
                       at: nat)
    requires Sweeping(start, entries, texts, n, deleted, clean) && n < |start| && Loose(start[n], texts)
    requires at < |entries| && entries[at] == start[n] && forall k :: 0 <= k < at ==> entries[k] != start[n]
    ensures Sweeping(start, entries[..at] + entries[at + 1..], texts, n + 1, deleted + 1, clean)
  {
    CollectedMore(start, entries, texts, deleted, at);
    if clean { SweptDelete(start, entries, texts, n, deleted, at); }
  }

  lemma SweepingWeaken(start: seq<Entry>, entries: seq<Entry>, texts: seq<string>, n: nat, deleted: nat,
                       clean: bool, less: bool)
    requires Sweeping(start, entries, texts, n, deleted, clean) && (less ==> clean)
    ensures Sweeping(start, entries, texts, n, deleted, less)
  {
  }

  lemma SweepingFailed(start: seq<Entry>, entries: seq<Entry>, texts: seq<string>, n: nat, deleted: nat, clean: bool)
    requires Sweeping(start, entries, texts, n, deleted, clean) && n < |start|
    ensures Sweeping(start, entries, texts, n + 1, deleted, false)
    ensures clean ==> start[n] in entries
  {
    if clean { SweptStillThere(start, entries, texts, n, deleted); }
  }

  /** How a sweep of `start` came to its end after `n` entries: all scanned, the limit reached, or,
      for a batch, as soon as there was room. */
  ghost predicate Ended(start: seq<Entry>, batch: bool, count: nat, missing: nat, required: nat,
                        n: nat, frees: seq<nat>)
  {
    && |frees| <= Limit(batch) && n <= Scanned(start)
    && (n == Scanned(start) || |frees| == Limit(batch) || (batch && RoomNow(count, missing, required, frees)))
    && (batch ==> NoRoomBefore(count, missing, required, frees))
  }

  /** A sweep that does not stop for room deletes the first four loose files, or all. */
  lemma EndedWithoutBatch(start: seq<Entry>, entries: seq<Entry>, texts: seq<string>,
                          count: nat, missing: nat, required: nat, n: nat, frees: seq<nat>)
    requires SweptTo(start, entries, texts, n, |frees|)
    requires Ended(start, false, count, missing, required, n, frees)
    ensures |frees| == Min(MAX_DELETES_PER_WAKE, LooseCount(start[..Scanned(start)], texts))
  {
    var paths := start[..Scanned(start)];
    assert paths == paths[..n] + paths[n..] && paths[..n] == start[..n];
    LooseCountConcat(paths[..n], paths[n..], texts);
  }

  /** In a directory of at most 40 frames that was scanned whole, a batch that finds no room has
      deleted everything loose. */
  lemma EndedWithoutRoom(start: seq<Entry>, entries: seq<Entry>, texts: seq<string>,
                         count: nat, missing: nat, required: nat, n: nat, frees: seq<nat>)
    requires SweptTo(start, entries, texts, n, |frees|)
    requires Ended(start, true, count, missing, required, n, frees)
    requires Countable(start) && !RoomNow(count, missing, required, frees)
    ensures LooseCount(entries, texts) == 0
  {
    LooseCountBounds(start[..n], texts);
    LooseCountConcat(Kept(start[..n], texts), start[n..], texts);
    LooseCountConcat(start[..n], start[n..], texts);
    assert start[..n] + start[n..] == start;
    LooseCountBounds(start, texts);
  }

  /** Every hash tried so far is protected beside those of `start`, and its frame found or missed. */
  ghost predicate Tried(start: set<string>, tried: set<string>, hashed: set<string>, seen: set<string>) {
    hashed == start + tried && seen == tried
  }

  class FrameStore {
    var entries: seq<Entry>
    var free: nat
    /** The frame a write in progress is about, if any. */
    var writing: string
    /** The hashes whose frames could be loaded, and could not, since the collector started. */
    ghost var found: set<string>
    ghost var missed: set<string>
    /** How many calls have failed: opening the directory, or deleting a file that is there. */
    ghost var failures: nat

    constructor (entries: seq<Entry>, free: nat, writing: string)
      ensures this.entries == entries && this.free == free && this.writing == writing && failures == 0
    {
      this.entries, this.free, this.writing, failures := entries, free, writing, 0;
    }

    method OpenDirectory() returns (ok: bool)
      modifies this`failures
      ensures failures == old(failures) + if ok then 0 else 1
    {
      ok := *;
      if !ok { failures := failures + 1; }
    }

    /** `countFormalFrameFiles`: exact whenever it is below the limit. */
    method CountFrames() returns (count: nat)
      modifies this`failures
      ensures old(failures) <= failures
      ensures count == FrameCount(entries) || count == MAXIMUM_FILES
      ensures FrameCount(entries) >= MAXIMUM_FILES ==> count >= MAXIMUM_FILES
      ensures failures == old(failures) ==> Counted(entries, count)
    {
      var readable := OpenDirectory();
      if !readable { return MAXIMUM_FILES; }
      count := 0;
      var scanned := 0;
      while scanned < |entries| && count <= MAXIMUM_FILES && scanned < MAX_SCANS_PER_WAKE
        invariant 0 <= scanned <= |entries| && scanned <= MAX_SCANS_PER_WAKE
        invariant count == FrameCount(entries[..scanned])
      {
        assert entries[..scanned + 1][..scanned] == entries[..scanned];
        if ShaOf(entries[scanned]).Some? { count := count + 1; }
        scanned := scanned + 1;
      }
      assert entries == entries[..scanned] + entries[scanned..];
      FrameCountConcat(entries[..scanned], entries[scanned..]);
      if scanned < |entries| { return MAXIMUM_FILES; }
      assert entries[..scanned] == entries;
    }

    /** Deleting a file may fail; if it succeeds, space does not shrink. */
    method Remove(e: Entry) returns (ok: bool, ghost at: nat)
      modifies this`entries, this`free, this`failures
      ensures ok ==>
                && at < |old(entries)| && old(entries)[at] == e && old(free) <= free && failures == old(failures)
                && (forall k :: 0 <= k < at ==> old(entries)[k] != e)
                && entries == old(entries)[..at] + old(entries)[at + 1..]
      ensures !ok ==> entries == old(entries) && free == old(free) && old(failures) <= failures
      ensures !ok && failures == old(failures) ==> e !in entries
    {
      var position := 0;
      while position < |entries| && entries[position] != e
        invariant 0 <= position <= |entries| && forall k :: 0 <= k < position ==> entries[k] != e
      {
        position := position + 1;
      }
      at := position;
      if position == |entries| { return false, at; }
      ok := *;
      if ok {
        entries := entries[..position] + entries[position + 1..];
        var more :| more >= free;
        free := more;
      } else {
        failures := failures + 1;
      }
    }

    /** `loadFormalFrame` as far as the directory is concerned: it may drop or rename copies of
        the frame it is asked for, and nothing else. */
    method LoadFrame(sha: string) returns (loaded: bool)
      modifies this`entries, this`free, this`found, this`missed
      ensures OnlyAbout(old(entries), entries, {Lower(sha)})
      ensures found == old(found) + if loaded then {Lower(sha)} else {}
      ensures missed == old(missed) + if loaded then {} else {Lower(sha)}
    {
      var kept: seq<Entry> := [];
      for i := 0 to |entries|
        invariant OnlyAbout(entries[..i], kept, {Lower(sha)})
      {
        var e := entries[i];
        assert entries[..i + 1] == entries[..i] + [e];
        if |e.name| >= 64 && SameSha(sha, e.name[..64]) {
          assert About(e, {Lower(sha)});
          var drop: bool := *;
          var suffix: string := *;
          var renamed := e.(name := e.name[..64] + suffix);
          assert renamed.name[..64] == e.name[..64];
          assert About(renamed, {Lower(sha)});
          if !drop { kept := kept + [renamed]; }
        } else {
          kept := kept + [e];
        }
      }
      assert entries[..|entries|] == entries;
      entries := kept;
      free := *;
      loaded := *;
      if loaded { found := found + {Lower(sha)}; } else { missed := missed + {Lower(sha)}; }
    }

    /** Counts the incoming frames that cannot be loaded, each hash once, and protects all of
        them. `at` is where it had to give up. */
    method CountMissing(texts: seq<string>, protectedFrames: ProtectedFrames)
        returns (ok: bool, missing: nat, ghost at: nat)
      requires protectedFrames.Valid() && found == missed == {}
      modifies this`entries, this`free, this`found, this`missed, protectedFrames
      ensures protectedFrames.Valid()
      ensures ok ==> Loadable(texts) && protectedFrames.hashed == old(protectedFrames.hashed) + Hashes(texts)
      ensures !ok ==> !Loadable(texts) || Overflows(old(protectedFrames.hashed), texts, at, protectedFrames.hashed)
      ensures found !! missed && missing == |missed|
      ensures if ok then found + missed == Hashes(texts) else found + missed <= Hashes(texts)
      ensures OnlyAbout(old(entries), entries, found + missed)
    {
      ghost var start := protectedFrames.hashed;
      var index := 0;
      ok, missing, at := |texts| <= MAX_BATCH_SLOTS, 0, 0;
      assert texts[..0] == [];
      while ok && index < |texts|
        invariant index <= |texts| && protectedFrames.Valid()
        invariant found !! missed && missing == |missed| && found + missed <= Hashes(texts[..index])
        invariant OnlyAbout(old(entries), entries, found + missed)
        invariant ok ==> |texts| <= MAX_BATCH_SLOTS && AllSha(texts, index)
        invariant ok ==> Tried(start, Hashes(texts[..index]), protectedFrames.hashed, found + missed)
        invariant !ok ==> !Loadable(texts) || Overflows(start, texts, at, protectedFrames.hashed)
      {
        ok, missing := TryNext(texts, index, protectedFrames, missing, start, old(entries));
        at, index := index, index + 1;
      }
      HashesPrefix(texts, index);
      assert ok ==> texts[..index] == texts;
    }

    /** One slot: it must carry a hash, and is skipped if the hash was seen before. */
    method TryNext(texts: seq<string>, index: nat, protectedFrames: ProtectedFrames, missing: nat,
                   ghost start: set<string>, ghost first: seq<Entry>)
        returns (ok: bool, missing': nat)
      requires protectedFrames.Valid() && index < |texts| && AllSha(texts, index)
      requires found !! missed && missing == |missed|
      requires Tried(start, Hashes(texts[..index]), protectedFrames.hashed, found + missed)
      requires OnlyAbout(first, entries, found + missed)
      modifies this`entries, this`free, this`found, this`missed, protectedFrames
      ensures protectedFrames.Valid() && found !! missed && missing' == |missed|
      ensures ok ==> AllSha(texts, index + 1)
                     && Tried(start, Hashes(texts[..index + 1]), protectedFrames.hashed, found + missed)
      ensures !ok ==> !Loadable(texts) || Overflows(start, texts, index, protectedFrames.hashed)
      ensures found + missed <= Hashes(texts[..index + 1])
      ensures OnlyAbout(first, entries, found + missed)
    {
      HashesNext(texts, index);
      missing', ok := missing, IsSha(texts[index]);
      if !ok {
        if Loadable(texts) { AllShaAt(texts, |texts|, index); }
        return;
      }
      var duplicate := SeenBefore(texts, index);
      if !duplicate {
        ok := protectedFrames.Add(texts[index]);
        if ok { missing' := LoadIncoming(texts[index], missing, first); }
      }
    }

    /** Looks for the frame of a hash that was not looked for before. */
    method LoadIncoming(sha: string, missing: nat, ghost first: seq<Entry>) returns (missing': nat)
      requires found !! missed && missing == |missed| && Lower(sha) !in found + missed
      requires OnlyAbout(first, entries, found + missed)
      modifies this`entries, this`free, this`found, this`missed
      ensures found !! missed && missing' == |missed| && found + missed == old(found + missed) + {Lower(sha)}
      ensures OnlyAbout(first, entries, found + missed)
    {
      ghost var before, seen := entries, found + missed;
      var loaded := LoadFrame(sha);
      OnlyAboutThen(first, before, entries, seen, {Lower(sha)});
      assert found + missed == seen + {Lower(sha)};
      missing' := if loaded then missing else missing + 1;
    }

    method SeenBefore(texts: seq<string>, index: nat) returns (duplicate: bool)
      requires index < |texts|
      requires AllSha(texts, index) && IsSha(texts[index])
      ensures duplicate <==> Lower(texts[index]) in Hashes(texts[..index])
    {
      duplicate := false;
      for previous := 0 to index
        invariant duplicate <==> exists k :: 0 <= k < previous && SameSha(texts[index], texts[k])
      {
        if SameSha(texts[index], texts[previous]) { duplicate := true; }
      }
      SeenIsHashed(texts, index);
    }

    /** The deletion loop: over a snapshot of the directory, in directory order. `frees` is the
        free space after each deletion. */
    method DeleteUnreferenced(protectedFrames: ProtectedFrames, ghost texts: seq<string>,
                              batch: bool, counted: nat, missing: nat, requiredFree: nat)
        returns (deleted: nat, ghost n: nat, ghost frees: seq<nat>)
      requires protectedFrames.Valid() && protectedFrames.hashed == Hashes(texts)
      modifies this`entries, this`free, this`failures
      ensures old(failures) <= failures && |frees| == deleted
      ensures Sweeping(old(entries), entries, texts, n, deleted, failures == old(failures))
      ensures Ended(old(entries), batch, counted, missing, requiredFree, n, frees)
      ensures free == if deleted == 0 then old(free) else frees[deleted - 1]
    {
      var paths, scanned := entries, Scanned(entries);
      ghost var start, clean := entries, true;
      var index, room := 0, false;
      deleted, frees := 0, [];
      SweptNothing(start, texts);
      while index < scanned && deleted < Limit(batch) && !room
        invariant index <= scanned && old(failures) <= failures
        invariant Sweeping(start, entries, texts, index, deleted, clean) && (failures == old(failures) ==> clean)
        invariant |frees| == deleted && Watching(batch, counted, missing, requiredFree, frees, old(free), free, room)
      {
        var removed;
        removed, deleted, clean := DeleteIfLoose(paths[index], protectedFrames, texts, start, index, deleted, clean);
        if removed {
          WatchingMore(batch, counted, missing, requiredFree, frees, old(free), free);
          frees := frees + [free];
          room := batch && RoomAfter(counted, deleted, missing, requiredFree, free);
        }
        index := index + 1;
      }
      n := index;
      SweepingWeaken(start, entries, texts, n, deleted, clean, failures == old(failures));
    }

    /** One file of the snapshot, deleted unless it is protected or no frame. */
    method DeleteIfLoose(path: Entry, protectedFrames: ProtectedFrames, ghost texts: seq<string>,
                         ghost start: seq<Entry>, ghost index: nat, deleted: nat, ghost clean: bool)
        returns (removed: bool, deleted': nat, ghost clean': bool)
      requires protectedFrames.Valid() && protectedFrames.hashed == Hashes(texts)
      requires index < |start| && path == start[index]
      requires Sweeping(start, entries, texts, index, deleted, clean)
      modifies this`entries, this`free, this`failures
      ensures old(failures) <= failures && clean' == (clean && failures == old(failures))
      ensures deleted' == if removed then deleted + 1 else deleted
      ensures Sweeping(start, entries, texts, index + 1, deleted', clean')
      ensures !removed ==> free == old(free)
    {
      removed, deleted', clean' := false, deleted, clean;
      var sha := ShaOf(path);
      var loose := sha.Some?;
      if loose {
        RefersToHash(texts, sha.value);
        var kept := protectedFrames.Contains(sha.value);
        loose := !kept;
      }
      if !loose {
        SweepingKeep(start, entries, texts, index, deleted, clean);
        return;
      }
      ghost var before := entries;
      ghost var at;
      removed, at := Remove(path);
      if removed {
        deleted' := deleted + 1;
        SweepingDelete(start, before, texts, index, deleted, clean, at);
      } else {
        clean' := false;
        SweepingFailed(start, before, texts, index, deleted, clean);
      }
    }

    /** `runFormalFrameGc`. `counted` is the directory when the counting starts: up to there only
        files of incoming frames can have changed. */
    method RunGc(active: Schedule, activeStored: bool, staged: Schedule, stagedStored: bool,
                 current: string, lastGood: string, inFlight: string, recovery: string,
                 incoming: Option<Schedule>)
        returns (ok: bool, missing: nat, ghost counted: seq<Entry>, ghost deleted: nat, ghost n: nat)
      modifies this`entries, this`free, this`found, this`missed, this`failures
      ensures old(failures) <= failures && deleted <= Limit(incoming.Some?)
      ensures OnlyAbout(old(entries), counted, found + missed) && found + missed <= Hashes(IncomingTexts(incoming))
      ensures incoming.None? ==> counted == old(entries)
      ensures var others := [current, lastGood, inFlight, recovery, writing];
              Sweeping(counted, entries, References(active, staged, others, incoming), n, deleted,
                       failures == old(failures))
      ensures var texts := References(active, staged, [current, lastGood, inFlight, recovery, writing], incoming);
              !Startable(active, activeStored, staged, stagedStored, incoming, Hashes(texts)) ==>
                !ok && entries == counted && deleted == 0
      ensures var texts := References(active, staged, [current, lastGood, inFlight, recovery, writing], incoming);
              Startable(active, activeStored, staged, stagedStored, incoming, Hashes(texts))
              && failures == old(failures) ==>
                && (incoming.None? ==> ok && deleted == Due(counted, old(free), texts))
                && (incoming.Some? && !ok ==> NotRoomy(entries, missing, free))
                && (incoming.Some? && !ok && Countable(counted) ==> LooseCount(entries, texts) == 0)
      ensures found !! missed && missing == |missed|
      ensures ok ==> found + missed == Hashes(IncomingTexts(incoming))
      ensures ok && incoming.Some? ==> Roomy(entries, missing, free)
    {
      var others := [current, lastGood, inFlight, recovery, writing];
      ghost var texts := References(active, staged, others, incoming);
      HashesOfReferences(active, staged, others, incoming);
      ok, missing, counted, deleted, n :=
        CollectIfSafe(active, activeStored, staged, stagedStored, others, incoming, texts, Hashes(texts));
    }

    /** With `texts` and their hashes `all` as what everything refers to: refuses unless every
        stored schedule is readable. */
    method CollectIfSafe(active: Schedule, activeStored: bool, staged: Schedule, stagedStored: bool,
                         others: seq<string>, incoming: Option<Schedule>,
                         ghost texts: seq<string>, ghost all: set<string>)
        returns (ok: bool, missing: nat, ghost counted: seq<Entry>, ghost deleted: nat, ghost n: nat)
      requires all == Hashes(texts)
      requires all == Hashes(ScheduleTexts(active)) + Hashes(ScheduleTexts(staged)) + Hashes(others)
                      + Hashes(IncomingTexts(incoming))
      modifies this`entries, this`free, this`found, this`missed, this`failures
      ensures old(failures) <= failures && deleted <= Limit(incoming.Some?)
      ensures OnlyAbout(old(entries), counted, found + missed) && found + missed <= Hashes(IncomingTexts(incoming))
      ensures incoming.None? ==> counted == old(entries)
      ensures Sweeping(counted, entries, texts, n, deleted, failures == old(failures))
      ensures !Startable(active, activeStored, staged, stagedStored, incoming, all) ==>
                !ok && entries == counted && deleted == 0
      ensures Startable(active, activeStored, staged, stagedStored, incoming, all) && failures == old(failures) ==>
                && (incoming.None? ==> ok && deleted == Due(counted, old(free), texts))
                && (incoming.Some? && !ok ==> NotRoomy(entries, missing, free))
                && (incoming.Some? && !ok && Countable(counted) ==> LooseCount(entries, texts) == 0)
      ensures found !! missed && missing == |missed|
      ensures ok ==> found + missed == Hashes(IncomingTexts(incoming))
      ensures ok && incoming.Some? ==> Roomy(entries, missing, free)
    {
      if SafeForGc(active, activeStored) && SafeForGc(staged, stagedStored) {
        ok, missing, counted, deleted, n := Collect(active, staged, others, incoming, texts, all);
      } else {
        ok, missing, counted, deleted, n, found, missed := false, 0, entries, 0, 0, {}, {};
        SweptNothing(entries, texts);
      }
    }

    /** The collector proper. */
    method Collect(active: Schedule, staged: Schedule, others: seq<string>, incoming: Option<Schedule>,
                   ghost texts: seq<string>, ghost all: set<string>)
        returns (ok: bool, missing: nat, ghost counted: seq<Entry>, ghost deleted: nat, ghost n: nat)
      requires all == Hashes(texts)
      requires all == Hashes(ScheduleTexts(active)) + Hashes(ScheduleTexts(staged)) + Hashes(others)
                      + Hashes(IncomingTexts(incoming))
      modifies this`entries, this`free, this`found, this`missed, this`failures
      ensures old(failures) <= failures && deleted <= Limit(incoming.Some?)
      ensures OnlyAbout(old(entries), counted, found + missed) && found + missed <= Hashes(IncomingTexts(incoming))
      ensures incoming.None? ==> counted == old(entries)
      ensures Sweeping(counted, entries, texts, n, deleted, failures == old(failures))
      ensures !Protectable(active, staged, incoming, all) ==>
                !ok && entries == counted && deleted == 0
      ensures Protectable(active, staged, incoming, all) && failures == old(failures) ==>
                && (incoming.None? ==> ok && deleted == Due(counted, old(free), texts))
                && (incoming.Some? && !ok ==> NotRoomy(entries, missing, free))
                && (incoming.Some? && !ok && Countable(counted) ==> LooseCount(entries, texts) == 0)
      ensures found !! missed && missing == |missed|
      ensures ok ==> found + missed == Hashes(IncomingTexts(incoming))
      ensures ok && incoming.Some? ==> Roomy(entries, missing, free)
    {
      deleted, n, found, missed := 0, 0, {}, {};
      var frames := new ProtectedFrames();
      ok, missing := ProtectAll(active, staged, others, incoming, frames, all);
      counted := entries;
      SweptNothing(entries, texts);
      if ok { ok, deleted, n := MakeRoom(frames, texts, incoming.Some?, missing); }
    }

    /** The first half of the collector: protects everything that is referred to, `all` together,
        and counts the incoming frames that are missing. */
    method ProtectAll(active: Schedule, staged: Schedule, others: seq<string>, incoming: Option<Schedule>,
                      frames: ProtectedFrames, ghost all: set<string>)
        returns (ok: bool, missing: nat)
      requires frames.Valid() && frames.hashed == {} && found == missed == {}
      requires all == Hashes(ScheduleTexts(active)) + Hashes(ScheduleTexts(staged)) + Hashes(others)
                      + Hashes(IncomingTexts(incoming))
      modifies this`entries, this`free, this`found, this`missed, frames
      ensures frames.Valid() && (ok ==> frames.hashed == all)
      ensures ok <==> Addable(active) && Addable(staged) && Fetchable(incoming) && |all| <= REFERENCE_LIMIT
      ensures incoming.None? ==> entries == old(entries) && free == old(free) && missing == 0
      ensures OnlyAbout(old(entries), entries, found + missed) && found + missed <= Hashes(IncomingTexts(incoming))
      ensures found !! missed && missing == |missed|
      ensures ok ==> found + missed == Hashes(IncomingTexts(incoming))
    {
      missing := 0;
      ghost var known := Hashes(ScheduleTexts(active)) + Hashes(ScheduleTexts(staged)) + Hashes(others);
      ok := frames.AddKnown(active, staged, others, known);
      if !ok {
        SubsetIsSmaller(known, all);
      } else if incoming.Some? {
        ok, missing := ProtectIncoming(incoming.value, frames);
      }
    }

    method ProtectIncoming(incoming: Schedule, frames: ProtectedFrames) returns (ok: bool, missing: nat)
      requires frames.Valid() && found == missed == {}
      modifies this`entries, this`free, this`found, this`missed, frames
      ensures frames.Valid()
      ensures ok ==> frames.hashed == old(frames.hashed) + Hashes(ScheduleTexts(incoming))
      ensures ok <==> Fetchable(Some(incoming))
                      && |old(frames.hashed) + Hashes(ScheduleTexts(incoming))| <= REFERENCE_LIMIT
      ensures OnlyAbout(old(entries), entries, found + missed) && found + missed <= Hashes(ScheduleTexts(incoming))
      ensures found !! missed && missing == |missed|
      ensures ok ==> found + missed == Hashes(ScheduleTexts(incoming))
    {
      if !incoming.Slots? { return false, 0; }
      ghost var at;
      ok, missing, at := CountMissing(SlotTexts(incoming.slots), frames);
      if !ok && Loadable(SlotTexts(incoming.slots)) {
        TooMany(old(frames.hashed), SlotTexts(incoming.slots), at, frames.hashed);
      }
    }

    /** The second half of the collector, once everything is protected. */
    method MakeRoom(protectedFrames: ProtectedFrames, ghost texts: seq<string>, batch: bool, missing: nat)
        returns (ok: bool, ghost deleted: nat, ghost n: nat)
      requires protectedFrames.Valid() && protectedFrames.hashed == Hashes(texts) && (!batch ==> missing == 0)
      modifies this`entries, this`free, this`failures
      ensures old(failures) <= failures && deleted <= Limit(batch)
      ensures Sweeping(old(entries), entries, texts, n, deleted, failures == old(failures))
      ensures failures == old(failures) && !batch ==> ok && deleted == Due(old(entries), old(free), texts)
      ensures ok && batch ==> Roomy(entries, missing, free)
      ensures failures == old(failures) && batch && !ok ==>
                NotRoomy(entries, missing, free) && (Countable(old(entries)) ==> LooseCount(entries, texts) == 0)
    {
      deleted, n := 0, 0;
      SweptNothing(entries, texts);
      var counted := CountFrames();
      var pressure := free < RequiredFree(missing);
      if !pressure && (if batch then counted + missing <= MAXIMUM_FILES else counted < MAXIMUM_FILES) {
        return true, 0, 0;
      }
      var readable := OpenDirectory();
      if !readable { return false, 0, 0; }
      if batch {
        ok, deleted, n := SweepForBatch(protectedFrames, texts, counted, missing);
      } else {
        deleted, n := SweepSome(protectedFrames, texts, counted);
        ok := true;
      }
    }

    /** The sweep of a run without an incoming schedule. */
    method SweepSome(protectedFrames: ProtectedFrames, ghost texts: seq<string>, counted: nat)
        returns (ghost deleted: nat, ghost n: nat)
      requires protectedFrames.Valid() && protectedFrames.hashed == Hashes(texts)
      modifies this`entries, this`free, this`failures
      ensures old(failures) <= failures && deleted <= MAX_DELETES_PER_WAKE
      ensures Sweeping(old(entries), entries, texts, n, deleted, failures == old(failures))
      ensures failures == old(failures) ==>
                deleted == Min(MAX_DELETES_PER_WAKE, LooseCount(old(entries)[..Scanned(old(entries))], texts))
    {
      ghost var start, frees := entries, [];
      var count;
      count, n, frees := DeleteUnreferenced(protectedFrames, texts, false, counted, 0, RequiredFree(0));
      deleted := count;
      if failures == old(failures) {
        EndedWithoutBatch(start, entries, texts, counted, 0, RequiredFree(0), n, frees);
      }
    }

    /** The sweep for an incoming schedule, and the second look at what is left. */
    method SweepForBatch(protectedFrames: ProtectedFrames, ghost texts: seq<string>, counted: nat, missing: nat)
        returns (ok: bool, ghost deleted: nat, ghost n: nat)
      requires protectedFrames.Valid() && protectedFrames.hashed == Hashes(texts)
      modifies this`entries, this`free, this`failures
      ensures old(failures) <= failures && deleted <= MAXIMUM_FILES
      ensures Sweeping(old(entries), entries, texts, n, deleted, failures == old(failures))
      ensures ok ==> Roomy(entries, missing, free)
      ensures failures == old(failures) && !ok ==> NotRoomy(entries, missing, free)
      ensures failures == old(failures) && !ok && Countable(old(entries)) && Counted(old(entries), counted) ==>
                LooseCount(entries, texts) == 0
    {
      ghost var start, frees := entries, [];
      var count;
      count, n, frees := DeleteUnreferenced(protectedFrames, texts, true, counted, missing, RequiredFree(missing));
      deleted := count;
      var left := CountFrames();
      ok := left + missing <= MAXIMUM_FILES && free >= RequiredFree(missing);
      if !ok && failures == old(failures) && Countable(start) && Counted(start, counted) {
        SweepingCounts(start, entries, texts, n, deleted);
        if !RoomNow(counted, missing, RequiredFree(missing), frees) {
          EndedWithoutRoom(start, entries, texts, counted, missing, RequiredFree(missing), n, frees);
        }
      }
    }
  }

  /** Room for the missing frames, as far as the collector promises it. */
  predicate Roomy(entries: seq<Entry>, missing: nat, free: nat) {
    free >= RequiredFree(missing) && (missing > 0 ==> FrameCount(entries) + missing <= MAXIMUM_FILES)
  }

  /** Room that is missing, or cannot be seen because there are too many entries. */
  predicate NotRoomy(entries: seq<Entry>, missing: nat, free: nat) {
    || free < RequiredFree(missing) || FrameCount(entries) + missing > MAXIMUM_FILES
    || |entries| > MAX_SCANS_PER_WAKE
  }

  lemma SweepingCounts(start: seq<Entry>, entries: seq<Entry>, texts: seq<string>, n: nat, deleted: nat)
    requires Sweeping(start, entries, texts, n, deleted, true) && Countable(start)
    ensures FrameCount(entries) + deleted == FrameCount(start) && Countable(entries)
  {
    CollectedKeeps(start, entries, texts, deleted);
  }

  lemma SweptNothing(entries: seq<Entry>, texts: seq<string>)
    ensures SweptTo(entries, entries, texts, 0, 0) && Sweeping(entries, entries, texts, 0, 0, true)
  {
    CollectedNothing(entries, texts);
    assert entries[..0] == [] && entries[0..] == entries;
  }

  /** How many frames a run without an incoming schedule deletes: the first four loose ones among
      the first 64 entries, if there are 40 frames or more, or not enough space, or more entries
      than can be counted. */
  ghost function Due(entries: seq<Entry>, free: nat, texts: seq<string>): nat {
    if FrameCount(entries) >= MAXIMUM_FILES || |entries| > MAX_SCANS_PER_WAKE || free < FREE_SPACE_FLOOR_BYTES
    then Min(MAX_DELETES_PER_WAKE, LooseCount(entries[..Scanned(entries)], texts))
    else 0
  }

  function IncomingTexts(incoming: Option<Schedule>): seq<string> {
    if incoming.Some? then ScheduleTexts(incoming.value) else []
  }

  /** Every text that may refer to a frame. */
  function References(active: Schedule, staged: Schedule, others: seq<string>, incoming: Option<Schedule>): seq<string>
  {
    ScheduleTexts(active) + ScheduleTexts(staged) + others + IncomingTexts(incoming)
  }

  /** `scheduleJsonSafeForGc`: a stored schedule has to be readable. */
  predicate SafeForGc(s: Schedule, stored: bool) {
    !stored || s.Slots?
  }

  /** At most 16 slots, each with a hash. */
  predicate Loadable(texts: seq<string>) {
    |texts| <= MAX_BATCH_SLOTS && AllSha(texts, |texts|)
  }

  predicate AllSha(texts: seq<string>, n: nat)
    requires n <= |texts|
  {
    n == 0 || (AllSha(texts, n - 1) && IsSha(texts[n - 1]))
  }

  lemma {:induction false} AllShaAt(texts: seq<string>, n: nat, i: nat)
    requires i < n <= |texts| && AllSha(texts, n)
    ensures IsSha(texts[i])
  {
    if i < n - 1 { AllShaAt(texts, n - 1, i); }
  }

  /** An incoming schedule, if any, can be read and its frames can be looked for. */
  predicate Fetchable(incoming: Option<Schedule>) {
    incoming.Some? ==> incoming.value.Slots? && Loadable(ScheduleTexts(incoming.value))
  }

  /** When the collector starts: every stored schedule is readable, an incoming one can be looked
      for, and all that is referred to can be protected. */
  predicate Startable(active: Schedule, activeStored: bool, staged: Schedule, stagedStored: bool,
                      incoming: Option<Schedule>, all: set<string>)
  {
    && SafeForGc(active, activeStored) && SafeForGc(staged, stagedStored)
    && Protectable(active, staged, incoming, all)
  }

  /** All that is referred to can be protected. */
  predicate Protectable(active: Schedule, staged: Schedule, incoming: Option<Schedule>, all: set<string>) {
    Addable(active) && Addable(staged) && Fetchable(incoming) && |all| <= REFERENCE_LIMIT
  }
}
