/** The recovery record that a device stuck awake keeps in memory that survives a reset. The record
    is guarded by a magic word and by inverted copies, so a reset in the middle of a write shows. */
module MaxAwake {

  type uint32 = x: int | 0 <= x < 0x1_0000_0000

  const MAGIC: uint32 := 0x494D4132
  const THRESHOLD: uint32 := 3
  const MAXIMUM: uint32 := 5

  function Not(x: uint32): uint32 {
    0xFFFF_FFFF - x
  }

  datatype State = State(
    magic: uint32,
    timeouts: uint32, timeoutsInverse: uint32,
    completed: uint32, completedInverse: uint32)

  datatype Event = Timeout | SupervisorFailure | SleepCompleted

  /** An event whose write of the record is cut short by a reset after `written` of its five words. */
  datatype Step = Step(event: Event, written: nat)

  predicate Valid(s: State) {
    && s.magic == MAGIC
    && s.timeouts <= MAXIMUM
    && s.timeoutsInverse == Not(s.timeouts)
    && s.completed <= s.timeouts
    && s.completedInverse == Not(s.completed)
  }

  function Count(s: State): (count: uint32)
    ensures count <= MAXIMUM
  {
    if Valid(s) then s.timeouts else if s.magic == MAGIC then MAXIMUM else 0
  }

  predicate ShouldSleep(s: State) {
    if !Valid(s) then s.magic == MAGIC
    else s.timeouts >= THRESHOLD && s.completed < s.timeouts
  }

  function SleepSeconds(s: State): nat {
    if Count(s) <= THRESHOLD then 60 * 60
    else if Count(s) == THRESHOLD + 1 then 6 * 60 * 60
    else 24 * 60 * 60
  }

  /** The first `words` of the five assignments that write the record. */
  function WritePrefix(s: State, count: uint32, completed: uint32, words: nat): State {
    var s := if words > 0 then s.(timeouts := count) else s;
    var s := if words > 1 then s.(timeoutsInverse := Not(count)) else s;
    var s := if words > 2 then s.(completed := completed) else s;
    var s := if words > 3 then s.(completedInverse := Not(completed)) else s;
    if words > 4 then s.(magic := MAGIC) else s
  }

  function NextCount(count: uint32, event: Event): (next: uint32)
    requires count <= MAXIMUM
    ensures count <= next <= MAXIMUM && 0 < next
  {
    match event
    case Timeout => if count < MAXIMUM then count + 1 else count
    case SupervisorFailure =>
      if count < THRESHOLD then THRESHOLD else if count < MAXIMUM then count + 1 else count
    case SleepCompleted => if count >= THRESHOLD then count else THRESHOLD
  }

  function NextCompleted(count: uint32, event: Event): (completed: uint32)
    requires count <= MAXIMUM
  {
    if event == SleepCompleted then NextCount(count, event) else NextCount(count, event) - 1
  }

  function Perform(s: State, step: Step): State {
    WritePrefix(s, NextCount(Count(s), step.event), NextCompleted(Count(s), step.event), step.written)
  }

  function Run(s: State, steps: seq<Step>): State {
    if |steps| == 0 then s else Perform(Run(s, steps[..|steps| - 1]), steps[|steps| - 1])
  }

  /** Resetting the record, cut short after `words` of its five words. */
  function CutReset(s: State, words: nat): State {
    WritePrefix(s, 0, 0, words)
  }

  predicate Uncut(steps: seq<Step>) {
    forall step <- steps :: step.written >= 5
  }

  // ----- The record itself

  /** The words in memory that survives a reset. */
  class RecoveryRecord {
    var magic: uint32
    var timeouts: uint32
    var timeoutsInverse: uint32
    var completed: uint32
    var completedInverse: uint32

    function View(): State
      reads this
    {
      State(magic, timeouts, timeoutsInverse, completed, completedInverse)
    }

    /** `resetMaxAwakeRecoveryState`: the same five words in the same order, zero each. */
    method Reset(words: nat)
      modifies this
      ensures View() == CutReset(old(View()), words)
      ensures words >= 5 ==> Valid(View()) && Count(View()) == 0 && !ShouldSleep(View())
    {
      if words == 0 { return; }
      timeouts := 0;
      if words == 1 { return; }
      timeoutsInverse := 0xFFFF_FFFF;
      if words == 2 { return; }
      completed := 0;
      if words == 3 { return; }
      completedInverse := 0xFFFF_FFFF;
      if words == 4 { return; }
      magic := MAGIC;
    }

    /** Writes the five words in order. The reset can come after any of them. */
    method Write(count: uint32, completedFor: uint32, words: nat)
      modifies this
      ensures View() == WritePrefix(old(View()), count, completedFor, words)
    {
      if words == 0 { return; }
      timeouts := count;
      if words == 1 { return; }
      timeoutsInverse := Not(count);
      if words == 2 { return; }
      completed := completedFor;
      if words == 3 { return; }
      completedInverse := Not(completedFor);
      if words == 4 { return; }
      magic := MAGIC;
    }

    method RecordTimeout(words: nat) returns (next: uint32)
      modifies this
      ensures View() == Perform(old(View()), Step(Timeout, words))
      ensures words >= 5 ==> Valid(View()) && next == Count(View())
      ensures words >= 5 ==> (ShouldSleep(View()) <==> next >= THRESHOLD)
    {
      var current := Count(View());
      next := if current < MAXIMUM then current + 1 else current;
      Write(next, if next > 0 then next - 1 else 0, words);
    }

    method RecordSupervisorFailure(words: nat) returns (next: uint32)
      modifies this
      ensures View() == Perform(old(View()), Step(SupervisorFailure, words))
      ensures words >= 5 ==> Valid(View()) && next == Count(View()) && ShouldSleep(View())
    {
      var current := Count(View());
      next := if current < THRESHOLD then THRESHOLD
              else if current < MAXIMUM then current + 1 else current;
      Write(next, next - 1, words);
    }

    method MarkSleepCompleted(words: nat)
      modifies this
      ensures View() == Perform(old(View()), Step(SleepCompleted, words))
      ensures words >= 5 ==> Valid(View()) && !ShouldSleep(View()) && Count(View()) >= THRESHOLD
    {
      var count := Count(View());
      var safeCount := if count >= THRESHOLD then count else THRESHOLD;
      Write(safeCount, safeCount, words);
    }
  }

  // ----- Runs

  /** Memory in which no reset during a write can fake a completed sleep: a completed mark of the
      last stage comes with a count of the last stage. */
  predicate Sound(s: State) {
    s.magic == MAGIC && s.completed == MAXIMUM && s.completedInverse == Not(MAXIMUM) ==>
      s.timeouts == MAXIMUM && s.timeoutsInverse == Not(MAXIMUM)
  }

  lemma ValidOrFreshIsSound(s: State)
    requires Valid(s) || s.magic != MAGIC
    ensures Sound(s)
  {
  }

  lemma CutKeepsCount(s: State, step: Step)
    ensures Count(s) <= Count(Perform(s, step))
    ensures Sound(s) ==> Sound(Perform(s, step))
    ensures Sound(s) && ShouldSleep(s) && step.event != SleepCompleted ==> ShouldSleep(Perform(s, step))
    ensures step.written >= 5 ==> Valid(Perform(s, step)) && Count(Perform(s, step)) == NextCount(Count(s), step.event)
  {
    assert step.written == 0 || step.written == 1 || step.written == 2 || step.written == 3
           || step.written == 4 || step.written >= 5;
  }

  /** A demanded sleep survives every reset during every other event exactly when the memory is
      sound. */
  lemma DemandSurvivesCuts(s: State)
    requires ShouldSleep(s)
    ensures (forall step: Step | step.event != SleepCompleted :: ShouldSleep(Perform(s, step))) <==> Sound(s)
  {
    if Sound(s) {
      forall step: Step | step.event != SleepCompleted
        ensures ShouldSleep(Perform(s, step))
      {
        CutKeepsCount(s, step);
      }
    } else {
      assert !ShouldSleep(Perform(s, Step(Timeout, 2)));
    }
  }

  /** Damaged memory can be unsound, and then one reset during a timeout drops the sleep. */
  lemma DamagedMemoryDropsSleep()
    ensures var s := State(MAGIC, 0, 0, MAXIMUM, Not(MAXIMUM));
            ShouldSleep(s) && !ShouldSleep(Perform(s, Step(Timeout, 2)))
  {
  }

  /** The length of the safe sleep never decreases, whatever the memory and the resets. */
  lemma SleepNeverShrinks(s: State, steps: seq<Step>, i: nat, j: nat)
    requires i <= j <= |steps|
    ensures SleepSeconds(Run(s, steps[..i])) <= SleepSeconds(Run(s, steps[..j]))
  {
    CountNeverShrinks(s, steps, i, j);
  }

  lemma {:induction false} CountNeverShrinks(s: State, steps: seq<Step>, i: nat, j: nat)
    requires i <= j <= |steps|
    ensures Count(Run(s, steps[..i])) <= Count(Run(s, steps[..j]))
  {
    if i < j {
      CountNeverShrinks(s, steps, i, j - 1);
      CountGrows(s, steps, j - 1);
    }
  }

  lemma CountGrows(s: State, steps: seq<Step>, j: nat)
    requires j < |steps|
    ensures Count(Run(s, steps[..j])) <= Count(Run(s, steps[..j + 1]))
  {
    assert steps[..j + 1][..j] == steps[..j];
    CutKeepsCount(Run(s, steps[..j]), steps[j]);
  }

  lemma {:induction false} RunKeepsSound(s: State, steps: seq<Step>)
    requires Sound(s)
    ensures Sound(Run(s, steps))
  {
    if |steps| > 0 {
      var n := |steps| - 1;
      RunKeepsSound(s, steps[..n]);
      CutKeepsCount(Run(s, steps[..n]), steps[n]);
    }
  }

  // ----- Resetting the record

  /** The record marks the sleep of the last stage as completed. */
  predicate LastStageCompleted(s: State) {
    s.magic == MAGIC && s.completed == MAXIMUM && s.completedInverse == Not(MAXIMUM)
  }

  /** Cutting a reset of the record short keeps sound memory sound except in one case: the count
      is gone and a completed sleep of the last stage is still there. */
  lemma CutResetSound(s: State, words: nat)
    requires Sound(s)
    ensures Sound(CutReset(s, words)) <==> !(1 <= words <= 2 && LastStageCompleted(s))
  {
    assert words == 0 || words == 1 || words == 2 || words == 3 || words == 4 || words >= 5;
  }

  /** So resetting the record is safe wherever it is cut exactly if the sleep of the last stage
      is not marked completed, which can be checked before resetting. */
  lemma ResetSafeWhereverCut(s: State)
    requires Sound(s)
    ensures (forall words: nat :: Sound(CutReset(s, words))) <==> !LastStageCompleted(s)
  {
    forall words: nat
      ensures Sound(CutReset(s, words)) <==> !(1 <= words <= 2 && LastStageCompleted(s))
    {
      CutResetSound(s, words);
    }
    assert LastStageCompleted(s) ==> !Sound(CutReset(s, 1));
  }

  /** A valid record that is being reset is at every cut unchanged, as good as new, or damaged so
      that the longest sleep is demanded. */
  lemma CutResetFailsClosed(s: State, words: nat)
    requires Valid(s)
    ensures var cut := CutReset(s, words);
            || cut == s
            || (Valid(cut) && Count(cut) == 0 && !ShouldSleep(cut))
            || (Count(cut) == MAXIMUM && ShouldSleep(cut))
  {
    assert words == 0 || words == 1 || words == 2 || words == 3 || words == 4 || words >= 5;
  }

  /** The record after the last back-off, a reset of it cut after two words, and then a timeout
      cut after two words: the sleep that the damaged record demanded is dropped. */
  lemma CutResetDropsSleep()
    ensures var s := State(MAGIC, MAXIMUM, Not(MAXIMUM), MAXIMUM, Not(MAXIMUM));
            var cut := CutReset(s, 2);
            && Valid(s) && Sound(s) && !Sound(cut)
            && ShouldSleep(cut) && !ShouldSleep(Perform(cut, Step(Timeout, 2)))
  {
  }

  /** What can happen to the record: an event or a reset of it, each cut short or not. */
  datatype Action = Happened(step: Step) | Resetting(words: nat)

  function Act(s: State, action: Action): State {
    match action
    case Happened(step) => Perform(s, step)
    case Resetting(words) => CutReset(s, words)
  }

  function ActAll(s: State, actions: seq<Action>): State {
    if |actions| == 0 then s else Act(ActAll(s, actions[..|actions| - 1]), actions[|actions| - 1])
  }

  /** No reset is cut after one or two words while the sleep of the last stage is marked
      completed. */
  ghost predicate ResetsSafely(s: State, actions: seq<Action>) {
    forall i :: 0 <= i < |actions| && actions[i].Resetting? && 1 <= actions[i].words <= 2 ==>
      !LastStageCompleted(ActAll(s, actions[..i]))
  }

  /** Along any run of events and resets of the record, each cut short anywhere, memory stays
      sound as long as no reset is cut in the one bad place. */
  lemma {:induction false} ActionsKeepSound(s: State, actions: seq<Action>)
    requires Sound(s) && ResetsSafely(s, actions)
    ensures Sound(ActAll(s, actions))
  {
    if |actions| > 0 {
      var n := |actions| - 1;
      var before := ActAll(s, actions[..n]);
      assert forall i :: 0 <= i < n ==> actions[..n][..i] == actions[..i];
      ActionsKeepSound(s, actions[..n]);
      match actions[n]
      case Happened(step) => CutKeepsCount(before, step);
      case Resetting(words) => CutResetSound(before, words);
    }
  }

  // ----- When a sleep is owed

  /** The sleep owed after the first `i` steps, or owed from the start, with none completed since. */
  ghost predicate Owed(s: State, steps: seq<Step>, i: nat)
    requires i <= |steps|
  {
    && (forall j :: i <= j < |steps| ==> steps[j].event != SleepCompleted)
    && if i == 0 then ShouldSleep(s)
       else steps[i - 1].event != SleepCompleted && Count(Run(s, steps[..i])) >= THRESHOLD
  }

  /** From sound memory, a demand lasts through every run and every reset until a sleep is marked. */
  lemma {:induction false} DemandLasts(s: State, steps: seq<Step>)
    requires Sound(s) && ShouldSleep(s)
    requires forall step <- steps :: step.event != SleepCompleted
    ensures ShouldSleep(Run(s, steps))
  {
    if |steps| > 0 {
      var n := |steps| - 1;
      DemandLasts(s, steps[..n]);
      RunKeepsSound(s, steps[..n]);
      CutKeepsCount(Run(s, steps[..n]), steps[n]);
    }
  }

  lemma DemandFromLast(s: State, steps: seq<Step>)
    requires Uncut(steps) && |steps| > 0
    ensures Valid(Run(s, steps))
    ensures ShouldSleep(Run(s, steps)) <==>
              steps[|steps| - 1].event != SleepCompleted && Count(Run(s, steps)) >= THRESHOLD
  {
    var n := |steps| - 1;
    assert steps[n] in steps;
    CutKeepsCount(Run(s, steps[..n]), steps[n]);
  }

  /** From any memory and along any run without a reset during a write, a safe sleep is demanded
      exactly while one is owed. */
  lemma DemandedWhileOwed(s: State, steps: seq<Step>)
    requires Uncut(steps)
    ensures |steps| > 0 ==> Valid(Run(s, steps))
    ensures ShouldSleep(Run(s, steps)) <==> exists i: nat :: i <= |steps| && Owed(s, steps, i)
  {
    var n := |steps|;
    if n == 0 {
      assert ShouldSleep(s) <==> Owed(s, steps, 0);
    } else {
      DemandFromLast(s, steps);
      assert steps[..n] == steps;
      if ShouldSleep(Run(s, steps)) { assert Owed(s, steps, n); }
      forall i: nat | i <= n && Owed(s, steps, i)
        ensures ShouldSleep(Run(s, steps))
      {
        OwedIsDemanded(s, steps, i);
      }
    }
  }

  lemma OwedIsDemanded(s: State, steps: seq<Step>, i: nat)
    requires Uncut(steps) && 0 < |steps| && i <= |steps| && Owed(s, steps, i)
    ensures ShouldSleep(Run(s, steps))
  {
    DemandFromLast(s, steps);
    assert steps[..|steps|] == steps;
    CountNeverShrinks(s, steps, i, |steps|);
    if i == 0 {
      assert steps[..0] == [];
      DemandCounts(s);
    }
  }

  lemma DemandCounts(s: State)
    requires ShouldSleep(s)
    ensures Count(s) >= THRESHOLD
  {
  }

  function Failures(steps: seq<Step>): nat {
    if |steps| == 0 then 0
    else Failures(steps[..|steps| - 1]) + if steps[|steps| - 1].event == SleepCompleted then 0 else 1
  }

  function Min(a: int, b: int): int {
    if a <= b then a else b
  }

  /** Every timeout or supervisor failure raises the stage until the last one, and timeouts alone
      raise it by exactly one each. */
  lemma {:induction false} StageCountsFailures(s: State, steps: seq<Step>)
    requires Uncut(steps)
    ensures Count(Run(s, steps)) >= Min(MAXIMUM, Count(s) + Failures(steps))
    ensures (forall step <- steps :: step.event == Timeout) ==>
              Count(Run(s, steps)) == Min(MAXIMUM, Count(s) + |steps|)
  {
    if |steps| > 0 {
      var n := |steps| - 1;
      StageCountsFailures(s, steps[..n]);
      assert steps[n] in steps;
      CutKeepsCount(Run(s, steps[..n]), steps[n]);
    }
  }

  /** A device that starts fresh and only times out: an hour of sleep up to the third time, six
      hours at the fourth, a day from the fifth on; demanded from the third on. */
  lemma SleepAfterTimeouts(s: State, steps: seq<Step>)
    requires s.magic != MAGIC && Uncut(steps) && |steps| > 0 && forall step <- steps :: step.event == Timeout
    ensures SleepSeconds(Run(s, steps)) == if |steps| <= 3 then 3600 else if |steps| == 4 then 21600 else 86400
    ensures ShouldSleep(Run(s, steps)) <==> |steps| >= 3
  {
    StageCountsFailures(s, steps);
    DemandFromLast(s, steps);
    assert steps[|steps| - 1] in steps;
  }

  /** A supervisor failure counts as the third timeout at least, and otherwise as one more. */
  lemma SupervisorFailureStage(s: State, step: Step)
    requires step.event == SupervisorFailure && step.written >= 5
    ensures Count(Perform(s, step)) == Min(5, if Count(s) < 3 then 3 else Count(s) + 1)
    ensures ShouldSleep(Perform(s, step))
  {
    CutKeepsCount(s, step);
  }

  /** A completed sleep neither raises nor lowers a stage at or past the third. */
  lemma CompletedSleepStage(s: State, step: Step)
    requires step.event == SleepCompleted && step.written >= 5
    ensures Count(Perform(s, step)) == if Count(s) < 3 then 3 else Count(s)
    ensures !ShouldSleep(Perform(s, step))
  {
    CutKeepsCount(s, step);
  }

  /** Damaged memory counts as the last stage, uninitialised memory as none. */
  lemma DamagedFailsClosed(s: State)
    requires !Valid(s)
    ensures if s.magic == MAGIC then SleepSeconds(s) == 86400 && ShouldSleep(s)
            else SleepSeconds(s) == 3600 && !ShouldSleep(s)
  {
  }
}
