/** The auto-attach retry daemon: a schedule of attempts whose position survives restarts. */
module RetryAutoAttach {
  import opened Json

  const RETRY_INTERVALS: seq<nat> := [
    900, 900, 1800, 3600, 7200, 14400, 28800, 28800, 86400,
    86400, 172800, 172800, 259200, 259200, 345600, 345600, 432000, 432000
  ]

  datatype Persisted = Persisted(intervalIndex: nat, failureReason: Option<string>)

  /** What happens from the start of one sleep to the next: killed while asleep, found attached, an attempt that ends
      the service, a failed attempt, or an attempt after which the daemon is killed. */
  datatype Outcome = KilledAsleep | AttachedAsleep | AttemptEnds | AttemptFails(reason: string) | KilledAfterAttempt

  /** One run of the daemon; an outcome that is missing stands for a kill. The daemon may also be killed after the
      cleanup has deleted the state file, before total failure is stored. */
  datatype Invocation = Invocation(attachedAtStart: bool, outcomes: seq<Outcome>, attachedAtEnd: bool,
                                   killedInCleanup: bool)

  /** The message of the day: the attempt announced or the number of attempts made, and the reason to give. */
  datatype Motd = RetryMotd(numAttempts: nat, reason: string) | TotalFailureMotd(numAttempts: nat, reason: string)

  const UNKNOWN_ERROR := "an unknown error"

  function MsgReason(reason: Option<string>): string {
    if reason.Some? then reason.value else UNKNOWN_ERROR
  }

  /** The message that goes with a stored state. */
  function MotdOf(schedule: seq<nat>, persisted: Option<Persisted>): Option<Motd> {
    if persisted.None? then None
    else
      var reason := MsgReason(persisted.value.failureReason);
      if persisted.value.intervalIndex < |schedule| then Some(RetryMotd(persisted.value.intervalIndex + 1, reason))
      else Some(TotalFailureMotd(|schedule| + 1, reason))
  }

  /** Attempts are counted from one, and total failure counts the attempt at boot. */
  lemma MotdTexts(schedule: seq<nat>, i: nat, reason: Option<string>)
    ensures var given := if reason.Some? then reason.value else "an unknown error";
      MotdOf(schedule, Some(Persisted(i, reason)))
        == Some(if i < |schedule| then RetryMotd(i + 1, given) else TotalFailureMotd(|schedule| + 1, given))
    ensures MotdOf(schedule, None) == None
  {
  }

  /** The state file, and what has happened so far: `kills` in the loop, and `resets` by a kill in the cleanup. */
  datatype Machine = Machine(persisted: Option<Persisted>, attempts: nat, kills: nat, resets: nat, slept: nat)

  function OutcomeAt(outcomes: seq<Outcome>, i: nat): Outcome {
    if i < |outcomes| then outcomes[i] else KilledAsleep
  }

  /** How the loop ends: killed, or falling through to the cleanup with the last failure reason. */
  datatype End = Killed | Done(failureReason: Option<string>)

  /** The loop from interval `i` on, where `used` outcomes have been used. */
  function Loop(schedule: seq<nat>, m: Machine, i: nat, reason: Option<string>, outcomes: seq<Outcome>, used: nat)
    : (Machine, End)
    decreases |schedule| - i
  {
    if i >= |schedule| then (m, Done(reason))
    else
      var written := m.(persisted := Some(Persisted(i, reason)));
      var awake := written.(slept := m.slept + schedule[i]);
      match OutcomeAt(outcomes, used)
      case KilledAsleep => (written.(kills := m.kills + 1), Killed)
      case AttachedAsleep => (awake, Done(reason))
      case AttemptEnds => (awake.(attempts := m.attempts + 1), Done(reason))
      case AttemptFails(r) => Loop(schedule, awake.(attempts := m.attempts + 1), i + 1, Some(r), outcomes, used + 1)
      case KilledAfterAttempt => (awake.(attempts := m.attempts + 1, kills := m.kills + 1), Killed)
  }

  lemma LoopStep(schedule: seq<nat>, m: Machine, i: nat, reason: Option<string>, outcomes: seq<Outcome>, used: nat)
    requires i < |schedule|
    ensures var written := m.(persisted := Some(Persisted(i, reason)));
      var awake := written.(slept := m.slept + schedule[i]);
      Loop(schedule, m, i, reason, outcomes, used) ==
        match OutcomeAt(outcomes, used)
        case KilledAsleep => (written.(kills := m.kills + 1), Killed)
        case AttachedAsleep => (awake, Done(reason))
        case AttemptEnds => (awake.(attempts := m.attempts + 1), Done(reason))
        case AttemptFails(r) => Loop(schedule, awake.(attempts := m.attempts + 1), i + 1, Some(r), outcomes, used + 1)
        case KilledAfterAttempt => (awake.(attempts := m.attempts + 1, kills := m.kills + 1), Killed)
  {
  }

  lemma LoopEnds(schedule: seq<nat>, m: Machine, i: nat, reason: Option<string>, outcomes: seq<Outcome>, used: nat)
    requires i >= |schedule|
    ensures Loop(schedule, m, i, reason, outcomes, used) == (m, Done(reason))
  {
  }

  function Start(m: Machine): nat {
    if m.persisted.Some? then m.persisted.value.intervalIndex else 0
  }

  function StartReason(m: Machine): Option<string> {
    if m.persisted.Some? then m.persisted.value.failureReason else None
  }

  function Invoke(schedule: seq<nat>, m: Machine, inv: Invocation): Machine {
    if inv.attachedAtStart then m
    else
      var (after, end) := Loop(schedule, m, Start(m), StartReason(m), inv.outcomes, 0);
      if end.Killed? then after
      else if inv.attachedAtEnd then after.(persisted := None)
      else if inv.killedInCleanup then after.(persisted := None, resets := after.resets + 1)
      else after.(persisted := Some(Persisted(|schedule|, end.failureReason)))
  }

  /** The run gets to the cleanup. */
  predicate Ends(schedule: seq<nat>, m: Machine, inv: Invocation) {
    !inv.attachedAtStart && Loop(schedule, m, Start(m), StartReason(m), inv.outcomes, 0).1.Done?
  }

  // ---------------------------------------------------------------------------------------------------------
  // The code

  class Daemon {
    const schedule: seq<nat>
    var persisted: Option<Persisted>
    var attempts: nat
    var kills: nat
    var resets: nat
    var slept: nat
    var options: bool
    var motd: Option<Motd>
    var fullNotice: Option<Motd>
    var failureNotice: Option<Motd>

    constructor ()
      ensures schedule == RETRY_INTERVALS && Now() == Machine(None, 0, 0, 0, 0)
    {
      schedule := RETRY_INTERVALS;
      options, motd, fullNotice, failureNotice := false, None, None, None;
      persisted, attempts, kills, resets, slept := None, 0, 0, 0, 0;
    }

    function Now(): Machine
      reads this
    {
      Machine(persisted, attempts, kills, resets, slept)
    }

    method Cleanup()
      modifies this`persisted, this`options, this`motd, this`fullNotice, this`failureNotice
      ensures persisted == None && !options && motd == None && fullNotice == None && failureNotice == None
      ensures motd == MotdOf(schedule, persisted)
    {
      persisted := None;
      options := false;
      motd := None;
      fullNotice := None;
      failureNotice := None;
    }

    /** Before a sleep: the position is stored and told. */
    method Announce(index: nat, reason: Option<string>, lockFree: bool)
      requires index < |schedule|
      modifies this`persisted, this`motd, this`fullNotice
      ensures persisted == Some(Persisted(index, reason)) && motd == MotdOf(schedule, persisted)
      ensures fullNotice == if lockFree then motd else old(fullNotice)
    {
      persisted := Some(Persisted(index, reason));
      motd := Some(RetryMotd(index + 1, MsgReason(reason)));
      if lockFree { fullNotice := motd; }
    }

    /** After the cleanup, when the client is not attached. */
    method FailTotally(reason: Option<string>)
      modifies this`persisted, this`motd, this`failureNotice
      ensures persisted == Some(Persisted(|schedule|, reason)) && motd == MotdOf(schedule, persisted) == failureNotice
    {
      persisted := Some(Persisted(|schedule|, reason));
      motd := Some(TotalFailureMotd(|schedule| + 1, MsgReason(reason)));
      failureNotice := motd;
    }

    /** Besides the machine's step: whatever the message of the day was, it is then the one of the stored state; a run
        that is not killed leaves no notice but that of total failure, and no options; and one that is killed leaves
        the notice of its last interval, if the lock was free to put it up. `lockFree` are the intervals for which it
        was. */
    method RetryAutoAttach(inv: Invocation, lockFree: set<nat>)
      modifies this
      ensures Now() == Invoke(schedule, old(Now()), inv)
      ensures inv.attachedAtStart ==>
        && options == old(options) && motd == old(motd)
        && fullNotice == old(fullNotice) && failureNotice == old(failureNotice)
      ensures !inv.attachedAtStart ==> motd == MotdOf(schedule, persisted)
      ensures !inv.attachedAtStart ==>
        if Ends(schedule, old(Now()), inv) then !options && fullNotice == None && failureNotice == motd
        else
          && options == old(options) && failureNotice == old(failureNotice)
          && (persisted.Some? && persisted.value.intervalIndex in lockFree ==> fullNotice == motd)
    {
      hide MotdOf, Loop;
      if inv.attachedAtStart { return; }
      var offset, intervals, failureReason := 0, schedule, None;
      if persisted.Some? {
        offset := persisted.value.intervalIndex;
        intervals := if offset <= |schedule| then schedule[offset..] else [];
        failureReason := persisted.value.failureReason;
      }
      var index := 0;
      while index < |intervals|
        invariant 0 <= index <= |intervals|
        invariant intervals == if offset <= |schedule| then schedule[offset..] else []
        invariant Loop(schedule, Now(), offset + index, failureReason, inv.outcomes, index)
          == Loop(schedule, old(Now()), Start(old(Now())), StartReason(old(Now())), inv.outcomes, 0)
        invariant options == old(options) && failureNotice == old(failureNotice)
      {
        LoopStep(schedule, Now(), offset + index, failureReason, inv.outcomes, index);
        Announce(offset + index, failureReason, offset + index in lockFree);
        var outcome := OutcomeAt(inv.outcomes, index);
        if outcome == KilledAsleep {
          kills := kills + 1;
          return;
        }
        slept := slept + intervals[index];
        if outcome == AttachedAsleep { break; }
        attempts := attempts + 1;
        if outcome == AttemptEnds { break; }
        if outcome == KilledAfterAttempt {
          kills := kills + 1;
          return;
        }
        failureReason := Some(outcome.reason);
        index := index + 1;
      }
      if index == |intervals| { LoopEnds(schedule, Now(), offset + index, failureReason, inv.outcomes, index); }
      Cleanup();
      if inv.attachedAtEnd { return; }
      if inv.killedInCleanup {
        resets := resets + 1;
        return;
      }
      FailTotally(failureReason);
    }
  }

  // ---------------------------------------------------------------------------------------------------------
  // The schedule over restarts

  /** The position is in the schedule, and every attempt is paid for by a position passed, by a kill in the loop, or
      by a reset, which pays for the whole schedule. */
  predicate InSchedule(schedule: seq<nat>, m: Machine) {
    Start(m) <= |schedule| && m.attempts <= Start(m) + m.kills + |schedule| * m.resets
  }

  lemma {:induction false} LoopStaysInSchedule(schedule: seq<nat>, m: Machine, i: nat, reason: Option<string>,
                                               outcomes: seq<Outcome>, used: nat)
    requires i <= |schedule|
    ensures var (after, end) := Loop(schedule, m, i, reason, outcomes, used);
      && after.attempts - m.attempts <= |schedule| - i + after.kills - m.kills
      && after.kills == m.kills + (if end.Killed? then 1 else 0) && after.resets == m.resets
      && (end.Killed? ==>
            && after.persisted.Some? && i <= Start(after) < |schedule|
            && after.attempts - m.attempts <= Start(after) - i + 1)
    decreases |schedule| - i
  {
    if i < |schedule| {
      match OutcomeAt(outcomes, used)
      case AttemptFails(r) =>
        var next := m.(persisted := Some(Persisted(i, reason)), slept := m.slept + schedule[i],
                       attempts := m.attempts + 1);
        LoopStaysInSchedule(schedule, next, i + 1, Some(r), outcomes, used + 1);
      case _ =>
    }
  }

  /** The run ends attached, and deletes the state file. */
  predicate Finishes(schedule: seq<nat>, m: Machine, inv: Invocation) {
    inv.attachedAtEnd && Ends(schedule, m, inv)
  }

  /** The run ends not attached, and is killed when it has deleted the state file. */
  predicate Resets(schedule: seq<nat>, m: Machine, inv: Invocation) {
    !inv.attachedAtEnd && inv.killedInCleanup && Ends(schedule, m, inv)
  }

  /** One run: the persisted index does not decrease, unless the run finishes or is killed in its cleanup, when the
      state file goes. */
  lemma InvokeStaysInSchedule(schedule: seq<nat>, m: Machine, inv: Invocation)
    requires InSchedule(schedule, m)
    ensures var after := Invoke(schedule, m, inv);
      && after.attempts <= |schedule| + after.kills + |schedule| * m.resets
      && m.kills <= after.kills <= m.kills + 1
      && after.resets == m.resets + (if Resets(schedule, m, inv) then 1 else 0)
      && (!Finishes(schedule, m, inv) ==> InSchedule(schedule, after))
      && (if Finishes(schedule, m, inv) || Resets(schedule, m, inv) then after.persisted == None
          else Start(m) <= Start(after))
  {
    LoopStaysInSchedule(schedule, m, Start(m), StartReason(m), inv.outcomes, 0);
    assert |schedule| * (m.resets + 1) == |schedule| * m.resets + |schedule|;
  }

  function Run(schedule: seq<nat>, m: Machine, invs: seq<Invocation>): Machine {
    if invs == [] then m else Invoke(schedule, Run(schedule, m, invs[..|invs| - 1]), invs[|invs| - 1])
  }

  /** Before its first run the state file is absent. */
  const FRESH := Machine(None, 0, 0, 0, 0)

  /** None of the runs finishes. */
  predicate Unfinished(schedule: seq<nat>, m: Machine, invs: seq<Invocation>) {
    forall i | 0 <= i < |invs| :: !Finishes(schedule, Run(schedule, m, invs[..i]), invs[i])
  }

  lemma UnfinishedInit(schedule: seq<nat>, m: Machine, invs: seq<Invocation>)
    requires invs != [] && Unfinished(schedule, m, invs)
    ensures var init := invs[..|invs| - 1];
      Unfinished(schedule, m, init) && !Finishes(schedule, Run(schedule, m, init), invs[|invs| - 1])
  {
    var init := invs[..|invs| - 1];
    forall i | 0 <= i < |init| ensures !Finishes(schedule, Run(schedule, m, init[..i]), init[i]) {
      assert init[..i] == invs[..i];
    }
  }

  lemma {:induction false} UnfinishedStaysInSchedule(schedule: seq<nat>, m: Machine, invs: seq<Invocation>)
    requires InSchedule(schedule, m) && Unfinished(schedule, m, invs)
    ensures InSchedule(schedule, Run(schedule, m, invs))
  {
    if invs != [] {
      var init := invs[..|invs| - 1];
      UnfinishedInit(schedule, m, invs);
      UnfinishedStaysInSchedule(schedule, m, init);
      InvokeStaysInSchedule(schedule, Run(schedule, m, init), invs[|invs| - 1]);
    }
  }

  /** From any stored state, until a run finishes, and in that run too, however often the daemon is killed and started
      again: it has made at most as many attempts as there are intervals and kills in the loop, and as many again as
      there are intervals for each kill in the cleanup; and only these send the persisted position back. */
  lemma AttemptsAreBounded(schedule: seq<nat>, m: Machine, invs: seq<Invocation>, inv: Invocation)
    requires InSchedule(schedule, m) && Unfinished(schedule, m, invs)
    ensures var before, after := Run(schedule, m, invs), Run(schedule, m, invs + [inv]);
      && after.attempts <= |schedule| + after.kills + |schedule| * before.resets
      && (if Finishes(schedule, before, inv) || Resets(schedule, before, inv) then after.persisted == None
          else Start(before) <= Start(after) <= |schedule|)
  {
    assert (invs + [inv])[..|invs|] == invs;
    UnfinishedStaysInSchedule(schedule, m, invs);
    hide Finishes, Resets, Invoke;
    InvokeStaysInSchedule(schedule, Run(schedule, m, invs), inv);
  }

  /** After total failure no run makes another attempt, unless one finishes or is killed in its cleanup. */
  lemma {:induction false} TotalFailureIsFinal(schedule: seq<nat>, m: Machine, invs: seq<Invocation>)
    requires m.persisted.Some? && Start(m) == |schedule| && Unfinished(schedule, m, invs)
    requires Run(schedule, m, invs).resets == m.resets
    ensures Run(schedule, m, invs).attempts == m.attempts && Run(schedule, m, invs).persisted == m.persisted
  {
    if invs != [] {
      var init := invs[..|invs| - 1];
      UnfinishedInit(schedule, m, invs);
      ResetsGrow(schedule, m, init);
      ResetsGrow(schedule, Run(schedule, m, init), [invs[|invs| - 1]]);
      assert [invs[|invs| - 1]][..0] == [];
      TotalFailureIsFinal(schedule, m, init);
    }
  }

  lemma {:induction false} ResetsGrow(schedule: seq<nat>, m: Machine, invs: seq<Invocation>)
    ensures Run(schedule, m, invs).resets >= m.resets
  {
    if invs != [] {
      var before := Run(schedule, m, invs[..|invs| - 1]);
      ResetsGrow(schedule, m, invs[..|invs| - 1]);
      LoopResets(schedule, before, Start(before), StartReason(before), invs[|invs| - 1].outcomes, 0);
    }
  }

  lemma {:induction false} LoopResets(schedule: seq<nat>, m: Machine, i: nat, reason: Option<string>,
                                      outcomes: seq<Outcome>, used: nat)
    ensures Loop(schedule, m, i, reason, outcomes, used).0.resets == m.resets
    decreases |schedule| - i
  {
    if i < |schedule| {
      match OutcomeAt(outcomes, used)
      case AttemptFails(r) =>
        var next := m.(persisted := Some(Persisted(i, reason)), slept := m.slept + schedule[i],
                       attempts := m.attempts + 1);
        LoopResets(schedule, next, i + 1, Some(r), outcomes, used + 1);
      case _ =>
    }
  }

  /** A loop whose attempts all fail makes one attempt per interval left and sleeps them all out. */
  lemma {:induction false} LoopFails(schedule: seq<nat>, m: Machine, i: nat, reason: Option<string>,
                                           outcomes: seq<Outcome>, used: nat)
    requires i <= |schedule| && used + |schedule| - i <= |outcomes|
    requires forall k | used <= k < |outcomes| :: outcomes[k].AttemptFails?
    ensures var (after, end) := Loop(schedule, m, i, reason, outcomes, used);
      && end.Done?
      && after.attempts == m.attempts + |schedule| - i && after.kills == m.kills && after.resets == m.resets
      && after.slept == m.slept + Total(schedule[i..])
      && (i < |schedule| ==>
            end.failureReason == Some(outcomes[used + |schedule| - i - 1].reason))
    decreases |schedule| - i
  {
    if i < |schedule| {
      var next := m.(persisted := Some(Persisted(i, reason)), slept := m.slept + schedule[i],
                     attempts := m.attempts + 1);
      LoopFails(schedule, next, i + 1, Some(outcomes[used].reason), outcomes, used + 1);
      assert schedule[i..][1..] == schedule[i + 1..];
    }
  }

  function Total(intervals: seq<nat>): nat {
    if intervals == [] then 0 else intervals[0] + Total(intervals[1..])
  }

  /** A run whose attempts all fail makes one per interval left, sleeps them all out, and stores total failure with the
      reason of the last one, or with the stored reason when no interval was left; if it is killed in the cleanup, it
      stores nothing. */
  lemma AllAttemptsFail(schedule: seq<nat>, m: Machine, inv: Invocation)
    requires Start(m) <= |schedule| && !inv.attachedAtStart && !inv.attachedAtEnd
    requires |schedule| - Start(m) <= |inv.outcomes|
    requires forall k | 0 <= k < |inv.outcomes| :: inv.outcomes[k].AttemptFails?
    ensures var left := |schedule| - Start(m);
      var reason := if left == 0 then StartReason(m) else Some(inv.outcomes[left - 1].reason);
      Invoke(schedule, m, inv)
        == Machine(if inv.killedInCleanup then None else Some(Persisted(|schedule|, reason)), m.attempts + left,
                   m.kills, m.resets + (if inv.killedInCleanup then 1 else 0),
                   m.slept + Total(schedule[Start(m)..]))
  {
    LoopFails(schedule, m, Start(m), StartReason(m), inv.outcomes, 0);
  }

  /** The schedule by its end points: how many hours after the start each interval ends. */
  const HOURS: seq<nat> := [
    0, 0, 1, 2, 4, 8, 16, 1 * 24, 2 * 24, 3 * 24, 5 * 24, 7 * 24, 10 * 24, 13 * 24, 17 * 24, 21 * 24, 26 * 24, 31 * 24
  ]

  /** The first two intervals end after 15 and 30 minutes, the others after full hours, the last after 31 days. */
  lemma ScheduleEnds(i: nat)
    requires i < 18
    ensures |RETRY_INTERVALS| == |HOURS| == 18
    ensures Total(RETRY_INTERVALS[..i + 1]) == if i < 2 then (i + 1) * 15 * 60 else HOURS[i] * 60 * 60
  {
    TotalLast(RETRY_INTERVALS, i);
    if i > 0 { ScheduleEnds(i - 1); }
  }

  lemma {:induction false} TotalLast(intervals: seq<nat>, i: nat)
    requires i < |intervals|
    ensures Total(intervals[..i + 1]) == Total(intervals[..i]) + intervals[i]
    decreases i
  {
    if i > 0 {
      assert intervals[..i + 1][1..] == intervals[1..][..i] && intervals[..i][1..] == intervals[1..][..i - 1];
      TotalLast(intervals[1..], i - 1);
    } else {
      assert intervals[..1][1..] == [];
    }
  }

  /** A run whose first `j` attempts fail and which then stops before the schedule ends. */
  lemma {:induction false} LoopStops(schedule: seq<nat>, m: Machine, i: nat, reason: Option<string>,
                                     outcomes: seq<Outcome>, used: nat, j: nat)
    requires i + j < |schedule| && used + j < |outcomes| && !outcomes[used + j].AttemptFails?
    requires forall k | used <= k < used + j :: outcomes[k].AttemptFails?
    ensures var last := outcomes[used + j];
      var why := if j == 0 then reason else Some(outcomes[used + j - 1].reason);
      var tried := m.attempts + j + (if last.AttemptEnds? || last.KilledAfterAttempt? then 1 else 0);
      var slept := m.slept + Total(schedule[i..i + j]) + (if last.KilledAsleep? then 0 else schedule[i + j]);
      var killed := last.KilledAsleep? || last.KilledAfterAttempt?;
      Loop(schedule, m, i, reason, outcomes, used)
        == (Machine(Some(Persisted(i + j, why)), tried, m.kills + (if killed then 1 else 0), m.resets, slept),
            if killed then Killed else Done(why))
    decreases j
  {
    if j == 0 {
      assert schedule[i..i] == [];
    } else {
      var next := m.(persisted := Some(Persisted(i, reason)), slept := m.slept + schedule[i],
                     attempts := m.attempts + 1);
      LoopStops(schedule, next, i + 1, Some(outcomes[used].reason), outcomes, used + 1, j - 1);
      assert schedule[i..i + j][1..] == schedule[i + 1..i + j];
    }
  }

  /** What is stored and counted after a run that stops within the schedule: the next run begins with the interval in
      which this one was killed, with the reason of the last failed attempt. */
  lemma RunStops(schedule: seq<nat>, m: Machine, inv: Invocation, j: nat)
    requires Start(m) + j < |schedule| && j < |inv.outcomes| && !inv.attachedAtStart
    requires !inv.outcomes[j].AttemptFails? && forall k | 0 <= k < j :: inv.outcomes[k].AttemptFails?
    ensures var after, last := Invoke(schedule, m, inv), inv.outcomes[j];
      var why := if j == 0 then StartReason(m) else Some(inv.outcomes[j - 1].reason);
      && after.attempts == m.attempts + j + (if last.AttemptEnds? || last.KilledAfterAttempt? then 1 else 0)
      && after.persisted ==
           if last.KilledAsleep? || last.KilledAfterAttempt? then Some(Persisted(Start(m) + j, why))
           else if inv.attachedAtEnd || inv.killedInCleanup then None
           else Some(Persisted(|schedule|, why))
  {
    LoopStops(schedule, m, Start(m), StartReason(m), inv.outcomes, 0, j);
  }

  /** A run picks up where the last one left off: killed in its first sleep, it stores what it found. */
  lemma RestartKeepsPlace(schedule: seq<nat>, m: Machine, inv: Invocation)
    requires !inv.attachedAtStart && inv.outcomes != [] && inv.outcomes[0].KilledAsleep? && schedule != []
    requires m.persisted.Some? ==> m.persisted.value.intervalIndex < |schedule|
    ensures Invoke(schedule, m, inv).persisted
         == if m.persisted.Some? then m.persisted else Some(Persisted(0, None))
  {
    RunStops(schedule, m, inv, 0);
  }

  /** Every attempt of the run fails. */
  function Failing(schedule: seq<nat>, killedInCleanup: bool): Invocation {
    Invocation(false, seq(|schedule|, _ => AttemptFails("")), false, killedInCleanup)
  }

  predicate NoneAttached(invs: seq<Invocation>) {
    forall i | 0 <= i < |invs| :: !invs[i].attachedAtEnd
  }

  /** The bound is reached: `k` kills right after an attempt, then `c` runs in which every attempt fails and which are
      killed in the cleanup, and a last one that is not. So with a kill in the cleanup there are more attempts than
      intervals and kills together. */
  lemma {:induction false} BoundIsReached(schedule: seq<nat>, k: nat, c: nat) returns (invs: seq<Invocation>)
    requires schedule != []
    ensures Unfinished(schedule, FRESH, invs)
    ensures var m := Run(schedule, FRESH, invs);
      && m.kills == k && m.resets == c && m.attempts == |schedule| + k + |schedule| * c
      && (c > 0 && |schedule| > 1 ==> m.attempts > |schedule| + k + c)
  {
    var before := ResetRuns(schedule, k, c);
    invs := before + [Failing(schedule, false)];
    assert invs[..|before|] == before;
    AllAttemptsFail(schedule, Run(schedule, FRESH, before), Failing(schedule, false));
    if c > 0 && |schedule| > 1 { assert |schedule| * c >= 2 * c; }
  }

  lemma {:induction false} ResetRuns(schedule: seq<nat>, k: nat, c: nat) returns (invs: seq<Invocation>)
    requires schedule != []
    ensures NoneAttached(invs)
    ensures var m := Run(schedule, FRESH, invs);
      m.kills == k && m.resets == c && m.attempts == k + |schedule| * c && Start(m) == 0
  {
    if c == 0 {
      invs := KilledRuns(schedule, k);
    } else {
      var init := ResetRuns(schedule, k, c - 1);
      invs := init + [Failing(schedule, true)];
      assert invs[..|init|] == init;
      AllAttemptsFail(schedule, Run(schedule, FRESH, init), Failing(schedule, true));
      assert |schedule| * c == |schedule| * (c - 1) + |schedule|;
    }
  }

  lemma {:induction false} KilledRuns(schedule: seq<nat>, k: nat) returns (invs: seq<Invocation>)
    requires schedule != []
    ensures NoneAttached(invs)
    ensures var m := Run(schedule, FRESH, invs);
      m.kills == m.attempts == k && m.resets == 0 && Start(m) == 0
  {
    if k == 0 {
      invs := [];
    } else {
      var init := KilledRuns(schedule, k - 1);
      invs := init + [Invocation(false, [KilledAfterAttempt], false, false)];
      assert invs[..|init|] == init;
    }
  }
}
