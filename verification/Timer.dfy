/** The job timer: two jobs with stored next runs, started by a periodic tick. */
module Timer {
  import opened Json

  const UPDATE_MESSAGING_INTERVAL: nat := 21600
  const METERING_INTERVAL: nat := 14400

  /** Both times may be null in a state file that the client did not write. */
  datatype JobState = JobState(nextRun: Option<int>, lastRun: Option<int>)

  /** What is stored after a successful run. */
  function Recorded(now: int, interval: nat): JobState {
    JobState(Some(now + interval), Some(now))
  }

  /** The job is not due yet. */
  predicate Waits(status: Option<JobState>, now: int) {
    status.Some? && status.value.nextRun.Some? && status.value.nextRun.value > now
  }

  /** The state file: absent, not readable as job states, or the state of both jobs. */
  datatype StateFile = Absent | Invalid | Jobs(metering: Option<JobState>, updateMessaging: Option<JobState>)

  /** One tick: the time, the configuration, whether each job runs without an exception, and whether an invalid
      file can be deleted. */
  datatype Tick = Tick(now: int, meteringTimer: Value, activityPingInterval: Option<int>, updateMessagingTimer: Value,
                       meteringOk: bool, updateMessagingOk: bool, deletable: bool)

  // ---------------------------------------------------------------------------------------------------------
  // Intervals

  /** The configured number of seconds, where a Boolean counts as an integer, or else the default. */
  function RunIntervalSeconds(configured: Value, default_: nat): nat {
    match configured
    case Int(n) => if n < 0 then default_ else n
    case Bool(b) => if b then 1 else 0
    case _ => default_
  }

  /** The contract server may ask for a longer interval, but not for a job that the user has disabled. */
  function MeteringIntervalSeconds(configured: Value, activityPingInterval: Option<int>): (r: nat)
    ensures r >= RunIntervalSeconds(configured, METERING_INTERVAL)
    ensures r == 0 <==> RunIntervalSeconds(configured, METERING_INTERVAL) == 0
    ensures r != 0 && activityPingInterval.Some? ==> r >= activityPingInterval.value
    ensures r == RunIntervalSeconds(configured, METERING_INTERVAL) || activityPingInterval == Some(r)
  {
    var interval := RunIntervalSeconds(configured, METERING_INTERVAL);
    var ping := if activityPingInterval.Some? then activityPingInterval.value else 0;
    if interval == 0 then 0 else if ping > interval then ping else interval
  }

  function MeteringInterval(t: Tick): nat {
    MeteringIntervalSeconds(t.meteringTimer, t.activityPingInterval)
  }

  function MessagingInterval(t: Tick): nat {
    RunIntervalSeconds(t.updateMessagingTimer, UPDATE_MESSAGING_INTERVAL)
  }

  // ---------------------------------------------------------------------------------------------------------
  // One job, one tick

  /** The job is executed: it is due and not disabled. */
  predicate Starts(status: Option<JobState>, now: int, interval: nat) {
    interval != 0 && !Waits(status, now)
  }

  function JobAfter(status: Option<JobState>, now: int, interval: nat, ok: bool): Option<JobState> {
    if Starts(status, now, interval) && ok then Some(Recorded(now, interval)) else status
  }

  function Read(file: StateFile): StateFile {
    if file.Jobs? then file else Jobs(None, None)
  }

  function TickAfter(file: StateFile, t: Tick): StateFile {
    if file.Invalid? && !t.deletable then file
    else
      var jobs := Read(file);
      Jobs(JobAfter(jobs.metering, t.now, MeteringInterval(t), t.meteringOk),
           JobAfter(jobs.updateMessaging, t.now, MessagingInterval(t), t.updateMessagingOk))
  }

  // ---------------------------------------------------------------------------------------------------------
  // The code

  /** Runs a job that may raise; a disabled job is not started. */
  method Run(interval: nat, ok: bool) returns (started: bool, success: bool)
    ensures started <==> interval != 0
    ensures success <==> started && ok
  {
    if interval == 0 { return false, false; }
    started, success := true, ok;
  }

  method RunJob(interval: nat, currentTime: int, jobStatus: Option<JobState>, ok: bool)
    returns (status: Option<JobState>, started: bool)
    ensures started <==> Starts(jobStatus, currentTime, interval)
    ensures status == JobAfter(jobStatus, currentTime, interval, ok)
  {
    status, started := jobStatus, false;
    if jobStatus.Some? {
      var nextRun := jobStatus.value.nextRun;
      if nextRun.Some? && nextRun.value > currentTime { return; }
    }
    var success: bool;
    started, success := Run(interval, ok);
    if success {
      var lastRun := currentTime;
      var nextRun := currentTime + interval;
      status := Some(JobState(Some(nextRun), Some(lastRun)));
    }
  }

  class JobsStatus {
    var file: StateFile

    constructor ()
      ensures file == Absent
    {
      file := Absent;
    }

    /** The result says which jobs were started. */
    method RunJobs(t: Tick) returns (meteringStarted: bool, updateMessagingStarted: bool)
      modifies this
      ensures file == TickAfter(old(file), t)
      ensures var jobs := Read(old(file));
        var readable := !old(file).Invalid? || t.deletable;
        && (meteringStarted <==> readable && Starts(jobs.metering, t.now, MeteringInterval(t)))
        && (updateMessagingStarted <==> readable && Starts(jobs.updateMessaging, t.now, MessagingInterval(t)))
    {
      meteringStarted, updateMessagingStarted := false, false;
      var metering, updateMessaging := None, None;
      if file.Invalid? {
        if !t.deletable { return; }
        file := Absent;
      }
      if file.Jobs? {
        metering, updateMessaging := file.metering, file.updateMessaging;
      }
      metering, meteringStarted := RunJob(MeteringInterval(t), t.now, metering, t.meteringOk);
      updateMessaging, updateMessagingStarted :=
        RunJob(MessagingInterval(t), t.now, updateMessaging, t.updateMessagingOk);
      file := Jobs(metering, updateMessaging);
    }
  }

  // ---------------------------------------------------------------------------------------------------------
  // One job over many ticks

  /** What one job sees of a tick. */
  datatype View = View(now: int, interval: nat, ok: bool)

  function MeteringView(t: Tick): View {
    View(t.now, MeteringInterval(t), t.meteringOk)
  }

  function MessagingView(t: Tick): View {
    View(t.now, MessagingInterval(t), t.updateMessagingOk)
  }

  function Views(ticks: seq<Tick>, view: Tick -> View): seq<View> {
    seq(|ticks|, i requires 0 <= i < |ticks| => view(ticks[i]))
  }

  function FileAfter(file: StateFile, ticks: seq<Tick>): StateFile {
    if ticks == [] then file else TickAfter(FileAfter(file, ticks[..|ticks| - 1]), ticks[|ticks| - 1])
  }

  function StatusAfter(status: Option<JobState>, views: seq<View>): Option<JobState> {
    if views == [] then status
    else
      var v := views[|views| - 1];
      JobAfter(StatusAfter(status, views[..|views| - 1]), v.now, v.interval, v.ok)
  }

  /** The states that the ticks record, oldest first. */
  function Records(status: Option<JobState>, views: seq<View>): seq<JobState> {
    if views == [] then []
    else
      var init, v := views[..|views| - 1], views[|views| - 1];
      var added := if Starts(StatusAfter(status, init), v.now, v.interval) && v.ok then
          [Recorded(v.now, v.interval)]
        else [];
      Records(status, init) + added
  }

  // ---------------------------------------------------------------------------------------------------------
  // What the configured timers mean

  predicate Disables(timer: Value) {
    timer == Int(0) || timer == Bool(false)
  }

  /** The seconds that a timer calls for, unless it disables the job: null, negative and ill-typed ones count for the
      default. */
  function Seconds(timer: Value, default_: nat): int {
    if timer.Int? && timer.n > 0 then timer.n else if timer == Bool(true) then 1 else default_
  }

  predicate Readable(file: StateFile, t: Tick) {
    !file.Invalid? || t.deletable
  }

  /** With its timer at zero a job is never started and its record never changes. */
  lemma {:induction false} DisabledJobsNeverRun(file: StateFile, ticks: seq<Tick>)
    ensures (forall i | 0 <= i < |ticks| :: Disables(ticks[i].meteringTimer)) ==>
      && Read(FileAfter(file, ticks)).metering == Read(file).metering
      && forall i, s | 0 <= i < |ticks| :: !Starts(s, ticks[i].now, MeteringInterval(ticks[i]))
    ensures (forall i | 0 <= i < |ticks| :: Disables(ticks[i].updateMessagingTimer)) ==>
      && Read(FileAfter(file, ticks)).updateMessaging == Read(file).updateMessaging
      && forall i, s | 0 <= i < |ticks| :: !Starts(s, ticks[i].now, MessagingInterval(ticks[i]))
  {
    if ticks != [] {
      var init := ticks[..|ticks| - 1];
      assert forall i | 0 <= i < |init| :: init[i] == ticks[i];
      DisabledJobsNeverRun(file, init);
    }
  }

  /** The job has no stored next run, or this has come. */
  predicate IsDue(status: Option<JobState>, now: int) {
    status.Some? && status.value.nextRun.Some? ==> status.value.nextRun.value <= now
  }

  /** Exactly a successful run of an enabled metering job that is due is recorded, with its next run after the
      configured seconds, or after those that the contract server asks for, if these are more. */
  lemma MeteringIsRecorded(file: StateFile, t: Tick)
    ensures var status := if file.Jobs? then file.metering else None;
      var seconds := Seconds(t.meteringTimer, 14400);
      var ping := if t.activityPingInterval.Some? then t.activityPingInterval.value else 0;
      var runs := Readable(file, t) && !Disables(t.meteringTimer) && IsDue(status, t.now);
      Read(TickAfter(file, t)).metering
        == if runs && t.meteringOk then
             Some(JobState(Some(t.now + if ping > seconds then ping else seconds), Some(t.now)))
           else status
  {
  }

  /** The same of the messaging job, which the contract server has no say in. */
  lemma MessagingIsRecorded(file: StateFile, t: Tick)
    ensures var status := if file.Jobs? then file.updateMessaging else None;
      var runs := Readable(file, t) && !Disables(t.updateMessagingTimer) && IsDue(status, t.now);
      Read(TickAfter(file, t)).updateMessaging
        == if runs && t.updateMessagingOk then
             Some(JobState(Some(t.now + Seconds(t.updateMessagingTimer, 21600)), Some(t.now)))
           else status
  {
  }

  /** A job is started exactly when it is enabled and due. */
  lemma StartsWhenDue(status: Option<JobState>, t: Tick)
    ensures Starts(status, t.now, MeteringInterval(t)) <==> !Disables(t.meteringTimer) && IsDue(status, t.now)
    ensures Starts(status, t.now, MessagingInterval(t)) <==> !Disables(t.updateMessagingTimer) && IsDue(status, t.now)
  {
  }

  // ---------------------------------------------------------------------------------------------------------
  // The jobs over all ticks

  /** The two jobs share a file, yet neither alters the other's record: each is as if it ran alone. */
  lemma {:induction false} JobsAreIndependent(file: StateFile, ticks: seq<Tick>)
    requires !file.Invalid?
    ensures var after := FileAfter(file, ticks);
      && !after.Invalid?
      && Read(after).metering == StatusAfter(Read(file).metering, Views(ticks, MeteringView))
      && Read(after).updateMessaging == StatusAfter(Read(file).updateMessaging, Views(ticks, MessagingView))
  {
    if ticks != [] {
      var last := |ticks| - 1;
      JobsAreIndependent(file, ticks[..last]);
      assert Views(ticks, MeteringView)[..last] == Views(ticks[..last], MeteringView);
      assert Views(ticks, MessagingView)[..last] == Views(ticks[..last], MessagingView);
      assert Views(ticks, MeteringView)[last] == MeteringView(ticks[last]);
      assert Views(ticks, MessagingView)[last] == MessagingView(ticks[last]);
      hide JobAfter, MeteringInterval, MessagingInterval, Views;
    }
  }

  /** `later` was recorded at or after the next run that `earlier` stored. */
  predicate Follows(earlier: JobState, later: JobState) {
    earlier.nextRun.Some? && later.lastRun.Some? && earlier.nextRun.value <= later.lastRun.value
  }

  predicate IsRecord(r: JobState) {
    r.lastRun.Some? && r.nextRun.Some? && r.lastRun.value < r.nextRun.value
  }

  ghost predicate Spaced(records: seq<JobState>) {
    && (forall i | 0 <= i < |records| :: IsRecord(records[i]))
    && forall i, j | 0 <= i < j < |records| :: Follows(records[i], records[j])
  }

  lemma SpacedLast(records: seq<JobState>, r: JobState)
    requires Spaced(records) && records != [] && IsRecord(r) && Follows(records[|records| - 1], r)
    ensures Spaced(records + [r])
  {
    var last := |records| - 1;
    forall i | 0 <= i < |records| ensures Follows(records[i], r) {
      if i < last { assert Follows(records[i], records[last]) && IsRecord(records[last]); }
    }
  }

  /** The stored state is the last one recorded, or the first; the records are spaced, and come after it. */
  ghost predicate Tracks(first: Option<JobState>, stored: Option<JobState>, records: seq<JobState>) {
    && stored == (if records == [] then first else Some(records[|records| - 1]))
    && Spaced(records)
    && (records != [] ==> !Waits(first, records[0].lastRun.value))
  }

  lemma TracksStep(first: Option<JobState>, stored: Option<JobState>, records: seq<JobState>, v: View)
    requires Tracks(first, stored, records)
    ensures var starts := Starts(stored, v.now, v.interval) && v.ok;
      var added := if starts then [Recorded(v.now, v.interval)] else [];
      Tracks(first, JobAfter(stored, v.now, v.interval, v.ok), records + added)
  {
    if Starts(stored, v.now, v.interval) && v.ok {
      if records != [] { SpacedLast(records, Recorded(v.now, v.interval)); }
    } else {
      assert records + [] == records;
    }
  }

  /** Over any ticks, each recorded run starts at or after the next run stored by every earlier one, so at least its
      interval later; and what is stored is what was recorded last. */
  lemma {:induction false} RecordsAreSpaced(status: Option<JobState>, views: seq<View>)
    ensures Tracks(status, StatusAfter(status, views), Records(status, views))
  {
    if views != [] {
      var init, v := views[..|views| - 1], views[|views| - 1];
      hide Tracks, JobAfter, Starts;
      RecordsAreSpaced(status, init);
      TracksStep(status, StatusAfter(status, init), Records(status, init), v);
    }
  }

  /** A failing or disabled job keeps its state, and no state is replaced before its next run. */
  lemma {:induction false} JobKeepsState(status: Option<JobState>, views: seq<View>, v: View)
    ensures var before, after := StatusAfter(status, views), StatusAfter(status, views + [v]);
      && (after != before ==> v.ok && v.interval != 0 && after == Some(Recorded(v.now, v.interval)))
      && (after != before ==> !Waits(before, v.now))
      && (v.interval == 0 || !v.ok ==> after == before)
    ensures (forall i | 0 <= i < |views| :: views[i].interval == 0 || !views[i].ok) ==>
      StatusAfter(status, views) == status
  {
    assert (views + [v])[..|views|] == views;
    if views != [] { JobKeepsState(status, views[..|views| - 1], views[|views| - 1]); }
  }
}
