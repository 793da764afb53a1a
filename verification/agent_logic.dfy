/** The network-free agent of Agent/agent_logic.py: one job slot guarded by a
    lock, a last-known status report, and the job thread that polls the
    progress file and resets the slot when the render process exits.

    Every block run under `state_lock` is one step here. The clock, the
    progress-file snapshots and the process exit code are inputs; the two
    callbacks (`on_status_update`, `on_job_finished`) are the events a step
    returns, in call order. */
module AgentLogic {
  import opened Py
  import opened Numerals
  import opened Progress

  type Job = Dict

  datatype State = State(agentId: Value, busy: bool, job: Option<Job>, last: Dict)

  /** A callback invocation. */
  datatype Event = StatusUpdate(report: Dict) | JobFinished

  datatype Step = Step(state: State, events: seq<Event>)

  /** The job slot is occupied exactly when the agent is busy. */
  predicate SlotConsistent(s: State)
  {
    s.busy <==> s.job.Some?
  }

  /** A freshly constructed agent: idle, with an idle report as its status. */
  function Init(agentId: Value, now: real): (s: State)
    ensures SlotConsistent(s) && !s.busy
    ensures s.last == IdleReport(agentId, now)
  {
    State(agentId, false, None, IdleReport(agentId, now))
  }

  function Updates(rs: seq<Dict>): (es: seq<Event>)
    ensures |es| == |rs|
    ensures forall i :: 0 <= i < |rs| ==> es[i] == StatusUpdate(rs[i])
  {
    if |rs| == 0 then [] else [StatusUpdate(rs[0])] + Updates(rs[1..])
  }

  /** `_update_and_broadcast_status`: the new report replaces the old one
      whole, and the callback receives that very report. */
  function Broadcast(s: State, report: Dict): (r: Step)
    ensures r.state.last == report && r.state.last.Keys == report.Keys
    ensures r.state.busy == s.busy && r.state.job == s.job && r.state.agentId == s.agentId
    ensures r.events == [StatusUpdate(r.state.last)]
  {
    Step(s.(last := report), [StatusUpdate(report)])
  }

  /** `_set_state_to_busy`: test-and-set of the busy flag. */
  function SetBusy(s: State, job: Job): (r: (bool, State))
    ensures r.0 <==> !s.busy
    ensures r.0 ==> r.1.busy && r.1.job == Some(job) && r.1.last == s.last && r.1.agentId == s.agentId
    ensures !r.0 ==> r.1 == s
  {
    if s.busy then (false, s) else (true, s.(busy := true, job := Some(job)))
  }

  /** The job id `start_job` reports: the job's own, else "unknown_job". */
  function StartingJobId(job: Job): Value
  {
    Get(job, "job_id", Str("unknown_job"))
  }

  /** The `Starting` report: an idle report with status, job id and
      timestamp overwritten. */
  function StartingReport(agentId: Value, jobId: Value, now: real): (r: Dict)
    ensures r.Keys == ReportKeys
    ensures StatusOf(r) == Str("Starting") && r["job_id"] == jobId
    ensures r["progress"] == Num(0.0) && r["current_frame"] == Num(0.0) && r["agent_id"] == agentId
  {
    Merge(IdleReport(agentId, now), map["status" := Str("Starting"), "job_id" := jobId, "timestamp" := Num(now)])
  }

  /** `start_job`. A busy agent rejects the job and nothing changes; an idle
      one takes the job and broadcasts exactly one `Starting` report. */
  function StartJob(s: State, job: Job, now: real): (r: (bool, Step))
    ensures r.0 <==> !s.busy
    ensures s.busy ==> r.1.state == s && r.1.events == []
    ensures !s.busy ==>
      && r.1.state.busy && r.1.state.job == Some(job) && r.1.state.agentId == s.agentId
      && r.1.events == [StatusUpdate(r.1.state.last)]
      && r.1.state.last.Keys == ReportKeys
      && StatusOf(r.1.state.last) == Str("Starting")
      && r.1.state.last["job_id"] == Get(job, "job_id", Str("unknown_job"))
      && r.1.state.last["progress"] == Num(0.0)
      && r.1.state.last["current_frame"] == Num(0.0)
      && r.1.state.last["agent_id"] == s.agentId
  {
    var (accepted, s1) := SetBusy(s, job);
    if !accepted then (false, Step(s, []))
    else (true, Broadcast(s1, StartingReport(s.agentId, StartingJobId(job), now)))
  }

  /** Several submissions with no job finishing in between, as `(accepted
      count, final step)`. */
  function StartAll(s: State, jobs: seq<Job>, now: real): (nat, Step)
    decreases |jobs|
  {
    if |jobs| == 0 then (0, Step(s, []))
    else
      var (ok, first) := StartJob(s, jobs[0], now);
      var (n, rest) := StartAll(first.state, jobs[1..], now);
      ((if ok then 1 else 0) + n, Step(rest.state, first.events + rest.events))
  }

  /** At most one job is accepted per idle period: exactly one if the agent
      was idle (the first submission), none if it was busy. */
  lemma {:induction false} AtMostOneAcceptance(s: State, jobs: seq<Job>, now: real)
    ensures StartAll(s, jobs, now).0 == (if !s.busy && |jobs| > 0 then 1 else 0)
    ensures |jobs| > 0 && !s.busy ==> StartAll(s, jobs, now).1.state.job == Some(jobs[0])
    ensures s.busy ==> StartAll(s, jobs, now).1 == Step(s, [])
    decreases |jobs|
  {
    if |jobs| > 0 {
      var (ok, first) := StartJob(s, jobs[0], now);
      assert first.state.busy;
      AtMostOneAcceptance(first.state, jobs[1..], now);
    }
  }

  /** `_check_progress_file`: broadcast the parsed last line only when it
      differs from the current status; any other outcome changes nothing. */
  function CheckProgressFile(s: State, snap: Snapshot): (r: Step)
    ensures snap.Line? && snap.report != s.last ==> r.state == s.(last := snap.report) && r.events == [StatusUpdate(snap.report)]
    ensures !(snap.Line? && snap.report != s.last) ==> r == Step(s, [])
  {
    match snap
    case Line(report) => if report != s.last then Broadcast(s, report) else Step(s, [])
    case _ => Step(s, [])
  }

  /** The monitoring loop: one check per poll while the process runs. A
      `Completed` or `Error` line does not stop it. */
  function Monitor(s: State, snaps: seq<Snapshot>): (r: Step)
    ensures r.state.busy == s.busy && r.state.job == s.job && r.state.agentId == s.agentId
    decreases |snaps|
  {
    if |snaps| == 0 then Step(s, [])
    else
      var first := CheckProgressFile(s, snaps[0]);
      var rest := Monitor(first.state, snaps[1..]);
      Step(rest.state, first.events + rest.events)
  }

  /** The last report of `rs`, or `d` when there is none. */
  function LastOr(d: Dict, rs: seq<Dict>): Dict
  {
    if |rs| == 0 then d else rs[|rs| - 1]
  }

  /** The monitor broadcasts exactly the de-duplicated reports of every
      poll, whatever their status, and ends holding the last report read. */
  lemma {:induction false} MonitorIsDedup(s: State, snaps: seq<Snapshot>)
    ensures Monitor(s, snaps).events == Updates(Dedup(Some(s.last), Reports(snaps)))
    ensures Monitor(s, snaps).state.last == LastOr(s.last, Reports(snaps))
    decreases |snaps|
  {
    if |snaps| > 0 {
      var first := CheckProgressFile(s, snaps[0]);
      MonitorIsDedup(first.state, snaps[1..]);
      var rs := Reports(snaps[1..]);
      assert Reports(snaps) == (if snaps[0].Line? then [snaps[0].report] else []) + rs;
      if snaps[0].Line? {
        var rep := snaps[0].report;
        assert Reports(snaps) == [rep] + rs;
        assert ([rep] + rs)[1..] == rs;
        assert first.state.last == rep;
        assert first.events == Updates(if Some(rep) != Some(s.last) then [rep] else []);
        assert Dedup(Some(s.last), [rep] + rs)
          == (if Some(rep) != Some(s.last) then [rep] else []) + Dedup(Some(rep), rs);
        UpdatesAppend(if Some(rep) != Some(s.last) then [rep] else [], Dedup(Some(rep), rs));
      } else {
        assert first == Step(s, []);
        assert Reports(snaps) == rs;
        assert Monitor(s, snaps).events == Monitor(s, snaps[1..]).events;
      }
    }
  }

  lemma UpdatesAppend(a: seq<Dict>, b: seq<Dict>)
    ensures Updates(a + b) == Updates(a) + Updates(b)
  {
  }

  /** After the process exits: a non-zero exit code produces one `Error`
      report unless the last status is already `Error`. */
  function FinalCheck(s: State, jobId: Value, code: int, now: real): (r: Step)
    ensures code != 0 && StatusOf(s.last) != Str("Error") ==>
      r.state == s.(last := CrashReport(now, jobId, code)) && r.events == [StatusUpdate(CrashReport(now, jobId, code))]
    ensures !(code != 0 && StatusOf(s.last) != Str("Error")) ==> r == Step(s, [])
    ensures StatusOf(r.state.last) == Str("Error") || code == 0
  {
    if code != 0 && StatusOf(s.last) != Str("Error") then Broadcast(s, CrashReport(now, jobId, code))
    else Step(s, [])
  }

  /** `_set_state_to_idle` followed by `on_job_finished`: the slot is
      cleared, then an idle report is broadcast, then the job-finished
      callback runs. */
  function Cleanup(s: State, now: real): (r: Step)
    ensures !r.state.busy && r.state.job == None && SlotConsistent(r.state)
    ensures r.state.agentId == s.agentId && r.state.last == IdleReport(s.agentId, now)
    ensures r.events == [StatusUpdate(IdleReport(s.agentId, now)), JobFinished]
  {
    var cleared := s.(busy := false, job := None);
    var idle := Broadcast(cleared, IdleReport(s.agentId, now));
    Step(idle.state, idle.events + [JobFinished])
  }

  /** Polling, the exit-code check and the cleanup of a launched job. */
  function RunLaunched(s: State, jobId: Value, snaps: seq<Snapshot>, code: int, clock: Clock): Step
  {
    var polled := Monitor(s, snaps);
    var checked := FinalCheck(polled.state, jobId, code, clock.crash);
    var done := Cleanup(checked.state, clock.idle);
    Step(done.state, polled.events + checked.events + done.events)
  }

  /** A launched job ends with the agent idle, its last broadcast the idle
      report and `on_job_finished` the final callback, called once. */
  lemma RunLaunchedEndsIdle(s: State, jobId: Value, snaps: seq<Snapshot>, code: int, clock: Clock)
    ensures var r := RunLaunched(s, jobId, snaps, code, clock);
            && !r.state.busy && r.state.job == None && SlotConsistent(r.state)
            && r.state.last == IdleReport(s.agentId, clock.idle)
            && |r.events| >= 2
            && r.events[|r.events| - 2..] == [StatusUpdate(IdleReport(s.agentId, clock.idle)), JobFinished]
            && (forall i :: 0 <= i < |r.events| - 1 ==> r.events[i] != JobFinished)
  {
    var polled := Monitor(s, snaps);
    var checked := FinalCheck(polled.state, jobId, code, clock.crash);
    var done := Cleanup(checked.state, clock.idle);
    MonitorEventsAreUpdates(s, snaps);
    var r := Step(done.state, polled.events + checked.events + done.events);
    assert r.events[|r.events| - 2..] == done.events;
    forall i | 0 <= i < |r.events| - 1
      ensures r.events[i].StatusUpdate?
    {
      if i < |polled.events| {
        assert r.events[i] == polled.events[i];
        assert polled.events[i] in polled.events;
      } else if i < |polled.events| + |checked.events| {
        assert r.events[i] == checked.events[i - |polled.events|];
      } else {
        assert r.events[i] == done.events[0];
      }
    }
  }

  /** `_execute_and_monitor_job` as written, given whether the job file
      could be written. A failed write raises `OSError`, and the `KeyError`
      of a job without `project_path` or `graph_path` is raised while the
      command line is built; either ends the thread before the cleanup, so
      the agent stays busy. */
  function ExecuteAndMonitorAsWritten(s: State, snaps: seq<Snapshot>, written: bool, code: int, clock: Clock): (r: Step)
    requires s.job.Some?
    ensures !Launches(s.job.value, written) ==> r == Step(s, [])
  {
    var job := s.job.value;
    if !Launches(job, written) then Step(s, [])
    else RunLaunched(s, ThreadJobId(job, clock.launch), snaps, code, clock)
  }

  /** `_execute_and_monitor_job` with the cleanup run whatever happens: a job
      that cannot be launched goes straight to the reset. Whatever the exit
      code and progress, the agent ends idle, its last broadcast is the idle
      report and `on_job_finished` is the final callback. */
  function ExecuteAndMonitor(s: State, snaps: seq<Snapshot>, written: bool, code: int, clock: Clock): (r: Step)
    requires s.job.Some?
    ensures !r.state.busy && r.state.job == None && SlotConsistent(r.state)
    ensures r.state.last == IdleReport(s.agentId, clock.idle)
    ensures |r.events| >= 2
    ensures r.events[|r.events| - 2..] == [StatusUpdate(IdleReport(s.agentId, clock.idle)), JobFinished]
    ensures forall i :: 0 <= i < |r.events| - 1 ==> r.events[i] != JobFinished
  {
    var job := s.job.value;
    if !Launches(job, written) then Cleanup(s, clock.idle)
    else
      RunLaunchedEndsIdle(s, ThreadJobId(job, clock.launch), snaps, code, clock);
      RunLaunched(s, ThreadJobId(job, clock.launch), snaps, code, clock)
  }

  /** Once the job launches, the correction changes nothing. */
  lemma LaunchedAgrees(s: State, snaps: seq<Snapshot>, written: bool, code: int, clock: Clock)
    requires s.job.Some? && Launches(s.job.value, written)
    ensures ExecuteAndMonitorAsWritten(s, snaps, written, code, clock) == ExecuteAndMonitor(s, snaps, written, code, clock)
  {
  }

  lemma MonitorEventsAreUpdates(s: State, snaps: seq<Snapshot>)
    ensures forall e :: e in Monitor(s, snaps).events ==> e.StatusUpdate?
  {
    MonitorIsDedup(s, snaps);
  }

  /** Crash synthesis: after the polled reports, a non-zero exit whose last
      status is not `Error` yields exactly one synthesised `Error` naming the
      exit code; a zero exit, or an `Error` already reported, yields none.
      The idle report and the job-finished callback follow either way. */
  lemma CrashSynthesis(s: State, snaps: seq<Snapshot>, code: int, clock: Clock)
    requires s.job.Some? && Launches(s.job.value, true)
    ensures var polled := Monitor(s, snaps);
            var crashed := code != 0 && StatusOf(LastOr(s.last, Reports(snaps))) != Str("Error");
            var crash := CrashReport(clock.crash, ThreadJobId(s.job.value, clock.launch), code);
            ExecuteAndMonitor(s, snaps, true, code, clock).events
              == Updates(Dedup(Some(s.last), Reports(snaps)))
                 + (if crashed then [StatusUpdate(crash)] else [])
                 + [StatusUpdate(IdleReport(s.agentId, clock.idle)), JobFinished]
  {
    MonitorIsDedup(s, snaps);
  }

  /** A whole job on an idle agent: one `Starting` report, the
      de-duplicated progress, at most one crash report, the idle report and
      the job-finished callback; afterwards the agent takes the next job. */
  lemma JobLifecycle(s: State, job: Job, snaps: seq<Snapshot>, code: int, now: real, clock: Clock, next: Job)
    requires !s.busy && Launchable(job)
    ensures var started := StartJob(s, job, now).1;
            var ran := ExecuteAndMonitor(started.state, snaps, true, code, clock);
            && started.events[0] == StatusUpdate(StartingReport(s.agentId, StartingJobId(job), now))
            && |ran.events| >= 2 && ran.events[|ran.events| - 1] == JobFinished
            && StartJob(ran.state, next, clock.idle).0
  {
  }

  /** A job without `job_id` is announced as "unknown_job", but its files and
      its crash report use `job_<launch time>`: the two ids never match. */
  lemma UnknownJobIdsDiffer(job: Job, launchTime: real)
    requires "job_id" !in job
    ensures StartingJobId(job) == Str("unknown_job")
    ensures ThreadJobId(job, launchTime).Str?
    ensures ThreadJobId(job, launchTime) != StartingJobId(job)
  {
    var id := ThreadJobId(job, launchTime).s;
    assert id[0] == 'j' && "unknown_job"[0] == 'u';
  }

  /** A job whose file cannot be written, say because its `job_id` names a
      directory that does not exist, leaves the agent busy for good under
      the code as written; the corrected thread resets it. */
  lemma UnwrittenJobStaysBusy(agentId: Value, job: Job, snaps: seq<Snapshot>, code: int, now: real, clock: Clock, next: Job)
    ensures var started := StartJob(Init(agentId, now), job, now).1.state;
            var ran := ExecuteAndMonitorAsWritten(started, snaps, false, code, clock);
            && ran.state.busy && ran.events == []
            && !StartJob(ran.state, next, clock.idle).0
            && StartJob(ExecuteAndMonitor(started, snaps, false, code, clock).state, next, clock.idle).0
  {
  }

  /** A job without `project_path` leaves the agent busy for good under the
      code as written: no cleanup runs and every later job is rejected. */
  lemma MissingProjectPathStaysBusy(agentId: Value, job: Job, snaps: seq<Snapshot>, code: int, now: real, clock: Clock, next: Job)
    requires "project_path" !in job
    ensures var started := StartJob(Init(agentId, now), job, now).1.state;
            var ran := ExecuteAndMonitorAsWritten(started, snaps, true, code, clock);
            && ran.state.busy && ran.events == []
            && !StartJob(ran.state, next, clock.idle).0
  {
  }
}
