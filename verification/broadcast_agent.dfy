/** The multi-director agent of Agent/RealisRenderAgent.py: a list of live
    director connections, one job slot, and a job thread that broadcasts
    every new progress report to all connections.

    Each `with self.state_lock` block is one step. Whether a send on a
    connection succeeds is an input (`sendOk`), as are the clock, the
    progress-file snapshots and the exit code. */
module BroadcastAgent {
  import opened Py
  import opened Numerals
  import opened Progress

  type Job = Dict

  /** A director connection, by identity. */
  type Conn = nat

  datatype State = State(agentId: Value, conns: seq<Conn>, busy: bool, job: Option<Job>, last: Option<Dict>)

  /** One newline-terminated JSON line written to one connection. */
  datatype Send = Send(conn: Conn, message: Dict)

  datatype Step = Step(state: State, sends: seq<Send>)

  predicate Distinct(conns: seq<Conn>)
  {
    forall i, j :: 0 <= i < j < |conns| ==> conns[i] != conns[j]
  }

  /** A freshly constructed agent: no connection, no job, no status. */
  function Init(agentId: Value): (s: State)
    ensures s.conns == [] && !s.busy && s.job == None && s.last == None
  {
    State(agentId, [], false, None, None)
  }

  /** The connections of `conns` that `keep` accepts, in their order. */
  function Filter(conns: seq<Conn>, keep: Conn -> bool): (r: seq<Conn>)
    ensures |r| <= |conns|
    ensures forall c :: c in r <==> c in conns && keep(c)
    ensures Distinct(conns) ==> Distinct(r)
  {
    if |conns| == 0 then []
    else
      var rest := Filter(conns[1..], keep);
      assert forall c :: c in rest ==> c in conns[1..];
      (if keep(conns[0]) then [conns[0]] else []) + rest
  }

  /** `list.remove(c)`: drops the first occurrence. */
  function RemoveFirst(conns: seq<Conn>, c: Conn): (r: seq<Conn>)
    requires c in conns
    ensures |r| == |conns| - 1
  {
    if conns[0] == c then conns[1..] else [conns[0]] + RemoveFirst(conns[1..], c)
  }

  /** `cleanup_connection`: the connection leaves the list if it is in it;
      otherwise nothing changes. The other connections keep their order. */
  function CleanupConnection(s: State, c: Conn): (r: State)
    ensures r == s.(conns := r.conns)
    ensures c !in s.conns ==> r == s
    ensures Distinct(s.conns) ==> r.conns == Filter(s.conns, x => x != c)
  {
    if c in s.conns then
      RemoveFirstOfDistinct(s.conns, c);
      s.(conns := RemoveFirst(s.conns, c))
    else
      FilterAll(s.conns, c);
      s
  }

  lemma {:induction false} RemoveFirstOfDistinct(conns: seq<Conn>, c: Conn)
    requires c in conns
    ensures Distinct(conns) ==> RemoveFirst(conns, c) == Filter(conns, x => x != c)
    decreases |conns|
  {
    if Distinct(conns) {
      if conns[0] == c {
        assert c !in conns[1..];
        FilterAll(conns[1..], c);
      } else {
        RemoveFirstOfDistinct(conns[1..], c);
      }
    }
  }

  lemma {:induction false} FilterAll(conns: seq<Conn>, c: Conn)
    requires c !in conns
    ensures Filter(conns, x => x != c) == conns
    decreases |conns|
  {
    if |conns| > 0 {
      FilterAll(conns[1..], c);
      assert [conns[0]] + conns[1..] == conns;
    }
  }

  /** Cleaning up a connection twice is the same as once. */
  lemma CleanupTwice(s: State, c: Conn)
    requires Distinct(s.conns)
    ensures CleanupConnection(CleanupConnection(s, c), c) == CleanupConnection(s, c)
  {
  }

  /** The first line a new connection receives: the last known status when
      the agent is busy and has one (a non-empty report), else a complete
      idle report. */
  function Greeting(s: State, now: real): (r: Dict)
    ensures s.busy && s.last.Some? && Truthy(Object(s.last.value)) ==> r == s.last.value
    ensures !(s.busy && s.last.Some? && Truthy(Object(s.last.value))) ==> r == IdleReport(s.agentId, now)
  {
    if s.busy && s.last.Some? && Truthy(Object(s.last.value)) then s.last.value
    else IdleReport(s.agentId, now)
  }

  /** `handle_director` up to its read loop: the connection joins the list
      and receives exactly one status line; if that send fails the
      connection is cleaned up again. */
  function Accept(s: State, c: Conn, sendOk: bool, now: real): (r: Step)
    requires c !in s.conns
    ensures r.sends == [Send(c, Greeting(s, now))]
    ensures sendOk ==> r.state == s.(conns := s.conns + [c])
    ensures !sendOk ==> r.state == s
    ensures Distinct(s.conns) ==> Distinct(r.state.conns)
  {
    var joined := s.(conns := s.conns + [c]);
    var sends := [Send(c, Greeting(s, now))];
    if sendOk then Step(joined, sends)
    else
      assert joined.conns[..|s.conns|] == s.conns;
      RemoveFirstLast(s.conns, c);
      Step(CleanupConnection(joined, c), sends)
  }

  lemma {:induction false} RemoveFirstLast(conns: seq<Conn>, c: Conn)
    requires c !in conns
    ensures RemoveFirst(conns + [c], c) == conns
    decreases |conns|
  {
    if |conns| > 0 {
      assert (conns + [c])[1..] == conns[1..] + [c];
      RemoveFirstLast(conns[1..], c);
    }
  }

  /** A director that connects while a job has been accepted but has not
      yet reported anything is told the agent is idle. */
  lemma BusyBeforeFirstReportLooksIdle(s: State, now: real)
    requires s.busy && s.last == None
    ensures StatusOf(Greeting(s, now)) == Str("Idle")
  {
  }

  /** What one `recv` on a director connection yields. */
  datatype Inbound =
    | Closed              // the director closed the connection
    | ConnectionLost      // `recv` raised a socket error
    | Malformed           // the bytes are not JSON
    | NotObject           // JSON, but not an object
    | JobMessage(job: Job)

  const BusyReply: Dict := map["status" := Str("error"), "message" := Str("Agent is busy with another job.")]

  /** One pass of the read loop: the step, whether a job thread was started,
      and whether the loop goes on. */
  datatype Read = Read(step: Step, launched: bool, open: bool)

  /** One message on connection `c`. Any decoded JSON on a busy agent is
      answered with the busy reply on `c` alone; if that reply cannot be
      sent the connection is dropped. Bytes that are not JSON are only
      logged, and so is JSON other than an object on an idle agent. */
  function Receive(s: State, c: Conn, msg: Inbound, replyOk: bool): (r: Read)
    ensures msg.Malformed? || (msg.NotObject? && !s.busy) ==> r == Read(Step(s, []), false, true)
    ensures msg.Closed? || msg.ConnectionLost? ==> r == Read(Step(CleanupConnection(s, c), []), false, false)
    ensures (msg.JobMessage? || msg.NotObject?) && s.busy ==>
      && r.step.sends == [Send(c, BusyReply)] && !r.launched
      && r.step.state.busy && r.step.state.job == s.job && r.step.state.last == s.last
      && (r.open <==> replyOk)
      && r.step.state.conns == (if replyOk then s.conns else CleanupConnection(s, c).conns)
    ensures msg.JobMessage? && !s.busy ==>
      r == Read(Step(s.(busy := true, job := Some(msg.job)), []), true, true)
  {
    match msg
    case Closed => Read(Step(CleanupConnection(s, c), []), false, false)
    case ConnectionLost => Read(Step(CleanupConnection(s, c), []), false, false)
    case Malformed => Read(Step(s, []), false, true)
    case NotObject =>
      if s.busy then RefuseBusy(s, c, replyOk) else Read(Step(s, []), false, true)
    case JobMessage(job) =>
      if s.busy then RefuseBusy(s, c, replyOk)
      else Read(Step(s.(busy := true, job := Some(job)), []), true, true)
  }

  /** The busy reply on `c`, dropping `c` if it cannot be sent. */
  function RefuseBusy(s: State, c: Conn, replyOk: bool): Read
  {
    if replyOk then Read(Step(s, [Send(c, BusyReply)]), false, true)
    else Read(Step(CleanupConnection(s, c), [Send(c, BusyReply)]), false, false)
  }

  /** A message arriving on some connection, with whether a reply on it
      would go through. */
  datatype Arrival = Arrival(conn: Conn, msg: Inbound, replyOk: bool)

  /** Messages from any connections with no job finishing in between, as
      `(jobs started, final state)`. */
  function ReceiveAll(s: State, arrivals: seq<Arrival>): (nat, State)
    decreases |arrivals|
  {
    if |arrivals| == 0 then (0, s)
    else
      var a := arrivals[0];
      var r := Receive(s, a.conn, a.msg, a.replyOk);
      var (n, t) := ReceiveAll(r.step.state, arrivals[1..]);
      ((if r.launched then 1 else 0) + n, t)
  }

  /** Across all connections, at most one job is started until the reset:
      none while busy, and on an idle agent only the first job to arrive. */
  lemma {:induction false} AtMostOneLaunch(s: State, arrivals: seq<Arrival>)
    ensures ReceiveAll(s, arrivals).0 <= 1
    ensures s.busy ==> ReceiveAll(s, arrivals).0 == 0 && ReceiveAll(s, arrivals).1.job == s.job
    decreases |arrivals|
  {
    if |arrivals| > 0 {
      var a := arrivals[0];
      var r := Receive(s, a.conn, a.msg, a.replyOk);
      AtMostOneLaunch(r.step.state, arrivals[1..]);
      if r.launched {
        assert r.step.state.busy;
      }
    }
  }

  /** One send of `report` to each connection, in list order. */
  function SendsTo(conns: seq<Conn>, report: Dict): (r: seq<Send>)
    ensures |r| == |conns|
    ensures forall i :: 0 <= i < |conns| ==> r[i] == Send(conns[i], report)
  {
    if |conns| == 0 then [] else [Send(conns[0], report)] + SendsTo(conns[1..], report)
  }

  /** `broadcast_status` with the dead connections removed in the same
      critical section: the report becomes the last known status, every
      listed connection is sent it once, and only those whose send failed
      leave the list, after the whole pass. */
  function BroadcastStatus(s: State, report: Dict, sendOk: Conn -> bool): (r: Step)
    ensures r.state.last == Some(report)
    ensures r.state.busy == s.busy && r.state.job == s.job && r.state.agentId == s.agentId
    ensures |r.sends| == |s.conns|
    ensures forall i :: 0 <= i < |s.conns| ==> r.sends[i] == Send(s.conns[i], report)
    ensures forall c :: c in r.state.conns <==> c in s.conns && sendOk(c)
    ensures r.state.conns == Filter(s.conns, sendOk)
  {
    Step(s.(last := Some(report), conns := Filter(s.conns, sendOk)), SendsTo(s.conns, report))
  }

  /** How `broadcast_status` as written ends. */
  datatype Outcome =
    | Finished(step: Step)
    | Deadlocked(sends: seq<Send>)  // the thread blocks forever holding `state_lock`

  /** `broadcast_status` as written: it holds `state_lock` for the whole
      pass and then calls `cleanup_connection` for each dead connection,
      which acquires the same non-reentrant lock again. The first dead
      connection therefore blocks the thread for good. */
  function BroadcastStatusAsWritten(s: State, report: Dict, sendOk: Conn -> bool): (r: Outcome)
    ensures r.Deadlocked? <==> exists c :: c in s.conns && !sendOk(c)
    ensures r.Finished? ==> r.step == BroadcastStatus(s, report, sendOk)
  {
    var sends := SendsTo(s.conns, report);
    var dead := Filter(s.conns, (c: Conn) => !sendOk(c));
    if |dead| == 0 then
      assert forall c :: c in s.conns ==> sendOk(c);
      FilterAll'(s.conns, sendOk);
      Finished(Step(s.(last := Some(report)), sends))
    else
      assert dead[0] in dead;
      Deadlocked(sends)
  }

  lemma {:induction false} FilterAll'(conns: seq<Conn>, keep: Conn -> bool)
    requires forall c :: c in conns ==> keep(c)
    ensures Filter(conns, keep) == conns
    decreases |conns|
  {
    if |conns| > 0 {
      FilterAll'(conns[1..], keep);
      assert [conns[0]] + conns[1..] == conns;
    }
  }

  /** One director whose peer has gone is enough to hang the agent under
      the code as written; the corrected broadcast just drops it. */
  lemma DeadDirectorDeadlocks(s: State, report: Dict)
    requires s.conns == [1, 2]
    ensures var sendOk := (c: Conn) => c != 2;
            && BroadcastStatusAsWritten(s, report, sendOk).Deadlocked?
            && BroadcastStatus(s, report, sendOk).state.conns == [1]
  {
    var sendOk := (c: Conn) => c != 2;
    assert 2 in s.conns && !sendOk(2);
    assert Filter(s.conns, sendOk) == [1] by {
      assert s.conns[1..] == [2];
      assert Filter([2], sendOk) == [];
    }
  }

  /** The job thread's run: the state, the sends, and the reports
      broadcast, in order. */
  datatype Run = Run(state: State, sends: seq<Send>, reports: seq<Dict>)

  /** One poll: a parsed report that differs from the last known status is
      broadcast, and polling stops once it is `Completed` or `Error`. */
  function Poll(s: State, snap: Snapshot, sendOk: Conn -> bool): (r: (Run, bool))
    ensures snap.Line? && Some(snap.report) != s.last ==>
      && r.0.state == BroadcastStatus(s, snap.report, sendOk).state
      && r.0.reports == [snap.report]
      && (r.1 <==> IsTerminal(snap.report))
    ensures !(snap.Line? && Some(snap.report) != s.last) ==> r == (Run(s, [], []), false)
  {
    match snap
    case Line(report) =>
      if Some(report) != s.last then
        var b := BroadcastStatus(s, report, sendOk);
        (Run(b.state, b.sends, [report]), IsTerminal(report))
      else (Run(s, [], []), false)
    case _ => (Run(s, [], []), false)
  }

  /** The polling loop while the process runs, leaving early after a
      `Completed` or `Error` broadcast. */
  function PollLoop(s: State, snaps: seq<Snapshot>, sendOk: Conn -> bool): (r: Run)
    ensures r.state.busy == s.busy && r.state.job == s.job && r.state.agentId == s.agentId
    decreases |snaps|
  {
    if |snaps| == 0 then Run(s, [], [])
    else
      var (first, stop) := Poll(s, snaps[0], sendOk);
      if stop then first
      else
        var rest := PollLoop(first.state, snaps[1..], sendOk);
        Run(rest.state, first.sends + rest.sends, first.reports + rest.reports)
  }

  /** The last report of `rs`, or `last` when there is none. */
  function LastKnown(last: Option<Dict>, rs: seq<Dict>): (r: Option<Dict>)
    ensures |rs| > 0 ==> r == Some(rs[|rs| - 1])
    ensures |rs| == 0 ==> r == last
  {
    if |rs| == 0 then last else Some(rs[|rs| - 1])
  }

  /** The loop broadcasts the de-duplicated reports up to the first
      terminal one and nothing after it, and ends with the last of them as
      the last known status. */
  lemma {:induction false} PollLoopReports(s: State, snaps: seq<Snapshot>, sendOk: Conn -> bool)
    ensures PollLoop(s, snaps, sendOk).reports == UntilTerminal(Dedup(s.last, Reports(snaps)))
    ensures PollLoop(s, snaps, sendOk).state.last == LastKnown(s.last, UntilTerminal(Dedup(s.last, Reports(snaps))))
    decreases |snaps|
  {
    if |snaps| > 0 {
      var (first, stop) := Poll(s, snaps[0], sendOk);
      var rs := Reports(snaps[1..]);
      assert Reports(snaps) == (if snaps[0].Line? then [snaps[0].report] else []) + rs;
      if snaps[0].Line? {
        var rep := snaps[0].report;
        assert Reports(snaps) == [rep] + rs;
        assert ([rep] + rs)[1..] == rs;
        assert Dedup(s.last, [rep] + rs) == (if Some(rep) != s.last then [rep] else []) + Dedup(Some(rep), rs);
        if Some(rep) != s.last {
          if !stop {
            PollLoopReports(first.state, snaps[1..], sendOk);
            assert first.state.last == Some(rep);
            var u := UntilTerminal(Dedup(Some(rep), rs));
            assert UntilTerminal([rep] + Dedup(Some(rep), rs)) == [rep] + u;
            assert LastKnown(Some(rep), u) == LastKnown(s.last, [rep] + u);
          } else {
            assert UntilTerminal([rep] + Dedup(Some(rep), rs)) == [rep];
          }
        } else {
          assert first == Run(s, [], []) && !stop;
          PollLoopReports(s, snaps[1..], sendOk);
          assert Dedup(s.last, Reports(snaps)) == Dedup(s.last, rs);
          assert [] + PollLoop(s, snaps[1..], sendOk).reports == PollLoop(s, snaps[1..], sendOk).reports;
        }
      } else {
        assert Reports(snaps) == rs;
        PollLoopReports(s, snaps[1..], sendOk);
      }
    }
  }

  /** After the process exits: a non-zero exit code broadcasts one crash
      report unless the last known status is a non-empty `Error` report. */
  predicate NeedsCrashReport(last: Option<Dict>, code: int)
  {
    code != 0 && (last.None? || !Truthy(Object(last.value)) || StatusOf(last.value) != Str("Error"))
  }

  function FinalCheck(s: State, jobId: Value, code: int, now: real, sendOk: Conn -> bool): (r: Run)
    ensures NeedsCrashReport(s.last, code) ==>
      r.reports == [CrashReport(now, jobId, code)] && r.state == BroadcastStatus(s, CrashReport(now, jobId, code), sendOk).state
    ensures !NeedsCrashReport(s.last, code) ==> r == Run(s, [], [])
  {
    if NeedsCrashReport(s.last, code) then
      var b := BroadcastStatus(s, CrashReport(now, jobId, code), sendOk);
      Run(b.state, b.sends, [CrashReport(now, jobId, code)])
    else Run(s, [], [])
  }

  /** The final reset: slot cleared and status forgotten, with nothing
      broadcast. */
  function Reset(s: State): (r: State)
    ensures !r.busy && r.job == None && r.last == None
    ensures r.conns == s.conns && r.agentId == s.agentId
  {
    s.(busy := false, job := None, last := None)
  }

  /** Polling, the exit-code check and the reset of a launched job. */
  function RunLaunched(s: State, jobId: Value, snaps: seq<Snapshot>, code: int, clock: Clock, sendOk: Conn -> bool): (r: Run)
    ensures !r.state.busy && r.state.job == None && r.state.last == None
    ensures forall c :: c in r.state.conns ==> c in s.conns
  {
    var polled := PollLoop(s, snaps, sendOk);
    var checked := FinalCheck(polled.state, jobId, code, clock.crash, sendOk);
    PollLoopConns(s, snaps, sendOk);
    Run(Reset(checked.state), polled.sends + checked.sends, polled.reports + checked.reports)
  }

  /** `execute_and_monitor_job` as written, given whether the job file
      could be written: a failed write raises `OSError`, and a job without
      `project_path` or `graph_path` raises `KeyError`, in the job thread
      before the reset, so the agent stays busy. */
  function ExecuteAndMonitorAsWritten(s: State, snaps: seq<Snapshot>, written: bool, code: int, clock: Clock,
                                     sendOk: Conn -> bool): (r: Run)
    requires s.job.Some?
    ensures !Launches(s.job.value, written) ==> r == Run(s, [], [])
  {
    var job := s.job.value;
    if !Launches(job, written) then Run(s, [], [])
    else RunLaunched(s, ThreadJobId(job, clock.launch), snaps, code, clock, sendOk)
  }

  /** `execute_and_monitor_job` with the reset run whatever happens. The
      broadcasts are the de-duplicated progress up to the first terminal
      report, then at most one crash report; no idle report is broadcast,
      and the agent ends with an empty slot and no status. */
  function ExecuteAndMonitor(s: State, snaps: seq<Snapshot>, written: bool, code: int, clock: Clock,
                             sendOk: Conn -> bool): (r: Run)
    requires s.job.Some?
    ensures !r.state.busy && r.state.job == None && r.state.last == None
    ensures forall c :: c in r.state.conns ==> c in s.conns
  {
    var job := s.job.value;
    if !Launches(job, written) then Run(Reset(s), [], [])
    else RunLaunched(s, ThreadJobId(job, clock.launch), snaps, code, clock, sendOk)
  }

  /** Once the job launches, the correction changes nothing. */
  lemma LaunchedAgrees(s: State, snaps: seq<Snapshot>, written: bool, code: int, clock: Clock, sendOk: Conn -> bool)
    requires s.job.Some? && Launches(s.job.value, written)
    ensures ExecuteAndMonitorAsWritten(s, snaps, written, code, clock, sendOk)
         == ExecuteAndMonitor(s, snaps, written, code, clock, sendOk)
  {
  }

  lemma {:induction false} PollLoopConns(s: State, snaps: seq<Snapshot>, sendOk: Conn -> bool)
    ensures forall c :: c in PollLoop(s, snaps, sendOk).state.conns ==> c in s.conns
    decreases |snaps|
  {
    if |snaps| > 0 {
      var (first, stop) := Poll(s, snaps[0], sendOk);
      if !stop {
        PollLoopConns(first.state, snaps[1..], sendOk);
      }
    }
  }

  /** What the directors hear about one launched job: the progress up to
      the first terminal report, then one crash report exactly when the
      process failed and the last status broadcast, if any, was not a
      non-empty `Error` report. */
  lemma BroadcastsOfJob(s: State, snaps: seq<Snapshot>, code: int, clock: Clock, sendOk: Conn -> bool)
    requires s.job.Some? && Launches(s.job.value, true)
    ensures var polled := UntilTerminal(Dedup(s.last, Reports(snaps)));
            var crash := CrashReport(clock.crash, ThreadJobId(s.job.value, clock.launch), code);
            ExecuteAndMonitor(s, snaps, true, code, clock, sendOk).reports
              == polled + (if NeedsCrashReport(LastKnown(s.last, polled), code) then [crash] else [])
  {
    PollLoopReports(s, snaps, sendOk);
  }

  /** A job whose file cannot be written leaves the agent busy for good
      under the code as written; the corrected thread frees it for the next
      job. */
  lemma UnwrittenJobStaysBusy(s: State, c: Conn, job: Job, snaps: seq<Snapshot>, code: int, clock: Clock,
                              sendOk: Conn -> bool, next: Job)
    requires !s.busy
    ensures var started := Receive(s, c, JobMessage(job), true).step.state;
            var ran := ExecuteAndMonitorAsWritten(started, snaps, false, code, clock, sendOk);
            && ran.state.busy && ran.reports == []
            && !Receive(ran.state, c, JobMessage(next), true).launched
            && Receive(ExecuteAndMonitor(started, snaps, false, code, clock, sendOk).state, c, JobMessage(next), true).launched
  {
  }

  /** A job without `project_path` leaves the agent busy for good under the
      code as written: every later job on any connection is refused. */
  lemma MissingProjectPathStaysBusy(s: State, c: Conn, job: Job, snaps: seq<Snapshot>, code: int, clock: Clock,
                                    sendOk: Conn -> bool, next: Job)
    requires !s.busy && "project_path" !in job
    ensures var started := Receive(s, c, JobMessage(job), true).step.state;
            var ran := ExecuteAndMonitorAsWritten(started, snaps, true, code, clock, sendOk);
            && ran.state.busy && ran.reports == []
            && !Receive(ran.state, c, JobMessage(next), true).launched
  {
  }
}
