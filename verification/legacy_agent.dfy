/** The older single-connection agent of the root RealisRenderAgent.py: one
    director connection per job request, a busy flag reset in `finally`, and
    a monitor that writes every new progress report to that connection.

    The progress-file snapshots, whether each write on the connection
    succeeds, the exit code and the clock are inputs. */
module LegacyAgent {
  import opened Py
  import opened Progress

  type Job = Dict

  /** What is written on the connection: status lines end in a newline, the
      error replies do not. */
  datatype Wire = StatusLine(report: Dict) | Reply(reply: Dict)

  /** One poll of the monitor: what the progress file shows, and whether a
      write on the connection would go through. */
  datatype Tick = Tick(snap: Snapshot, sendOk: bool)

  /** Why the polling loop stopped. */
  datatype PollEnd =
    | ProcessExited  // the loop condition saw the process gone
    | SentTerminal   // a `Completed` or `Error` report was written
    | DirectorGone   // a write failed and the render was terminated

  /** The writes attempted, the reports actually delivered, the last
      reported status and why polling stopped. */
  datatype Polled = Polled(sent: seq<Wire>, delivered: seq<Dict>, last: Option<Dict>, end: PollEnd)

  /** The writes attempted by the whole monitor and how it ended. */
  datatype Monitored = Monitored(sent: seq<Wire>, ending: Ending)

  datatype Ending =
    | Reported    // returned after writing a terminal report
    | Terminated  // the director was found gone and the render terminated
    | Exited      // the exit-code check ran to the end
    | Raised      // the exit-code check raised `AttributeError`

  /** A fresh report differs from the last one recorded as reported. */
  predicate Fresh(t: Tick, last: Option<Dict>)
  {
    t.snap.Line? && Some(t.snap.report) != last
  }

  function Prepend(w: Wire, delivered: seq<Dict>, p: Polled): Polled
  {
    p.(sent := [w] + p.sent, delivered := delivered + p.delivered)
  }

  /** `monitor_and_report_progress`'s loop as written. A failed write raises
      an `OSError`, which the `IOError` clause catches first: the status is
      not recorded as reported, the loop goes on, and the same report is
      written again at the next poll. The `ConnectionError` clause that
      would terminate the render is never reached. */
  function PollAsWritten(last: Option<Dict>, ticks: seq<Tick>): (r: Polled)
    ensures r.end != DirectorGone
    decreases |ticks|
  {
    if |ticks| == 0 then Polled([], [], last, ProcessExited)
    else
      var t := ticks[0];
      if Fresh(t, last) then
        var rep := t.snap.report;
        if !t.sendOk then Prepend(StatusLine(rep), [], PollAsWritten(last, ticks[1..]))
        else if IsTerminal(rep) then Polled([StatusLine(rep)], [rep], Some(rep), SentTerminal)
        else Prepend(StatusLine(rep), [rep], PollAsWritten(Some(rep), ticks[1..]))
      else PollAsWritten(last, ticks[1..])
  }

  /** The loop with the intended handling of a lost director: the first
      failed write terminates the render and ends monitoring. */
  function Poll(last: Option<Dict>, ticks: seq<Tick>): (r: Polled)
    decreases |ticks|
  {
    if |ticks| == 0 then Polled([], [], last, ProcessExited)
    else
      var t := ticks[0];
      if Fresh(t, last) then
        var rep := t.snap.report;
        if !t.sendOk then Polled([StatusLine(rep)], [], last, DirectorGone)
        else if IsTerminal(rep) then Polled([StatusLine(rep)], [rep], Some(rep), SentTerminal)
        else Prepend(StatusLine(rep), [rep], Poll(Some(rep), ticks[1..]))
      else Poll(last, ticks[1..])
  }

  /** The `job_id` of the crash line when a status was reported before. */
  function ReportedJobId(last: Dict): Value
  {
    Get(last, "job_id", Str("unknown"))
  }

  /** `monitor_and_report_progress` as written: after the loop, a non-zero
      exit code writes an `Error` line whose `job_id` comes from the last
      reported status; with nothing reported yet that is `None.get`, which
      raises. */
  function MonitorAsWritten(ticks: seq<Tick>, code: int, now: real): (r: Monitored)
    ensures r.ending != Terminated
  {
    var p := PollAsWritten(None, ticks);
    if p.end == SentTerminal then Monitored(p.sent, Reported)
    else if code == 0 then Monitored(p.sent, Exited)
    else if p.last.None? then Monitored(p.sent, Raised)
    else Monitored(p.sent + [StatusLine(CrashReport(now, ReportedJobId(p.last.value), code))], Exited)
  }

  /** The `job_id` of the crash line, `unknown` when nothing was reported. */
  function CrashJobId(last: Option<Dict>): (id: Value)
    ensures last.Some? ==> id == ReportedJobId(last.value)
    ensures last.None? ==> id == Str("unknown")
  {
    if last.Some? then ReportedJobId(last.value) else Str("unknown")
  }

  /** The monitor with both corrections: a lost director terminates the
      render, and a crash before any report still writes its `Error` line. */
  function Monitor(ticks: seq<Tick>, code: int, now: real): (r: Monitored)
    ensures r.ending != Raised
  {
    var p := Poll(None, ticks);
    if p.end == SentTerminal then Monitored(p.sent, Reported)
    else if p.end == DirectorGone then Monitored(p.sent, Terminated)
    else if code == 0 then Monitored(p.sent, Exited)
    else Monitored(p.sent + [StatusLine(CrashReport(now, CrashJobId(p.last), code))], Exited)
  }

  /** What one `recv` of a job request yields. */
  datatype Request =
    | NoData               // the director sent nothing before closing
    | NotUtf8              // the bytes do not decode as UTF-8
    | BadJson(error: string)  // `json.loads` failed with this message
    | NotObject            // valid JSON, but not an object
    | JobData(job: Job)

  const BusyReply: Dict := map["status" := Str("error"), "message" := Str("Agent is busy")]

  function InvalidReply(error: string): (r: Dict)
    ensures r.Keys == {"status", "message"} && r["status"] == Str("error")
  {
    map["status" := Str("error"), "message" := Str("Invalid job data: " + error)]
  }

  /** The busy flag afterwards, what was written, whether the render was
      launched, and how monitoring ended if it was. */
  datatype Handled = Handled(busy: bool, sent: seq<Wire>, launched: bool, ending: Option<Ending>)

  /** `handle_job_request` given what monitoring would do and whether the
      job file could be written (and a stale progress file removed). A busy
      agent writes the busy reply and leaves the flag alone. Otherwise the
      flag is set and reset in `finally`: invalid JSON or a missing field
      gets one `Invalid job data` reply (the `KeyError` message is the quoted
      key, `project_path` checked first), every other failure is only
      logged. The file is written before the fields are looked up, so a
      failed write falls to the catch-all clause: no launch and no reply,
      even for a job that lacks a field. */
  function Handle(busy: bool, req: Request, written: bool, monitored: Monitored): (r: Handled)
    ensures busy ==> r == Handled(true, [Reply(BusyReply)], false, None)
    ensures !busy ==> !r.busy
    ensures r.launched <==> !busy && req.JobData? && written && Launchable(req.job)
    ensures r.launched ==> r.sent == monitored.sent && r.ending == Some(monitored.ending)
    ensures !busy && req.BadJson? ==> r.sent == [Reply(InvalidReply(req.error))]
    ensures !busy && req.JobData? && !written ==> r == Handled(false, [], false, None)
    ensures !busy && req.JobData? && written && "project_path" !in req.job ==> r.sent == [Reply(InvalidReply("'project_path'"))]
    ensures !busy && req.JobData? && written && "project_path" in req.job && "graph_path" !in req.job ==>
      r.sent == [Reply(InvalidReply("'graph_path'"))]
    ensures !busy && (req.NoData? || req.NotUtf8? || req.NotObject?) ==> r == Handled(false, [], false, None)
  {
    if busy then Handled(true, [Reply(BusyReply)], false, None)
    else
      match req
      case BadJson(e) => Handled(false, [Reply(InvalidReply(e))], false, None)
      case JobData(job) =>
        if !written then Handled(false, [], false, None)
        else if "project_path" !in job then Handled(false, [Reply(InvalidReply("'project_path'"))], false, None)
        else if "graph_path" !in job then Handled(false, [Reply(InvalidReply("'graph_path'"))], false, None)
        else Handled(false, monitored.sent, true, Some(monitored.ending))
      case _ => Handled(false, [], false, None)
  }

  function HandleJobRequestAsWritten(busy: bool, req: Request, written: bool, ticks: seq<Tick>, code: int, now: real): (r: Handled)
    ensures !busy ==> !r.busy
  {
    Handle(busy, req, written, MonitorAsWritten(ticks, code, now))
  }

  function HandleJobRequest(busy: bool, req: Request, written: bool, ticks: seq<Tick>, code: int, now: real): (r: Handled)
    ensures !busy ==> !r.busy
    ensures r.ending != Some(Raised)
  {
    Handle(busy, req, written, Monitor(ticks, code, now))
  }

  function Snaps(ticks: seq<Tick>): (r: seq<Snapshot>)
    ensures |r| == |ticks| && forall i :: 0 <= i < |ticks| ==> r[i] == ticks[i].snap
  {
    if |ticks| == 0 then [] else [ticks[0].snap] + Snaps(ticks[1..])
  }

  predicate AllSendsOk(ticks: seq<Tick>)
  {
    forall i :: 0 <= i < |ticks| ==> ticks[i].sendOk
  }

  function Lines(rs: seq<Dict>): (r: seq<Wire>)
    ensures |r| == |rs| && forall i :: 0 <= i < |rs| ==> r[i] == StatusLine(rs[i])
  {
    if |rs| == 0 then [] else [StatusLine(rs[0])] + Lines(rs[1..])
  }

  /** The reports a poll delivers never repeat, whatever writes fail. */
  lemma {:induction false} DeliveredHasNoRepeats(last: Option<Dict>, ticks: seq<Tick>)
    ensures NoRepeats(last, PollAsWritten(last, ticks).delivered)
    decreases |ticks|
  {
    if |ticks| > 0 {
      var t := ticks[0];
      if Fresh(t, last) {
        var rep := t.snap.report;
        if !t.sendOk {
          DeliveredHasNoRepeats(last, ticks[1..]);
        } else if !IsTerminal(rep) {
          DeliveredHasNoRepeats(Some(rep), ticks[1..]);
          NoRepeatsCons(last, rep, PollAsWritten(Some(rep), ticks[1..]).delivered);
        }
      } else {
        DeliveredHasNoRepeats(last, ticks[1..]);
      }
    }
  }

  /** The status recorded as last reported is the last report delivered. */
  lemma {:induction false} LastIsLastDelivered(last: Option<Dict>, ticks: seq<Tick>)
    ensures var p := PollAsWritten(last, ticks);
            p.last == (if |p.delivered| == 0 then last else Some(p.delivered[|p.delivered| - 1]))
    decreases |ticks|
  {
    if |ticks| > 0 {
      var t := ticks[0];
      if Fresh(t, last) {
        var rep := t.snap.report;
        if !t.sendOk {
          LastIsLastDelivered(last, ticks[1..]);
        } else if !IsTerminal(rep) {
          LastIsLastDelivered(Some(rep), ticks[1..]);
        }
      } else {
        LastIsLastDelivered(last, ticks[1..]);
      }
    }
  }

  lemma SnapsReports(ticks: seq<Tick>)
    requires |ticks| > 0
    ensures Reports(Snaps(ticks)) == (if ticks[0].snap.Line? then [ticks[0].snap.report] else []) + Reports(Snaps(ticks[1..]))
  {
    var tail := Snaps(ticks[1..]);
    assert Snaps(ticks) == [ticks[0].snap] + tail;
    assert ([ticks[0].snap] + tail)[1..] == tail;
  }

  lemma AllSendsOkTail(ticks: seq<Tick>)
    requires |ticks| > 0 && AllSendsOk(ticks)
    ensures ticks[0].sendOk && AllSendsOk(ticks[1..])
  {
    assert ticks[0].sendOk;
    forall i | 0 <= i < |ticks[1..]| ensures ticks[1..][i].sendOk { assert ticks[i + 1].sendOk; }
  }

  /** When every write goes through, the loop writes the de-duplicated
      reports up to and including the first terminal one. */
  lemma {:induction false} PollWritesDedup(last: Option<Dict>, ticks: seq<Tick>)
    requires AllSendsOk(ticks)
    ensures PollAsWritten(last, ticks).sent == Lines(UntilTerminal(Dedup(last, Reports(Snaps(ticks)))))
    decreases |ticks|
  {
    if |ticks| > 0 {
      var t := ticks[0];
      var rs := Reports(Snaps(ticks[1..]));
      SnapsReports(ticks);
      AllSendsOkTail(ticks);
      if t.snap.Line? {
        var rep := t.snap.report;
        DedupCons(last, rep, rs);
        if Some(rep) != last {
          if !IsTerminal(rep) {
            PollWritesDedup(Some(rep), ticks[1..]);
            var u := UntilTerminal(Dedup(Some(rep), rs));
            assert UntilTerminal([rep] + Dedup(Some(rep), rs)) == [rep] + u;
            assert Lines([rep] + u) == [StatusLine(rep)] + Lines(u);
          } else {
            assert UntilTerminal([rep] + Dedup(Some(rep), rs)) == [rep];
          }
        } else {
          PollWritesDedup(last, ticks[1..]);
          assert Dedup(last, Reports(Snaps(ticks))) == Dedup(last, rs);
        }
      } else {
        PollWritesDedup(last, ticks[1..]);
        assert Reports(Snaps(ticks)) == rs;
        assert PollAsWritten(last, ticks) == PollAsWritten(last, ticks[1..]);
      }
    }
  }

  /** When every write goes through, the correction changes nothing. */
  lemma {:induction false} PollAgreesWhenSendsOk(last: Option<Dict>, ticks: seq<Tick>)
    requires AllSendsOk(ticks)
    ensures Poll(last, ticks) == PollAsWritten(last, ticks)
    decreases |ticks|
  {
    if |ticks| > 0 {
      AllSendsOkTail(ticks);
      var t := ticks[0];
      if Fresh(t, last) {
        if !IsTerminal(t.snap.report) {
          PollAgreesWhenSendsOk(Some(t.snap.report), ticks[1..]);
        }
      } else {
        PollAgreesWhenSendsOk(last, ticks[1..]);
      }
    }
  }

  /** The monitor returns straight after writing a terminal report: the last
      line is that report and the exit-code check is skipped. */
  lemma {:induction false} ReportedEndsOnTerminal(last: Option<Dict>, ticks: seq<Tick>)
    requires Poll(last, ticks).end == SentTerminal
    ensures var p := Poll(last, ticks);
            |p.sent| > 0 && p.sent[|p.sent| - 1].StatusLine? && IsTerminal(p.sent[|p.sent| - 1].report)
    decreases |ticks|
  {
    var t := ticks[0];
    if Fresh(t, last) {
      var rep := t.snap.report;
      if t.sendOk && !IsTerminal(rep) {
        ReportedEndsOnTerminal(Some(rep), ticks[1..]);
      }
    } else {
      ReportedEndsOnTerminal(last, ticks[1..]);
    }
  }

  /** A non-zero exit after polling that neither wrote a terminal report nor
      lost the director adds exactly one `Error` line naming the exit code,
      with the last reported `job_id` or `unknown`. */
  lemma CrashLine(ticks: seq<Tick>, code: int, now: real)
    requires Poll(None, ticks).end == ProcessExited && code != 0
    ensures var p := Poll(None, ticks);
            Monitor(ticks, code, now) == Monitored(p.sent + [StatusLine(CrashReport(now, CrashJobId(p.last), code))], Exited)
  {
  }

  /** The code as written adds the same crash line once something was
      reported: the last reported status supplies its `job_id`. */
  lemma CrashLineAsWritten(ticks: seq<Tick>, code: int, now: real)
    requires PollAsWritten(None, ticks).end == ProcessExited && code != 0
    requires PollAsWritten(None, ticks).last.Some?
    ensures var p := PollAsWritten(None, ticks);
            MonitorAsWritten(ticks, code, now) == Monitored(p.sent + [StatusLine(CrashReport(now, CrashJobId(p.last), code))], Exited)
  {
  }

  /** When every write goes through and the exit-code check has a status to
      read (or nothing to report), the two monitors write the same lines and
      end the same way. */
  lemma MonitorAgreesWhenSendsOk(ticks: seq<Tick>, code: int, now: real)
    requires AllSendsOk(ticks)
    requires code == 0 || PollAsWritten(None, ticks).last.Some?
    ensures MonitorAsWritten(ticks, code, now) == Monitor(ticks, code, now)
  {
    PollAgreesWhenSendsOk(None, ticks);
  }

  /** A render that crashes before any report: the code as written raises
      and the director hears nothing; the corrected monitor writes the crash
      with job id `unknown`. */
  lemma CrashBeforeFirstReport(ticks: seq<Tick>, now: real)
    requires forall i :: 0 <= i < |ticks| ==> !ticks[i].snap.Line?
    ensures MonitorAsWritten(ticks, 1, now) == Monitored([], Raised)
    ensures Monitor(ticks, 1, now) == Monitored([StatusLine(CrashReport(now, Str("unknown"), 1))], Exited)
  {
    NoLinesPoll(None, ticks);
  }

  lemma {:induction false} NoLinesPoll(last: Option<Dict>, ticks: seq<Tick>)
    requires forall i :: 0 <= i < |ticks| ==> !ticks[i].snap.Line?
    ensures PollAsWritten(last, ticks) == Polled([], [], last, ProcessExited)
    ensures Poll(last, ticks) == Polled([], [], last, ProcessExited)
    decreases |ticks|
  {
    if |ticks| > 0 {
      assert !ticks[0].snap.Line?;
      NoLinesPoll(last, ticks[1..]);
    }
  }

  /** A director that has gone away: under the code as written the failed
      write is retried at the next poll and the render runs on; the
      corrected monitor stops and terminates the render. */
  lemma LostDirectorGoesUnnoticed(r: Dict, now: real)
    requires !IsTerminal(r)
    ensures var ticks := [Tick(Line(r), false), Tick(Line(r), true)];
            && MonitorAsWritten(ticks, 0, now) == Monitored([StatusLine(r), StatusLine(r)], Exited)
            && Monitor(ticks, 0, now) == Monitored([StatusLine(r)], Terminated)
  {
    var ticks := [Tick(Line(r), false), Tick(Line(r), true)];
    assert ticks[1..] == [Tick(Line(r), true)];
    assert ticks[1..][1..] == [];
    assert PollAsWritten(Some(r), []) == Polled([], [], Some(r), ProcessExited);
    assert PollAsWritten(None, ticks[1..]) == Polled([StatusLine(r)], [r], Some(r), ProcessExited);
    assert PollAsWritten(None, ticks) == Polled([StatusLine(r), StatusLine(r)], [r], Some(r), ProcessExited);
  }

  /** The busy flag is always cleared once a request on an idle agent is
      over, whether the job ran, failed validation, could not be written or
      crashed the monitor. */
  lemma BusyAlwaysReset(req: Request, written: bool, ticks: seq<Tick>, code: int, now: real)
    ensures !HandleJobRequestAsWritten(false, req, written, ticks, code, now).busy
    ensures !HandleJobRequest(false, req, written, ticks, code, now).busy
    ensures HandleJobRequest(true, req, written, ticks, code, now) == Handled(true, [Reply(BusyReply)], false, None)
  {
  }
}
