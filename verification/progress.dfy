/** What the three agent variants share: the status reports they build, the
    outcome of one look at the progress file, and the de-duplication rule
    their monitoring loops follow. */
module Progress {
  import opened Py
  import opened Numerals

  /** What one poll of a job's progress file yields. The file is written by
      the render process; only its last line matters. */
  datatype Snapshot =
    | NoFile              // the file does not exist (yet)
    | NoLines             // the file exists but holds no line
    | Unreadable          // an `OSError` while reading, or a `JSONDecodeError`
    | BlankLine           // the last line is only whitespace
    | Line(report: Dict)  // the last line, parsed as a JSON object

  /** `report.get("status")` */
  function StatusOf(report: Dict): Value
  {
    Get(report, "status", Null)
  }

  /** A report that ends a job: `Completed` or `Error`. */
  predicate IsTerminal(report: Dict)
  {
    StatusOf(report) == Str("Completed") || StatusOf(report) == Str("Error")
  }

  /** The fields of a complete agent status report. */
  const ReportKeys: set<string> := {"timestamp", "job_id", "status", "agent_id", "progress", "current_frame"}

  /** The complete idle report an agent gives when it has no job. */
  function IdleReport(agentId: Value, now: real): (r: Dict)
    ensures r.Keys == ReportKeys
    ensures StatusOf(r) == Str("Idle") && r["job_id"] == Null && r["agent_id"] == agentId
    ensures r["progress"] == Num(0.0) && r["current_frame"] == Num(0.0) && r["timestamp"] == Num(now)
  {
    map["timestamp" := Num(now), "job_id" := Null, "status" := Str("Idle"),
        "agent_id" := agentId, "progress" := Num(0.0), "current_frame" := Num(0.0)]
  }

  const CrashPrefix := "Process crashed with exit code "

  /** The `Error` report an agent makes up when the render process exits
      with a non-zero code. */
  function CrashReport(now: real, jobId: Value, code: int): (r: Dict)
    ensures r.Keys == {"timestamp", "job_id", "status", "reason"}
    ensures StatusOf(r) == Str("Error") && IsTerminal(r)
    ensures r["job_id"] == jobId && r["reason"] == Str(CrashPrefix + IntToString(code))
  {
    map["timestamp" := Num(now), "job_id" := jobId, "status" := Str("Error"),
        "reason" := Str(CrashPrefix + IntToString(code))]
  }

  /** The moments the job thread reads the clock: at launch (for a default
      job id), when it makes up a crash report, and when it reports idle. */
  datatype Clock = Clock(launch: real, crash: real, idle: real)

  /** The id the job thread uses for file names and the crash report: the
      job's own, else `job_<launch time in whole seconds>`. */
  function ThreadJobId(job: Dict, launchTime: real): Value
  {
    Get(job, "job_id", Str("job_" + IntToString(Trunc(launchTime))))
  }

  /** The fields the command line reads with `job_data[...]`; a job without
      them raises `KeyError` in the job thread. */
  predicate Launchable(job: Dict)
  {
    "project_path" in job && "graph_path" in job
  }

  /** Whether the job thread gets as far as the launch: the job file was
      written (and a stale progress file removed) and the job names both
      paths the command line needs. */
  predicate Launches(job: Dict, written: bool)
  {
    written && Launchable(job)
  }

  /** The reports the snapshots carry, in order. */
  function Reports(snaps: seq<Snapshot>): (rs: seq<Dict>)
    ensures |rs| <= |snaps|
  {
    if |snaps| == 0 then []
    else (if snaps[0].Line? then [snaps[0].report] else []) + Reports(snaps[1..])
  }

  /** The reports up to and including the first `Completed` or `Error`. */
  function UntilTerminal(rs: seq<Dict>): (r: seq<Dict>)
    ensures |r| <= |rs| && r == rs[..|r|]
    ensures forall i :: 0 <= i < |r| - 1 ==> !IsTerminal(r[i])
    ensures |r| < |rs| ==> |r| > 0 && IsTerminal(r[|r| - 1])
  {
    if |rs| == 0 then []
    else if IsTerminal(rs[0]) then [rs[0]]
    else [rs[0]] + UntilTerminal(rs[1..])
  }

  /** Reference definition of the de-duplication rule: keep a report only
      when it differs from the report just before it in the input (the first
      one is compared with `prev`, the status already held). */
  function Dedup(prev: Option<Dict>, rs: seq<Dict>): seq<Dict>
    decreases |rs|
  {
    if |rs| == 0 then []
    else (if Some(rs[0]) != prev then [rs[0]] else []) + Dedup(Some(rs[0]), rs[1..])
  }

  /** No two consecutive reports are equal, and the first differs from
      `prev`. */
  predicate NoRepeats(prev: Option<Dict>, rs: seq<Dict>)
  {
    && (|rs| > 0 ==> Some(rs[0]) != prev)
    && forall i :: 0 < i < |rs| ==> rs[i] != rs[i - 1]
  }

  /** One step of `Dedup`. */
  lemma DedupCons(prev: Option<Dict>, rep: Dict, rs: seq<Dict>)
    ensures Dedup(prev, [rep] + rs) == (if Some(rep) != prev then [rep] else []) + Dedup(Some(rep), rs)
  {
    assert ([rep] + rs)[1..] == rs;
  }

  /** A fresh report in front of a sequence without repeats keeps it
      without repeats. */
  lemma NoRepeatsCons(prev: Option<Dict>, rep: Dict, rs: seq<Dict>)
    requires Some(rep) != prev && NoRepeats(Some(rep), rs)
    ensures NoRepeats(prev, [rep] + rs)
  {
    var d := [rep] + rs;
    forall i | 0 < i < |d|
      ensures d[i] != d[i - 1]
    {
      if i > 1 {
        assert d[i] == rs[i - 1] && d[i - 1] == rs[i - 2];
      }
    }
  }

  /** De-duplicated output never repeats itself. */
  lemma {:induction false} DedupNoRepeats(prev: Option<Dict>, rs: seq<Dict>)
    ensures NoRepeats(prev, Dedup(prev, rs))
    decreases |rs|
  {
    if |rs| > 0 {
      DedupNoRepeats(Some(rs[0]), rs[1..]);
      if Some(rs[0]) == prev {
        assert Dedup(prev, rs) == Dedup(Some(rs[0]), rs[1..]);
      }
    }
  }

  /** A sequence that already has no repeats passes through unchanged, so
      de-duplicating twice is the same as once. */
  lemma {:induction false} DedupKeepsFreshReports(prev: Option<Dict>, rs: seq<Dict>)
    requires NoRepeats(prev, rs)
    ensures Dedup(prev, rs) == rs
    decreases |rs|
  {
    if |rs| > 0 {
      assert NoRepeats(Some(rs[0]), rs[1..]) by {
        forall i | 0 < i < |rs[1..]|
          ensures rs[1..][i] != rs[1..][i - 1]
        {
          assert rs[i + 1] != rs[i];
        }
      }
      DedupKeepsFreshReports(Some(rs[0]), rs[1..]);
      assert [rs[0]] + rs[1..] == rs;
    }
  }

  lemma DedupIdempotent(prev: Option<Dict>, rs: seq<Dict>)
    ensures Dedup(prev, Dedup(prev, rs)) == Dedup(prev, rs)
  {
    DedupNoRepeats(prev, rs);
    DedupKeepsFreshReports(prev, Dedup(prev, rs));
  }
}
