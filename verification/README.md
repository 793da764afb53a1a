# Render farm core, modelled in Dafny

This project models the control core of a small Unreal Engine render farm.
A **director** keeps track of render **agents** and sends them jobs. Each
agent launches one render at a time and passes on the progress reports
that the render process writes to a progress file. The model covers:

- **Agent/agent_logic.py** (`AgentLogic`): the network-free agent. It holds
  one job slot under a lock and a last-known status report. A job thread
  polls the progress file, makes up an `Error` report when the process
  crashes, and returns the agent to `Idle`.
- **Agent/RealisRenderAgent.py** (`BroadcastAgent`): the multi-director
  agent. It keeps a list of director connections, greets each new one with a
  status line, refuses jobs while busy, and broadcasts every new progress
  report to all connections.
- **RealisRenderAgent.py** (`LegacyAgent`): the older agent. It serves one
  director connection per job request, writes progress on that connection,
  and resets its busy flag in `finally`.
- **Director/director.py** (`Director`, `Framing`): the registry of agents
  keyed by the id they report, the `host:port` parse, job submission to an
  idle agent, newline framing of an agent's status stream, the connection
  lifecycle with its teardown, and the list of remembered agent addresses.
- **Director/job_factory.py** (`JobFactory`, `NtPath`): building the job
  dictionary from the submission form, including the Windows-path
  `dirname`/`join` that places the output under the project's `Saved`
  folder.
- **ASplineActor.cpp** (`SplineOrder`): the landscape-spline converter. It
  collects the landscape spline's interpolation points, orders them by
  greedy nearest neighbour, and moves them into world space.

Shared pieces live in `Py` (JSON values, `dict.get`, `dict.update`, truth
value), `Text` (`strip`, `split`, `join`, `endswith`, `replace`), `Numerals`
(`str(int)`, `int(str)`, `int(float)`) and `Progress` (the reports all three
agents build, the poll outcomes of a progress file, and the de-duplication
rule their monitors follow).

Every block the source runs under a lock is one pure step function. The
clock, process exit codes, progress-file snapshots, whether a socket send
succeeds, JSON decoding, `float()` of a string and vector distance are all
parameters. Where the source has a defect, the model has two members: one
that follows the code as written and one with the evident intent. The rest
of the model uses the corrected one (see "## Findings").

The path `Plugins/LandscapeSplineConvereter/Source/LandscapeSplineActorTool/Private/ASplineActor.cpp`
is shortened to `ASplineActor.cpp` in the prose above. The table cites it
in full.

## Model

| member | source | states |
|---|---|---|
| Py.Merge | Director/director.py:144 | `dict.update`: the updating keys win, every other old key keeps its value, and the key set is the union |
| Text.Strip | Director/director.py:90 | `str.strip()`: the result is the slice of the input with only whitespace before and after it, has no whitespace at either end, and an already trimmed string is unchanged |
| Text.Split | Director/director.py:78 | `str.split(sep)`: at least one piece, and no piece contains the separator |
| Text.SplitJoin | Director/director.py:117 | joining the pieces of a split with the separator gives back the original string |
| Text.SplitCount | Director/director.py:78 | a split has exactly one more piece than the string has separators |
| Text.ReplaceChar | Director/job_factory.py:22 | `str.replace(a, b)` for characters: same length, each `a` becomes `b`, every other character is kept, and no `a` is left |
| Text.ReplaceCharJoin | Director/job_factory.py:22 | replacing the separator of a join gives the join with the new separator |
| Numerals.NatToString | Director/job_factory.py:17 | `str(n)`: a non-empty string of digits whose decimal value is `n`, with no leading zero |
| Numerals.IntToString | Agent/agent_logic.py:141 | `str(i)`: starts with a digit exactly when `i >= 0` and with `-` exactly when `i < 0` |
| Numerals.Trunc | Director/job_factory.py:17 | `int(x)` of a float rounds toward zero: for `x >= 0` the result is at most `x` and more than `x - 1`; for negative `x` it is at least `x` and less than `x + 1` |
| Numerals.ParseIntToString | Director/director.py:79 | `int(str(i)) == i` for every integer `str()` can print, that is, of at most 4300 digits |
| Numerals.SeparatorBeforeNumeralRefused | Director/director.py:79 | `int()` refuses a string that starts with one of the separators U+001C..U+001F, although `strip()` would remove it |
| Numerals.LongNumeralRefused | Director/job_factory.py:45-46 | `int()` refuses a numeral of more than 4300 digits |
| Progress.IdleReport | Agent/agent_logic.py:177-183 | the idle report has exactly the six report fields: status `Idle`, a null job id, the agent's id, zero progress and frame, and the timestamp |
| Progress.CrashReport | Agent/agent_logic.py:139-142 | the crash report has exactly four fields and is a terminal `Error`; it names the job and says "Process crashed with exit code " followed by the code in decimal |
| Progress.UntilTerminal | Agent/RealisRenderAgent.py:172-175 | a prefix of the reports with no `Completed` or `Error` before its last element; it is shorter than the input only when it ends at the first terminal report |
| Progress.DedupNoRepeats | Agent/agent_logic.py:171-173 | de-duplicated reports never repeat the one just before, and the first differs from the status already held |
| Progress.DedupKeepsFreshReports | Agent/agent_logic.py:171-173 | reports with no repeats pass through de-duplication unchanged |
| Progress.DedupIdempotent | Agent/agent_logic.py:171-173 | de-duplicating twice is the same as once |
| AgentLogic.Init | Agent/agent_logic.py:19-26 | a new agent is not busy, its slot is empty, and its status is a complete idle report |
| AgentLogic.Broadcast | Agent/agent_logic.py:68-77 | the new report replaces the last known status whole and is the one report the status callback receives; the busy flag and job slot are untouched |
| AgentLogic.SetBusy | Agent/agent_logic.py:79-86 | test-and-set: succeeds exactly when the agent was not busy; on success the slot holds the job, on failure nothing changes |
| AgentLogic.StartingReport | Agent/agent_logic.py:54-59 | the `Starting` report has the six report fields, the given job id, the agent's id, and zero progress and frame |
| AgentLogic.StartJob | Agent/agent_logic.py:38-64 | a job is accepted exactly when the agent is idle. A busy agent changes nothing and reports nothing. An idle one takes the job and broadcasts one `Starting` report whose job id is the job's own or `unknown_job` |
| AgentLogic.AtMostOneAcceptance | Agent/agent_logic.py:79-86 | if no job finishes in between, an idle agent accepts exactly the first of several submissions and a busy agent accepts none |
| AgentLogic.CheckProgressFile | Agent/agent_logic.py:159-175 | a parsed last line that differs from the current status is broadcast and becomes the status. A missing, empty, blank or unreadable file, or an unchanged line, changes nothing |
| AgentLogic.Monitor | Agent/agent_logic.py:130-132 | polling never changes the busy flag, the job slot or the agent id |
| AgentLogic.MonitorIsDedup | Agent/agent_logic.py:130-132 | polling broadcasts exactly the de-duplicated reports of all polls. It does not stop at `Completed` or `Error`, and it ends holding the last report read |
| AgentLogic.FinalCheck | Agent/agent_logic.py:135-143 | a non-zero exit code adds one `Error` report naming the code, unless the status is already `Error`; otherwise nothing happens. Afterwards the status is `Error` or the exit code was zero |
| AgentLogic.Cleanup | Agent/agent_logic.py:88-96 | the slot is cleared, then the idle report is broadcast, then the job-finished callback runs, in that order |
| AgentLogic.RunLaunchedEndsIdle | Agent/agent_logic.py:129-157 | after a launch, whatever the progress and exit code, the agent ends idle with an empty slot, the idle report is its last broadcast, and the job-finished callback comes last and only once |
| AgentLogic.ExecuteAndMonitorAsWritten | Agent/agent_logic.py:100-127 | a job file that cannot be written, or a job without `project_path` or `graph_path`, ends the job thread with no callback, and the agent stays busy |
| AgentLogic.ExecuteAndMonitor | Agent/agent_logic.py:100-157 | whatever the job file write, progress and exit code, the agent ends idle with an empty slot. The idle report is its last broadcast, and the job-finished callback comes last and only once |
| AgentLogic.LaunchedAgrees | Agent/agent_logic.py:100-157 | once the job file is written and the job names both paths, the thread as written and the corrected one do the same |
| AgentLogic.CrashSynthesis | Agent/agent_logic.py:130-157 | the callbacks of a launched job, in order: the de-duplicated progress; one crash report exactly when the exit code is non-zero and the last status is not `Error`; the idle report; job finished |
| AgentLogic.JobLifecycle | Agent/agent_logic.py:38-157 | on an idle agent a job first gets the `Starting` report and ends with the job-finished callback; after that the agent accepts the next job |
| AgentLogic.UnknownJobIdsDiffer | Agent/agent_logic.py:103 | a job without `job_id` is announced as `unknown_job`, but its files and crash report use `job_<time>`, so the two ids never match |
| AgentLogic.UnwrittenJobStaysBusy | Agent/agent_logic.py:109-110 | as written, a job whose file cannot be written leaves the agent busy for good and the next job is rejected; with the correction the next job is accepted |
| AgentLogic.MissingProjectPathStaysBusy | Agent/agent_logic.py:102-127 | as written, a job without `project_path` leaves the agent busy for good: nothing is broadcast and the next job is rejected |
| BroadcastAgent.Init | Agent/RealisRenderAgent.py:25-29 | a new agent has no connection, no job, no status, and is not busy |
| BroadcastAgent.CleanupConnection | Agent/RealisRenderAgent.py:112-117 | the connection leaves the list if it is there, and the other connections keep their order; a connection not in the list changes nothing |
| BroadcastAgent.CleanupTwice | Agent/RealisRenderAgent.py:112-117 | cleaning up a connection twice is the same as once |
| BroadcastAgent.Greeting | Agent/RealisRenderAgent.py:66-77 | a new connection is greeted with the last known status when the agent is busy and that status is non-empty; otherwise it gets a complete idle report |
| BroadcastAgent.Accept | Agent/RealisRenderAgent.py:60-81 | a new connection joins the list and is sent exactly one greeting. If that send fails it is removed again. The list stays free of duplicates |
| BroadcastAgent.BusyBeforeFirstReportLooksIdle | Agent/RealisRenderAgent.py:67-77 | a director that connects after a job is accepted but before its first report is told the agent is `Idle` |
| BroadcastAgent.Receive | Agent/RealisRenderAgent.py:84-110 | on a connection: a close or socket error ends the loop and drops the connection; bytes that are not JSON are ignored; a job on an idle agent fills the slot and starts the thread; any decoded JSON on a busy agent, job or not, gets the busy reply on that connection alone, and a failed reply drops the connection |
| BroadcastAgent.AtMostOneLaunch | Agent/RealisRenderAgent.py:93-102 | until the reset, at most one job thread starts across all connections, and none starts while the agent is busy |
| BroadcastAgent.BroadcastStatus | Agent/RealisRenderAgent.py:119-131 | the report becomes the last known status and every listed connection is sent it once, in list order. Exactly the connections whose send failed leave the list |
| BroadcastAgent.BroadcastStatusAsWritten | Agent/RealisRenderAgent.py:119-131 | as written, the broadcast blocks for good exactly when some listed connection's send fails; otherwise it matches the corrected broadcast |
| BroadcastAgent.DeadDirectorDeadlocks | Agent/RealisRenderAgent.py:130-131 | with one dead connection of two, the broadcast as written deadlocks, while the corrected one keeps only the live connection |
| BroadcastAgent.Poll | Agent/RealisRenderAgent.py:160-177 | a parsed report that differs from the last known status is broadcast, and polling stops when it is terminal; any other poll changes nothing |
| BroadcastAgent.PollLoop | Agent/RealisRenderAgent.py:160-177 | polling never changes the busy flag, the job slot or the agent id |
| BroadcastAgent.PollLoopReports | Agent/RealisRenderAgent.py:160-177 | polling broadcasts the de-duplicated reports up to and including the first terminal one, and nothing after it, and the last known status is then the last of them, or the earlier one when none was broadcast |
| BroadcastAgent.FinalCheck | Agent/RealisRenderAgent.py:178-187 | a non-zero exit code broadcasts one crash report unless the last known status is a non-empty `Error` report; otherwise nothing is sent |
| BroadcastAgent.Reset | Agent/RealisRenderAgent.py:189-192 | the slot is cleared and the status forgotten; the connections and agent id are kept |
| BroadcastAgent.ExecuteAndMonitorAsWritten | Agent/RealisRenderAgent.py:133-158 | a job file that cannot be written, or a job without `project_path` or `graph_path`, ends the thread before the reset: nothing is broadcast and the agent stays busy |
| BroadcastAgent.ExecuteAndMonitor | Agent/RealisRenderAgent.py:133-192 | whatever happens, the agent ends with an empty slot and no status, and no connection is added |
| BroadcastAgent.LaunchedAgrees | Agent/RealisRenderAgent.py:133-192 | once the job file is written and the job names both paths, the thread as written and the corrected one do the same |
| BroadcastAgent.BroadcastsOfJob | Agent/RealisRenderAgent.py:160-187 | the directors hear the de-duplicated progress up to the first terminal report, then one crash report exactly when the exit code is non-zero and the last status broadcast, or the one before the job when none was, is not a non-empty `Error` report |
| BroadcastAgent.UnwrittenJobStaysBusy | Agent/RealisRenderAgent.py:141-142 | as written, a job whose file cannot be written leaves the agent busy for good and every later job is refused; with the correction the next job is accepted |
| BroadcastAgent.MissingProjectPathStaysBusy | Agent/RealisRenderAgent.py:133-158 | as written, a job without `project_path` leaves the agent busy for good, and every later job on any connection is refused |
| LegacyAgent.PollAsWritten | RealisRenderAgent.py:122-151 | as written, the loop never ends because the director was lost: the `ConnectionError` clause is unreachable |
| LegacyAgent.MonitorAsWritten | RealisRenderAgent.py:118-163 | as written, the monitor never terminates the render because of a lost director |
| LegacyAgent.Monitor | RealisRenderAgent.py:118-163 | with both corrections the monitor never raises |
| LegacyAgent.CrashJobId | RealisRenderAgent.py:159 | the crash line names the `job_id` of the last reported status, or `unknown` when it has none or nothing was reported |
| LegacyAgent.InvalidReply | RealisRenderAgent.py:110 | the invalid-data reply has exactly `status` (`error`) and `message` |
| LegacyAgent.Handle | RealisRenderAgent.py:54-116 | a busy agent writes only the busy reply and leaves the flag set. An idle agent always ends with the flag cleared. The render launches exactly when the request is a job whose file was written and that has both paths. Bad JSON or, once the file is written, a missing path gets one `Invalid job data` reply naming the problem; a failed write and other failures write nothing |
| LegacyAgent.HandleJobRequestAsWritten | RealisRenderAgent.py:54-116 | as written, a request on an idle agent always ends with the busy flag cleared |
| LegacyAgent.HandleJobRequest | RealisRenderAgent.py:54-116 | with the corrected monitor the flag is still always cleared, and handling never ends with the monitor raising |
| LegacyAgent.DeliveredHasNoRepeats | RealisRenderAgent.py:138-141 | whatever writes fail, the reports delivered never repeat one another |
| LegacyAgent.LastIsLastDelivered | RealisRenderAgent.py:138-141 | the status recorded as last reported is the last report actually delivered |
| LegacyAgent.PollWritesDedup | RealisRenderAgent.py:122-144 | when every write goes through, the loop writes the de-duplicated reports up to and including the first terminal one |
| LegacyAgent.PollAgreesWhenSendsOk | RealisRenderAgent.py:122-151 | when every write goes through, the corrected loop behaves exactly like the loop as written |
| LegacyAgent.ReportedEndsOnTerminal | RealisRenderAgent.py:140-144 | a monitor that returns after reporting wrote a terminal report as its last line |
| LegacyAgent.CrashLine | RealisRenderAgent.py:154-163 | after the process exits with a non-zero code, exactly one `Error` line naming the code follows the progress lines |
| LegacyAgent.CrashLineAsWritten | RealisRenderAgent.py:154-163 | as written, a non-zero exit after polling that wrote no terminal report, once a status was reported, adds exactly one `Error` line naming the exit code and the last reported `job_id` |
| LegacyAgent.MonitorAgreesWhenSendsOk | RealisRenderAgent.py:118-163 | when every write goes through and there is a reported status for a non-zero exit to read, the monitor as written and the corrected one write the same lines and end the same way |
| LegacyAgent.CrashBeforeFirstReport | RealisRenderAgent.py:159 | for a render that crashes before any report, the code as written raises and writes nothing; the corrected monitor writes the crash with job id `unknown` |
| LegacyAgent.LostDirectorGoesUnnoticed | RealisRenderAgent.py:146-151 | after a failed write, the code as written writes the same report again and keeps rendering; the corrected loop stops and terminates the render |
| LegacyAgent.BusyAlwaysReset | RealisRenderAgent.py:56-116 | a request on an idle agent always ends with the busy flag cleared, and a request on a busy agent gets only the busy reply |
| Director.ParseAddress | Director/director.py:77-82 | an address is accepted only with exactly one colon, and its port is what `int()` reads from the part after it |
| Director.AddressRoundTrip | Director/director.py:77-79 | any host without a colon and any port of at most 4300 digits are read back unchanged from `host:port` |
| Director.AddressNeedsOneColon | Director/director.py:78 | an address without exactly one colon is refused |
| Director.AllAgents | Director/director.py:29-35 | the listing has exactly the registered ids, each with its public view |
| Director.NewPublic | Director/director.py:96-105 | a new record's view has every field of the first status, plus `agent_id` and `ip` where that status lacks them |
| Director.UpdateAgentState | Director/director.py:134-146 | the status-update callback fires for every update, and the set of registered agents never changes |
| Director.UpdateMergesFields | Director/director.py:136-144 | a registered agent's view takes every field of the update and keeps its other fields. Its socket and every other record stay as they were, and an unknown id changes nothing |
| Director.UpdateIdempotent | Director/director.py:144 | applying the same update twice is the same as once |
| Director.SubmitJob | Director/director.py:48-71 | a job goes out exactly when the agent is registered and `Idle`, the file exists and parses, and the send succeeds; it is then the file's exact text on that agent's socket. The refusals are exactly: unknown or `Disconnected`, or not `Idle` |
| Director.Decoded | Director/director.py:116-120 | the updates are the decodings of the lines, in order, up to the first line that does not decode |
| Director.ApplyLines | Director/director.py:116-120 | the batch succeeds exactly when every line decodes; there is at most one callback per line, and no agent is added or removed |
| Director.ReadLoop | Director/director.py:110-120 | reading never adds or removes a registered agent |
| Director.ReadLoopAppliesFramedLines | Director/director.py:110-125 | the read loop applies exactly the framed lines of everything received, in order, up to the first that does not decode, however the stream was chunked |
| Director.ReadLoopFrame | Director/director.py:110-120 | reading one agent's stream leaves every other agent's record alone |
| Director.AgentId | Director/director.py:92 | an agent is filed under the `agent_id` of its first status, or under its address when there is none |
| Director.FirstLine | Director/director.py:90-91 | the greeting line used for registration contains no newline |
| Director.Register | Director/director.py:94-105 | for an id that can key the registry, the new record replaces any earlier one with the same id, other records are untouched, and the connected callback carries the new view |
| Director.TeardownAsWritten | Director/director.py:126-132 | as written, the record is removed and the UI told only when the learned id is truthy |
| Director.Teardown | Director/director.py:126-132 | once an id was learned its record is removed and the disconnection announced, whatever the id's value; other records are kept |
| Director.Lifecycle | Director/director.py:75-132 | an agent is registered exactly when its address parses, the dial succeeds, the first line decodes and the id it gives is not a list or an object; the id registered can key a `dict`; otherwise nothing changes |
| Director.LifecycleEffect | Director/director.py:75-132 | with the corrected teardown, a registered agent ends unregistered. The first callback announced its connection and the last its disconnection, and no other record changed |
| Director.HandleConnection | Director/director.py:75-132 | the connection lifecycle with the corrected teardown: registered exactly when the handshake succeeds with a hashable id, then unregistered at the end, with connected first and disconnected last, and no other record changed |
| Director.HandleConnectionAsWritten | Director/director.py:75-132 | as written, the connection registers exactly when the handshake succeeds with a hashable id, and otherwise nothing changes |
| Director.UnhashableIdIgnored | Director/director.py:94-96 | an agent whose first status gives a list as its `agent_id` is never registered, under either teardown: the registry is untouched and no callback fires |
| Director.SilentFalsyLifetime | Director/director.py:94-132 | as written, a registered agent with a falsy id that sends nothing more leaves exactly the record its registration made, and only the connected callback fired |
| Director.EmptyIdOutlivesConnection | Director/director.py:128 | as written, an agent reporting the id `""` stays listed as `Idle` after its connection is gone, and its disconnection is never announced |
| Director.EmptyIdRemovedWhenCorrected | Director/director.py:126-132 | with the corrected teardown the same agent leaves an empty registry |
| Director.SharedIdTeardown | Director/director.py:96 | two connections reporting one id share one record: the later one replaces it, and the earlier one's teardown removes it |
| Director.AddToSaveList | Director/director.py:162-176 | an address is written exactly when it is not already saved, and then appended after the old entries; a missing or unreadable file counts as an empty list |
| Director.SaveListAppendIfAbsent | Director/director.py:172-176 | the written list keeps the old entries in order and stays free of duplicates, and adding the same address again writes nothing |
| Director.ConnectToAgent | Director/director.py:37-46 | an empty address is ignored; any other address is remembered, then dialled |
| Framing.NonEmpty | Director/director.py:118 | keeps exactly the non-empty lines, in order |
| Framing.Drain | Director/director.py:116-117 | the complete non-empty lines of the buffer are cut off in order, and the rest after the last newline stays buffered without a newline |
| Framing.FeedAllIsSplit | Director/director.py:111-117 | feeding chunks one by one gives the same lines and leftover as framing their concatenation |
| Framing.ChunkingIndependent | Director/director.py:111-117 | the lines and the leftover depend only on the text received, not on how it was cut into chunks |
| Framing.EncodeRoundTrip | Director/director.py:110-120 | every non-empty newline-free report line an agent writes is read back once, in order, with nothing left over, however the stream is chunked |
| NtPath.SplitRoot | Director/job_factory.py:21 | `splitroot`: drive, root and rest put together are the path. A path with no leading separator and no drive colon is all rest. A drive without a root ends in `:` when a path follows it |
| NtPath.SplitParts | Director/job_factory.py:21 | `split`: the tail is the final run without separators, the head is a prefix ending before it, and only separators lie between them |
| NtPath.DirNameOfFile | Director/job_factory.py:21 | `dirname(dir\name)` is `dir` for a relative `dir` that does not end in a separator and a `name` without separators |
| NtPath.AppendName | Director/job_factory.py:22 | `join` inserts one `\` before a name unless the path is empty or already ends in a separator |
| NtPath.JoinEnds | Director/job_factory.py:22 | `join` always ends with the joined names, separated by `\` |
| NtPath.JoinAfterDirectory | Director/job_factory.py:22 | joining onto a directory that does not end in a separator gives the directory, a `\`, and the names joined by `\` |
| JobFactory.SceneLoop | Director/job_factory.py:26-33 | the settings hold exactly the given scene parameters, each cast to a float; the loop fails exactly when one given parameter does not cast |
| JobFactory.JobName | Director/job_factory.py:17 | the job name is `job_` followed by the time as a numeral, and is a valid path component |
| JobFactory.OutputNames | Director/job_factory.py:22 | the four output components are valid path components |
| JobFactory.OutputPath | Director/job_factory.py:22 | the output path contains no backslash |
| JobFactory.ToDict | Director/job_factory.py:36-49 | the job dictionary has exactly the nine job keys |
| JobFactory.CreateJobDict | Director/job_factory.py:15-53 | a `project_path` that is not a string raises uncaught. Otherwise the result is `None` exactly when a cast fails. A built job is named after the time and keeps the project path |
| JobFactory.BuiltCopiesPaths | Director/job_factory.py:36-43 | the other paths are copied from the form, with `""` when one is missing; the camera name becomes the camera actor's; the output path is derived from the project path |
| JobFactory.BuiltSceneSettings | Director/job_factory.py:26-33 | a built job's scene settings are exactly the given scene parameters as floats |
| JobFactory.DefaultResolution | Director/job_factory.py:44-47 | without `res_x` and `res_y` the job renders at 1920 by 1080 |
| JobFactory.StringResolution | Director/job_factory.py:44-47 | a resolution given as numerals of at most 4300 digits is read as the integers they spell |
| JobFactory.ResolutionOfNumerals | Director/job_factory.py:44-47 | `int()` of the numerals of `res_x` and `res_y` gives back the two integers |
| JobFactory.OutputPathEnds | Director/job_factory.py:22 | whatever the project path, the output path ends with `Saved/RenderJobs/<job name>/export` |
| JobFactory.OutputBesideProject | Director/job_factory.py:21-22 | for `dir\Name.uproject` with a relative `dir`, the output lies inside `dir` with forward slashes |
| SplineOrder.NearestUnique | Plugins/LandscapeSplineConvereter/Source/LandscapeSplineActorTool/Private/ASplineActor.cpp:46 | only one position is the first nearest |
| SplineOrder.NearestIndex | Plugins/LandscapeSplineConvereter/Source/LandscapeSplineActorTool/Private/ASplineActor.cpp:39-53 | the index is the first position at the least distance, or 0 for no points |
| SplineOrder.FindNearestIndex | Plugins/LandscapeSplineConvereter/Source/LandscapeSplineActorTool/Private/ASplineActor.cpp:39-53 | the scan with a strict `<` against a best distance that starts at infinity returns the first nearest index, or 0 for no points |
| SplineOrder.RemoveAt | Plugins/LandscapeSplineConvereter/Source/LandscapeSplineActorTool/Private/ASplineActor.cpp:110 | removing a point leaves one fewer, and the removed point with the rest is the same multiset as before |
| SplineOrder.GreedyIsNearestSteps | Plugins/LandscapeSplineConvereter/Source/LandscapeSplineActorTool/Private/ASplineActor.cpp:105-115 | each step of the loop takes a remaining point nearest to the last one placed, and together the steps use up the remaining points |
| SplineOrder.GreedyPermutes | Plugins/LandscapeSplineConvereter/Source/LandscapeSplineActorTool/Private/ASplineActor.cpp:105-115 | the greedy order is a permutation of the remaining points |
| SplineOrder.Order | Plugins/LandscapeSplineConvereter/Source/LandscapeSplineActorTool/Private/ASplineActor.cpp:97-100 | the ordered points are as many as the collected ones and start with the first collected point |
| SplineOrder.OrderPermutes | Plugins/LandscapeSplineConvereter/Source/LandscapeSplineActorTool/Private/ASplineActor.cpp:97-115 | the ordered points are a permutation of the collected points and follow nearest-neighbour steps after the first |
| SplineOrder.OrderPoints | Plugins/LandscapeSplineConvereter/Source/LandscapeSplineActorTool/Private/ASplineActor.cpp:97-115 | the ordering loop computes the nearest-neighbour order, a permutation of its input |
| SplineOrder.Collect | Plugins/LandscapeSplineConvereter/Source/LandscapeSplineActorTool/Private/ASplineActor.cpp:89-95 | with the guard on an empty removal, collection never faults |
| SplineOrder.CollectDropsLasts | Plugins/LandscapeSplineConvereter/Source/LandscapeSplineActorTool/Private/ASplineActor.cpp:89-95 | when no segment is empty, the collected points are every segment's points without its last one, in order |
| SplineOrder.Offset | Plugins/LandscapeSplineConvereter/Source/LandscapeSplineActorTool/Private/ASplineActor.cpp:117-124 | every point is moved by the landscape's location, in order |
| SplineOrder.OffsetInverse | Plugins/LandscapeSplineConvereter/Source/LandscapeSplineActorTool/Private/ASplineActor.cpp:119 | moving back by the opposite offset restores every point |
| SplineOrder.GenerateSplineAsWritten | Plugins/LandscapeSplineConvereter/Source/LandscapeSplineActorTool/Private/ASplineActor.cpp:56-139 | as written, with no landscape there are no points, and with a landscape the run faults exactly when it has no splines component, or collection hits an empty removal or collects nothing |
| SplineOrder.GenerateSpline | Plugins/LandscapeSplineConvereter/Source/LandscapeSplineActorTool/Private/ASplineActor.cpp:56-139 | corrected, it always returns points, and none without a landscape |
| SplineOrder.SplinePermutesPoints | Plugins/LandscapeSplineConvereter/Source/LandscapeSplineActorTool/Private/ASplineActor.cpp:89-124 | moved back into the landscape's frame, the returned points are a permutation of the collected points, start with the first one, and follow the nearest-neighbour order |
| SplineOrder.GuardAgrees | Plugins/LandscapeSplineConvereter/Source/LandscapeSplineActorTool/Private/ASplineActor.cpp:89-100 | wherever the code as written returns points, the guarded version returns the same points |
| SplineOrder.NoSegmentsFaults | Plugins/LandscapeSplineConvereter/Source/LandscapeSplineActorTool/Private/ASplineActor.cpp:98 | a landscape spline with no segments faults as written, and the guarded version gives an empty spline |
| SplineOrder.NoSplinesComponentFaults | Plugins/LandscapeSplineConvereter/Source/LandscapeSplineActorTool/Private/ASplineActor.cpp:70-90 | a landscape without a splines component faults as written, and the guarded version gives an empty spline |

## Left out

- Sockets, threads, sleeps and `subprocess` are not modelled as such. Each locked block is one atomic step, and the outcomes of I/O are parameters. Interleavings of two connections' steps are not explored.
- The command line built for the render process is not modelled. Writing the job file and removing an old progress file are one outcome, `written`: whether both succeeded. What they put on disk is not modelled.
- Logging (`print`, the director's log callback and the UI's `on_agent_*` handlers beyond their arguments) is not modelled, because it has no effect on state.
- JSON encoding and decoding are parameters: a `Decoder` for the director, `Snapshot`s for the progress file, and `Inbound`/`Request` outcomes for the agents. The model does not cover a byte stream that is not UTF-8, including a multibyte character split across two `recv` chunks.
- A progress-file line that parses to JSON other than an object is treated as unreadable. The source would store and broadcast it as a status. In the two threaded agents the job thread would then die with an `AttributeError`: at the next `.copy()` or `.get` of the status (Agent/agent_logic.py:36, :138), or at `status_data.get` (Agent/RealisRenderAgent.py:174). The agent would stay busy for good. In the older agent the line would be written to the director and recorded, then `status_data.get` (RealisRenderAgent.py:143) would raise into the catch-all clause: monitoring would stop with the render left running and no crash line, and `finally` would clear the busy flag.
- BroadcastAgent.Receive: on an idle multi-director agent, a job message that is valid JSON but not an object is ignored. The source would put it in the slot, and its job thread would die at `job_data.get` (Agent/RealisRenderAgent.py:136), leaving the agent busy for good. On a busy agent such a message gets the busy reply, as in the source.
- A progress-file read that fails other than with `OSError` or `JSONDecodeError` is not modelled. Two such failures exist: bytes that do not decode in the locale's encoding (`UnicodeDecodeError` from `readlines()`), and a last line with an integer literal of more than 4300 digits (a plain `ValueError` from `json.loads`). Neither is caught by the monitors' clauses. In the two threaded agents the job thread would die and the agent stay busy for good. In the older agent it would fall to the catch-all clause: monitoring would stop with the render left running, no crash line would be written, and the busy flag would be cleared.
- Job text over 4096 bytes, which the agents read with a single `recv`, is not modelled.
- JSON numbers are exact reals: `1` and `1.0` are one value, as Python's `==` treats them. Float infinity and NaN are not modelled.
- Progress.Dedup: Python's `==` also makes `true` equal to `1` and `false` equal to `0`, anywhere in a report, as values and as keys. The monitors' test for an unchanged report (Agent/agent_logic.py:172, Agent/RealisRenderAgent.py:172, RealisRenderAgent.py:138) therefore takes `{"p": true}` and `{"p": 1}` for the same report and does not send the second. The model keeps `Bool` and `Num` apart, so it reports a change there.
- `float()` of a string is a parameter (`FloatParser`). `int()` of a string is modelled for ASCII digits, with single underscores between digits, Python's default limit of 4300 digits, and the whitespace `int()` skips around a numeral: Python's whitespace except U+001C..U+001F. Unicode digits are left out, and so is a limit changed with `sys.set_int_max_str_digits`.
- Numerals.IntToString: `str()` of an integer of more than 4300 digits raises `ValueError` in Python; the model prints it. The integers the source prints are a time in seconds and an exit code.
- The director does not check the port range; the model keeps any integer port.
- Loading the save file at start-up and failures writing it are not modelled. A save file that holds JSON other than a list is not modelled either.
- LegacyAgent: the busy check and set on lines 56-62 are not atomic. The model treats them as one step, so two simultaneous requests are not explored.
- BroadcastAgent.ExecuteAndMonitorAsWritten uses the corrected `BroadcastStatus`, so that it shows the missing-path defect separately from the deadlock.
- NtPath.JoinEnds: `ntpath.join` is modelled only for names that are not absolute and carry no drive (`Plain`). The names the factory joins are always such names.
- JobFactory.OutputBesideProject and the whole of `NtPath` take `os.path` to be Windows `ntpath`, the host the farm runs on. On a POSIX host `posixpath` applies instead: `dirname("C:\\P\\G.uproject")` is `""`, the output path is relative, and the lemma does not hold.
- JobFactory.OutputBesideProject covers only a relative project directory. An absolute or drive-letter directory is described by `OutputPathEnds` alone.
- SplineOrder: vectors use exact real arithmetic instead of doubles, and `FVector::Distance` is a parameter. Only the `Center` of an interpolation point is kept.
- SplineOrder: the calls to `ClearSplinePoints` and `AddSplinePoint` on the spline component are not modelled. The returned points are the same points, in the same order.
- SplineOrder.GenerateSpline models editor builds. Its body is compiled only under `WITH_EDITOR` (Plugins/LandscapeSplineConvereter/Source/LandscapeSplineActorTool/Private/ASplineActor.cpp:59-137); in other builds it returns no points.
- `ue_executor.py`, the UE Python executors, `SplineRider`, the director UI and its JavaScript are not part of this model.

## Findings

| source | as written | input that shows it | evidently intended | confidence | as-written member | corrected member |
|---|---|---|---|---|---|---|
| Agent/RealisRenderAgent.py:121-131 | `broadcast_status` holds `state_lock` and calls `cleanup_connection`, which takes the same non-reentrant lock again | two directors connected, and a send to one of them fails | drop the dead connections in the same critical section | high (not executed) | BroadcastAgent.BroadcastStatusAsWritten, BroadcastAgent.DeadDirectorDeadlocks | BroadcastAgent.BroadcastStatus |
| RealisRenderAgent.py:159 | `last_reported_status.get(...)` is called while the variable is still `None` | the render exits with code 1 before writing any progress | write the crash line with job id `unknown` | high (not executed) | LegacyAgent.MonitorAsWritten, LegacyAgent.CrashBeforeFirstReport | LegacyAgent.Monitor |
| RealisRenderAgent.py:146-151 | `except ConnectionError` follows `except (IOError, …)`; `IOError` is `OSError`, which catches the failed send first | a write on the connection fails; the same report is retried and the render keeps going | stop and terminate the render when the director is gone | high (not executed) | LegacyAgent.PollAsWritten, LegacyAgent.LostDirectorGoesUnnoticed | LegacyAgent.Poll |
| Agent/agent_logic.py:109-123 | a failed job-file write, or a job without `project_path`, raises in the job thread before `_set_state_to_idle` | `start_job({"graph_path": "g"})`, or a `job_id` of `"a/b"` with no `a` directory | reset the agent whatever the job thread meets | medium (not executed) | AgentLogic.ExecuteAndMonitorAsWritten, AgentLogic.MissingProjectPathStaysBusy, AgentLogic.UnwrittenJobStaysBusy | AgentLogic.ExecuteAndMonitor |
| Agent/RealisRenderAgent.py:141-154 | a failed job-file write, or a job without `project_path`, raises in the job thread before the reset | a job message `{"graph_path": "g"}`, or one with a `job_id` of `"a/b"` and no `a` directory | reset the agent whatever the job thread meets | medium (not executed) | BroadcastAgent.ExecuteAndMonitorAsWritten, BroadcastAgent.MissingProjectPathStaysBusy, BroadcastAgent.UnwrittenJobStaysBusy | BroadcastAgent.ExecuteAndMonitor |
| Director/director.py:128 | `if agent_id:` skips the teardown for a falsy id | an agent whose first status has `"agent_id": ""` | remove the record of any id that was learned | medium (not executed) | Director.TeardownAsWritten, Director.EmptyIdOutlivesConnection | Director.Teardown |
| Plugins/LandscapeSplineConvereter/Source/LandscapeSplineActorTool/Private/ASplineActor.cpp:70-98 | `GetSplinesComponent()` is used without a null check, and `points.RemoveAt(points.Num() - 1)` and `points[0]` run on an empty array | a landscape with no splines component, or whose spline has no segments or only single-point segments | return no points when there is nothing to collect | medium (not executed) | SplineOrder.GenerateSplineAsWritten, SplineOrder.NoSegmentsFaults, SplineOrder.NoSplinesComponentFaults | SplineOrder.GenerateSpline |
