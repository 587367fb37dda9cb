# SSH Render Manager — a Dafny model of the job state machine and the scheduler

SSH Render Manager drives Maya batch renders on remote hosts over ssh. A
`Job` (`mayaJob.py`) owns one remote shell session. It builds the Mental Ray
render command and starts it behind a small shell wrapper that echoes a
success or an error marker. It can pause, resume, kill and close the remote
process, and on every poll it re-reads the Maya log to count finished frames,
pick up the current frame's percentage and find Maya's exit status. The
manager (`RenderManagerUI.py`) keeps every job in a list and, per host, a queue
whose head is the job that host should be rendering. A timer tick starts idle
heads and polls every job that has not completed; the buttons add, restart,
remove, pause, kill and copy the selected job.

The project has seven modules, one per file:

- `Text` (`text.dfy`): string helpers with their laws. These cover splitting
  and joining, first and last index, stripping, digit runs, integer printing
  and parsing, the space escaping of `secureCopy` and its inverse, and path
  joining.
- `JobText` (`jobtext.dfy`): the strings a job builds or recognises. These are
  the render arguments and command line, the shell wrapper, the output-prefix
  scan of the scene file, the progress-line recogniser and its percentage, the
  copy glob and the `scp` command.
- `JobModel` (`jobmodel.dfy`): the job as a value `JobSnap`, with the remote
  session as a value that records the lines and signals sent to it and plays
  back scripted read results: data, timeout, end of file, or the ValueError
  of a closed session. Every job operation is a function from one snapshot to
  the next, paired with the exception that escapes, if any.
- `JobFacts` (`jobfacts.dfy`): lemmas about those functions.
- `MayaJob` (`mayajob.dfy`): the `Job` class with the object's attributes as
  fields. Each method updates them in place the way the source does, and is
  proved to reach exactly the snapshot and exception of the matching
  `JobModel` function. The constructor's pure parts are methods proved against
  `JobText`: the argument list built by repeated appends, the process call
  built in a loop, and the prefix scan with its early exit.
- `Form` (`form.dfy`): the `verifyNewJob` validator. It is a method that
  rewrites its entries field by field as the source does, proved equal to a
  verdict function, which in turn is characterised by an acceptance predicate.
- `Manager` (`manager.dfy`): the `RenderManager` class with `renderJobs`
  (a sequence of `Job` objects) and `renderQueue` (a map from host to a
  sequence of `Job` objects). Its methods are the tick and the handlers. Each
  loop is proved against a recursive sweep function over job snapshots, and
  the sweeps themselves are characterised by lemmas.

An exception that escapes a method is modelled as a returned `Raised` value
(`Clean` for none), and the code after it does not run. When an exception
escapes the tick, the timer is not re-armed (`ticking` becomes false).

Behaviour of the source that the model keeps, and proves:

- The shell wrapper echoes `COMPLETE_ERROR`, but the poll looks for
  `COMPLETE_FAILURE`, so a failed render is never noticed through the session
  (`ErrorMarkerIgnored`).
- `run` marks the job Running after its wait loop even when a premature error
  marker has already completed and closed the job (`PrematureExitStillRunning`).
- The `-y` argument carries the width (`ProcessArgs`, `ProcessArgsReadBack`).
- `pause` does not check the state, so pausing an idle or finished job marks
  it Paused.
- `kill` on a job without a status code ends in Finished, not Error
  (`KillWithoutStatusFinishes`).
- Every poll re-reads the whole log from the start, so a second poll of the
  same log counts its statistics lines again (`PollRecounts`).
- When the log holds no progress line, the poll ignores everything else in it,
  the exit status included (`PollLogWithoutProgress`).
- The success branch of `__onComplete` moves the current frame to the last
  one and resets its share to 0, so right after it the overall progress is
  below 100% (`SuccessShowsBelowHundred`). Inside `update` the log poll comes
  next and sets the share again: over a log whose last statistics line comes
  no earlier than its last progress line, a successful update shows 100%
  (`SuccessfulUpdateShowsHundred`).
- In the tick, a head that is not running is passed to `run`, which does
  nothing unless the head is idle. The branch that pops a completed head can
  never be reached, so a host whose head has completed or is paused never
  moves on to its next job (`StartHeadLeavesNonIdle`, `StartFromNoIdle`).
- When starting a head raises IOError, `pop()` drops the LAST job of that
  host's queue, not the head (`StartHead`, `PopShape`, `StartSweepShape`).
- A restarted job replaces the old one in the job list only. It is in no
  queue, so the scheduler never starts it (`OnJobRestart`).
- `verifyNewJob` checks `end < start` only inside the resolution-override
  branch. A backward range with no override passes the form, and the
  constructor's ValueError then escapes `addJob`, which catches only IOError
  (`BackwardRangePassesWithoutOverride`, `BackwardRangeEscapes`).
- Copying a job that has not completed is refused whatever the answer to the
  question, since that branch returns in both cases (`VerifyCopyJob`).

## Model

| member | source | states |
|---|---|---|
| JobModel.StateNamesDistinct | mayaJob.py:37-43 | the five display names of the states are pairwise different, in both directions |
| JobModel.Pause | mayaJob.py:312-316 | the state becomes Paused; signal 23 is sent exactly when the job was not already paused; nothing else changes |
| JobModel.Resume | mayaJob.py:318-322 | from Paused, signal 25 is sent and the state becomes Running; from any other state the job is unchanged |
| JobModel.Kill | mayaJob.py:324-329 | a running job is sent SIGKILL (9); a paused job is first resumed, so it is sent signal 25 and then SIGKILL; either way it becomes Error when its code is truthy, else Finished, and nothing else changes; idle and completed jobs are unchanged |
| JobModel.Close | mayaJob.py:331-351 | whatever the start state, the job ends completed with the same frame count and log; only IOError or IndexError from the forced completion can escape; a clean close leaves the session closed; an already completed job keeps its state; lines already sent stay sent |
| JobModel.OnComplete | mayaJob.py:177-195 | the job ends completed; success means Finished, frame = last frame, frame progress 0 and no IndexError; a failure only ends Finished when the log reports status 0; without an exception the session ends closed; lines already sent stay sent |
| JobModel.FirstStatusLine | mayaJob.py:198-201 | the index of the first line holding the exit-status text, or the line count when there is none |
| JobModel.ParseErrorcode | mayaJob.py:197-210 | only IndexError can escape, and only the error code and state change |
| JobModel.WaitStartup | mayaJob.py:224-247 | the wait loop keeps the frame bound, the process call and log readability, removes no line already sent, and preserves the job invariant |
| JobModel.StartupOf | mayaJob.py:225-247 | how the wait ends, read off the session alone: what remains of the answers is a suffix of them; a closed session gives the banner or the closed-session end with nothing consumed; a premature exit's output ends with the error marker |
| JobFacts.WaitStartupOutcome | mayaJob.py:224-247 | for every session, the wait changes only the session until it ends, and ends as `StartupOf` says: banner, a clean end; EOF, EOFError escapes; ValueError, a failed completion; premature error marker, the output appended to the log and a failed completion (IOError when the log cannot be opened) |
| JobFacts.WaitStartupEnds | mayaJob.py:224-247 | EOFError escapes exactly at end of file; at the banner or end of file the job is as it was apart from the consumed answers; a closed session or a premature marker on a readable log completes the job, the marker's output then ending the log |
| JobModel.Run | mayaJob.py:212-249 | a job that is not idle is unchanged; from Idle the wrapped render command is the next line sent, and a start without an exception ends Running |
| JobFacts.RunOutcome | mayaJob.py:212-249 | from Idle: at the banner the job runs with the wrapper sent and nothing else changed; at end of file EOFError escapes with the job still Idle; after any other end that raised nothing, the job is Running on a closed session |
| JobModel.ScanSsh | mayaJob.py:266-272 | scanning the session output keeps the job's setup and its invariant, and a completed job stays completed |
| JobFacts.ScanSshCompletes | mayaJob.py:266-272 | a session line holding either end marker completes the job, whatever follows and whether or not a completion raised |
| JobModel.ScanLog | mayaJob.py:287-301 | the log loop keeps the setup and the invariant, keeps a completed job completed, and lets only IOError or IndexError escape |
| JobModel.Counted | mayaJob.py:290-294 | a line either leaves the job unchanged or is a statistics line and advances the frame by one |
| JobModel.StatusLine | mayaJob.py:295-301 | a status line without a number raises IndexError and changes nothing; with a number the job completes, as Finished when the number is 0; a completed job stays completed |
| JobModel.LastProgressLine | mayaJob.py:283-289 | the index of the last progress line, or -1 when no line is one |
| JobModel.PollLog | mayaJob.py:274-310 | the log poll keeps the setup and the invariant, keeps a completed job completed, catches IOError and lets only IndexError escape |
| JobModel.Update | mayaJob.py:251-310 | a completed job is left alone; otherwise: a closed session (ValueError) or end of file marks the job Error and changes nothing else but the consumed answer; a timeout goes on to the marker scan and log poll, and new output does so after being appended to the session output; the setup and the invariant are kept |
| JobModel.UpdateScan | mayaJob.py:266-310 | the marker scan and log poll keep the setup and the invariant, and a completed job stays completed |
| JobFacts.UpdateSeesMarker | mayaJob.py:251-272 | an update whose read brings session output with an end-marker line completes the job |
| JobFacts.PauseIdempotent | mayaJob.py:312-316 | pausing twice equals pausing once, and sends at most one signal |
| JobFacts.PauseThenResume | mayaJob.py:312-322 | pause then resume of a running job returns it to Running with exactly signal 23 then signal 25 sent, and changes nothing else |
| JobFacts.KillWithoutStatusFinishes | mayaJob.py:324-329 | killing a running or paused job without a status code leaves it Finished; the signals sent are SIGKILL for a running job and signal 25 then SIGKILL for a paused one |
| JobFacts.CloseIdleFails | mayaJob.py:331-336 | closing an idle job without a code leaves it Error with no exception and a closed session |
| JobFacts.CloseTwice | mayaJob.py:331-336 | a second close raises nothing and keeps the state the first close left |
| JobFacts.ParseErrorcodeSpec | mayaJob.py:197-206 | with k the first status line: IndexError exactly when that line has no number; otherwise the code is that line's first number (None without a status line), and the state becomes Finished exactly for code 0 |
| JobFacts.FailedCompletionWithoutCode | mayaJob.py:189-195 | a failed completion without a code is a plain close of the Error job, and ends Error without an exception |
| JobFacts.WaitStartupPremature | mayaJob.py:229-241 | an error marker as the first output, before the startup line, is appended to the log, and the job ends Error on a closed session without an exception |
| JobFacts.PrematureExitStillRunning | mayaJob.py:229-249 | after such a premature exit, `run` still leaves the job Running, on a closed session |
| JobFacts.ScanSshQuiet | mayaJob.py:266-272 | session output without either marker changes nothing |
| JobFacts.ErrorMarkerIgnored | mayaJob.py:267-272 | the error marker the wrapper prints changes nothing when the session is scanned |
| JobFacts.ScanLogCounts | mayaJob.py:287-294 | on lines without a status line, the loop raises nothing and only advances the frame, by the number of statistics lines but no further than the last frame |
| JobFacts.ScanLogFindsLast | mayaJob.py:287-289 | the loop records the last line equal to the last progress match |
| JobFacts.ScanLogFindsStats | mayaJob.py:290-291 | the loop records the last statistics line |
| JobFacts.PollLogWithoutProgress | mayaJob.py:274-286 | an unreadable log changes nothing; a log without a progress line is only stored as output: frame, progress and state stay even when it reports an exit status |
| JobFacts.PollLogProgress | mayaJob.py:283-308 | with a progress line and no status line: output is the log's lines, the frame advances by the statistics lines up to the last frame, and the frame progress is the last progress line's percentage when that line follows the last statistics line, else 100 |
| JobFacts.PollLogFrames | mayaJob.py:287-294 | on such a log the poll keeps the log, the frame bound and the invariant, and sets the frame count as above |
| JobFacts.PollRecounts | mayaJob.py:276-294 | since every poll restarts at offset 0, two polls of the same log add the statistics lines twice (up to the last frame) |
| JobFacts.ProgressBounds | mayaJob.py:415-417 | overall progress stays between 0 and 100 while the frame progress is at most 100 |
| JobFacts.SuccessShowsBelowHundred | mayaJob.py:177-183 | right after the success branch of the completion handler, before any later poll, the overall progress is the share of frames before the last one, strictly below 100 |
| JobFacts.SuccessfulUpdateShowsHundred | mayaJob.py:251-310 | an update whose session output is the success marker, over a log without status lines whose last statistics line comes no earlier than its last progress line, raises nothing, completes the job and shows 100 |
| JobFacts.PollAtLastFrame | mayaJob.py:287-308 | a poll at the last frame of such a log stays on the last frame with frame progress 100 |
| JobFacts.LastFrameShare | mayaJob.py:415-417 | on the last frame with frame progress 0, overall progress is m/(m+1) of 100, below 100 |
| MayaJob.Init | mayaJob.py:45-161 | construction fails with ValueError exactly when end < start, and with IOError or the login error when the scene is unreadable or the login fails; otherwise the job is Idle on frame 0 of end - start, without a code, running the full render command |
| MayaJob.ScanOutputPrefix | mayaJob.py:107-116 | the loop with early exit returns the quoted value of the first prefix-attribute line, else the scene's base name without extension |
| MayaJob.BuildProcessArgs | mayaJob.py:118-135 | the appended arguments are exactly `ProcessArgs` |
| MayaJob.BuildProcessCall | mayaJob.py:139-146 | the loop builds exactly `CommandLine`: escaped binary, one `-flag value` per argument, quoted scene, joined by spaces |
| MayaJob.Job.Create | mayaJob.py:45-161 | `Job(**args)`, as `addJob` and `getNewInstanceofJob` (mayaJob.py:353-354) call it: fails exactly when `Init` fails, with its error; otherwise a fresh object whose state is `Init`'s job, with the given arguments, the scanned output prefix, and not marked copied |
| MayaJob.Job.constructor | mayaJob.py:45-161 | the new object's state is `Init`'s job; the user is the given one when non-empty, else the local user; the job is not marked copied |
| MayaJob.Job.Pause | mayaJob.py:312-316 | the fields change as `JobModel.Pause` says |
| MayaJob.Job.Resume | mayaJob.py:318-322 | the fields change as `JobModel.Resume` says |
| MayaJob.Job.Kill | mayaJob.py:324-329 | the fields change as `JobModel.Kill` says |
| MayaJob.Job.Close | mayaJob.py:331-351 | fields and escaping exception are those of `JobModel.Close` |
| MayaJob.Job.OnComplete | mayaJob.py:177-195 | fields and escaping exception are those of `JobModel.OnComplete` |
| MayaJob.Job.ParseErrorcode | mayaJob.py:197-210 | fields and escaping exception are those of `JobModel.ParseErrorcode` |
| MayaJob.Job.Run | mayaJob.py:212-249 | the wait loop, with its invariant, reaches the fields and exception of `JobModel.Run` |
| MayaJob.Job.Update | mayaJob.py:251-310 | fields and exception are those of `JobModel.Update` |
| MayaJob.Job.UpdateScan | mayaJob.py:266-310 | the session-marker loop and then the log poll end as `JobModel.UpdateScan` says |
| MayaJob.Job.ScanSshLine | mayaJob.py:267-272 | one session line: it either raises as the scan does, or leaves what the rest of the scan will do unchanged |
| MayaJob.Job.PollLog | mayaJob.py:274-310 | the loop over the log lines reaches the fields and exception of `JobModel.PollLog` |
| MayaJob.Job.ScanLine | mayaJob.py:287-301 | one log line: it either raises as the scan does, or leaves what the rest of the scan will do unchanged |
| MayaJob.Job.StatusLine | mayaJob.py:295-301 | fields and exception are those of `JobModel.StatusLine` |
| JobText.ProcessArgs | mayaJob.py:118-135 | 9 arguments, or 11 with an override, with flags s, e, [x, y,] v, verb, r, art, aml, at, log in that order; s and e carry the frames, x and y both carry the width, and log carries the log path |
| JobText.ProcessArgsReadBack | mayaJob.py:120-124 | the frame arguments parse back as start and end, and `-y` parses back as the width |
| JobText.CommandLineLayout | mayaJob.py:139-146 | the command is the escaped binary, a space, the arguments joined by spaces, a space and the quoted scene; the escaped binary reads back as the original path |
| JobText.ShellWrapperParts | mayaJob.py:216-220 | the wrapper is the niced command, `RETVAL=$?` and the two echo tests, separated by `;` |
| JobText.ShellWrapperMarkers | mayaJob.py:216-220 | the wrapper starts with the niced command, contains the success marker and ends with the ERROR marker, which does not contain the FAILURE marker the poll looks for |
| JobText.FirstIfpLine | mayaJob.py:108-113 | the index of the first scene line with the prefix attribute, or the line count |
| JobText.IfpLineSplits | mayaJob.py:110-111 | a line holding the prefix attribute splits into at least five pieces at `"`, so `[-2]` exists |
| JobText.IfpValueReadBack | mayaJob.py:110-111 | on a prefix line as Maya writes it, the second-to-last quoted piece is the prefix |
| JobText.PercentOf | mayaJob.py:305-306 | a `<whole>.<frac>%` figure after text with no `%` reads as whole + frac / 10^len(frac) |
| JobText.PercentOfNumber | mayaJob.py:305-306 | the percentage is the decimal run right before the first `%` |
| JobText.PercentExample | mayaJob.py:305-306 | a Mental Ray progress line reporting 47.50% yields 47.5 |
| JobText.CopyGlobShape | RenderManagerUI.py:597 | the copy glob is `<prefix>*{start..end}*` under the output path, or the prefix alone when absolute, and always ends with the brace range |
| JobText.ScpCommandShape | RenderManagerUI.py:33-38 | the command is `scp -C -B -l <limit> <host>:`, then the quoted escaped source and a space, then the quoted escaped destination; `UnescapeSpaces` recovers both paths from their escaped forms (the shell does not: inside double quotes it keeps the backslashes) |
| Text.EscapedSpacesAreQuoted | RenderManagerUI.py:35-36 | in an escaped path every space follows a backslash |
| Text.EscapeRoundTrip | RenderManagerUI.py:35-36 | unescaping an escaped path gives the path back |
| Text.ExpandUser | RenderManagerUI.py:596 | a path not starting with `~` is kept as it is, and a non-empty path never expands to the empty string |
| Text.ExpandUserIdempotent | RenderManagerUI.py:596 | expanding `~` in the destination a second time changes nothing, when the home directory does not start with `~` |
| Text.FirstNumberFinds | mayaJob.py:200 | when no digit comes before it, the first digit run of a line is the number written there |
| Form.NumberCheckSpec | RenderManagerUI.py:945-956 | a number entry passes exactly when it is non-empty, an integer and not negative, and then converts to its value |
| Form.SpaceAfterSign | RenderManagerUI.py:950-955 | an entry with whitespace after its sign is read as Python 2 `int` reads it: `+ 5` passes as 5, and `- 5` is refused as a negative frame, not as a non-integer |
| Form.AllFieldsFilled | RenderManagerUI.py:978-981 | no field is reported empty exactly when every field is non-empty |
| Form.FormVerdictSpec | RenderManagerUI.py:922-983 | the form passes exactly when it is acceptable, and then the request carries the parsed frames and sizes and the entered host, binary, scene, output path and camera |
| Form.BackwardRangePassesWithoutOverride | RenderManagerUI.py:958-976 | without an override, start 5 and end 2 pass, with end before start |
| Form.ValidateForm | RenderManagerUI.py:922-983 | the in-place rewriting of the entries with its loops gives exactly `FormVerdict` |
| Manager.StartHead | RenderManagerUI.py:286-298 | when the head step pops the queue, no exception escapes it |
| Manager.StartHeadLeavesNonIdle | RenderManagerUI.py:288-298 | a head that is not idle is left alone and nothing is popped, so the retire branch is dead |
| Manager.StartHeadIdle | RenderManagerUI.py:288-295 | an idle head either starts Running, or is closed, completed, and its queue popped, or lets an error escape |
| Manager.PopShape | RenderManagerUI.py:295 | the pop keeps every host, shortens only that host's queue by one by dropping its last job, and adds no job |
| Manager.StartSweepSkips | RenderManagerUI.py:285-298 | a host not yet visited keeps its queue and its head |
| Manager.StartSweepShape | RenderManagerUI.py:285-298 | the pass over the hosts keeps every host, leaves each queue as it was or without its last job, and stops exactly when an error escapes |
| Manager.StartFromNoIdle | RenderManagerUI.py:285-298 | when no head is idle the pass changes nothing |
| Manager.SweepStops | RenderManagerUI.py:300-302 | a pass over the jobs stops at the first job whose step raises, or at the end exactly when none does |
| Manager.SweepLeaves | RenderManagerUI.py:300-302 | jobs before the start and after the stop are untouched |
| Manager.SweepApplies | RenderManagerUI.py:300-302 | every job passed over before the stop took its step cleanly |
| Manager.PollSkipsCompleted | RenderManagerUI.py:300-302 | completed jobs are not polled, and the poll pass stops only at a job that had not completed, with its update's exception |
| Manager.CloseAllCompletes | RenderManagerUI.py:307-310 | when no close raises, every job ends completed with its session closed |
| Manager.BackwardRangeEscapes | RenderManagerUI.py:621-625 | for a request the form let through, the constructor raises ValueError exactly when end < start, which can only happen without a resolution override |
| Manager.AddKeepsConsistent | RenderManagerUI.py:627-631 | appending a job not yet listed to the list and to its host's queue keeps the bookkeeping consistent: no job is listed twice, and every queue holds only jobs for its own host |
| Manager.EnqueueSpec | RenderManagerUI.py:628-631 | the job goes to the end of its host's queue, and a new host gets a one-job queue; other queues are unchanged |
| Manager.Without | RenderManagerUI.py:696 | `del` removes exactly index id and keeps the other jobs in order |
| Manager.RemovedLogs | RenderManagerUI.py:683-693 | both log files are removed exactly when the error code is 0 |
| Manager.RenderManager.AddJob | RenderManagerUI.py:609-642 | a job is added exactly when construction succeeds, at the end of the list and of its host's queue; an IOError is logged and nothing changes; any other error escapes |
| Manager.RenderManager.Append | RenderManagerUI.py:627-631 | the list and the queues grow as `Enqueue` says and stay consistent |
| Manager.RenderManager.RunningJobsOnHost | RenderManagerUI.py:646-655 | true exactly when another job object in the list has the same host and has not completed |
| Manager.RenderManager.StartHeads | RenderManagerUI.py:285-298 | the loop over the hosts leaves the queues and the heads as `StartFrom` says and returns its exception |
| Manager.RenderManager.StartNext | RenderManagerUI.py:286-298 | one host of that loop, stated against the rest of the sweep |
| Manager.RenderManager.StartHeadOf | RenderManagerUI.py:287-295 | the head moves as `StartHead` says and the queue is popped as `Pop` says |
| Manager.RenderManager.PollJobs | RenderManagerUI.py:300-302 | the loop over the jobs leaves them as `PollFrom` says and returns its exception |
| Manager.RenderManager.PollAt | RenderManagerUI.py:301-302 | one job of that loop, stated against the rest of the sweep |
| Manager.RenderManager.CloseAll | RenderManagerUI.py:307-312 | every job is closed in order as `CloseFrom` says; the list is emptied only when no close raised |
| Manager.RenderManager.CloseEach | RenderManagerUI.py:307-310 | the loop over the jobs leaves them as `CloseFrom` says |
| Manager.RenderManager.CloseAt | RenderManagerUI.py:309 | one job of that loop, stated against the rest of the sweep |
| Manager.RenderManager.Tick | RenderManagerUI.py:283-312 | the tick keeps the bookkeeping consistent and re-arms the timer exactly when not exiting and nothing escaped; when exiting, the queues stay, the exception is that of closing every job in order, and the list is emptied when none escaped; otherwise the list is unchanged |
| Manager.RenderManager.Cycle | RenderManagerUI.py:284-302 | the heads and queues move as `StartFrom` says, then, if nothing escaped, every job moves as `PollFrom` says from that state; if the start pass escaped, every job stays in the state that pass left it in |
| Manager.RenderManager.CleanlyRemoveJob | RenderManagerUI.py:682-696 | the logs are removed only for code 0, the job is closed, and, when the close raises nothing, exactly index id leaves the list; the queues are not touched |
| Manager.RenderManager.OnJobRemove | RenderManagerUI.py:666-680 | with a selection and either a copied job or a confirmation, the job is removed as above and the selection is reset to -1; otherwise nothing changes |
| Manager.RenderManager.OnJobRestart | RenderManagerUI.py:657-664 | the new instance is built from the original arguments first, and its error escapes with nothing changed; then the old job is closed and, if that raised nothing, replaced in the list only, not in any queue |
| Manager.RenderManager.Replace | RenderManagerUI.py:664 | the index assignment keeps the bookkeeping consistent |
| Manager.RenderManager.OnJobPauseToggle | RenderManagerUI.py:698-703 | the selected job is resumed when paused and paused otherwise; the other jobs are unchanged |
| Manager.RenderManager.OnJobKill | RenderManagerUI.py:705-707 | the selected job moves as `JobModel.Kill` says; the other jobs are unchanged |
| Manager.RenderManager.VerifyCopyJob | RenderManagerUI.py:582-607 | a copy happens exactly for a completed selected job and a non-empty destination; it issues the `scp` of the job's frame glob into the destination with `~` expanded, and marks only that job copied |

## Left out

- Tk presentation is not modelled: widgets, dialogs, the job list box, `refreshUI` and `messageWindow`. The yes/no answer of a dialog is a parameter (`confirm` of `OnJobRemove`); in `verifyCopyJob` the answer does not matter.
- No real I/O is modelled: processes, the network, pexpect and the file system. The session is a value that records what is sent and plays back a script of read results. The Maya log is a value with fixed contents and a readable flag; the renderer writing the log between polls is not modelled. `secureCopy` records the `scp` command it would run, and log removal records the paths it would delete.
- Times, clocks and threads are not modelled. The self-re-arming `Timer` is the `ticking` flag; the `SIGINT` handler, `onExit`, `sys.exit` and the `time.sleep(5)` in `addJob` are left out.
- Names built from `time.strftime` and `uuid4` are left out: the log paths come in as parameters (`Env`).
- Creating the log file and its directories is assumed to succeed. `os.makedirs`, `os.path.exists` and `os.remove` failures are not modelled. `os.path.expanduser` is modelled (`Text.ExpandUser`) for `~` and `~/...`, with the home directory as a parameter; a `~user` form is left unexpanded, and the constructor's expansion of the log directory is not modelled, since the log paths come in as parameters.
- Shell parsing of the `scp` command is not modelled. Because both paths sit inside double quotes, the local shell passes the backslashes of the escaped destination to `scp` unchanged; the remote source goes through a second shell on the remote host.
- JobModel.WaitStartup: the source waits out TIMEOUTs without bound; the model ends because its session script is finite, so a remote side that never answers is not modelled.
- Form.FormVerdict: the source checks the plain fields in the iteration order of a Python dict; the model fixes the order host, binary, scene, output path, camera. Only the field named in the message can differ.
- The progress regex is replaced by a whole-line recogniser: a line starting `JOB` that contains ` MB progr:`, `%` and `rendered on `. A report that does not start its line is not recognised. The `findall` call whose `re.MULTILINE` argument is taken as the start position 8 is not reproduced.
- Text.ParseInt: models `int()` on a decimal string (surrounding whitespace, a sign, whitespace after the sign, digits). Its values are unbounded, so the switch to a Python `long` past the C `long` range is not distinguished.
- Float parsing is reduced to reading the digits and points before the first `%` as a decimal; the `%.2f` formatting of `__str__` is left out.
- Logging calls are left out; a log message never changes behaviour.
- The order of `self.renderQueue`'s keys is the `hosts` parameter of the tick (any order without repeats that lists exactly the keys).
- `del self.renderJobs` at the end of the exiting tick is modelled as emptying the list.
- The `copied` attribute that `hasattr` tests is a boolean field set by `VerifyCopyJob`.
- `errorCode` is the `Option<nat>` field; `_errorCode` is set to None at construction, so the `hasattr` fallback to 0 in the property is never taken.
- `onJobSelect`, workspace parsing via `shlex`, host-file loading, `verifyHost`, `screensaverEnabled`, `dummyJob` and the `__main__` driver are not part of this model.
- No per-host exclusivity is proved as an invariant. `runningJobsOnHost` is modelled, but the tick does not call it. The tick starts only queue heads, and a queue's head changes only once that queue has emptied, which happens only after the head was closed; so the tick never starts a second render on a host. The unguarded `pause` followed by `resume` of a job that never started can still mark a second job of a host Running, with no render behind it.
- Signal numbers: `pause` and `resume` send 23 and 25, which the source's comments call SIGSTOP and SIGCONT. On Linux these are SIGURG and SIGXFSZ. The model keeps the numbers (`JobModel.PauseSignal`, `JobModel.ResumeSignal`) and does not model what a signal does to the remote process.
- The frame progress is not proved monotonic, because the source does not keep it monotonic (100 between frames, then the next frame's percentage).
- Manager.RenderManager.Tick: its contract states the consistency, timer and exit facts; the start and poll phases are stated in full by `Cycle`, which the tick calls.
- JobFacts.PollLogProgress: stated for logs without a status line and with at least one progress line; the status-line case is covered one line at a time by `JobModel.StatusLine` and `MayaJob.Job.ScanLine`.
- Manager.SweepStops, Manager.SweepLeaves, Manager.SweepApplies, Manager.StartSweepSkips and Manager.StartSweepShape are stated for any step function; `PollFrom`, `CloseFrom` and `StartFrom` are their instances.
