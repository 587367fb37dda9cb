/**
 * The render job of `mayaJob.py` as a value: its state, frame counters and
 * captured output, together with the remote shell session and the Maya log
 * file it talks to.  Every operation of the job is a function from one
 * snapshot to the next (plus the exception that escapes, if any); the
 * `Job` class in module MayaJob is proved to follow these functions step
 * for step.
 */
module JobModel {
  import opened Text
  import opened JobText

  /** `Job.STATE`: the one-letter states and their display names. */
  datatype State = Idle | Running | Paused | Error | Finished

  function StateName(st: State): (r: string)
  {
    match st
    case Idle => "Idle"
    case Running => "Running"
    case Paused => "Paused"
    case Error => "Error"
    case Finished => "Finished"
  }

  /** The display names tell the states apart. */
  lemma StateNamesDistinct(a: State, b: State)
    ensures StateName(a) == StateName(b) <==> a == b
  {
    if a != b {
      assert StateName(a)[0] != StateName(b)[0] || |StateName(a)| != |StateName(b)|;
    }
  }

  // ---------------------------------------------------------------------
  // The remote session

  /** One `read_nonblocking` outcome: some output, a timeout, end of file,
      or the ValueError a closed session raises. */
  datatype ReadResult = Data(text: string) | Timeout | Eof | ValueErr

  /** The ssh session: the lines sent to the shell, the signals sent to the
      remote process, what the remote side will answer to the coming reads,
      and whether the session has been closed. */
  datatype Session = Session(sent: seq<string>, signals: seq<int>,
                             script: seq<ReadResult>, closed: bool)

  datatype Reply = Reply(result: ReadResult, session: Session)

  /** A read on a closed session is a ValueError; once the remote side has
      nothing more to say it reads as end of file. */
  function Read(ss: Session): (r: Reply)
    ensures r.session.sent == ss.sent && r.session.signals == ss.signals
    ensures r.session.closed == ss.closed
    ensures ss.closed ==> r.result == ValueErr && r.session == ss
    ensures !ss.closed && ss.script == [] ==> r.result == Eof && r.session == ss
    ensures !ss.closed && ss.script != [] ==>
              r.result == ss.script[0] && r.session.script == ss.script[1..]
  {
    if ss.closed then Reply(ValueErr, ss)
    else if ss.script == [] then Reply(Eof, ss)
    else Reply(ss.script[0], ss.(script := ss.script[1..]))
  }

  function SendLine(ss: Session, line: string): Session
  {
    ss.(sent := ss.sent + [line])
  }

  function Signal(ss: Session, sig: int): Session
  {
    ss.(signals := ss.signals + [sig])
  }

  /** `logout`: sends `exit` and ends the session; on a session that is
      already closed the error it raises is caught by the caller. */
  function Logout(ss: Session): (r: Session)
    ensures r.closed
    ensures r.signals == ss.signals && r.script == ss.script
  {
    if ss.closed then ss else ss.(sent := ss.sent + ["exit"], closed := true)
  }

  /** The signal numbers `pause` and `resume` send.  The source's comments
      call them SIGSTOP and SIGCONT, which they are on some systems; on
      Linux 23 is SIGURG and 25 is SIGXFSZ, so there the remote render is
      neither stopped nor continued by them. */
  const PauseSignal := 23
  const ResumeSignal := 25
  const SIGKILL := 9

  // ---------------------------------------------------------------------
  // The job

  /** The Maya log file: its contents, and whether it can be opened. */
  datatype LogFile = LogFile(text: string, readable: bool)

  /** The exception an operation lets escape, if any. */
  datatype Raised = Clean | IOError | EofError | IndexError

  /** The job's mutable state.  `rawOutput` is `_output`; `polledOutput` is
      the instance attribute `output` that `update` assigns, which from then
      on hides the `output` property. */
  datatype JobSnap = JobSnap(
    state: State,
    currentFrame: int,
    maxFrame: int,
    progress: real,
    errorCode: Option<nat>,
    rawOutput: seq<string>,
    polledOutput: Option<seq<string>>,
    sshOutput: string,
    session: Session,
    log: LogFile,
    processCall: string)

  datatype Step = Step(job: JobSnap, raised: Raised)

  /** What the job keeps true between operations. */
  predicate Inv(s: JobSnap)
  {
    0 <= s.currentFrame <= s.maxFrame && s.progress >= 0.0
    && (s.state == Idle ==> !s.session.closed)
  }

  /** The parts of a job no operation but `run` changes. */
  predicate SameSetup(s: JobSnap, t: JobSnap)
  {
    t.maxFrame == s.maxFrame && t.processCall == s.processCall && t.log == s.log
  }

  predicate Completed(s: JobSnap)
  {
    s.state == Finished || s.state == Error
  }

  /** The `output` the job shows: the assigned attribute once there is one. */
  function Output(s: JobSnap): seq<string>
  {
    if s.polledOutput.Some? then s.polledOutput.value else s.rawOutput
  }

  /** Overall progress in percent: finished frames plus the current frame's
      share, over the number of frames. */
  function Progress(s: JobSnap): (r: real)
    requires s.maxFrame >= 0
  {
    (100.0 * s.currentFrame as real + s.progress) / (s.maxFrame + 1) as real
  }

  /** `if self.errorCode`: None and 0 are false. */
  predicate Truthy(code: Option<nat>)
  {
    code.Some? && code.value != 0
  }

  function Pause(s: JobSnap): (r: JobSnap)
    ensures r.state == Paused
    ensures s.state != Paused ==> r.session == Signal(s.session, PauseSignal)
    ensures s.state == Paused ==> r == s
    ensures r == s.(state := r.state, session := r.session)
    ensures Inv(s) ==> Inv(r)
  {
    if s.state != Paused then s.(session := Signal(s.session, PauseSignal), state := Paused) else s
  }

  function Resume(s: JobSnap): (r: JobSnap)
    ensures s.state == Paused ==> r == s.(session := Signal(s.session, ResumeSignal), state := Running)
    ensures s.state != Paused ==> r == s
    ensures Inv(s) ==> Inv(r)
  {
    if s.state == Paused then s.(session := Signal(s.session, ResumeSignal), state := Running) else s
  }

  function Kill(s: JobSnap): (r: JobSnap)
    ensures s.state in {Running, Paused} ==>
              r.state == (if Truthy(s.errorCode) then Error else Finished)
    ensures s.state == Running ==> r.session == Signal(s.session, SIGKILL)
    ensures s.state == Paused ==> r.session == Signal(Signal(s.session, ResumeSignal), SIGKILL)
    ensures s.state in {Idle, Error, Finished} ==> r == s
    ensures r == s.(state := r.state, session := r.session)
    ensures Inv(s) ==> Inv(r)
  {
    var t := Resume(s);
    if t.state == Running then
      t.(session := Signal(t.session, SIGKILL), state := if Truthy(t.errorCode) then Error else Finished)
    else t
  }

  /** `close`: kill the process, force a completion if the job has not
      completed, log out, re-read the log into `_output`, and close the
      session.  An exception from the forced completion escapes. */
  function Close(s: JobSnap): (r: Step)
    ensures Completed(r.job) && SameSetup(s, r.job)
    ensures r.raised in {Clean, IOError, IndexError}
    ensures r.raised == Clean ==> r.job.session.closed
    ensures Completed(s) ==> r.raised == Clean && r.job.state == s.state
    ensures s.session.sent <= r.job.session.sent
    ensures Inv(s) ==> Inv(r.job)
    decreases if Completed(s) then 0 else 2
  {
    var k := Kill(s);
    var c := if !Completed(k) then OnComplete(k, false) else Step(k, Clean);
    if c.raised != Clean then c
    else
      var t := c.job.(session := Logout(c.job.session));
      var u := if t.log.readable then t.(rawOutput := FileLines(t.log.text)) else t;
      Step(u.(session := u.session.(closed := true)), Clean)
  }

  /** `__onComplete(success)`. */
  function OnComplete(s: JobSnap, success: bool): (r: Step)
    ensures Completed(r.job) && SameSetup(s, r.job)
    ensures r.raised in {Clean, IOError, IndexError}
    ensures success ==> r.job.state == Finished && r.job.currentFrame == s.maxFrame
                        && r.job.progress == 0.0 && r.raised != IndexError
    ensures !success && r.job.state == Finished ==> r.job.errorCode == Some(0)
    ensures s.session.sent <= r.job.session.sent
    ensures r.raised == Clean ==> r.job.session.closed
    ensures Inv(s) ==> Inv(r.job)
    decreases 1
  {
    if success then
      var t := s.(state := Finished, progress := 0.0, currentFrame := s.maxFrame, rawOutput := []);
      if !t.log.readable then Step(t, IOError)
      else Close(t.(rawOutput := StripAll(FileLines(t.log.text))))
    else
      var t := s.(state := Error);
      if t.errorCode.None? then Close(t)
      else if !t.log.readable then Step(t, IOError)
      else
        var p := ParseErrorcode(t, FileLines(t.log.text));
        if p.raised != Clean then p else Close(p.job)
  }

  function StripAll(lines: seq<string>): (r: seq<string>)
    ensures |r| == |lines| && forall i :: 0 <= i < |r| ==> r[i] == Strip(lines[i])
  {
    seq(|lines|, i requires 0 <= i < |lines| => Strip(lines[i]))
  }

  /** Index of the first line mentioning the exit status, or `|lines|`. */
  function FirstStatusLine(lines: seq<string>): (k: nat)
    ensures k <= |lines|
    ensures forall j :: 0 <= j < k ==> !Contains(lines[j], StatusMarker)
    ensures k < |lines| ==> Contains(lines[k], StatusMarker)
  {
    if |lines| == 0 then 0
    else if Contains(lines[0], StatusMarker) then 0
    else 1 + FirstStatusLine(lines[1..])
  }

  /** `parseErrorcode(lines)`. */
  function ParseErrorcode(s: JobSnap, lines: seq<string>): (r: Step)
    ensures r.raised in {Clean, IndexError}
    ensures r.job == s.(errorCode := r.job.errorCode, state := r.job.state)
  {
    var k := FirstStatusLine(lines);
    if k < |lines| && FirstNumber(lines[k]).None? then Step(s, IndexError)
    else
      var code := if k < |lines| then FirstNumber(lines[k]) else None;
      Step(s.(errorCode := code, state := if code == Some(0) then Finished else s.state), Clean)
  }

  // ---------------------------------------------------------------------
  // Starting the render

  /** The text after the last newline: `tmp.split('\n')[-1]`. */
  function LastLine(text: string): string
  {
    var pieces := SplitOn(text, '\n');
    pieces[|pieces| - 1]
  }

  /** The wait loop of `run`: read until the last line of the accumulated
      output is Maya's locale banner.  A premature error marker is appended
      to the log and completes the job as failed; a closed session completes
      it as failed; end of file escapes. */
  function WaitStartup(s: JobSnap, tmp: string): (r: Step)
    ensures r.job.maxFrame == s.maxFrame && r.job.processCall == s.processCall
    ensures r.job.log.readable == s.log.readable
    ensures s.session.sent <= r.job.session.sent
    ensures Inv(s) ==> Inv(r.job)
    decreases |s.session.script|
  {
    if LastLine(tmp) == StartupSentinel then Step(s, Clean)
    else
      var reply := Read(s.session);
      var s1 := s.(session := reply.session);
      match reply.result
      case Eof => Step(s1, EofError)
      case ValueErr => OnComplete(s1, false)
      case Timeout => WaitStartup(s1, tmp)
      case Data(d) =>
        var tmp' := tmp + d;
        if LastLine(tmp') == ErrorMarker then
          if !s1.log.readable then Step(s1, IOError)
          else OnComplete(s1.(log := s1.log.(text := s1.log.text + tmp')), false)
        else WaitStartup(s1, tmp')
  }

  /** How the wait loop of `run` ends, seen from the session alone: Maya's
      banner as the last line of the output, end of file, a closed session,
      or the error marker as the last line of the output `text`; each with
      the answers the session still holds. */
  datatype Startup =
    | Banner(rest: seq<ReadResult>)
    | EndOfFile(rest: seq<ReadResult>)
    | SessionClosed(rest: seq<ReadResult>)
    | PrematureExit(text: string, rest: seq<ReadResult>)

  /** The end of the wait for a session answering `script` after the
      output `tmp`: timeouts are waited out and output is accumulated. */
  function StartupOf(closed: bool, script: seq<ReadResult>, tmp: string): (e: Startup)
    ensures |e.rest| <= |script| && e.rest == script[|script| - |e.rest|..]
    ensures closed ==> e == Banner(script) || e == SessionClosed(script)
    ensures e.PrematureExit? ==> LastLine(e.text) == ErrorMarker
    decreases |script|
  {
    if LastLine(tmp) == StartupSentinel then Banner(script)
    else if closed then SessionClosed(script)
    else if script == [] then EndOfFile([])
    else
      match script[0]
      case Eof => EndOfFile(script[1..])
      case ValueErr => SessionClosed(script[1..])
      case Timeout => StartupOf(closed, script[1..], tmp)
      case Data(d) =>
        if LastLine(tmp + d) == ErrorMarker then PrematureExit(tmp + d, script[1..])
        else StartupOf(closed, script[1..], tmp + d)
  }

  /** `run`: from Idle, send the wrapped render command, wait for startup,
      and mark the job Running, even when the wait ended in a completion. */
  function Run(s: JobSnap): (r: Step)
    ensures s.state != Idle ==> r == Step(s, Clean)
    ensures s.state == Idle && r.raised == Clean ==> r.job.state == Running
    ensures s.state == Idle ==> s.session.sent + [ShellWrapper(s.processCall)] <= r.job.session.sent
    ensures Inv(s) ==> Inv(r.job)
  {
    if s.state != Idle then Step(s, Clean)
    else
      var t := s.(session := SendLine(s.session, ShellWrapper(s.processCall)));
      var w := WaitStartup(t, "");
      if w.raised != Clean then w else Step(w.job.(state := Running), Clean)
  }

  // ---------------------------------------------------------------------
  // Polling

  /** The loop over the session output in `update`: every line holding the
      success marker completes the job as successful, every line holding
      the failure marker as failed. */
  function ScanSsh(s: JobSnap, lines: seq<string>, i: nat): (r: Step)
    ensures SameSetup(s, r.job)
    ensures Completed(s) ==> Completed(r.job)
    ensures Inv(s) ==> Inv(r.job)
    decreases |lines| - i
  {
    if i >= |lines| then Step(s, Clean)
    else
      var a := if Contains(lines[i], SuccessMarker) then OnComplete(s, true) else Step(s, Clean);
      if a.raised != Clean then a
      else
        var b := if Contains(lines[i], FailureMarker) then OnComplete(a.job, false) else a;
        if b.raised != Clean then b else ScanSsh(b.job, lines, i + 1)
  }

  /** The state of the loop over the log lines: the job, the exception that
      ended the loop, and the indexes of the last progress line and the
      last statistics line seen. */
  datatype Scan = Scan(job: JobSnap, raised: Raised, progressLine: int, statsLine: int)

  /** The loop over the log lines in `update`. */
  function ScanLog(s: JobSnap, lines: seq<string>, i: nat, last: string,
                   progressLine: int, statsLine: int): (r: Scan)
    ensures SameSetup(s, r.job)
    ensures r.raised in {Clean, IOError, IndexError}
    ensures Completed(s) ==> Completed(r.job)
    ensures Inv(s) ==> Inv(r.job)
    decreases |lines| - i
  {
    if i >= |lines| then Scan(s, Clean, progressLine, statsLine)
    else
      var line := lines[i];
      var p := if line == last then i else progressLine;
      var isStats := Contains(line, StatsMarker);
      var sn := if isStats then i else statsLine;
      var s1 := Counted(s, line);
      if Contains(line, StatusMarker) then
        var c := StatusLine(s1, line);
        if c.raised != Clean then Scan(c.job, c.raised, p, sn)
        else ScanLog(c.job, lines, i + 1, last, p, sn)
      else ScanLog(s1, lines, i + 1, last, p, sn)
  }

  /** The frame count after one log line: a statistics line counts one
      more frame, up to the last. */
  function Counted(s: JobSnap, line: string): (r: JobSnap)
    ensures r == s || (Contains(line, StatsMarker) && r == s.(currentFrame := s.currentFrame + 1))
    ensures SameSetup(s, r) && (Inv(s) ==> Inv(r))
  {
    if Contains(line, StatsMarker) && s.currentFrame != s.maxFrame then s.(currentFrame := s.currentFrame + 1) else s
  }

  /** One line of the log loop that is not a status line. */
  lemma ScanLogPlain(s: JobSnap, lines: seq<string>, i: nat, last: string, progressLine: int, statsLine: int)
    requires i < |lines| && !Contains(lines[i], StatusMarker)
    ensures ScanLog(s, lines, i, last, progressLine, statsLine)
            == ScanLog(Counted(s, lines[i]), lines, i + 1, last,
                       if lines[i] == last then i else progressLine,
                       if Contains(lines[i], StatsMarker) then i else statsLine)
  {
  }

  /** One status line of the log loop. */
  lemma ScanLogStatus(s: JobSnap, lines: seq<string>, i: nat, last: string, progressLine: int, statsLine: int)
    requires i < |lines| && Contains(lines[i], StatusMarker)
    ensures var c := StatusLine(Counted(s, lines[i]), lines[i]);
            var p := if lines[i] == last then i else progressLine;
            var sn := if Contains(lines[i], StatsMarker) then i else statsLine;
            ScanLog(s, lines, i, last, progressLine, statsLine)
            == if c.raised != Clean then Scan(c.job, c.raised, p, sn) else ScanLog(c.job, lines, i + 1, last, p, sn)
  {
  }

  /** A status line met while polling: its first number becomes the error
      code and completes the job, as successful exactly when it is 0; a
      status line without a number raises IndexError. */
  function StatusLine(s: JobSnap, line: string): (r: Step)
    ensures SameSetup(s, r.job)
    ensures r.raised in {Clean, IOError, IndexError}
    ensures FirstNumber(line).None? ==> r == Step(s, IndexError)
    ensures FirstNumber(line).Some? ==> Completed(r.job)
    ensures FirstNumber(line) == Some(0) ==> r.job.state == Finished
    ensures Completed(s) ==> Completed(r.job)
    ensures Inv(s) ==> Inv(r.job)
  {
    match FirstNumber(line)
    case None => Step(s, IndexError)
    case Some(n) => OnComplete(s.(errorCode := Some(n)), n == 0)
  }

  /** Index of the last progress line, or -1 when there is none. */
  function LastProgressLine(lines: seq<string>): (k: int)
    ensures -1 <= k < |lines|
    ensures k >= 0 ==> IsProgressLine(lines[k])
    ensures forall j :: k < j < |lines| ==> !IsProgressLine(lines[j])
  {
    if |lines| == 0 then -1
    else if IsProgressLine(lines[|lines| - 1]) then |lines| - 1
    else LastProgressLine(lines[..|lines| - 1])
  }

  /** The log part of `update`: re-read the whole log, count frames, pick
      up the exit status, and set the frame progress.  An IOError here is
      caught. */
  function PollLog(s: JobSnap): (r: Step)
    ensures SameSetup(s, r.job)
    ensures r.raised in {Clean, IndexError}
    ensures Completed(s) ==> Completed(r.job)
    ensures Inv(s) ==> Inv(r.job)
  {
    if !s.log.readable then Step(s, Clean)
    else
      var lines := SplitOn(s.log.text, '\n');
      var t := s.(polledOutput := Some(lines));
      var k := LastProgressLine(lines);
      if k < 0 then Step(t, Clean)
      else
        var last := lines[k];
        var sc := ScanLog(t, lines, 0, last, -1, -1);
        if sc.raised == IOError then Step(sc.job, Clean)
        else if sc.raised != Clean then Step(sc.job, sc.raised)
        else Step(sc.job.(progress := if sc.progressLine > sc.statsLine then Percent(last) else 100.0), Clean)
  }

  /** `update`: on a job that has not completed, read the session, scan all
      session output so far for the end markers, then poll the log.  A
      closed session or end of file marks the job Error and nothing more;
      a timeout or new output goes on to the scan with the next answer
      consumed. */
  function Update(s: JobSnap): (r: Step)
    ensures Completed(s) ==> r == Step(s, Clean)
    ensures !Completed(s) && (s.session.closed || s.session.script == []) ==>
              r == Step(s.(state := Error), Clean)
    ensures !Completed(s) && !s.session.closed && s.session.script != [] ==>
              var s0 := s.(session := s.session.(script := s.session.script[1..]));
              match s.session.script[0]
              case Eof => r == Step(s0.(state := Error), Clean)
              case ValueErr => r == Step(s0.(state := Error), Clean)
              case Timeout => r == UpdateScan(s0)
              case Data(d) => r == UpdateScan(s0.(sshOutput := s.sshOutput + d))
    ensures SameSetup(s, r.job)
    ensures Inv(s) ==> Inv(r.job)
  {
    if Completed(s) then Step(s, Clean)
    else
      var reply := Read(s.session);
      var s0 := s.(session := reply.session);
      match reply.result
      case ValueErr => Step(s0.(state := Error), Clean)
      case Eof => Step(s0.(state := Error), Clean)
      case Timeout => UpdateScan(s0)
      case Data(d) => UpdateScan(s0.(sshOutput := s0.sshOutput + d))
  }

  function UpdateScan(s: JobSnap): (r: Step)
    ensures SameSetup(s, r.job)
    ensures Completed(s) ==> Completed(r.job)
    ensures Inv(s) ==> Inv(r.job)
  {
    var a := ScanSsh(s, SplitOn(s.sshOutput, '\n'), 0);
    if a.raised != Clean then a else PollLog(a.job)
  }
}
