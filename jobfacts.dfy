/**
 * Properties of the render job that relate several operations or follow
 * the job through a whole loop: pause and resume, what `close` leaves
 * behind, how `update` counts frames and picks the frame progress, and
 * the quirks the job has as written.
 */
module JobFacts {
  import opened Text
  import opened JobText
  import opened JobModel

  // ---------------------------------------------------------------------
  // Pause, resume and kill

  /** A second `pause` changes nothing and sends no second pause signal. */
  lemma PauseIdempotent(s: JobSnap)
    ensures Pause(Pause(s)) == Pause(s)
    ensures |Pause(Pause(s)).session.signals| == |s.session.signals| + (if s.state == Paused then 0 else 1)
  {
  }

  /** Pausing a running job and resuming it runs it again, having sent
      the pause signal then the resume signal. */
  lemma PauseThenResume(s: JobSnap)
    requires s.state == Running
    ensures Resume(Pause(s)).state == Running
    ensures Resume(Pause(s)).session.signals == s.session.signals + [PauseSignal, ResumeSignal]
    ensures Resume(Pause(s)) == s.(session := Resume(Pause(s)).session)
  {
    assert s.session.signals + [PauseSignal] + [ResumeSignal] == s.session.signals + [PauseSignal, ResumeSignal];
  }

  /** Killing a job whose exit status was never read marks it Finished,
      not Error. */
  lemma KillWithoutStatusFinishes(s: JobSnap)
    requires s.state in {Running, Paused} && s.errorCode.None?
    ensures Kill(s).state == Finished
    ensures Kill(s).session.signals
            == s.session.signals + (if s.state == Paused then [ResumeSignal, SIGKILL] else [SIGKILL])
  {
    if s.state == Paused {
      assert s.session.signals + [ResumeSignal] + [SIGKILL] == s.session.signals + [ResumeSignal, SIGKILL];
    }
  }

  // ---------------------------------------------------------------------
  // Closing

  /** Closing a job that never ran forces a failed completion. */
  lemma CloseIdleFails(s: JobSnap)
    requires s.state == Idle && s.errorCode.None?
    ensures Close(s).job.state == Error
    ensures Close(s).raised == Clean
    ensures Close(s).job.session.closed
  {
    assert Kill(s) == s;
    var t := s.(state := Error);
    assert OnComplete(s, false) == Close(t);
  }

  /** Closing twice is closing once: the second close changes no state and
      raises nothing. */
  lemma CloseTwice(s: JobSnap)
    ensures Close(Close(s).job).raised == Clean
    ensures Close(Close(s).job).job.state == Close(s).job.state
  {
  }

  // ---------------------------------------------------------------------
  // Exit status

  /** `parseErrorcode` reads the first digit run of the first status line,
      clears the code when there is no status line, and finishes the job
      exactly when the code read is 0. */
  lemma ParseErrorcodeSpec(s: JobSnap, lines: seq<string>, k: nat)
    requires k <= |lines|
    requires forall j :: 0 <= j < k ==> !Contains(lines[j], StatusMarker)
    requires k < |lines| ==> Contains(lines[k], StatusMarker)
    ensures k < |lines| && FirstNumber(lines[k]).None? <==> ParseErrorcode(s, lines).raised == IndexError
    ensures ParseErrorcode(s, lines).raised == Clean ==>
              ParseErrorcode(s, lines).job.errorCode == (if k < |lines| then FirstNumber(lines[k]) else None)
    ensures ParseErrorcode(s, lines).raised == Clean ==>
              (ParseErrorcode(s, lines).job.state == Finished
               <==> ParseErrorcode(s, lines).job.errorCode == Some(0) || s.state == Finished)
    ensures ParseErrorcode(s, lines).job.state != s.state ==> ParseErrorcode(s, lines).job.state == Finished
  {
    FirstIndexIsUnique(lines, k);
  }

  lemma FirstIndexIsUnique(lines: seq<string>, k: nat)
    requires k <= |lines|
    requires forall j :: 0 <= j < k ==> !Contains(lines[j], StatusMarker)
    requires k < |lines| ==> Contains(lines[k], StatusMarker)
    ensures FirstStatusLine(lines) == k
  {
  }

  /** A failed completion with an unparsed status does not read the log. */
  lemma FailedCompletionWithoutCode(s: JobSnap)
    requires s.errorCode.None? && !Completed(s)
    ensures OnComplete(s, false) == Close(s.(state := Error))
    ensures OnComplete(s, false).job.state == Error && OnComplete(s, false).raised == Clean
  {
  }

  // ---------------------------------------------------------------------
  // Starting

  /** The wait loop changes nothing but the session until it ends, and
      then: the banner ends it cleanly, end of file escapes as EOFError, a
      closed session completes the job as failed, and a premature error
      marker is appended to the log before the job completes as failed. */
  lemma {:induction false} WaitStartupOutcome(s: JobSnap, tmp: string)
    ensures var e := StartupOf(s.session.closed, s.session.script, tmp);
            var s' := s.(session := s.session.(script := e.rest));
            WaitStartup(s, tmp)
            == match e
               case Banner(_) => Step(s', Clean)
               case EndOfFile(_) => Step(s', EofError)
               case SessionClosed(_) => OnComplete(s', false)
               case PrematureExit(text, _) =>
                 if s.log.readable then OnComplete(s'.(log := s.log.(text := s.log.text + text)), false)
                 else Step(s', IOError)
    decreases |s.session.script|
  {
    var ss := s.session;
    if LastLine(tmp) == StartupSentinel || ss.closed || ss.script == [] {
      assert ss.(script := ss.script) == ss;
    } else {
      var s1 := s.(session := ss.(script := ss.script[1..]));
      match ss.script[0]
      case Eof =>
      case ValueErr =>
      case Timeout =>
        assert WaitStartup(s, tmp) == WaitStartup(s1, tmp);
        assert StartupOf(ss.closed, ss.script, tmp) == StartupOf(ss.closed, ss.script[1..], tmp);
        WaitStartupOutcome(s1, tmp);
      case Data(d) =>
        if LastLine(tmp + d) != ErrorMarker {
          assert WaitStartup(s, tmp) == WaitStartup(s1, tmp + d);
          assert StartupOf(ss.closed, ss.script, tmp) == StartupOf(ss.closed, ss.script[1..], tmp + d);
          WaitStartupOutcome(s1, tmp + d);
        }
    }
  }

  /** What each end of the wait leaves: only end of file raises EOFError;
      a closed session or a premature error marker on a readable log
      completes the job, the marker's output then ending the log. */
  lemma WaitStartupEnds(s: JobSnap, tmp: string)
    ensures var e := StartupOf(s.session.closed, s.session.script, tmp);
            var r := WaitStartup(s, tmp);
            (r.raised == EofError <==> e.EndOfFile?)
            && (e.Banner? || e.EndOfFile? ==> r.job == s.(session := s.session.(script := e.rest)))
            && (e.SessionClosed? || (e.PrematureExit? && s.log.readable) ==> Completed(r.job))
            && (e.PrematureExit? && s.log.readable ==> r.job.log.text == s.log.text + e.text)
  {
    WaitStartupOutcome(s, tmp);
  }

  /** `run` on an Idle job: the wrapped command is sent first; at the banner
      the job runs with everything else as it was; at end of file the
      EOFError escapes with the job still Idle; and when the wait ended in
      a completion the job is closed and yet marked Running. */
  lemma RunOutcome(s: JobSnap)
    requires s.state == Idle
    ensures var e := StartupOf(s.session.closed, s.session.script, "");
            var r := Run(s);
            (e.Banner? ==>
               r == Step(s.(state := Running,
                            session := s.session.(sent := s.session.sent + [ShellWrapper(s.processCall)],
                                                  script := e.rest)), Clean))
            && (e.EndOfFile? ==> r.raised == EofError && r.job.state == Idle)
            && (!e.Banner? && r.raised == Clean ==> r.job.state == Running && r.job.session.closed)
  {
    var t := s.(session := SendLine(s.session, ShellWrapper(s.processCall)));
    WaitStartupOutcome(t, "");
    WaitStartupEnds(t, "");
  }

  /** The wait loop, when the first thing Maya prints is the error marker. */
  lemma WaitStartupPremature(t: JobSnap)
    requires !t.session.closed && t.session.script == [Data(ErrorMarker)]
    requires t.errorCode.None? && t.log.readable && !Completed(t)
    ensures WaitStartup(t, "").raised == Clean
    ensures WaitStartup(t, "").job.session.closed
    ensures Completed(WaitStartup(t, "").job) && WaitStartup(t, "").job.state == Error
    ensures WaitStartup(t, "").job.log.text == t.log.text + ErrorMarker
  {
    SplitOnAbsent("", '\n');
    assert LastLine("") == "";
    assert "" + ErrorMarker == ErrorMarker;
    SplitOnAbsent(ErrorMarker, '\n');
    assert LastLine(ErrorMarker) == ErrorMarker;
    var reply := Read(t.session);
    assert reply.result == Data(ErrorMarker);
    var s1 := t.(session := reply.session);
    var u := s1.(log := s1.log.(text := s1.log.text + ErrorMarker));
    assert WaitStartup(t, "") == OnComplete(u, false);
    FailedCompletionWithoutCode(u);
  }

  /** As written, `run` marks the job Running even when Maya exits before
      its banner: the job is then closed and yet Running. */
  lemma PrematureExitStillRunning(s: JobSnap)
    requires s.state == Idle && Inv(s) && s.errorCode.None? && s.log.readable
    requires s.session.script == [Data(ErrorMarker)]
    ensures Run(s).raised == Clean
    ensures Run(s).job.state == Running
    ensures Run(s).job.session.closed
  {
    var t := s.(session := SendLine(s.session, ShellWrapper(s.processCall)));
    WaitStartupPremature(t);
  }

  // ---------------------------------------------------------------------
  // The session markers

  /** Session output without either end marker leaves the job alone. */
  lemma {:induction false} ScanSshQuiet(s: JobSnap, lines: seq<string>, i: nat)
    requires forall j :: i <= j < |lines| ==>
               !Contains(lines[j], SuccessMarker) && !Contains(lines[j], FailureMarker)
    ensures ScanSsh(s, lines, i) == Step(s, Clean)
    decreases |lines| - i
  {
    if i < |lines| {
      ScanSshQuiet(s, lines, i + 1);
    }
  }

  /** A line holding either end marker completes the job, whatever the
      lines after it hold and whether or not a completion raised. */
  lemma {:induction false} ScanSshCompletes(s: JobSnap, lines: seq<string>, i: nat, j: nat)
    requires i <= j < |lines|
    requires Contains(lines[j], SuccessMarker) || Contains(lines[j], FailureMarker)
    ensures Completed(ScanSsh(s, lines, i).job)
    decreases j - i
  {
    var a := if Contains(lines[i], SuccessMarker) then OnComplete(s, true) else Step(s, Clean);
    var b := if Contains(lines[i], FailureMarker) then OnComplete(a.job, false) else a;
    if j > i && a.raised == Clean && b.raised == Clean {
      ScanSshCompletes(b.job, lines, i + 1, j);
    }
  }

  /** An `update` whose read brings session output holding an end marker
      completes the job. */
  lemma UpdateSeesMarker(s: JobSnap, j: nat)
    requires !Completed(s) && !s.session.closed && s.session.script != [] && s.session.script[0].Data?
    requires var lines := SplitOn(s.sshOutput + s.session.script[0].text, '\n');
             j < |lines| && (Contains(lines[j], SuccessMarker) || Contains(lines[j], FailureMarker))
    ensures Completed(Update(s).job)
  {
    var s0 := s.(session := s.session.(script := s.session.script[1..]), sshOutput := s.sshOutput + s.session.script[0].text);
    ScanSshCompletes(s0, SplitOn(s0.sshOutput, '\n'), 0, j);
  }

  /** The error marker the wrapper echoes is not the failure marker the
      poll looks for: a failed render's marker line is ignored. */
  lemma ErrorMarkerIgnored(s: JobSnap)
    ensures ScanSsh(s, [ErrorMarker], 0) == Step(s, Clean)
  {
    ShellWrapperMarkers("");
    assert !Contains(ErrorMarker, SuccessMarker);
    ScanSshQuiet(s, [ErrorMarker], 0);
  }

  // ---------------------------------------------------------------------
  // Counting frames and the frame progress

  function Min(a: int, b: int): int
  {
    if a <= b then a else b
  }

  /** Number of statistics lines in `lines[i..]`. */
  function StatsFrom(lines: seq<string>, i: nat): nat
    decreases |lines| - i
  {
    if i >= |lines| then 0
    else (if Contains(lines[i], StatsMarker) then 1 else 0) + StatsFrom(lines, i + 1)
  }

  /** Over log lines without a status line the scan raises nothing and
      adds one frame per statistics line, up to the last frame. */
  lemma {:induction false} ScanLogCounts(s: JobSnap, lines: seq<string>, i: nat, last: string,
                                         p: int, sn: int)
    requires i <= |lines| && 0 <= s.currentFrame <= s.maxFrame
    requires forall j :: i <= j < |lines| ==> !Contains(lines[j], StatusMarker)
    ensures ScanLog(s, lines, i, last, p, sn).raised == Clean
    ensures ScanLog(s, lines, i, last, p, sn).job
            == s.(currentFrame := Min(s.maxFrame, s.currentFrame + StatsFrom(lines, i)))
    decreases |lines| - i
  {
    if i < |lines| {
      var line := lines[i];
      var s1 := Counted(s, line);
      ScanLogPlain(s, lines, i, last, p, sn);
      ScanLogCounts(s1, lines, i + 1, last, if line == last then i else p,
                    if Contains(line, StatsMarker) then i else sn);
      assert Min(s.maxFrame, s1.currentFrame + StatsFrom(lines, i + 1))
             == Min(s.maxFrame, s.currentFrame + StatsFrom(lines, i));
    }
  }

  /** Over log lines without a status line the scan ends with the index
      of the last line equal to `last`, or the starting value when there
      is none. */
  lemma {:induction false} ScanLogFindsLast(s: JobSnap, lines: seq<string>, i: nat, last: string,
                                            p: int, sn: int)
    requires i <= |lines| && p < i
    requires forall j :: i <= j < |lines| ==> !Contains(lines[j], StatusMarker)
    ensures var q := ScanLog(s, lines, i, last, p, sn).progressLine;
            (q < i ==> q == p)
            && (q >= i ==> q < |lines| && lines[q] == last && forall j :: q < j < |lines| ==> lines[j] != last)
            && (forall j :: i <= j < |lines| && lines[j] == last ==> j <= q)
    decreases |lines| - i
  {
    if i < |lines| {
      var line := lines[i];
      ScanLogPlain(s, lines, i, last, p, sn);
      ScanLogFindsLast(Counted(s, line), lines, i + 1, last, if line == last then i else p,
                       if Contains(line, StatsMarker) then i else sn);
    }
  }

  /** Over log lines without a status line the scan ends with the index
      of the last statistics line, or the starting value when there is
      none. */
  lemma {:induction false} ScanLogFindsStats(s: JobSnap, lines: seq<string>, i: nat, last: string,
                                             p: int, sn: int)
    requires i <= |lines| && sn < i
    requires forall j :: i <= j < |lines| ==> !Contains(lines[j], StatusMarker)
    ensures var q := ScanLog(s, lines, i, last, p, sn).statsLine;
            (q < i ==> q == sn)
            && (q >= i ==> q < |lines| && Contains(lines[q], StatsMarker)
                           && forall j :: q < j < |lines| ==> !Contains(lines[j], StatsMarker))
            && (forall j :: i <= j < |lines| && Contains(lines[j], StatsMarker) ==> j <= q)
    decreases |lines| - i
  {
    if i < |lines| {
      var line := lines[i];
      ScanLogPlain(s, lines, i, last, p, sn);
      ScanLogFindsStats(Counted(s, line), lines, i + 1, last, if line == last then i else p,
                        if Contains(line, StatsMarker) then i else sn);
    }
  }

  /** Index of the last statistics line, or -1 when there is none. */
  function LastStatsLine(lines: seq<string>): (k: int)
    ensures -1 <= k < |lines|
    ensures k >= 0 ==> Contains(lines[k], StatsMarker)
    ensures forall j :: k < j < |lines| ==> !Contains(lines[j], StatsMarker)
  {
    if |lines| == 0 then -1
    else if Contains(lines[|lines| - 1], StatsMarker) then |lines| - 1
    else LastStatsLine(lines[..|lines| - 1])
  }

  /** The last line equal to the last progress line is that line itself. */
  lemma LastMatchIsLastProgress(lines: seq<string>, k: int, q: int)
    requires k == LastProgressLine(lines) && k >= 0
    requires q < |lines| && (q >= 0 ==> lines[q] == lines[k])
    requires forall j :: 0 <= j < |lines| && lines[j] == lines[k] ==> j <= q
    ensures q == k
  {
    assert k <= q;
    assert IsProgressLine(lines[q]);
  }

  lemma LastStatsIsLastStats(lines: seq<string>, q: int)
    requires -1 <= q < |lines| && (q >= 0 ==> Contains(lines[q], StatsMarker))
    requires forall j :: 0 <= j < |lines| && Contains(lines[j], StatsMarker) ==> j <= q
    ensures q == LastStatsLine(lines)
  {
    var l := LastStatsLine(lines);
    if l >= 0 {
      assert l <= q;
    }
  }

  /** An unreadable log changes nothing; a log without any progress line
      is only stored as `output`: frame, progress and state stay as they
      were, even when the log reports Maya's exit status. */
  lemma PollLogWithoutProgress(s: JobSnap)
    ensures !s.log.readable ==> PollLog(s) == Step(s, Clean)
    ensures s.log.readable && LastProgressLine(SplitOn(s.log.text, '\n')) < 0 ==>
              PollLog(s) == Step(s.(polledOutput := Some(SplitOn(s.log.text, '\n'))), Clean)
  {
  }

  /** A log with a progress line and without a status line: the frame
      counter gains one per statistics line up to the last frame, and the
      frame progress is the last progress line's percentage when that line
      comes after the last statistics line, else 100. */
  lemma PollLogProgress(s: JobSnap)
    requires Inv(s) && s.log.readable
    requires forall j :: 0 <= j < |SplitOn(s.log.text, '\n')| ==>
               !Contains(SplitOn(s.log.text, '\n')[j], StatusMarker)
    requires LastProgressLine(SplitOn(s.log.text, '\n')) >= 0
    ensures var lines := SplitOn(s.log.text, '\n');
            var k := LastProgressLine(lines);
            var r := PollLog(s);
            r.raised == Clean
            && r.job == s.(polledOutput := Some(lines),
                           currentFrame := Min(s.maxFrame, s.currentFrame + StatsFrom(lines, 0)),
                           progress := if k > LastStatsLine(lines) then Percent(lines[k]) else 100.0)
  {
    var lines := SplitOn(s.log.text, '\n');
    var k := LastProgressLine(lines);
    var t := s.(polledOutput := Some(lines));
    var sc := ScanLog(t, lines, 0, lines[k], -1, -1);
    assert sc.raised == Clean && sc.job == t.(currentFrame := Min(t.maxFrame, t.currentFrame + StatsFrom(lines, 0))) by {
      ScanFrames(t, lines, lines[k]);
    }
    assert sc.progressLine == k by {
      ScanProgressLine(t, lines, k);
    }
    assert sc.statsLine == LastStatsLine(lines) by {
      ScanStatsLine(t, lines, lines[k]);
    }
    PollLogOfScan(s, sc);
  }

  /** The log loop over a log without status lines, from its start: its
      frame count. */
  lemma ScanFrames(t: JobSnap, lines: seq<string>, last: string)
    requires 0 <= t.currentFrame <= t.maxFrame
    requires forall j :: 0 <= j < |lines| ==> !Contains(lines[j], StatusMarker)
    ensures var sc := ScanLog(t, lines, 0, last, -1, -1);
            sc.raised == Clean
            && sc.job == t.(currentFrame := Min(t.maxFrame, t.currentFrame + StatsFrom(lines, 0)))
  {
    ScanLogCounts(t, lines, 0, last, -1, -1);
  }

  /** Its last progress line is the log's last progress line `k`. */
  lemma ScanProgressLine(t: JobSnap, lines: seq<string>, k: int)
    requires k == LastProgressLine(lines) && k >= 0
    requires forall j :: 0 <= j < |lines| ==> !Contains(lines[j], StatusMarker)
    ensures ScanLog(t, lines, 0, lines[k], -1, -1).progressLine == k
  {
    ScanLogFindsLast(t, lines, 0, lines[k], -1, -1);
    LastMatchIsLastProgress(lines, k, ScanLog(t, lines, 0, lines[k], -1, -1).progressLine);
  }

  /** Its last statistics line is the log's last statistics line. */
  lemma ScanStatsLine(t: JobSnap, lines: seq<string>, last: string)
    requires forall j :: 0 <= j < |lines| ==> !Contains(lines[j], StatusMarker)
    ensures ScanLog(t, lines, 0, last, -1, -1).statsLine == LastStatsLine(lines)
  {
    ScanLogFindsStats(t, lines, 0, last, -1, -1);
    LastStatsIsLastStats(lines, ScanLog(t, lines, 0, last, -1, -1).statsLine);
  }

  /** `PollLog` on a readable log with a progress line, given the result
      of its log loop. */
  lemma PollLogOfScan(s: JobSnap, sc: Scan)
    requires s.log.readable
    requires var lines := SplitOn(s.log.text, '\n');
             LastProgressLine(lines) >= 0
             && sc == ScanLog(s.(polledOutput := Some(lines)), lines, 0, lines[LastProgressLine(lines)], -1, -1)
             && sc.raised == Clean
    ensures PollLog(s) == Step(sc.job.(progress := if sc.progressLine > sc.statsLine
                                                   then Percent(SplitOn(s.log.text, '\n')[LastProgressLine(SplitOn(s.log.text, '\n'))])
                                                   else 100.0), Clean)
  {
  }

  /** The frame count a poll leaves on a log with a progress line. */
  lemma PollLogFrames(s: JobSnap)
    requires Inv(s) && s.log.readable
    requires forall j :: 0 <= j < |SplitOn(s.log.text, '\n')| ==>
               !Contains(SplitOn(s.log.text, '\n')[j], StatusMarker)
    requires LastProgressLine(SplitOn(s.log.text, '\n')) >= 0
    ensures var r := PollLog(s).job;
            r.currentFrame == Min(s.maxFrame, s.currentFrame + StatsFrom(SplitOn(s.log.text, '\n'), 0))
            && r.log == s.log && r.maxFrame == s.maxFrame && Inv(r)
  {
    PollLogProgress(s);
  }

  /** Each poll re-reads the whole log, so the same statistics lines are
      counted again on every poll. */
  lemma PollRecounts(s: JobSnap, s1: JobSnap)
    requires Inv(s) && s.log.readable
    requires forall j :: 0 <= j < |SplitOn(s.log.text, '\n')| ==>
               !Contains(SplitOn(s.log.text, '\n')[j], StatusMarker)
    requires LastProgressLine(SplitOn(s.log.text, '\n')) >= 0
    requires s1 == PollLog(s).job
    ensures var n := StatsFrom(SplitOn(s.log.text, '\n'), 0);
            s1.currentFrame == Min(s.maxFrame, s.currentFrame + n)
            && PollLog(s1).job.currentFrame == Min(s.maxFrame, s.currentFrame + 2 * n)
  {
    PollLogFrames(s);
    PollLogFrames(s1);
    MinTwice(s.maxFrame, s.currentFrame, StatsFrom(SplitOn(s.log.text, '\n'), 0));
  }

  lemma MinTwice(m: int, c: int, n: nat)
    ensures Min(m, Min(m, c + n) + n) == Min(m, c + 2 * n)
  {
  }

  // ---------------------------------------------------------------------
  // Overall progress

  /** With a frame progress of at most 100 the overall progress lies
      between 0 and 100. */
  lemma ProgressBounds(s: JobSnap)
    requires Inv(s) && s.progress <= 100.0
    ensures 0.0 <= Progress(s) <= 100.0
  {
    var n := (s.maxFrame + 1) as real;
    var num := 100.0 * s.currentFrame as real + s.progress;
    assert 0.0 <= num <= 100.0 * n;
    assert Progress(s) == num / n;
  }

  lemma ShareBelowWhole(x: real, n: real)
    requires n > 0.0 && 0.0 <= x < 100.0 * n
    ensures x / n < 100.0
  {
  }

  /** Right after the completion handler, a job that completed
      successfully shows its last frame with no frame progress, which is an
      overall progress below 100. */
  lemma SuccessShowsBelowHundred(s: JobSnap)
    requires Inv(s)
    ensures var r := OnComplete(s, true).job;
            Progress(r) == ShareBefore(s.maxFrame) && Progress(r) < 100.0
  {
    var r := OnComplete(s, true).job;
    assert r.currentFrame == s.maxFrame && r.progress == 0.0 && r.maxFrame == s.maxFrame;
    LastFrameShare(r, s.maxFrame);
  }

  /** Within `update` the log poll follows the completion handler and sets
      the frame progress again: session output that is just the success
      marker, over a log whose last statistics line comes no earlier than
      its last progress line, shows 100. */
  lemma SuccessfulUpdateShowsHundred(s: JobSnap)
    requires Inv(s) && !Completed(s) && s.log.readable
    requires SplitOn(s.sshOutput, '\n') == [SuccessMarker]
    requires forall j :: 0 <= j < |SplitOn(s.log.text, '\n')| ==>
               !Contains(SplitOn(s.log.text, '\n')[j], StatusMarker)
    requires 0 <= LastProgressLine(SplitOn(s.log.text, '\n')) <= LastStatsLine(SplitOn(s.log.text, '\n'))
    ensures UpdateScan(s).raised == Clean && Completed(UpdateScan(s).job)
    ensures Progress(UpdateScan(s).job) == 100.0
  {
    var a := SuccessMarkerScan(s);
    assert UpdateScan(s) == PollLog(a.job);
    PollAtLastFrame(a.job);
    FullLastFrame(PollLog(a.job).job, s.maxFrame);
  }

  /** A poll at the last frame, over a log whose last statistics line comes
      no earlier than its last progress line, leaves full frame progress. */
  lemma PollAtLastFrame(t: JobSnap)
    requires Inv(t) && t.log.readable && t.currentFrame == t.maxFrame
    requires forall j :: 0 <= j < |SplitOn(t.log.text, '\n')| ==>
               !Contains(SplitOn(t.log.text, '\n')[j], StatusMarker)
    requires 0 <= LastProgressLine(SplitOn(t.log.text, '\n')) <= LastStatsLine(SplitOn(t.log.text, '\n'))
    ensures var r := PollLog(t);
            r.raised == Clean && r.job.currentFrame == t.maxFrame && r.job.maxFrame == t.maxFrame
            && r.job.progress == 100.0
  {
    PollLogProgress(t);
  }

  /** Session output that is just the success marker completes the job
      once, without raising. */
  lemma SuccessMarkerScan(s: JobSnap) returns (a: Step)
    requires Inv(s) && s.log.readable
    ensures a == OnComplete(s, true) && a.raised == Clean
    ensures ScanSsh(s, [SuccessMarker], 0) == a
    ensures Inv(a.job) && a.job.log == s.log && a.job.currentFrame == s.maxFrame && a.job.maxFrame == s.maxFrame
  {
    MarkersDiffer();
    assert Contains(SuccessMarker, SuccessMarker) by {
      assert OccursAt(SuccessMarker, SuccessMarker, 0);
    }
    a := OnComplete(s, true);
    assert ScanSsh(a.job, [SuccessMarker], 1) == a;
  }

  /** At the last frame with full frame progress, the overall progress is
      100. */
  lemma FullLastFrame(r: JobSnap, m: nat)
    requires r.maxFrame == m && r.currentFrame == m && r.progress == 100.0
    ensures Progress(r) == 100.0
  {
    var n := (m + 1) as real;
    assert Progress(r) == (100.0 * m as real + 100.0) / n;
    assert 100.0 * m as real + 100.0 == 100.0 * n;
  }

  /** The share of `m + 1` frames that the first `m` make up, in percent. */
  function ShareBefore(m: nat): real
  {
    100.0 * m as real / (m + 1) as real
  }

  /** At the last frame with no frame progress, the overall progress is
      the share of the frames before it. */
  lemma LastFrameShare(r: JobSnap, m: nat)
    requires r.maxFrame == m && r.currentFrame == m && r.progress == 0.0
    ensures Progress(r) == ShareBefore(m) && ShareBefore(m) < 100.0
  {
    var n := (m + 1) as real;
    assert Progress(r) == (100.0 * m as real) / n;
    ShareBelowWhole(100.0 * m as real, n);
  }
}
