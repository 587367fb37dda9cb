/**
 * The `Job` class of `mayaJob.py`: one Maya batch render on one remote
 * host.  The fields are the object's attributes; every method updates
 * them in place as the source does, and is proved to take the job from
 * `old(Snap())` to exactly the snapshot the matching JobModel function
 * computes, raising the same exception.
 */
module MayaJob {
  import opened Text
  import opened JobText
  import opened JobModel
  import JobFacts

  datatype Result<T, E> = Success(value: T) | Failure(error: E)

  /** The constructor's keyword arguments, kept in `originalArgs` so that
      a job can be re-created. */
  datatype JobConfig = JobConfig(
    host: string,
    scenePath: string,
    outputPath: string,
    start: int,
    end: int,
    camOverride: Option<string>,
    resOverride: Option<(int, int)>,
    user: Option<string>,
    binPath: string)

  /** What the machine supplies when a job is created: the local user, the
      Maya log path (named after the current time), the job log path, the
      scene file's lines (None when it cannot be read), whether the ssh
      login succeeds, what the remote shell will print, and the Maya log
      as the renderer writes it. */
  datatype Env = Env(
    localUser: string,
    logPath: string,
    jobLogPath: string,
    sceneLines: Option<seq<string>>,
    loginOk: bool,
    script: seq<ReadResult>,
    log: LogFile)

  /** Why construction fails: ValueError for a negative frame range,
      IOError for an unreadable scene, the pxssh error for a failed login. */
  datatype InitError = NegativeFrameRange | SceneUnreadable | LoginFailed

  /** The job `Job(**cfg)` creates, or the error it raises, checked in the
      order the constructor meets them. */
  function Init(cfg: JobConfig, env: Env): (r: Result<JobSnap, InitError>)
    ensures cfg.end < cfg.start <==> r == Failure(NegativeFrameRange)
    ensures r.Success? <==> cfg.end >= cfg.start && env.sceneLines.Some? && env.loginOk
    ensures r.Success? ==> r.value.maxFrame == cfg.end - cfg.start && r.value.currentFrame == 0
                           && r.value.state == Idle && r.value.errorCode.None? && Inv(r.value)
    ensures r.Success? ==> r.value.processCall
                           == RenderCommand(cfg.binPath, cfg.start, cfg.end, cfg.resOverride,
                                            env.logPath, cfg.scenePath)
  {
    if cfg.end - cfg.start < 0 then Failure(NegativeFrameRange)
    else if env.sceneLines.None? then Failure(SceneUnreadable)
    else if !env.loginOk then Failure(LoginFailed)
    else
      Success(JobSnap(Idle, 0, cfg.end - cfg.start, 0.0, None, [], None, "",
                      Session([], [], env.script, false), env.log,
                      RenderCommand(cfg.binPath, cfg.start, cfg.end, cfg.resOverride,
                                    env.logPath, cfg.scenePath)))
  }

  /** The prefix scan of the constructor: the first line of the scene that
      sets the image file prefix gives the prefix, else the scene name. */
  method ScanOutputPrefix(sceneLines: seq<string>, scenePath: string) returns (prefix: string)
    ensures prefix == OutputPrefix(sceneLines, scenePath)
  {
    var i := 0;
    while i < |sceneLines|
      invariant 0 <= i <= |sceneLines|
      invariant forall j :: 0 <= j < i ==> !Contains(sceneLines[j], IfpAttribute)
    {
      if Contains(sceneLines[i], IfpAttribute) {
        IfpLineSplits(sceneLines[i]);
        prefix := QuotedValue(sceneLines[i]);
        assert FirstIfpLine(sceneLines) == i by {
          FirstIfpLineIs(sceneLines, i);
        }
        return;
      }
      i := i + 1;
    }
    FirstIfpLineIs(sceneLines, |sceneLines|);
    prefix := DropExtension(Basename(scenePath));
  }

  lemma FirstIfpLineIs(lines: seq<string>, k: nat)
    requires k <= |lines|
    requires forall j :: 0 <= j < k ==> !Contains(lines[j], IfpAttribute)
    requires k < |lines| ==> Contains(lines[k], IfpAttribute)
    ensures FirstIfpLine(lines) == k
  {
  }

  /** The `_processArgs` list, built by appending one argument at a time. */
  method BuildProcessArgs(start: int, end: int, res: Option<(int, int)>, logPath: string)
    returns (args: seq<Arg>)
    ensures args == ProcessArgs(start, end, res, logPath)
  {
    args := [];
    args := args + [Arg("s", IntToString(start))];
    args := args + [Arg("e", IntToString(end))];
    if res.Some? {
      args := args + [Arg("x", IntToString(res.value.0))];
      args := args + [Arg("y", IntToString(res.value.0))];
    }
    args := args + [Arg("v", "5")];
    args := args + [Arg("verb", "")];
    args := args + [Arg("r", "mr")];
    args := args + [Arg("art", "")];
    args := args + [Arg("aml", "")];
    args := args + [Arg("at", "")];
    args := args + [Arg("log", logPath)];
  }

  /** `_processCall`: the escaped binary, one `-flag value` text per
      argument and the quoted scene, then joined by spaces. */
  method BuildProcessCall(binPath: string, args: seq<Arg>, scenePath: string) returns (call: string)
    ensures call == CommandLine(binPath, args, scenePath)
  {
    var parts := [EscapeSpaces(binPath)];
    var i := 0;
    while i < |args|
      invariant 0 <= i <= |args|
      invariant parts == [EscapeSpaces(binPath)] + ArgTexts(args[..i])
    {
      assert ArgTexts(args[..i + 1]) == ArgTexts(args[..i]) + [ArgText(args[i])];
      parts := parts + [ArgText(args[i])];
      i := i + 1;
    }
    assert args[..i] == args;
    parts := parts + [Quoted(scenePath)];
    call := Join(" ", parts);
  }

  class Job {
    const config: JobConfig
    const logPath: string
    const jobLogPath: string
    const sessionUser: string
    /** A plain attribute: the assignments in the constructor hide the
        self-referring `outputPrefix` property. */
    const outputPrefix: string
    const maxFrame: int
    const processCall: string

    var state: State
    var currentFrame: int
    var progress: real
    var errorCode: Option<nat>
    var rawOutput: seq<string>
    var polledOutput: Option<seq<string>>
    var sshOutput: string
    var session: Session
    var log: LogFile
    /** Whether the manager has copied the job's frames (the `copied`
        attribute it sets). */
    var copied: bool

    function Snap(): JobSnap
      reads this
    {
      JobSnap(state, currentFrame, maxFrame, progress, errorCode, rawOutput, polledOutput,
              sshOutput, session, log, processCall)
    }

    predicate Completed()
      reads this
    {
      state == Finished || state == Error
    }

    /** The `paused` and `running` properties. */
    predicate IsPaused()
      reads this
    {
      state == JobModel.Paused
    }

    predicate IsRunning()
      reads this
    {
      state == JobModel.Running
    }

    constructor(cfg: JobConfig, env: Env, prefix: string, call: string)
      requires Init(cfg, env).Success?
      requires call == Init(cfg, env).value.processCall
      ensures Snap() == Init(cfg, env).value
      ensures config == cfg && logPath == env.logPath && jobLogPath == env.jobLogPath
      ensures outputPrefix == prefix && !copied
      ensures sessionUser == if cfg.user.Some? && cfg.user.value != "" then cfg.user.value else env.localUser
    {
      config := cfg;
      logPath := env.logPath;
      jobLogPath := env.jobLogPath;
      sessionUser := if cfg.user.Some? && cfg.user.value != "" then cfg.user.value else env.localUser;
      outputPrefix := prefix;
      maxFrame := cfg.end - cfg.start;
      processCall := call;
      state := Idle;
      currentFrame := 0;
      progress := 0.0;
      errorCode := None;
      rawOutput := [];
      polledOutput := None;
      sshOutput := "";
      session := Session([], [], env.script, false);
      log := env.log;
      copied := false;
    }

    /** `Job(**cfg)`: the job, or the error the constructor raises. */
    static method Create(cfg: JobConfig, env: Env) returns (r: Result<Job, InitError>)
      ensures r.Failure? <==> Init(cfg, env).Failure?
      ensures r.Failure? ==> r.error == Init(cfg, env).error
      ensures r.Success? ==> fresh(r.value) && r.value.Snap() == Init(cfg, env).value
                             && r.value.config == cfg && r.value.logPath == env.logPath
                             && r.value.outputPrefix == OutputPrefix(env.sceneLines.value, cfg.scenePath)
                             && !r.value.copied
    {
      var maxFrame := cfg.end - cfg.start;
      if maxFrame < 0 {
        return Failure(NegativeFrameRange);
      }
      if env.sceneLines.None? {
        return Failure(SceneUnreadable);
      }
      var prefix := ScanOutputPrefix(env.sceneLines.value, cfg.scenePath);
      var args := BuildProcessArgs(cfg.start, cfg.end, cfg.resOverride, env.logPath);
      var call := BuildProcessCall(cfg.binPath, args, cfg.scenePath);
      if !env.loginOk {
        return Failure(LoginFailed);
      }
      var job := new Job(cfg, env, prefix, call);
      return Success(job);
    }

    method Pause()
      modifies this
      ensures Snap() == JobModel.Pause(old(Snap()))
    {
      if state != Paused {
        session := Signal(session, PauseSignal);
        state := Paused;
      }
    }

    method Resume()
      modifies this
      ensures Snap() == JobModel.Resume(old(Snap()))
    {
      if state == Paused {
        session := Signal(session, ResumeSignal);
        state := Running;
      }
    }

    method Kill()
      modifies this
      ensures Snap() == JobModel.Kill(old(Snap()))
    {
      Resume();
      if state == Running {
        session := Signal(session, SIGKILL);
        state := if errorCode.Some? && errorCode.value != 0 then Error else Finished;
      }
    }

    method Close() returns (raised: Raised)
      modifies this
      ensures Step(Snap(), raised) == JobModel.Close(old(Snap()))
      decreases if state == Finished || state == Error then 0 else 2
    {
      Kill();
      ghost var killed := Snap();
      if !Completed() {
        raised := OnComplete(false);
        assert JobModel.Close(old(Snap())) == if raised != Clean then Step(Snap(), raised)
                                              else JobModel.Close(old(Snap()));
        if raised != Clean {
          return;
        }
      }
      raised := Clean;
      session := Logout(session);
      if log.readable {
        rawOutput := FileLines(log.text);
      }
      session := session.(closed := true);
    }

    method OnComplete(success: bool) returns (raised: Raised)
      modifies this
      ensures Step(Snap(), raised) == JobModel.OnComplete(old(Snap()), success)
      decreases 1
    {
      if success {
        state := Finished;
        progress := 0.0;
        currentFrame := maxFrame;
        rawOutput := [];
        if !log.readable {
          return IOError;
        }
        var lines := FileLines(log.text);
        ghost var emptied := Snap();
        var i := 0;
        while i < |lines|
          invariant 0 <= i <= |lines|
          invariant rawOutput == StripAll(lines[..i])
          invariant Snap() == emptied.(rawOutput := rawOutput)
        {
          assert StripAll(lines[..i + 1]) == StripAll(lines[..i]) + [Strip(lines[i])];
          rawOutput := rawOutput + [Strip(lines[i])];
          i := i + 1;
        }
        assert lines[..i] == lines;
      } else {
        state := Error;
        if errorCode.Some? {
          if !log.readable {
            return IOError;
          }
          raised := ParseErrorcode(FileLines(log.text));
          if raised != Clean {
            return;
          }
        }
      }
      raised := Close();
    }

    method ParseErrorcode(lines: seq<string>) returns (raised: Raised)
      modifies this
      ensures Step(Snap(), raised) == JobModel.ParseErrorcode(old(Snap()), lines)
    {
      raised := Clean;
      var i := 0;
      while i < |lines|
        invariant 0 <= i <= |lines|
        invariant forall j :: 0 <= j < i ==> !Contains(lines[j], StatusMarker)
        invariant Snap() == old(Snap())
      {
        if Contains(lines[i], StatusMarker) {
          break;
        }
        i := i + 1;
      }
      JobFacts.FirstIndexIsUnique(lines, i);
      if i < |lines| {
        var code := FirstNumber(lines[i]);
        if code.None? {
          return IndexError;
        }
        errorCode := code;
      } else {
        errorCode := None;
      }
      if errorCode == Some(0) {
        state := Finished;
      }
    }

    method Run() returns (raised: Raised)
      modifies this
      ensures Step(Snap(), raised) == JobModel.Run(old(Snap()))
    {
      raised := Clean;
      if state != Idle {
        return;
      }
      session := SendLine(session, ShellWrapper(processCall));
      ghost var start := Snap();
      var tmp := "";
      while LastLine(tmp) != StartupSentinel
        invariant WaitStartup(Snap(), tmp) == WaitStartup(start, "")
        decreases |session.script|
      {
        ghost var before := Snap();
        var reply := Read(session);
        session := reply.session;
        assert reply.result in {Timeout} || reply.result.Data? ==>
                 |session.script| < |before.session.script|;
        match reply.result {
          case Eof =>
            return EofError;
          case ValueErr =>
            raised := OnComplete(false);
            if raised != Clean {
              return;
            }
            break;
          case Timeout =>
          case Data(d) =>
            tmp := tmp + d;
            if LastLine(tmp) == ErrorMarker {
              if !log.readable {
                return IOError;
              }
              log := log.(text := log.text + tmp);
              raised := OnComplete(false);
              if raised != Clean {
                return;
              }
              break;
            }
        }
      }
      state := Running;
    }

    method Update() returns (raised: Raised)
      modifies this
      ensures Step(Snap(), raised) == JobModel.Update(old(Snap()))
    {
      raised := Clean;
      if Completed() {
        return;
      }
      var reply := Read(session);
      session := reply.session;
      match reply.result {
        case ValueErr =>
          state := Error;
          return;
        case Eof =>
          state := Error;
          return;
        case Timeout =>
        case Data(d) =>
          sshOutput := sshOutput + d;
      }
      raised := UpdateScan();
    }

    /** The marker scan of `update` over all session output so far,
        followed by the log poll. */
    method UpdateScan() returns (raised: Raised)
      modifies this
      ensures Step(Snap(), raised) == JobModel.UpdateScan(old(Snap()))
    {
      ghost var scanned := Snap();
      var lines := SplitOn(sshOutput, '\n');
      var i := 0;
      while i < |lines|
        invariant 0 <= i <= |lines|
        invariant ScanSsh(Snap(), lines, i) == ScanSsh(scanned, lines, 0)
      {
        raised := ScanSshLine(lines, i);
        if raised != Clean {
          return;
        }
        i := i + 1;
      }
      raised := PollLog();
    }

    /** One turn of the marker loop: complete the job on the success
        marker, then on the failure marker. */
    method ScanSshLine(lines: seq<string>, i: nat) returns (raised: Raised)
      requires i < |lines|
      modifies this
      ensures var r := ScanSsh(old(Snap()), lines, i);
              if raised != Clean then Step(Snap(), raised) == r else ScanSsh(Snap(), lines, i + 1) == r
    {
      raised := Clean;
      if Contains(lines[i], SuccessMarker) {
        raised := OnComplete(true);
        if raised != Clean {
          return;
        }
      }
      if Contains(lines[i], FailureMarker) {
        raised := OnComplete(false);
      }
    }

    /** The log part of `update`, inside its `try ... except IOError`. */
    method PollLog() returns (raised: Raised)
      modifies this
      ensures Step(Snap(), raised) == JobModel.PollLog(old(Snap()))
    {
      raised := Clean;
      if !log.readable {
        return;
      }
      var lines := SplitOn(log.text, '\n');
      polledOutput := Some(lines);
      var k := LastProgressLine(lines);
      if k < 0 {
        return;
      }
      var last := lines[k];
      ghost var scanned := Snap();
      var progressLine, statsLine := -1, -1;
      var num := 0;
      while num < |lines|
        invariant 0 <= num <= |lines|
        invariant raised == Clean
        invariant ScanLog(Snap(), lines, num, last, progressLine, statsLine)
                  == ScanLog(scanned, lines, 0, last, -1, -1)
      {
        raised, progressLine, statsLine := ScanLine(lines, num, last, progressLine, statsLine);
        if raised == IOError {
          return Clean;
        }
        if raised != Clean {
          return;
        }
        num := num + 1;
      }
      progress := if progressLine > statsLine then Percent(last) else 100.0;
    }

    /** One turn of the log loop of `update`: note the last progress line
        and the last statistics line, count a frame, and handle a status
        line. */
    method ScanLine(lines: seq<string>, num: nat, last: string, progressLine: int, statsLine: int)
      returns (raised: Raised, progressLine': int, statsLine': int)
      requires num < |lines|
      modifies this
      ensures var r := ScanLog(old(Snap()), lines, num, last, progressLine, statsLine);
              if raised != Clean then Scan(Snap(), raised, progressLine', statsLine') == r
              else ScanLog(Snap(), lines, num + 1, last, progressLine', statsLine') == r
    {
      ghost var cur := Snap();
      var line := lines[num];
      progressLine', statsLine' := progressLine, statsLine;
      if line == last {
        progressLine' := num;
      }
      if Contains(line, StatsMarker) {
        statsLine' := num;
        if currentFrame != maxFrame {
          currentFrame := currentFrame + 1;
        }
      }
      assert Snap() == Counted(cur, line);
      raised := Clean;
      if Contains(line, StatusMarker) {
        ScanLogStatus(cur, lines, num, last, progressLine, statsLine);
        raised := StatusLine(line);
      } else {
        ScanLogPlain(cur, lines, num, last, progressLine, statsLine);
      }
    }

    /** The handling of an exit-status line inside the log loop. */
    method StatusLine(line: string) returns (raised: Raised)
      modifies this
      ensures Step(Snap(), raised) == JobModel.StatusLine(old(Snap()), line)
    {
      var code := FirstNumber(line);
      if code.None? {
        return IndexError;
      }
      errorCode := code;
      raised := OnComplete(code.value == 0);
    }
  }
}
