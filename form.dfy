/**
 * The new-job form check of `RenderManagerUI.py` (`verifyNewJob`): the
 * frame range must be two non-negative integers, a resolution override
 * two non-negative integers with the range not running backwards, and
 * every other field non-empty.  The first problem found is reported and
 * nothing is added.
 */
module Form {
  import opened Text

  datatype Result<T, E> = Success(value: T) | Failure(error: E)

  /** The form's entries as typed; an override is present only when its
      check box is ticked. */
  datatype Entries = Entries(
    host: string,
    binPath: string,
    scenePath: string,
    startFrame: string,
    endFrame: string,
    outputPath: string,
    camOverride: Option<string>,
    resOverride: Option<(string, string)>)

  /** The plain fields checked for emptiness, in the order checked. */
  datatype Field = Host | BinPath | ScenePath | OutputPath | CamOverride

  /** The message the form shows.  Frame `0` is the start, `1` the end;
      size `0` is the width, `1` the height. */
  datatype Problem =
    | MissingFrame(frame: nat)
    | InvalidFrame(frame: nat)
    | NegativeFrame(frame: nat)
    | MissingSize(size: nat)
    | InvalidSize(size: nat)
    | NegativeSize(size: nat)
    | BackwardRange
    | MissingField(field: Field)

  /** The arguments handed to `addJob`, numbers converted. */
  datatype JobRequest = JobRequest(
    host: string,
    binPath: string,
    scenePath: string,
    outputPath: string,
    start: int,
    end: int,
    camOverride: Option<string>,
    resOverride: Option<(int, int)>)

  /** Checks one number entry: empty, not an integer, negative. */
  function NumberCheck(text: string): Result<int, nat>
  {
    if text == "" then Failure(0)
    else if ParseInt(text).None? then Failure(1)
    else if ParseInt(text).value < 0 then Failure(2)
    else Success(ParseInt(text).value)
  }

  function FrameProblem(kind: nat, frame: nat): Problem
  {
    if kind == 0 then MissingFrame(frame) else if kind == 1 then InvalidFrame(frame) else NegativeFrame(frame)
  }

  function SizeProblem(kind: nat, size: nat): Problem
  {
    if kind == 0 then MissingSize(size) else if kind == 1 then InvalidSize(size) else NegativeSize(size)
  }

  /** The plain fields with their entries, in the order checked. */
  function PlainFields(e: Entries): seq<(Field, string)>
  {
    [(Host, e.host), (BinPath, e.binPath), (ScenePath, e.scenePath), (OutputPath, e.outputPath)]
    + (if e.camOverride.Some? then [(CamOverride, e.camOverride.value)] else [])
  }

  /** Index of the first empty plain field, or the number of fields. */
  function FirstEmpty(fields: seq<(Field, string)>): (k: nat)
    ensures k <= |fields|
    ensures forall j :: 0 <= j < k ==> fields[j].1 != ""
    ensures k < |fields| ==> fields[k].1 == ""
  {
    if |fields| == 0 then 0
    else if fields[0].1 == "" then 0
    else 1 + FirstEmpty(fields[1..])
  }

  /** The verdict of `verifyNewJob`, checks in the order it makes them. */
  function FormVerdict(e: Entries): Result<JobRequest, Problem>
  {
    var s := NumberCheck(e.startFrame);
    var t := NumberCheck(e.endFrame);
    if s.Failure? then Failure(FrameProblem(s.error, 0))
    else if t.Failure? then Failure(FrameProblem(t.error, 1))
    else
      var w := if e.resOverride.Some? then NumberCheck(e.resOverride.value.0) else Success(0);
      var h := if e.resOverride.Some? then NumberCheck(e.resOverride.value.1) else Success(0);
      if w.Failure? then Failure(SizeProblem(w.error, 0))
      else if h.Failure? then Failure(SizeProblem(h.error, 1))
      else if e.resOverride.Some? && t.value - s.value < 0 then Failure(BackwardRange)
      else
        var fields := PlainFields(e);
        var k := FirstEmpty(fields);
        if k < |fields| then Failure(MissingField(fields[k].0))
        else Success(JobRequest(e.host, e.binPath, e.scenePath, e.outputPath, s.value, t.value,
                                e.camOverride,
                                if e.resOverride.Some? then Some((w.value, h.value)) else None))
  }

  /** An entry that reads as a non-negative integer. */
  predicate IsCount(text: string)
  {
    ParseInt(text).Some? && ParseInt(text).value >= 0
  }

  /** What a form that passes looks like, independent of check order. */
  predicate Acceptable(e: Entries)
  {
    IsCount(e.startFrame) && IsCount(e.endFrame)
    && (e.resOverride.Some? ==>
          IsCount(e.resOverride.value.0) && IsCount(e.resOverride.value.1)
          && ParseInt(e.startFrame).value <= ParseInt(e.endFrame).value)
    && e.host != "" && e.binPath != "" && e.scenePath != "" && e.outputPath != ""
    && (e.camOverride.Some? ==> e.camOverride.value != "")
  }

  lemma NumberCheckSpec(text: string)
    ensures NumberCheck(text).Success? <==> IsCount(text)
    ensures NumberCheck(text).Success? ==> NumberCheck(text).value == ParseInt(text).value
  {
    if text == "" {
      assert Strip("") == "";
    }
  }

  lemma AllFieldsFilled(fields: seq<(Field, string)>)
    ensures FirstEmpty(fields) == |fields| <==> forall j :: 0 <= j < |fields| ==> fields[j].1 != ""
  {
  }

  /** The form passes exactly when it is acceptable, and then hands on the
      numbers its entries read as. */
  lemma FormVerdictSpec(e: Entries)
    ensures FormVerdict(e).Success? <==> Acceptable(e)
    ensures FormVerdict(e).Success? ==>
              var r := FormVerdict(e).value;
              r.start == ParseInt(e.startFrame).value && r.end == ParseInt(e.endFrame).value
              && r.host == e.host && r.binPath == e.binPath && r.scenePath == e.scenePath
              && r.outputPath == e.outputPath && r.camOverride == e.camOverride
              && (r.resOverride.Some? <==> e.resOverride.Some?)
              && (e.resOverride.Some? ==>
                    r.resOverride.value == (ParseInt(e.resOverride.value.0).value,
                                            ParseInt(e.resOverride.value.1).value))
  {
    NumberCheckSpec(e.startFrame);
    NumberCheckSpec(e.endFrame);
    if e.resOverride.Some? {
      NumberCheckSpec(e.resOverride.value.0);
      NumberCheckSpec(e.resOverride.value.1);
    }
    var fields := PlainFields(e);
    AllFieldsFilled(fields);
    assert (forall j :: 0 <= j < |fields| ==> fields[j].1 != "")
           <==> e.host != "" && e.binPath != "" && e.scenePath != "" && e.outputPath != ""
                && (e.camOverride.Some? ==> e.camOverride.value != "") by {
      assert fields[0].1 == e.host && fields[1].1 == e.binPath;
      assert fields[2].1 == e.scenePath && fields[3].1 == e.outputPath;
      if e.camOverride.Some? {
        assert fields[4].1 == e.camOverride.value;
      }
    }
  }

  /** As written, a backward frame range passes the form when no
      resolution override is given. */
  lemma BackwardRangePassesWithoutOverride(e: Entries)
    requires e.resOverride.None? && e.camOverride.None?
    requires e.startFrame == "5" && e.endFrame == "2"
    requires e.host != "" && e.binPath != "" && e.scenePath != "" && e.outputPath != ""
    ensures FormVerdict(e).Success?
    ensures FormVerdict(e).value.end < FormVerdict(e).value.start
  {
    assert Strip("5") == "5" by { StripNoSpace("5"); }
    assert Strip("2") == "2" by { StripNoSpace("2"); }
    assert "5"[..0] == "" && "2"[..0] == "";
    assert ParseInt("5") == Some(5) && ParseInt("2") == Some(2);
  }

  /** A space between the sign and the digits is accepted: `+ 5` passes
      as 5, and `- 5` reads as -5 and is refused as negative, not as a
      non-integer. */
  lemma SpaceAfterSign()
    ensures NumberCheck("+ 5") == Success(5)
    ensures NumberCheck("- 5") == Failure(2)
  {
    assert Strip("+ 5") == "+ 5" by { StripNoSpace("+ 5"); }
    assert Strip("- 5") == "- 5" by { StripNoSpace("- 5"); }
    assert "+ 5"[1..] == " 5" && "- 5"[1..] == " 5";
    assert StripLeft(" 5") == "5" by {
      assert " 5"[1..] == "5";
    }
    assert "5"[..0] == "";
  }

  /** `verifyNewJob`: two number loops that convert their entries in place,
      the range check inside the override branch, then the emptiness loop. */
  method ValidateForm(e: Entries) returns (r: Result<JobRequest, Problem>)
    ensures r == FormVerdict(e)
  {
    var frames := [e.startFrame, e.endFrame];
    var frameValues: seq<int> := [0, 0];
    for index := 0 to 2
      invariant |frameValues| == 2
      invariant forall j :: 0 <= j < index ==> NumberCheck(frames[j]) == Success(frameValues[j])
    {
      var check := NumberCheck(frames[index]);
      if check.Failure? {
        assert index == 1 ==> NumberCheck(frames[0]) == Success(frameValues[0]);
        return Failure(FrameProblem(check.error, index));
      }
      frameValues := frameValues[index := check.value];
    }
    assert NumberCheck(frames[0]) == Success(frameValues[0]);
    assert NumberCheck(frames[1]) == Success(frameValues[1]);
    var size: Option<(int, int)> := None;
    if e.resOverride.Some? {
      var sizes := [e.resOverride.value.0, e.resOverride.value.1];
      var sizeValues: seq<int> := [0, 0];
      for index := 0 to 2
        invariant |sizeValues| == 2
        invariant forall j :: 0 <= j < index ==> NumberCheck(sizes[j]) == Success(sizeValues[j])
      {
        var check := NumberCheck(sizes[index]);
        if check.Failure? {
          assert index == 1 ==> NumberCheck(sizes[0]) == Success(sizeValues[0]);
          return Failure(SizeProblem(check.error, index));
        }
        sizeValues := sizeValues[index := check.value];
      }
      assert NumberCheck(sizes[0]) == Success(sizeValues[0]);
      assert NumberCheck(sizes[1]) == Success(sizeValues[1]);
      if frameValues[1] - frameValues[0] < 0 {
        return Failure(BackwardRange);
      }
      size := Some((sizeValues[0], sizeValues[1]));
    }
    var fields := PlainFields(e);
    for i := 0 to |fields|
      invariant forall j :: 0 <= j < i ==> fields[j].1 != ""
    {
      if fields[i].1 == "" {
        assert FirstEmpty(fields) == i by {
          FirstEmptyIs(fields, i);
        }
        return Failure(MissingField(fields[i].0));
      }
    }
    FirstEmptyIs(fields, |fields|);
    r := Success(JobRequest(e.host, e.binPath, e.scenePath, e.outputPath, frameValues[0], frameValues[1],
                            e.camOverride, size));
  }

  lemma FirstEmptyIs(fields: seq<(Field, string)>, k: nat)
    requires k <= |fields|
    requires forall j :: 0 <= j < k ==> fields[j].1 != ""
    requires k < |fields| ==> fields[k].1 == ""
    ensures FirstEmpty(fields) == k
  {
  }
}
