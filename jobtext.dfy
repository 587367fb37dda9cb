/** The strings a render job builds or recognises: the Maya render command
    line, the shell wrapper that reports the exit status, the output-prefix
    scan of the scene file, the progress-line recognizer, and the copy
    command the manager issues for finished frames. */
module JobText {
  import opened Text

  // ---------------------------------------------------------------------
  // Markers shared with the session and log parser

  const SuccessMarker := "COMPLETE_SUCCESS"
  /** What the shell wrapper prints when the render fails. */
  const ErrorMarker := "COMPLETE_ERROR"
  /** What the session parser looks for instead (never printed). */
  const FailureMarker := "COMPLETE_FAILURE"
  /** Last line the remote shell prints once the render has started. */
  const StartupSentinel := "Locale is: \"Locale:en_GB.utf8 CodeSet:UTF-8\""
  const StatsMarker := "rendering statistics"
  const StatusMarker := "Maya exited with status"

  // ---------------------------------------------------------------------
  // Render command

  /** One `-flag value` argument of the render command. */
  datatype Arg = Arg(flag: string, value: string)

  function Flags(args: seq<Arg>): seq<string>
  {
    seq(|args|, i requires 0 <= i < |args| => args[i].flag)
  }

  /** The argument list of the render command, in order. A resolution
      override contributes `-x` and `-y`, both carrying the WIDTH. */
  function ProcessArgs(start: int, end: int, res: Option<(int, int)>, logPath: string): (r: seq<Arg>)
    ensures |r| == if res.Some? then 11 else 9
    ensures Flags(r) == ["s", "e"] + (if res.Some? then ["x", "y"] else [])
                        + ["v", "verb", "r", "art", "aml", "at", "log"]
    ensures r[0].value == IntToString(start) && r[1].value == IntToString(end)
    ensures res.Some? ==> r[2].value == r[3].value == IntToString(res.value.0)
    ensures r[|r| - 1].value == logPath
  {
    var size := if res.Some? then
                  [Arg("x", IntToString(res.value.0)), Arg("y", IntToString(res.value.0))]
                else [];
    [Arg("s", IntToString(start)), Arg("e", IntToString(end))] + size
    + [Arg("v", "5"), Arg("verb", ""), Arg("r", "mr"),
       Arg("art", ""), Arg("aml", ""), Arg("at", ""), Arg("log", logPath)]
  }

  /** The frame and size arguments read back as the numbers they came from;
      with an override, `-y` reads back as the width, not the height. */
  lemma ProcessArgsReadBack(start: int, end: int, res: Option<(int, int)>, logPath: string)
    ensures var r := ProcessArgs(start, end, res, logPath);
            && ParseInt(r[0].value) == Some(start) && ParseInt(r[1].value) == Some(end)
            && (res.Some? ==> ParseInt(r[3].value) == Some(res.value.0))
  {
    IntToStringParses(start);
    IntToStringParses(end);
    if res.Some? {
      IntToStringParses(res.value.0);
    }
  }

  /** `'-%s %s' % arg` */
  function ArgText(a: Arg): string
  {
    "-" + a.flag + " " + a.value
  }

  function ArgTexts(args: seq<Arg>): seq<string>
  {
    seq(|args|, i requires 0 <= i < |args| => ArgText(args[i]))
  }

  function Quoted(s: string): string
  {
    "\"" + s + "\""
  }

  /** The process call: escaped binary, the arguments, the quoted scene,
      joined by single spaces. */
  function CommandLine(binPath: string, args: seq<Arg>, scenePath: string): string
  {
    Join(" ", [EscapeSpaces(binPath)] + ArgTexts(args) + [Quoted(scenePath)])
  }

  lemma {:induction false} JoinCons(sep: string, a: string, xs: seq<string>)
    requires |xs| >= 1
    ensures Join(sep, [a] + xs) == a + sep + Join(sep, xs)
  {
    assert ([a] + xs)[1..] == xs;
  }

  lemma {:induction false} JoinSnoc(sep: string, xs: seq<string>, b: string)
    requires |xs| >= 1
    ensures Join(sep, xs + [b]) == Join(sep, xs) + sep + b
  {
    if |xs| == 1 {
      assert xs + [b] == [xs[0]] + [b];
      JoinCons(sep, xs[0], [b]);
    } else {
      assert xs + [b] == [xs[0]] + (xs[1..] + [b]);
      JoinCons(sep, xs[0], xs[1..] + [b]);
      JoinSnoc(sep, xs[1..], b);
      assert xs == [xs[0]] + xs[1..];
      JoinCons(sep, xs[0], xs[1..]);
    }
  }

  /** The command is the escaped binary, a space, the arguments joined by
      spaces, a space, and the double-quoted scene path; the shell reads the
      escaped binary back as the original path. */
  lemma CommandLineLayout(binPath: string, args: seq<Arg>, scenePath: string)
    requires |args| >= 1
    ensures CommandLine(binPath, args, scenePath)
            == EscapeSpaces(binPath) + " " + Join(" ", ArgTexts(args)) + " " + Quoted(scenePath)
    ensures UnescapeSpaces(EscapeSpaces(binPath)) == binPath
  {
    var e := EscapeSpaces(binPath);
    var ts := ArgTexts(args);
    assert [e] + ts + [Quoted(scenePath)] == [e] + (ts + [Quoted(scenePath)]);
    JoinCons(" ", e, ts + [Quoted(scenePath)]);
    JoinSnoc(" ", ts, Quoted(scenePath));
    EscapeRoundTrip(binPath);
  }

  /** The full render command of a job. */
  function RenderCommand(binPath: string, start: int, end: int, res: Option<(int, int)>,
                         logPath: string, scenePath: string): string
  {
    CommandLine(binPath, ProcessArgs(start, end, res, logPath), scenePath)
  }

  /** The line `run` sends: the niced render command, then shell bookkeeping
      that echoes the success or the error marker. */
  function ShellWrapper(processCall: string): (r: string)
  {
    Join(";", ["nice " + processCall, "RETVAL=$?",
               "[ $RETVAL -eq 0 ] && echo " + SuccessMarker,
               "[ $RETVAL -ne 0 ] && echo " + ErrorMarker])
  }

  /** The wrapper as one string: its four commands separated by `;`. */
  lemma ShellWrapperParts(processCall: string)
    ensures ShellWrapper(processCall)
            == ("nice " + processCall + ";")
               + ("RETVAL=$?" + ";"
                  + (("[ $RETVAL -eq 0 ] && echo " + SuccessMarker) + ";"
                     + ("[ $RETVAL -ne 0 ] && echo " + ErrorMarker)))
  {
    var a, b := "nice " + processCall, "RETVAL=$?";
    var c := "[ $RETVAL -eq 0 ] && echo " + SuccessMarker;
    var d := "[ $RETVAL -ne 0 ] && echo " + ErrorMarker;
    JoinCons(";", c, [d]);
    assert [c, d] == [c] + [d];
    JoinCons(";", b, [c, d]);
    assert [b, c, d] == [b] + [c, d];
    JoinCons(";", a, [b, c, d]);
    assert [a, b, c, d] == [a] + [b, c, d];
  }

  /** The wrapper starts the niced command, echoes the success marker, and
      ends by echoing the ERROR marker, which does not contain the FAILURE
      marker the poll looks for. */
  lemma ShellWrapperMarkers(processCall: string)
    ensures StartsWith(ShellWrapper(processCall), "nice " + processCall + ";")
    ensures EndsWith(ShellWrapper(processCall), ErrorMarker)
    ensures Contains(ShellWrapper(processCall), SuccessMarker)
    ensures !Contains(ErrorMarker, FailureMarker)
  {
    ShellWrapperParts(processCall);
    var a, b := "nice " + processCall, "RETVAL=$?";
    var c := "[ $RETVAL -eq 0 ] && echo " + SuccessMarker;
    var d := "[ $RETVAL -ne 0 ] && echo " + ErrorMarker;
    var j2 := c + ";" + d;
    var j1 := b + ";" + j2;
    var w := ShellWrapper(processCall);
    assert w == (a + ";") + j1;
    assert StartsWith(w, a + ";") by {
      Affixes(a + ";", j1);
    }
    assert EndsWith(w, ErrorMarker) by {
      ShellWrapperEnds(a + ";", b + ";", c + ";", d);
    }
    assert Contains(w, SuccessMarker) by {
      assert j2 == c + (";" + d);
      ShellWrapperSucceeds(a + ";", b + ";", c, ";" + d);
    }
    MarkersDiffer();
  }

  lemma ShellWrapperEnds(a: string, b: string, c: string, d: string)
    requires d == "[ $RETVAL -ne 0 ] && echo " + ErrorMarker
    ensures EndsWith(a + (b + (c + d)), ErrorMarker)
  {
    Affixes("[ $RETVAL -ne 0 ] && echo ", ErrorMarker);
    EndsWithExtend(c, d, ErrorMarker);
    EndsWithExtend(b, c + d, ErrorMarker);
    EndsWithExtend(a, b + (c + d), ErrorMarker);
  }

  lemma ShellWrapperSucceeds(a: string, b: string, c: string, d: string)
    requires c == "[ $RETVAL -eq 0 ] && echo " + SuccessMarker
    ensures Contains(a + (b + (c + d)), SuccessMarker)
  {
    Affixes("[ $RETVAL -eq 0 ] && echo ", SuccessMarker);
    EndsWithContains(c, SuccessMarker);
    ContainsExtend(c, d, SuccessMarker);
    ContainsExtend(b, c + d, SuccessMarker);
    ContainsExtend(a, b + (c + d), SuccessMarker);
  }

  /** The ERROR marker does not contain the FAILURE marker. */
  lemma MarkersDiffer()
    ensures !Contains(ErrorMarker, FailureMarker)
    ensures !Contains(SuccessMarker, FailureMarker)
  {
    assert |ErrorMarker| < |FailureMarker|;
    assert |SuccessMarker| == |FailureMarker|;
    assert !OccursAt(SuccessMarker, FailureMarker, 0) by {
      assert SuccessMarker[9] != FailureMarker[9];
    }
  }

  // ---------------------------------------------------------------------
  // Output prefix

  const Quote := "\""
  /** The scene-file attribute that names the image file prefix:
      `setAttr ".ifp" -type "string"`. */
  const IfpAttribute := "setAttr " + Quote + ".ifp" + Quote + " -type " + Quote + "string" + Quote

  /** `line.split('"')[-2]`: the last quoted string of an attribute line. */
  function QuotedValue(line: string): string
  {
    var pieces := SplitOn(line, '"');
    if |pieces| >= 2 then pieces[|pieces| - 2] else ""
  }

  /** Index of the first line containing the prefix attribute, or `|lines|`. */
  function FirstIfpLine(lines: seq<string>): (k: nat)
    ensures k <= |lines|
    ensures forall j :: 0 <= j < k ==> !Contains(lines[j], IfpAttribute)
    ensures k < |lines| ==> Contains(lines[k], IfpAttribute)
  {
    if |lines| == 0 then 0
    else if Contains(lines[0], IfpAttribute) then 0
    else 1 + FirstIfpLine(lines[1..])
  }

  /** The output prefix: the value of the first prefix attribute line of the
      scene, else the scene's base name without extension. */
  function OutputPrefix(sceneLines: seq<string>, scenePath: string): (r: string)
  {
    var k := FirstIfpLine(sceneLines);
    if k < |sceneLines| then QuotedValue(sceneLines[k])
    else DropExtension(Basename(scenePath))
  }

  lemma {:induction false} CountAbsent(s: string, c: char)
    requires c !in s
    ensures Count(s, c) == 0
  {
    if |s| > 0 {
      assert s[0] != c;
      assert forall i :: 0 <= i < |s| - 1 ==> s[1..][i] == s[i + 1];
      CountAbsent(s[1..], c);
    }
  }

  lemma CountQuotesOfIfp()
    ensures Count(IfpAttribute, '"') == 4
  {
    var q := Quote;
    assert Count(q, '"') == 1;
    var p1 := "setAttr " + q;
    assert Count(p1, '"') == 1 by {
      CountAbsent("setAttr ", '"');
      CountAppend("setAttr ", q, '"');
    }
    var p2 := p1 + ".ifp" + q;
    assert Count(p2, '"') == 2 by {
      CountAbsent(".ifp", '"');
      CountAppend(p1, ".ifp", '"');
      CountAppend(p1 + ".ifp", q, '"');
    }
    var p3 := p2 + " -type " + q;
    assert Count(p3, '"') == 3 by {
      CountAbsent(" -type ", '"');
      CountAppend(p2, " -type ", '"');
      CountAppend(p2 + " -type ", q, '"');
    }
    assert Count(p3 + "string" + q, '"') == 4 by {
      CountAbsent("string", '"');
      CountAppend(p3, "string", '"');
      CountAppend(p3 + "string", q, '"');
    }
  }

  /** A line holding the prefix attribute always has a second-to-last
      quoted piece, so the `[-2]` in the source never fails. */
  lemma IfpLineSplits(line: string)
    requires Contains(line, IfpAttribute)
    ensures |SplitOn(line, '"')| >= 5
  {
    var i :| 0 <= i <= |line| - |IfpAttribute| && OccursAt(line, IfpAttribute, i);
    var a, b := line[..i], line[i + |IfpAttribute|..];
    assert line == a + IfpAttribute + b;
    CountQuotesOfIfp();
    CountAppend(a, IfpAttribute, '"');
    CountAppend(a + IfpAttribute, b, '"');
    SplitOnLength(line, '"');
  }

  lemma {:induction false} SplitOnSeparator(x: string, c: char, y: string)
    ensures SplitOn(x + [c] + y, c) == SplitOn(x, c) + SplitOn(y, c)
    decreases |x|
  {
    if |x| == 0 {
      assert x + [c] + y == [c] + y;
      assert ([c] + y)[1..] == y;
    } else {
      var s := x + [c] + y;
      assert s[0] == x[0] && s[1..] == x[1..] + [c] + y;
      var r := SplitOn(x[1..], c);
      var ys := SplitOn(y, c);
      assert SplitOn(s[1..], c) == r + ys by {
        SplitOnSeparator(x[1..], c, y);
      }
      if x[0] != c {
        assert (r + ys)[0] == r[0] && (r + ys)[1..] == r[1..] + ys;
      }
    }
  }

  lemma {:induction false} SplitOnAbsent(s: string, c: char)
    requires c !in s
    ensures SplitOn(s, c) == [s]
  {
    if |s| > 0 {
      assert s[0] != c;
      assert forall i :: 0 <= i < |s| - 1 ==> s[1..][i] == s[i + 1];
      SplitOnAbsent(s[1..], c);
      assert s == [s[0]] + s[1..];
    }
  }

  /** The value Maya writes for the prefix attribute is the prefix read back. */
  lemma IfpValueReadBack(pre: string, v: string)
    requires '"' !in v
    ensures QuotedValue(pre + IfpAttribute + " " + Quote + v + Quote + ";") == v
  {
    var q := '"';
    var x := pre + IfpAttribute + " ";
    var line := pre + IfpAttribute + " " + Quote + v + Quote + ";";
    assert line == x + [q] + (v + [q] + ";");
    SplitOnSeparator(x, q, v + [q] + ";");
    SplitOnSeparator(v, q, ";");
    SplitOnAbsent(v, q);
    SplitOnAbsent(";", q);
  }

  // ---------------------------------------------------------------------
  // Progress lines

  /** A Mental Ray progress report,
      `JOB <elapsed> <size> MB progr: <percent>% rendered on <host>`. */
  predicate IsProgressLine(line: string)
  {
    StartsWith(line, "JOB") && Contains(line, " MB progr:") && Contains(line, "%")
    && Contains(line, "rendered on ")
  }

  predicate IsNumberChar(c: char)
  {
    IsDigit(c) || c == '.'
  }

  /** Length of the run of digits and points at the end of `s`. */
  function NumberRunBefore(s: string): (k: nat)
    ensures k <= |s|
  {
    if |s| > 0 && IsNumberChar(s[|s| - 1]) then 1 + NumberRunBefore(s[..|s| - 1]) else 0
  }

  /** The percentage of a progress line: the decimal just before its first `%`. */
  function Percent(line: string): (r: real)
    ensures r >= 0.0
  {
    DecimalValue(PercentText(line))
  }

  /** The run of digits and points just before the first `%` of `line`. */
  function PercentText(line: string): string
  {
    var k := FirstIndex(line, '%');
    var before := line[..k];
    before[|before| - NumberRunBefore(before)..]
  }

  lemma {:induction false} NumberRunOf(pre: string, d: string)
    requires forall i :: 0 <= i < |d| ==> IsNumberChar(d[i])
    requires |pre| > 0 ==> !IsNumberChar(pre[|pre| - 1])
    ensures NumberRunBefore(pre + d) == |d|
    decreases |d|
  {
    if |d| > 0 {
      assert (pre + d)[..|pre + d| - 1] == pre + d[..|d| - 1];
      NumberRunOf(pre, d[..|d| - 1]);
    } else {
      assert pre + d == pre;
    }
  }

  /** The decimal text `<whole>.<frac>` reads as its value. */
  lemma DecimalOf(whole: string, frac: string)
    requires AllDigits(whole) && AllDigits(frac)
    ensures DecimalValue(whole + "." + frac)
            == DigitsValue(whole) as real + DigitsValue(frac) as real / Pow10(|frac|) as real
  {
    assert '.' !in whole;
    FirstIndexAfter(whole, '.', frac);
  }

  lemma DecimalIsNumber(whole: string, frac: string)
    requires AllDigits(whole) && AllDigits(frac)
    ensures forall i :: 0 <= i < |whole + "." + frac| ==> IsNumberChar((whole + "." + frac)[i])
  {
    var num := whole + "." + frac;
    forall i | 0 <= i < |num| ensures IsNumberChar(num[i]) {
      if i < |whole| { assert num[i] == whole[i]; }
      else if i > |whole| { assert num[i] == frac[i - |whole| - 1]; }
    }
  }

  lemma AbsentInConcat(a: string, b: string, c: char)
    requires c !in a && c !in b
    ensures c !in a + b
  {
  }

  /** A `<whole>.<frac>%` figure after text without `%` reads as its value. */
  lemma PercentOf(pre: string, whole: string, frac: string, post: string)
    requires '%' !in pre && |pre| > 0 && !IsNumberChar(pre[|pre| - 1])
    requires AllDigits(whole) && AllDigits(frac)
    ensures Percent(pre + (whole + "." + frac) + ['%'] + post)
            == DigitsValue(whole) as real + DigitsValue(frac) as real / Pow10(|frac|) as real
  {
    DecimalIsNumber(whole, frac);
    PercentOfNumber(pre, whole + "." + frac, post);
    DecimalOf(whole, frac);
  }

  /** A run of number characters after text without `%`, followed by `%`,
      reads as the run's decimal value. */
  lemma PercentOfNumber(pre: string, num: string, post: string)
    requires '%' !in pre && |pre| > 0 && !IsNumberChar(pre[|pre| - 1])
    requires forall i :: 0 <= i < |num| ==> IsNumberChar(num[i])
    ensures Percent(pre + num + ['%'] + post) == DecimalValue(num)
  {
    assert '%' !in num by {
      assert forall i :: 0 <= i < |num| ==> IsNumberChar(num[i]);
    }
    var a := pre + num;
    AbsentInConcat(pre, num, '%');
    FirstIndexAfter(a, '%', post);
    NumberRunOf(pre, num);
    assert a[|a| - |num|..] == num;
    assert PercentText(a + ['%'] + post) == num;
  }

  lemma TwoDigits(s: string)
    requires |s| == 2 && AllDigits(s)
    ensures DigitsValue(s) == 10 * (s[0] as int - '0' as int) + (s[1] as int - '0' as int)
  {
    var h := s[..1];
    assert h[..0] == "" && h[0] == s[0];
    assert s[..|s| - 1] == h;
    assert DigitsValue(h) == DigitsValue(h[..0]) * 10 + (h[0] as int - '0' as int);
    assert DigitsValue(s) == DigitsValue(h) * 10 + (s[1] as int - '0' as int);
  }

  lemma FortySevenAndAHalf()
    ensures DigitsValue("47") as real + DigitsValue("50") as real / Pow10(|"50"|) as real == 47.5
  {
    TwoDigits("47");
    TwoDigits("50");
    assert Pow10(2) == 100;
  }

  /** A progress line reporting 47.50% yields a frame progress of 47.5,
      whichever host rendered it. */
  lemma PercentExample(host: string)
    ensures Percent("JOB 0.36 752 MB progr: " + ("47" + "." + "50") + ['%'] + (" rendered on " + host)) == 47.5
  {
    var pre := "JOB 0.36 752 MB progr: ";
    assert pre[|pre| - 1] == ' ';
    assert '%' !in pre;
    PercentOf(pre, "47", "50", " rendered on " + host);
    FortySevenAndAHalf();
  }

  // ---------------------------------------------------------------------
  // Copying finished frames

  /** The remote glob of a job's frames: `<prefix>*{<start>..<end>}*` under
      the output path. */
  function CopyGlob(outputPath: string, prefix: string, start: int, end: int): (r: string)
  {
    PathJoin(outputPath, prefix + FrameRangeGlob(start, end))
  }

  function FrameRangeGlob(start: int, end: int): string
  {
    "*{" + IntToString(start) + ".." + IntToString(end) + "}*"
  }

  /** The glob lies under the output directory unless the prefix is itself
      absolute, and always ends with the brace range of the job's frames. */
  lemma CopyGlobShape(outputPath: string, prefix: string, start: int, end: int)
    ensures StartsWith(prefix, "/") ==> CopyGlob(outputPath, prefix, start, end) == prefix + FrameRangeGlob(start, end)
    ensures (!StartsWith(prefix, "/") && outputPath != "" && outputPath[|outputPath| - 1] != '/')
              ==> CopyGlob(outputPath, prefix, start, end)
                  == outputPath + "/" + (prefix + FrameRangeGlob(start, end))
    ensures EndsWith(CopyGlob(outputPath, prefix, start, end), FrameRangeGlob(start, end))
  {
    var tail := FrameRangeGlob(start, end);
    var b := prefix + tail;
    assert EndsWith(b, tail) by {
      Affixes(prefix, tail);
    }
    if StartsWith(prefix, "/") {
      assert StartsWith(b, "/") by {
        StartsWithExtend(prefix, "/", tail);
      }
    } else {
      assert !StartsWith(b, "/") by {
        assert |b| > 0 && b[0] != '/' by {
          if |prefix| > 0 {
            assert prefix[..1][0] == prefix[0];
            assert b[0] == prefix[0];
          } else {
            assert b == tail;
            assert tail[0] == '*';
          }
        }
        assert b[..1][0] == b[0];
      }
      assert EndsWith(outputPath + b, tail) by {
        EndsWithExtend(outputPath, b, tail);
      }
      assert EndsWith(outputPath + "/" + b, tail) by {
        EndsWithExtend(outputPath + "/", b, tail);
      }
    }
  }

  /** The `scp` command of `secureCopy`, with spaces in both paths escaped. */
  function ScpCommand(host: string, src: string, dst: string, limit: int): string
  {
    ScpHead(host, limit) + (Quoted(EscapeSpaces(src)) + " ") + Quoted(EscapeSpaces(dst))
  }

  /** The options of the copy command and the remote host. */
  function ScpHead(host: string, limit: int): string
  {
    "scp -C -B -l " + IntToString(limit) + " " + host + ":"
  }

  /** The copy command is the options and the host, then the quoted,
      escaped source and a space, then the quoted, escaped destination.
      The escaping itself loses nothing: `UnescapeSpaces` recovers both
      paths.  What reaches `scp` is another matter: inside the double
      quotes the local shell keeps each backslash. */
  lemma ScpCommandShape(host: string, src: string, dst: string, limit: int)
    ensures var c := ScpCommand(host, src, dst, limit);
            var d := Quoted(EscapeSpaces(dst));
            StartsWith(c, ScpHead(host, limit)) && EndsWith(c, d)
            && |ScpHead(host, limit)| + |d| <= |c|
            && c[|ScpHead(host, limit)|..|c| - |d|] == Quoted(EscapeSpaces(src)) + " "
    ensures UnescapeSpaces(EscapeSpaces(src)) == src && UnescapeSpaces(EscapeSpaces(dst)) == dst
  {
    Middle(ScpHead(host, limit), Quoted(EscapeSpaces(src)) + " ", Quoted(EscapeSpaces(dst)));
    EscapeRoundTrip(src);
    EscapeRoundTrip(dst);
  }
}
