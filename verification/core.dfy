/**
 The runtime behind every compiled backtick: `exe(cmd, params)` runs a
 shell command and hands back either a `Result` (all output collected, the
 return code checked) or an `InteractiveResult` (line-by-line streams).

 The subprocess is replaced by what it produces: the text on its stdout
 and stderr and its return code. Printing is recorded as a list of
 `print` calls. Colour output is off throughout (colorama absent or
 disabled), and `os.linesep` is the POSIX "\n".
 */
module Core {
  import opened Strings

  /** `os.linesep`. */
  const LineSep: string := "\n"

  /** Print the command's stdout. */
  const ParamPrintStdout: char := 'p'
  /** Print the command's stderr. */
  const ParamPrintStderr: char := 'e'
  /** Run interactively, with streams instead of collected output. */
  const ParamInteractive: char := 'i'
  /** Do not raise on a non-zero return code. */
  const ParamNoThrow: char := 'n'

  /** `_is_param_set(params, param)`: `params.find(param) != -1`. */
  function IsParamSet(params: string, param: char): (r: bool)
    ensures r <==> param in params
  {
    Find(params, param) != -1
  }

  // ---------------------------------------------------------------------
  // Configuration, and the missing PRINT_STDERR_ALWAYS setting.

  /**
   The settings of `shellpython.config` the runtime reads.
   `printStderrAlways` is `None` while the module has no such attribute:
   the module as shipped defines the other two but not this one, and only
   the `-vv` switch of the command-line runner assigns it.
   */
  datatype Config = Config(printAllCommands: bool, printStdoutAlways: bool, printStderrAlways: Option<bool>)

  /** `shellpython.config` as shipped. */
  const Shipped: Config := Config(false, false, None)

  /**
   The shipped settings with `PRINT_STDERR_ALWAYS` defined as off, like
   its two siblings: here the written and the corrected stderr conditions
   agree, so the scenarios below hold of the code as written.
   */
  const Configured: Config := Config(false, false, Some(false))

  /** Whether collected or streamed stdout is printed. */
  function PrintStdout(cfg: Config, params: string): (r: bool)
    ensures r <==> ParamPrintStdout in params || cfg.printStdoutAlways
  {
    IsParamSet(params, ParamPrintStdout) || cfg.printStdoutAlways
  }

  /**
   The stderr condition exactly as written,
   `_is_param_set(params, 'e') or config.PRINT_STDERR_ALWAYS`: `None`
   stands for the AttributeError raised when the short-circuit reaches the
   missing setting.
   */
  function PrintStderrAsWritten(cfg: Config, params: string): (r: Option<bool>)
    ensures r == None <==> ParamPrintStderr !in params && cfg.printStderrAlways == None
    ensures r == Some(true) <==> ParamPrintStderr in params || cfg.printStderrAlways == Some(true)
  {
    if IsParamSet(params, ParamPrintStderr) then Some(true)
    else match cfg.printStderrAlways
      case None => None
      case Some(b) => Some(b)
  }

  /**
   With the configuration as shipped, every command run without the 'e'
   flag stops with an AttributeError before its result is returned; the
   plain `_create_result('echo 1', '')` of the unit tests is one of them.
   */
  lemma ShippedConfigFails(params: string)
    requires ParamPrintStderr !in params
    ensures PrintStderrAsWritten(Shipped, params) == None
  {
  }

  lemma ShippedConfigFailsOnEcho()
    ensures PrintStderrAsWritten(Shipped, "") == None
  {
    ShippedConfigFails("");
  }

  /**
   The stderr condition as evidently intended: a missing setting counts as
   off, like its two siblings. It agrees with the written condition
   wherever that one does not fail, and never fails.
   */
  function PrintStderr(cfg: Config, params: string): (r: bool)
    ensures r <==> ParamPrintStderr in params || cfg.printStderrAlways == Some(true)
  {
    IsParamSet(params, ParamPrintStderr) || cfg.printStderrAlways == Some(true)
  }

  lemma PrintStderrRepairs(cfg: Config, params: string)
    ensures PrintStderrAsWritten(cfg, params) != None ==> PrintStderrAsWritten(cfg, params) == Some(PrintStderr(cfg, params))
    ensures cfg.printStderrAlways != None ==> PrintStderrAsWritten(cfg, params) != None
    ensures PrintStderr(Shipped, params) <==> ParamPrintStderr in params
  {
  }

  // ---------------------------------------------------------------------
  // Result

  /** `Result`: the stripped lines of both streams and the return code (`None` until the process has finished). */
  datatype Result = Result(stdoutLines: seq<string>, stderrLines: seq<string>, returncode: Option<int>)

  /** `Result()`. */
  const NewResult: Result := Result([], [], None)

  /** `Result.stdout`: the stdout lines joined by the line separator. */
  function Stdout(r: Result): string
  {
    Join(LineSep, r.stdoutLines)
  }

  /** `Result.stderr`. */
  function Stderr(r: Result): string
  {
    Join(LineSep, r.stderrLines)
  }

  /** `str(result)`. */
  function Str(r: Result): string
  {
    Stdout(r)
  }

  /** `a == b` for two results: their string forms are compared. */
  predicate Equal(a: Result, b: Result)
  {
    Str(a) == Str(b)
  }

  /** `result == text` for a plain string, whose `__str__` is itself. */
  predicate EqualsText(r: Result, text: string)
  {
    Str(r) == text
  }

  /** `bool(result)`: the command succeeded. */
  predicate Truthy(r: Result)
  {
    r.returncode == Some(0)
  }

  /** `line.rstrip(os.linesep)`. */
  function StripLine(line: string): (s: string)
    ensures s <= line
    ensures !EndsWithNewline(s)
    ensures forall i :: |s| <= i < |line| ==> line[i] == '\n'
  {
    RStrip(line, LineSep)
  }

  /** `_add_stdout_line(line)`: one more stdout line, stripped of trailing separators; nothing else changes. */
  function AddStdoutLine(r: Result, line: string): (r': Result)
    ensures |r'.stdoutLines| == |r.stdoutLines| + 1
    ensures r'.stdoutLines[..|r.stdoutLines|] == r.stdoutLines
    ensures r'.stdoutLines == r.stdoutLines + [StripLine(line)]
    ensures r'.stderrLines == r.stderrLines && r'.returncode == r.returncode
  {
    var stripped := StripLine(line);
    assert (r.stdoutLines + [stripped])[..|r.stdoutLines|] == r.stdoutLines;
    r.(stdoutLines := r.stdoutLines + [stripped])
  }

  /** `_add_stderr_line(line)`: the same for stderr. */
  function AddStderrLine(r: Result, line: string): (r': Result)
    ensures |r'.stderrLines| == |r.stderrLines| + 1
    ensures r'.stderrLines[..|r.stderrLines|] == r.stderrLines
    ensures r'.stderrLines == r.stderrLines + [StripLine(line)]
    ensures r'.stdoutLines == r.stdoutLines && r'.returncode == r.returncode
  {
    var stripped := StripLine(line);
    assert (r.stderrLines + [stripped])[..|r.stderrLines|] == r.stderrLines;
    r.(stderrLines := r.stderrLines + [stripped])
  }

  /** Appending a line extends the text by a separator and the stripped line (or starts it). */
  lemma AddStdoutLineText(r: Result, line: string)
    ensures Stdout(AddStdoutLine(r, line)) ==
      if r.stdoutLines == [] then StripLine(line) else Stdout(r) + LineSep + StripLine(line)
  {
    if r.stdoutLines != [] {
      JoinAppend(LineSep, r.stdoutLines, StripLine(line));
    }
  }

  /** The same for `result.stderr`. */
  lemma AddStderrLineText(r: Result, line: string)
    ensures Stderr(AddStderrLine(r, line)) ==
      if r.stderrLines == [] then StripLine(line) else Stderr(r) + LineSep + StripLine(line)
  {
    if r.stderrLines != [] {
      JoinAppend(LineSep, r.stderrLines, StripLine(line));
    }
  }

  /** `for line in lines: result._add_stdout_line(line)`. */
  function CollectStdout(r: Result, lines: seq<string>): (r': Result)
    ensures |r'.stdoutLines| == |r.stdoutLines| + |lines|
    ensures r'.stderrLines == r.stderrLines && r'.returncode == r.returncode
    decreases |lines|
  {
    if |lines| == 0 then r else CollectStdout(AddStdoutLine(r, lines[0]), lines[1..])
  }

  /** `for line in lines: result._add_stderr_line(line)`. */
  function CollectStderr(r: Result, lines: seq<string>): (r': Result)
    ensures |r'.stderrLines| == |r.stderrLines| + |lines|
    ensures r'.stdoutLines == r.stdoutLines && r'.returncode == r.returncode
    decreases |lines|
  {
    if |lines| == 0 then r else CollectStderr(AddStderrLine(r, lines[0]), lines[1..])
  }

  /** Each line as `readlines` yields it, without its newline: an independent description of the collected lines. */
  function ChopAll(lines: seq<string>): (r: seq<string>)
    ensures |r| == |lines|
    ensures forall i :: 0 <= i < |lines| ==> r[i] == ChopNewline(lines[i])
    decreases |lines|
  {
    if |lines| == 0 then [] else [ChopNewline(lines[0])] + ChopAll(lines[1..])
  }

  /** Stripping a line `readline` returned removes just its newline. */
  lemma StripIsChop(line: string)
    requires IsLine(line)
    ensures StripLine(line) == ChopNewline(line)
    ensures '\n' !in StripLine(line)
  {
    ChopNewlineSplit(line);
    if EndsWithNewline(line) {
      var c := line[..|line| - 1];
      assert c == "" || c[|c| - 1] != '\n';
      assert RStrip(c, LineSep) == c;
    }
  }

  lemma {:induction false} CollectStdoutLines(r: Result, lines: seq<string>)
    requires forall i :: 0 <= i < |lines| ==> IsLine(lines[i])
    ensures CollectStdout(r, lines).stdoutLines == r.stdoutLines + ChopAll(lines)
    decreases |lines|
  {
    if |lines| == 0 {
      assert r.stdoutLines + ChopAll(lines) == r.stdoutLines;
    } else {
      var head := ChopNewline(lines[0]);
      var rest := lines[1..];
      StripIsChop(lines[0]);
      var r1 := AddStdoutLine(r, lines[0]);
      assert r1.stdoutLines == r.stdoutLines + [head];
      assert forall i :: 0 <= i < |rest| ==> IsLine(rest[i]) by {
        assert forall i :: 0 <= i < |rest| ==> rest[i] == lines[i + 1];
      }
      CollectStdoutLines(r1, rest);
      assert CollectStdout(r, lines) == CollectStdout(r1, rest);
      assert ChopAll(lines) == [head] + ChopAll(rest);
      AppendAssoc(r.stdoutLines, [head], ChopAll(rest));
    }
  }

  lemma {:induction false} CollectStderrLines(r: Result, lines: seq<string>)
    requires forall i :: 0 <= i < |lines| ==> IsLine(lines[i])
    ensures CollectStderr(r, lines).stderrLines == r.stderrLines + ChopAll(lines)
    decreases |lines|
  {
    if |lines| == 0 {
      assert r.stderrLines + ChopAll(lines) == r.stderrLines;
    } else {
      var head := ChopNewline(lines[0]);
      var rest := lines[1..];
      StripIsChop(lines[0]);
      var r1 := AddStderrLine(r, lines[0]);
      assert r1.stderrLines == r.stderrLines + [head];
      assert forall i :: 0 <= i < |rest| ==> IsLine(rest[i]) by {
        assert forall i :: 0 <= i < |rest| ==> rest[i] == lines[i + 1];
      }
      CollectStderrLines(r1, rest);
      assert CollectStderr(r, lines) == CollectStderr(r1, rest);
      assert ChopAll(lines) == [head] + ChopAll(rest);
      AppendAssoc(r.stderrLines, [head], ChopAll(rest));
    }
  }

  /** Joining the newline-less lines gives the text back, less one final newline. */
  lemma {:induction false} JoinChopAll(lines: seq<string>)
    requires WellFormedLines(lines)
    ensures Join(LineSep, ChopAll(lines)) == ChopNewline(Concat(lines))
    decreases |lines|
  {
    if |lines| == 1 {
      assert Concat(lines) == lines[0] + "";
    } else if |lines| > 1 {
      var rest := lines[1..];
      assert WellFormedLines(rest);
      JoinChopAll(rest);
      assert ChopAll(lines)[1..] == ChopAll(rest);
      ChopNewlineSplit(lines[0]);
      assert ChopNewline(lines[0]) + LineSep == lines[0];
      assert Concat(rest) != "" by {
        assert Concat(rest) == rest[0] + Concat(rest[1..]);
      }
      ChopAfter(lines[0], Concat(rest));
    }
  }

  /** The lines of a text, as `_create_result` stores them. */
  function OutputLines(text: string): (lines: seq<string>)
    ensures forall i :: 0 <= i < |lines| ==> '\n' !in lines[i]
  {
    var ls := ReadLines(text);
    forall i | 0 <= i < |ls|
      ensures '\n' !in ChopNewline(ls[i])
    {
      ChopNewlineSplit(ls[i]);
    }
    ChopAll(ls)
  }

  /** `Result.stdout` of collected output is that output without one final newline. */
  lemma CollectedText(text: string)
    ensures Join(LineSep, OutputLines(text)) == ChopNewline(text)
  {
    JoinChopAll(ReadLines(text));
  }

  /**
   Two results are equal exactly when their line lists are, except that a
   result with no lines equals one with a single empty line (both read as
   the empty string).
   */
  lemma EqualIffSameLines(a: Result, b: Result)
    requires forall i :: 0 <= i < |a.stdoutLines| ==> '\n' !in a.stdoutLines[i]
    requires forall i :: 0 <= i < |b.stdoutLines| ==> '\n' !in b.stdoutLines[i]
    ensures Equal(a, b) <==>
      a.stdoutLines == b.stdoutLines || (a.stdoutLines in {[], [""]} && b.stdoutLines in {[], [""]})
  {
    BlankIff(a.stdoutLines);
    BlankIff(b.stdoutLines);
    if Equal(a, b) && |a.stdoutLines| > 0 && |b.stdoutLines| > 0 {
      JoinInjective('\n', a.stdoutLines, b.stdoutLines);
    }
  }

  /** The line lists whose joined text is empty. */
  lemma BlankIff(lines: seq<string>)
    ensures Join(LineSep, lines) == "" <==> lines in {[], [""]}
  {
    JoinEmptyIff(LineSep, lines);
    if |lines| == 1 && lines[0] == "" {
      assert lines == [""];
    }
  }

  lemma EmptyEqualsBlank()
    ensures Equal(Result([], [], Some(0)), Result([""], [], Some(1)))
  {
  }

  // ---------------------------------------------------------------------
  // _create_result

  /** What the subprocess produced. */
  datatype Process = Process(stdout: string, stderr: string, returncode: int)

  /** One `print` call: `_print_stdout(text)` or `_print_stderr(text)`. */
  datatype Printed = ToStdout(text: string) | ToStderr(text: string)

  /** `NonZeroReturnCodeError(cmd, result)`. */
  datatype NonZeroReturnCodeError = NonZeroReturnCodeError(cmd: string, result: Result)

  /** How `_create_result` ends: with a result or with the error. */
  datatype Outcome = Returned(result: Result) | Raised(error: NonZeroReturnCodeError)

  /** The result carried by an outcome, returned or attached to the error. */
  function ResultOf(o: Outcome): Result
  {
    match o
    case Returned(r) => r
    case Raised(e) => e.result
  }

  datatype Run = Run(printed: seq<Printed>, outcome: Outcome)

  /** The two reading loops of `_create_result`, and the return code stored after `wait()`. */
  function Collect(proc: Process): (r: Result)
    ensures r.stdoutLines == OutputLines(proc.stdout)
    ensures r.stderrLines == OutputLines(proc.stderr)
    ensures r.returncode == Some(proc.returncode)
  {
    var out := CollectStdout(NewResult, ReadLines(proc.stdout));
    CollectStdoutLines(NewResult, ReadLines(proc.stdout));
    CollectStderrLines(out, ReadLines(proc.stderr));
    CollectStderr(out, ReadLines(proc.stderr)).(returncode := Some(proc.returncode))
  }

  /** The two conditional prints of `_create_result`, stdout first. */
  function Echo(cfg: Config, params: string, r: Result): (ps: seq<Printed>)
    ensures ToStdout(Stdout(r)) in ps <==> PrintStdout(cfg, params) && Stdout(r) != ""
    ensures ToStderr(Stderr(r)) in ps <==> PrintStderr(cfg, params) && Stderr(r) != ""
    ensures forall i :: 0 <= i < |ps| ==> ps[i] in {ToStdout(Stdout(r)), ToStderr(Stderr(r))}
    ensures |ps| <= 2
    ensures |ps| == 2 ==> ps[0].ToStdout? && ps[1].ToStderr?
  {
    var out := if PrintStdout(cfg, params) && |Stdout(r)| > 0 then [ToStdout(Stdout(r))] else [];
    var err := if PrintStderr(cfg, params) && |Stderr(r)| > 0 then [ToStderr(Stderr(r))] else [];
    out + err
  }

  /** `_create_result(cmd, params)` once the process has run. */
  function CreateResult(cfg: Config, cmd: string, params: string, proc: Process): (run: Run)
    ensures run.outcome.Raised? <==> proc.returncode != 0 && ParamNoThrow !in params
    ensures run.outcome.Raised? ==> run.outcome.error.cmd == cmd
    ensures ResultOf(run.outcome).returncode == Some(proc.returncode)
    ensures ResultOf(run.outcome).stdoutLines == OutputLines(proc.stdout)
    ensures ResultOf(run.outcome).stderrLines == OutputLines(proc.stderr)
  {
    var result := Collect(proc);
    Run(Echo(cfg, params, result),
      if proc.returncode != 0 && !IsParamSet(params, ParamNoThrow) then Raised(NonZeroReturnCodeError(cmd, result))
      else Returned(result))
  }

  /**
   What `_create_result` prints: the joined stdout once, exactly when it is
   asked for and the output is more than an optional lone newline, then the
   joined stderr under the same rule; nothing else.
   */
  lemma CreateResultPrints(cfg: Config, cmd: string, params: string, proc: Process)
    ensures var run := CreateResult(cfg, cmd, params, proc);
      && (ToStdout(ChopNewline(proc.stdout)) in run.printed <==> PrintStdout(cfg, params) && proc.stdout !in {"", "\n"})
      && (ToStderr(ChopNewline(proc.stderr)) in run.printed <==> PrintStderr(cfg, params) && proc.stderr !in {"", "\n"})
      && (forall i :: 0 <= i < |run.printed| ==>
            run.printed[i] in {ToStdout(ChopNewline(proc.stdout)), ToStderr(ChopNewline(proc.stderr))})
      && |run.printed| <= 2
      && (|run.printed| == 2 ==> run.printed[0].ToStdout? && run.printed[1].ToStderr?)
  {
    var r := Collect(proc);
    assert CreateResult(cfg, cmd, params, proc).printed == Echo(cfg, params, r);
    CollectedText(proc.stdout);
    CollectedText(proc.stderr);
    ChopEmptyIff(proc.stdout);
    ChopEmptyIff(proc.stderr);
    assert Stdout(r) == ChopNewline(proc.stdout);
    assert Stderr(r) == ChopNewline(proc.stderr);
  }

  lemma ChopEmptyIff(text: string)
    ensures ChopNewline(text) == "" <==> text in {"", "\n"}
  {
    if EndsWithNewline(text) && |text| == 1 {
      assert text == [text[0]];
    }
  }

  /** The result is truthy exactly when the command succeeded, whether it was returned or raised. */
  lemma CreateResultTruthy(cfg: Config, cmd: string, params: string, proc: Process)
    ensures Truthy(ResultOf(CreateResult(cfg, cmd, params, proc).outcome)) <==> proc.returncode == 0
    ensures CreateResult(cfg, cmd, params, proc).outcome.Returned? && !Truthy(ResultOf(CreateResult(cfg, cmd, params, proc).outcome))
      ==> ParamNoThrow in params
  {
  }

  /** `echo 1` with no flags: result "1", return code 0, nothing printed. */
  lemma EchoScenario()
    ensures PrintStderrAsWritten(Configured, "") == Some(PrintStderr(Configured, ""))
    ensures CreateResult(Configured, "echo 1", "", Process("1\n", "", 0))
      == Run([], Returned(Result(["1"], [], Some(0))))
    ensures EqualsText(Result(["1"], [], Some(0)), "1") && Truthy(Result(["1"], [], Some(0)))
  {
    EchoOutput();
  }

  /** The lines `echo 1` leaves in a result. */
  lemma EchoOutput()
    ensures OutputLines("1\n") == ["1"]
    ensures OutputLines("") == []
  {
    assert ReadLines("1\n") == ["1\n"] by {
      assert Concat(["1\n"]) == "1\n";
      ReadLinesOfConcat(["1\n"]);
    }
  }

  /** `echo 1` with 'p': the output is printed once, as "1". */
  lemma EchoPrintScenario()
    ensures CreateResult(Configured, "echo 1", "p", Process("1\n", "", 0)).printed == [ToStdout("1")]
  {
    EchoOutput();
  }

  /**
   A failing command without 'n' raises, carrying the return code and the
   collected stderr, even where the unit tests expect a returned result.
   */
  lemma FailureScenario(stderr: string)
    ensures CreateResult(Configured, "cat non_existent_file", "e", Process("", stderr, 1)).outcome
      == Raised(NonZeroReturnCodeError("cat non_existent_file", Result([], OutputLines(stderr), Some(1))))
  {
    assert OutputLines("") == [];
  }

  // ---------------------------------------------------------------------
  // NonZeroReturnCodeError.__str__

  /** `str(code)` for the return code, "None" before it is set. */
  function CodeText(code: Option<int>): string
  {
    match code
    case None => "None"
    case Some(c) => IntToString(c)
  }

  const MessageHead: string := "Command '"
  const MessageMiddle: string := "' failed with error code "
  const MessageTail: string := ", stderr output is "

  /** `str(error)` with colour off. */
  function ErrorMessage(e: NonZeroReturnCodeError): (m: string)
    ensures MessageHead + e.cmd + MessageMiddle <= m
  {
    var head := MessageHead + e.cmd + MessageMiddle;
    var rest := CodeText(e.result.returncode) + MessageTail + Stderr(e.result);
    PrefixOfConcat(head, rest);
    head + rest
  }

  /** For the same command and stderr, the message tells return codes apart. */
  lemma ErrorMessageShowsCode(cmd: string, lines: seq<string>, a: int, b: int)
    ensures (ErrorMessage(NonZeroReturnCodeError(cmd, Result([], lines, Some(a))))
          == ErrorMessage(NonZeroReturnCodeError(cmd, Result([], lines, Some(b))))) <==> a == b
  {
    var ea := NonZeroReturnCodeError(cmd, Result([], lines, Some(a)));
    var eb := NonZeroReturnCodeError(cmd, Result([], lines, Some(b)));
    MessageParts(ea);
    MessageParts(eb);
    MiddleCancel(MessageHead + cmd + MessageMiddle, IntToString(a), IntToString(b), MessageTail + Join(LineSep, lines));
    IntToStringRoundTrip(a);
    IntToStringRoundTrip(b);
  }

  /** The message is the head, the code, and the tail with the stderr text. */
  lemma MessageParts(e: NonZeroReturnCodeError)
    ensures ErrorMessage(e) == (MessageHead + e.cmd + MessageMiddle) + CodeText(e.result.returncode) + (MessageTail + Stderr(e.result))
  {
    var c := CodeText(e.result.returncode);
    AppendAssoc(c, MessageTail, Stderr(e.result));
    AppendAssoc(MessageHead + e.cmd + MessageMiddle, c, MessageTail + Stderr(e.result));
  }

  lemma ErrorMessageExample()
    ensures ErrorMessage(NonZeroReturnCodeError("false", Result([], ["boom"], Some(1))))
      == "Command 'false' failed with error code 1, stderr output is boom"
  {
    var e := NonZeroReturnCodeError("false", Result([], ["boom"], Some(1)));
    MessageParts(e);
    assert CodeText(e.result.returncode) == "1" by {
      assert IntToString(1) == "1";
    }
    assert Stderr(e.result) == "boom";
    ExampleHead();
    ExampleTail();
    ExampleWhole();
  }

  /** The example message, spelled out piece by piece. */
  lemma ExampleHead()
    ensures MessageHead + "false" + MessageMiddle == "Command 'false' failed with error code "
  {
  }

  lemma ExampleTail()
    ensures MessageTail + "boom" == ", stderr output is boom"
  {
  }

  lemma ExampleWhole()
    ensures "Command 'false' failed with error code " + "1" + ", stderr output is boom"
      == "Command 'false' failed with error code 1, stderr output is boom"
  {
  }

  // ---------------------------------------------------------------------
  // Stream

  /**
   `Stream`: the text still to be read from the pipe, the text written to
   it so far, and whether lines read are echoed with `print`.
   */
  datatype Stream = Stream(unread: string, written: string, printOut: bool)

  /** What `sreadline` does: stop the iteration, or hand back a line. */
  datatype LineRead = StopIteration | Line(line: string, next: Stream, printed: seq<Printed>)

  /** `Stream.sreadline()`. */
  function SReadLine(s: Stream): (r: LineRead)
    ensures r.StopIteration? <==> s.unread == ""
    ensures r.Line? ==> '\n' !in r.line
    ensures r.Line? ==> s.unread == r.line + r.next.unread || s.unread == r.line + LineSep + r.next.unread
    ensures r.Line? && s.unread == r.line + r.next.unread ==> r.next.unread == ""
    ensures r.Line? ==> |r.next.unread| < |s.unread| && r.next.written == s.written && r.next.printOut == s.printOut
    ensures r.Line? ==> r.printed == if s.printOut then [ToStdout(r.line)] else []
  {
    if s.unread == "" then StopIteration
    else
      var raw := ReadLine(s.unread);
      ReadLineParts(s.unread);
      Line(StripLine(raw), s.(unread := s.unread[|raw|..]), if s.printOut then [ToStdout(StripLine(raw))] else [])
  }

  /** A non-empty read is the stripped line, at most one separator, and the rest of the text. */
  lemma ReadLineParts(text: string)
    requires text != ""
    ensures var raw := ReadLine(text);
      && 0 < |raw| <= |text|
      && '\n' !in StripLine(raw)
      && (text == StripLine(raw) + text[|raw|..] || text == StripLine(raw) + LineSep + text[|raw|..])
      && (text == StripLine(raw) + text[|raw|..] ==> text[|raw|..] == "")
  {
    var raw := ReadLine(text);
    StripIsChop(raw);
    ChopNewlineSplit(raw);
    var rest := text[|raw|..];
    assert text == raw + rest;
    if EndsWithNewline(raw) {
      assert raw == ChopNewline(raw) + LineSep;
      assert |StripLine(raw) + rest| < |text|;
    } else {
      assert raw == ChopNewline(raw);
      assert '\n' !in text ==> rest == "";
    }
  }

  /** `Stream.swriteline(text)`: the text and a separator are appended to what was written. */
  function SWriteLine(s: Stream, text: string): (r: Stream)
    ensures r.written == s.written + text + LineSep
    ensures r.unread == s.unread && r.printOut == s.printOut
  {
    s.(written := s.written + text + LineSep)
  }

  /** A line written with `swriteline` is read back unchanged by `sreadline` on the other end of the pipe. */
  lemma WriteThenRead(text: string, rest: string, printOut: bool)
    requires '\n' !in text
    ensures var w := SWriteLine(Stream("", "", false), text).written;
      SReadLine(Stream(w + rest, "", printOut))
        == Line(text, Stream(rest, "", printOut), if printOut then [ToStdout(text)] else [])
  {
    var l := text + LineSep;
    assert ("" + text + LineSep) == l;
    assert IsLine(l) by {
      assert forall i :: 0 <= i < |text| ==> l[i] == text[i];
    }
    ReadLineOfLine(l, rest);
    assert (l + rest)[|l|..] == rest;
    StripIsChop(l);
    assert l[..|l| - 1] == text;
  }

  /** The lines `for line in stream` yields, and everything printed meanwhile. */
  datatype Drained = Drained(lines: seq<string>, printed: seq<Printed>)

  function Drain(s: Stream): (d: Drained)
    decreases |s.unread|
  {
    match SReadLine(s)
    case StopIteration => Drained([], [])
    case Line(line, next, printed) =>
      var rest := Drain(next);
      Drained([line] + rest.lines, printed + rest.printed)
  }

  /** Iterating a stream yields the very lines a `Result` collects from the same output. */
  lemma {:induction false} DrainMatchesResult(text: string, written: string, printOut: bool)
    ensures Drain(Stream(text, written, printOut)).lines == OutputLines(text)
    ensures Drain(Stream(text, written, printOut)).printed == if printOut then Echoed(OutputLines(text)) else []
    decreases |text|
  {
    var s := Stream(text, written, printOut);
    if text != "" {
      var raw := ReadLine(text);
      StripIsChop(raw);
      var next := Stream(text[|raw|..], written, printOut);
      assert SReadLine(s) == Line(ChopNewline(raw), next, if printOut then [ToStdout(ChopNewline(raw))] else []);
      DrainMatchesResult(text[|raw|..], written, printOut);
      assert ReadLines(text) == [raw] + ReadLines(text[|raw|..]);
      assert OutputLines(text) == [ChopNewline(raw)] + OutputLines(text[|raw|..]);
    }
  }

  /** One stdout `print` per line. */
  function Echoed(lines: seq<string>): (ps: seq<Printed>)
    ensures |ps| == |lines|
    ensures forall i :: 0 <= i < |lines| ==> ps[i] == ToStdout(lines[i])
    decreases |lines|
  {
    if |lines| == 0 then [] else [ToStdout(lines[0])] + Echoed(lines[1..])
  }

  // ---------------------------------------------------------------------
  // InteractiveResult and exe

  /**
   `InteractiveResult(process, params)`: streams over the process's pipes
   and its return code. Stdout is echoed as `Result` would print it; stderr
   by the corrected stderr condition.
   */
  datatype InteractiveResult = InteractiveResult(stdin: Stream, stdout: Stream, stderr: Stream, returncode: int)

  function CreateInteractiveResult(cfg: Config, params: string, proc: Process): (r: InteractiveResult)
    ensures r.stdout.unread == proc.stdout && r.stderr.unread == proc.stderr && r.stdin.written == ""
    ensures r.stdout.printOut <==> ParamPrintStdout in params || cfg.printStdoutAlways
    ensures r.stderr.printOut <==> ParamPrintStderr in params || cfg.printStderrAlways == Some(true)
    ensures !r.stdin.printOut
  {
    InteractiveResult(
      Stream("", "", false),
      Stream(proc.stdout, "", PrintStdout(cfg, params)),
      Stream(proc.stderr, "", PrintStderr(cfg, params)),
      proc.returncode)
  }

  /** `bool(interactive_result)`. */
  predicate InteractiveTruthy(r: InteractiveResult)
  {
    r.returncode == 0
  }

  /** What `exe` hands back. */
  datatype ExeValue = Collected(outcome: Outcome) | Interactive(result: InteractiveResult)

  datatype ExeRun = ExeRun(printed: seq<Printed>, value: ExeValue)

  /** `exe(cmd, params)`, with the process it starts given by its output. */
  function Exe(cfg: Config, cmd: string, params: string, proc: Process): (r: ExeRun)
    ensures r.value.Interactive? <==> ParamInteractive in params
    ensures r.value.Interactive? ==> r.value.result == CreateInteractiveResult(cfg, params, proc)
    ensures r.value.Collected? ==> r.value.outcome == CreateResult(cfg, cmd, params, proc).outcome
    ensures var own := if r.value.Collected? then CreateResult(cfg, cmd, params, proc).printed else [];
      r.printed == (if cfg.printAllCommands then [ToStdout(">>> " + cmd)] else []) + own
  {
    var announce := if cfg.printAllCommands then [ToStdout(">>> " + cmd)] else [];
    if IsParamSet(params, ParamInteractive) then
      ExeRun(announce, Interactive(CreateInteractiveResult(cfg, params, proc)))
    else
      var run := CreateResult(cfg, cmd, params, proc);
      ExeRun(announce + run.printed, Collected(run.outcome))
  }

  /** With PRINT_ALL_COMMANDS on, the first thing printed is exactly ">>> " and the command. */
  lemma ExeAnnounces(cfg: Config, cmd: string, params: string, proc: Process)
    requires cfg.printAllCommands
    ensures var r := Exe(cfg, cmd, params, proc); |r.printed| > 0 && r.printed[0] == ToStdout(">>> " + cmd)
  {
  }

  /**
   `exe(cmd, 'i')` on a process that prints one line: nothing is printed up
   front, the stream yields that line (echoed only with 'p'), then
   StopIteration.
   */
  lemma InteractiveOneLine(cmd: string, text: string, printOut: bool)
    requires '\n' !in text
    ensures var r := Exe(Configured, cmd, if printOut then "ip" else "i", Process(text + LineSep, "", 0));
      && r.printed == []
      && r.value.Interactive?
      && var first := SReadLine(r.value.result.stdout);
      && first.Line? && first.line == text
      && first.printed == (if printOut then [ToStdout(text)] else [])
      && SReadLine(first.next) == StopIteration
  {
    var params := if printOut then "ip" else "i";
    assert ParamInteractive in params;
    assert ParamPrintStdout in params <==> printOut;
    var r := Exe(Configured, cmd, params, Process(text + LineSep, "", 0));
    assert r.value.result.stdout == Stream(text + LineSep, "", printOut);
    WriteThenRead(text, "", printOut);
    assert "" + text + LineSep + "" == text + LineSep;
  }

  /** `exe(cmd, '')` with PRINT_ALL_COMMANDS on and nothing else: only the command line is printed. */
  lemma AnnounceOnly(cmd: string, proc: Process)
    ensures Exe(Config(true, false, Some(false)), cmd, "", proc).printed == [ToStdout(">>> " + cmd)]
  {
    var cfg := Config(true, false, Some(false));
    assert !IsParamSet("", ParamInteractive);
    assert !PrintStdout(cfg, "") && !PrintStderr(cfg, "");
    assert CreateResult(cfg, cmd, "", proc).printed == [];
  }
}
