/** The child shell, the command frames written to it and the reply stream it sends back. */
module Shell {
  import opened Arrivals
  import opened Tag
  import opened Text

  const EXIT_CMD: string := "exit"

  /** The shell's state: the commands executed so far, other than echo lines, `$?`, and whether it still reads. */
  datatype Shell = Shell(hist: seq<string>, status: int, alive: bool)

  /** What commands do: output and exit status are arbitrary functions of the commands executed before. */
  datatype Env = Env(output: (seq<string>, string) -> string, status: (seq<string>, string) -> int, status0: int)

  /** Command output holds neither NUL nor the tag. */
  ghost predicate EnvOk(e: Env) {
    forall h, c :: Clean(e.output(h, c), EOC_TAG)
  }

  // ---- shell lines with a fixed meaning ----

  /** Text that means itself between double quotes. */
  predicate PlainText(t: string) {
    forall i | 0 <= i < |t| :: t[i] != '"' && t[i] != '$' && t[i] != '\\' && t[i] != '`' && t[i] != LF
  }

  /** The line `echo "t"$?`. */
  function EchoLine(t: string): string {
    "echo \"" + t + "\"$?" + [LF]
  }

  /** The text t of a line `echo "t"$?`, if the line has that form. */
  function EchoText(line: string): Option<string> {
    var n := |line| - 4;
    if n < 6 || line[..6] != "echo \"" || line[n..] != "\"$?\n" || !PlainText(line[6..n]) then None
    else Some(line[6..n])
  }

  /** A command is one line, does not end the shell, and does not print the tag by an echo of its own. */
  predicate CmdOk(c: string) {
    && LfFree(c) && c != "exit"
    && (EchoText(c + [LF]).Some? ==> Clean(EchoText(c + [LF]).value, EOC_TAG))
  }

  predicate AllCmdsOk(cmds: seq<string>) {
    forall i | 0 <= i < |cmds| :: CmdOk(cmds[i])
  }

  function Start(e: Env): Shell {
    Shell([], e.status0, true)
  }

  /** The effect of one input line: the new shell state and the output. A blank line does nothing, `echo "t"$?` prints
      t and the status, `exit` ends the shell; what any other line does is up to the environment. */
  function ExecLine(e: Env, sh: Shell, line: string): (Shell, string) {
    if !sh.alive || line == [LF] || line == "" then (sh, "")
    else if EchoText(line).Some? then (sh.(status := 0), EchoText(line).value + Decimal(sh.status) + [LF])
    else if line == "exit\n" then (sh.(alive := false), "")
    else
      var c := line[..|line| - 1];
      (Shell(sh.hist + [c], e.status(sh.hist, c), true), e.output(sh.hist, c))
  }

  /** Running input lines one after the other from the start. */
  function RunLines(e: Env, lines: seq<string>): (Shell, string) {
    if lines == [] then (Start(e), "")
    else
      var (sh, out) := RunLines(e, lines[..|lines| - 1]);
      var (sh', more) := ExecLine(e, sh, lines[|lines| - 1]);
      (sh', out + more)
  }

  // ---- frames ----

  /** The bytes one exec writes. */
  function FrameText(cmd: string): string {
    cmd + [LF] + EOC_CMD + [LF]
  }

  function FrameLines(cmd: string): seq<string> {
    [cmd + [LF], EOC_CMD, [LF]]
  }

  function FramesText(cmds: seq<string>): string {
    if cmds == [] then "" else FramesText(cmds[..|cmds| - 1]) + FrameText(cmds[|cmds| - 1])
  }

  function AllFrameLines(cmds: seq<string>): seq<string> {
    if cmds == [] then [] else AllFrameLines(cmds[..|cmds| - 1]) + FrameLines(cmds[|cmds| - 1])
  }

  // ---- reference meaning of a list of commands ----

  /** The shell once the line holding `cmd` is executed. */
  function AfterCmd(e: Env, sh: Shell, cmd: string): Shell {
    ExecLine(e, sh, cmd + [LF]).0
  }

  function CmdOutput(e: Env, sh: Shell, cmd: string): string {
    ExecLine(e, sh, cmd + [LF]).1
  }

  /** The shell after whole frames. */
  function After(e: Env, cmds: seq<string>): Shell {
    if cmds == [] then Start(e)
    else AfterCmd(e, After(e, cmds[..|cmds| - 1]), cmds[|cmds| - 1]).(status := 0)
  }

  /** Exit status of the last command of a non-empty list. */
  function LastStatus(e: Env, cmds: seq<string>): int
    requires cmds != []
  {
    AfterCmd(e, After(e, cmds[..|cmds| - 1]), cmds[|cmds| - 1]).status
  }

  /** Output of the last command of a non-empty list. */
  function LastCmdOutput(e: Env, cmds: seq<string>): string
    requires cmds != []
  {
    CmdOutput(e, After(e, cmds[..|cmds| - 1]), cmds[|cmds| - 1])
  }

  /** Each command's own exit status when the commands run one after the other. */
  function Statuses(e: Env, cmds: seq<string>): (st: seq<int>)
    ensures |st| == |cmds|
  {
    if cmds == [] then [] else Statuses(e, cmds[..|cmds| - 1]) + [LastStatus(e, cmds)]
  }

  /** The line the last command's tag ends: the tag is glued to output that does not end in LF. */
  function LastTagLine(e: Env, cmds: seq<string>): string
    requires cmds != []
  {
    Fragment(LastCmdOutput(e, cmds)) + TagLine(LastStatus(e, cmds))
  }

  /** The lines the shell sends back: each command's complete output lines, then the line its tag ends. */
  function ReplyLines(e: Env, cmds: seq<string>): seq<string> {
    if cmds == [] then []
    else
      ReplyLines(e, cmds[..|cmds| - 1]) + Lines(LastCmdOutput(e, cmds)) + [LastTagLine(e, cmds)]
  }

  /** The last command's output is empty or ends in LF. */
  predicate LastTerminated(e: Env, cmds: seq<string>)
    requires cmds != []
  {
    Fragment(LastCmdOutput(e, cmds)) == ""
  }

  /** The output of command i, run after those before it, is empty or ends in LF. */
  predicate Terminated(e: Env, cmds: seq<string>, i: nat)
    requires i < |cmds|
  {
    LastTerminated(e, cmds[..i + 1])
  }

  /** The commands with terminated output, as places in the list. */
  function Storing(e: Env, cmds: seq<string>): seq<nat> {
    if cmds == [] then []
    else
      Storing(e, cmds[..|cmds| - 1]) + if LastTerminated(e, cmds) then [|cmds| - 1] else []
  }

  /** The statuses of the commands with terminated output. */
  function Stored(e: Env, cmds: seq<string>): seq<int> {
    if cmds == [] then []
    else
      Stored(e, cmds[..|cmds| - 1]) + if LastTerminated(e, cmds) then [LastStatus(e, cmds)] else []
  }

  /** Commands whose effect is up to the environment: neither blank nor echo lines. */
  predicate Opaque(c: string) {
    c != "" && EchoText(c + [LF]).None?
  }

  /** These commands among a list, in order. */
  function Executed(cmds: seq<string>): seq<string> {
    if cmds == [] then []
    else
      Executed(cmds[..|cmds| - 1]) + if Opaque(cmds[|cmds| - 1]) then [cmds[|cmds| - 1]] else []
  }

  // ---- lines with a fixed meaning ----

  /** Exactly the lines `echo "t"$?` with plain t are echo lines, and they determine t. */
  lemma {:induction false} EchoTextIff(line: string, t: string)
    ensures EchoText(line) == Some(t) <==> PlainText(t) && line == EchoLine(t)
  {
    if PlainText(t) && line == EchoLine(t) {
      assert line[..6] == "echo \"" && line[|line| - 4..] == "\"$?\n" && line[6..|line| - 4] == t;
    }
    if EchoText(line) == Some(t) {
      var n := |line| - 4;
      assert line == line[..6] + line[6..n] + line[n..];
    }
  }

  /** The commands covered: all single lines except `exit` and echo lines that print the tag or NUL. */
  lemma {:induction false} CmdOkIff(c: string)
    ensures CmdOk(c) <==>
            LfFree(c) && c != "exit" && forall t :: PlainText(t) && c + [LF] == EchoLine(t) ==> Clean(t, EOC_TAG)
  {
    hide Clean, PlainText, EchoLine;
    forall t ensures EchoText(c + [LF]) == Some(t) <==> PlainText(t) && c + [LF] == EchoLine(t) {
      EchoTextIff(c + [LF], t);
    }
    hide EchoText;
    if EchoText(c + [LF]).Some? {
      var t := EchoText(c + [LF]).value;
      assert PlainText(t) && c + [LF] == EchoLine(t);
    }
  }

  /** The bytes of a frame. */
  lemma FrameBytes(cmd: string)
    ensures FrameText(cmd) == cmd + "\necho \"<SU_SRV_EOC>\"$?\n\n"
  {
    assert [LF] + EOC_CMD + [LF] == "\necho \"<SU_SRV_EOC>\"$?\n\n";
    assert FrameText(cmd) == cmd + ([LF] + EOC_CMD + [LF]);
  }

  lemma EocIsEcho()
    ensures EOC_CMD != [LF] && EOC_CMD != "" && EchoText(EOC_CMD) == Some(EOC_TAG)
  {
    assert EOC_CMD == EchoLine(EOC_TAG);
    EchoTextIff(EOC_CMD, EOC_TAG);
  }

  /** What a shell that reads the third write of a frame answers: the tag and the status of the command before, which
      the handler scans back. */
  lemma EocCmdPrintsStatus(e: Env, sh: Shell)
    requires sh.alive
    ensures ExecLine(e, sh, EOC_CMD) == (sh.(status := 0), "<SU_SRV_EOC>" + Decimal(sh.status) + "\n")
    ensures ExecLine(e, sh, EOC_CMD).1 == TagLine(sh.status)
    ensures CarriesCode(ExecLine(e, sh, EOC_CMD).1, sh.status)
  {
    EocIsEcho();
    ClassifyTagLine(sh.status);
    StoresIff(TagLine(sh.status), sh.status);
    hide Decimal, EchoText, Classify, CarriesCode;
  }

  // ---- framing ----

  lemma {:induction false} LineOf(c: string)
    requires LfFree(c)
    ensures IsLine(c + [LF])
  {
  }

  lemma EocCmdIsLine()
    ensures IsLine(EOC_CMD)
  {
  }

  lemma {:induction false} FlattenThree(a: string, b: string, c: string)
    ensures Flatten([a, b, c]) == a + b + c
  {
    FlattenSnoc([], a);
    FlattenSnoc([a], b);
    FlattenSnoc([a, b], c);
    assert [] + [a] == [a] && [a] + [b] == [a, b] && [a, b] + [c] == [a, b, c];
  }

  /** The shell sees a frame as three lines. */
  lemma {:induction false} FrameSplits(cmd: string)
    requires LfFree(cmd)
    ensures Lines(FrameText(cmd)) == FrameLines(cmd) && Fragment(FrameText(cmd)) == ""
  {
    LineOf(cmd);
    EocCmdIsLine();
    FlattenThree(cmd + [LF], EOC_CMD, [LF]);
    SplitUnique(FrameLines(cmd), "");
    assert FrameText(cmd) + "" == FrameText(cmd);
  }

  /** The shell sees any number of frames as their lines, frame by frame. */
  lemma {:induction false} FramesSplit(cmds: seq<string>)
    requires AllCmdsOk(cmds)
    ensures Lines(FramesText(cmds)) == AllFrameLines(cmds) && Fragment(FramesText(cmds)) == ""
  {
    if cmds != [] {
      FramesSplit(cmds[..|cmds| - 1]);
      FrameSplits(cmds[|cmds| - 1]);
      LinesConcat(FramesText(cmds[..|cmds| - 1]), FrameText(cmds[|cmds| - 1]));
    }
  }

  // ---- execution ----

  lemma {:induction false} RunSnoc(e: Env, lines: seq<string>, l: string)
    ensures RunLines(e, lines + [l]) ==
            (ExecLine(e, RunLines(e, lines).0, l).0, RunLines(e, lines).1 + ExecLine(e, RunLines(e, lines).0, l).1)
  {
    assert (lines + [l])[..|lines|] == lines;
  }

  /** Running more lines only adds output and history. */
  lemma {:induction false} RunPrefix(e: Env, a: seq<string>, b: seq<string>)
    requires a <= b
    ensures RunLines(e, a).1 <= RunLines(e, b).1
    ensures RunLines(e, a).0.hist <= RunLines(e, b).0.hist
    decreases |b|
  {
    if |a| < |b| {
      RunPrefix(e, a, b[..|b| - 1]);
    } else {
      assert a == b;
    }
  }

  /** A shell that has exited reads no more. */
  lemma {:induction false} DeadStaysDead(e: Env, a: seq<string>, b: seq<string>)
    requires a <= b && RunLines(e, b).0.alive
    ensures RunLines(e, a).0.alive
    decreases |b|
  {
    if |a| < |b| {
      DeadStaysDead(e, a, b[..|b| - 1]);
    } else {
      assert a == b;
    }
  }

  lemma {:induction false} AfterAlive(e: Env, cmds: seq<string>)
    requires AllCmdsOk(cmds)
    ensures After(e, cmds).alive
  {
    if cmds != [] {
      AfterAlive(e, cmds[..|cmds| - 1]);
      CmdKeepsAlive(e, After(e, cmds[..|cmds| - 1]), cmds[|cmds| - 1]);
    }
  }

  lemma {:induction false} CmdKeepsAlive(e: Env, sh: Shell, cmd: string)
    requires CmdOk(cmd) && sh.alive
    ensures AfterCmd(e, sh, cmd).alive
    ensures AfterCmd(e, sh, cmd).hist == sh.hist + if Opaque(cmd) then [cmd] else []
  {
    hide EchoText;
    LineText(cmd);
    assert sh.hist + [] == sh.hist;
  }

  lemma BlankLine(e: Env, sh: Shell)
    ensures ExecLine(e, sh, [LF]) == (sh, "")
  {
  }

  /** A command is its line without the LF. */
  lemma LineText(cmd: string)
    ensures (cmd + [LF])[..|cmd + [LF]| - 1] == cmd && cmd + [LF] != ""
    ensures cmd + [LF] == [LF] <==> cmd == ""
    ensures cmd + [LF] == "exit\n" <==> cmd == "exit"
  {
    assert (cmd + [LF])[..|cmd|] == cmd;
    if cmd + [LF] == "exit" + [LF] { SnocInjective(cmd, "exit", LF); }
    if cmd + [LF] == "" + [LF] { SnocInjective(cmd, "", LF); }
    assert "" + [LF] == [LF] && "exit" + [LF] == "exit\n";
  }

  /** What a living shell does with a command, case by case. */
  lemma OneCommand(e: Env, sh: Shell, cmd: string)
    requires CmdOk(cmd) && sh.alive
    ensures cmd == "" ==> AfterCmd(e, sh, cmd) == sh && CmdOutput(e, sh, cmd) == ""
    ensures forall t :: PlainText(t) && cmd + [LF] == EchoLine(t) ==>
              AfterCmd(e, sh, cmd).status == 0 && CmdOutput(e, sh, cmd) == t + Decimal(sh.status) + [LF]
    ensures Opaque(cmd) ==>
              AfterCmd(e, sh, cmd).status == e.status(sh.hist, cmd) && CmdOutput(e, sh, cmd) == e.output(sh.hist, cmd)
  {
    LineText(cmd);
    forall t | PlainText(t) && cmd + [LF] == EchoLine(t) ensures EchoText(cmd + [LF]) == Some(t) {
      EchoTextIff(cmd + [LF], t);
    }
    assert EchoText([LF]).None?;
    hide EchoText, EchoLine, PlainText, Decimal, CmdOk;
  }

  /** One frame, run from a living shell. */
  lemma {:induction false} RunFrame(e: Env, lines: seq<string>, cmd: string)
    requires CmdOk(cmd) && RunLines(e, lines).0.alive
    ensures var (sh, out) := RunLines(e, lines);
            var sh' := AfterCmd(e, sh, cmd);
            RunLines(e, lines + FrameLines(cmd))
            == (sh'.(status := 0), out + CmdOutput(e, sh, cmd) + TagLine(sh'.status))
  {
    hide EchoText;
    var l1, l2 := lines + [cmd + [LF]], lines + [cmd + [LF]] + [EOC_CMD];
    CmdKeepsAlive(e, RunLines(e, lines).0, cmd);
    EocCmdPrintsStatus(e, AfterCmd(e, RunLines(e, lines).0, cmd));
    RunSnoc(e, lines, cmd + [LF]);
    RunSnoc(e, l1, EOC_CMD);
    RunSnoc(e, l2, [LF]);
    assert lines + FrameLines(cmd) == l2 + [[LF]];
    var out := RunLines(e, l2).1;
    assert out + "" == out;
  }

  /** Running all frames gives the reference shell and the reference reply. */
  lemma {:induction false} RunFrames(e: Env, cmds: seq<string>)
    requires AllCmdsOk(cmds)
    ensures RunLines(e, AllFrameLines(cmds)) == (After(e, cmds), Flatten(ReplyLines(e, cmds)))
  {
    if cmds != [] {
      var init, cmd := cmds[..|cmds| - 1], cmds[|cmds| - 1];
      RunFrames(e, init);
      AfterAlive(e, init);
      RunFrame(e, AllFrameLines(init), cmd);
      ReplyText(e, cmds);
    }
  }

  lemma {:induction false} CmdOutputClean(e: Env, sh: Shell, cmd: string)
    requires EnvOk(e) && CmdOk(cmd)
    ensures Clean(CmdOutput(e, sh, cmd), EOC_TAG)
  {
    hide EchoText, Contains, Decimal;
    NothingIsClean();
    if EchoText(cmd + [LF]).Some? {
      EchoIsClean(EchoText(cmd + [LF]).value, sh.status);
    }
  }

  lemma NothingIsClean()
    ensures Clean("", EOC_TAG)
  {
  }

  /** A tag ends in `>`, so text without it completes no tag. */
  lemma {:induction false} TagInside(t: string, r: string, i: nat)
    requires (forall j | 0 <= j < |r| :: r[j] != '>') && OccursAt(t + r, EOC_TAG, i)
    ensures OccursAt(t, EOC_TAG, i)
  {
    var s, n := t + r, i + |EOC_TAG|;
    assert forall j | |t| <= j < |s| :: s[j] == r[j - |t|];
    assert s[i..n][|EOC_TAG| - 1] == s[n - 1];
    assert n <= |t|;
    assert t[i..n] == s[i..n];
  }

  /** Digits behind clean text complete no tag. */
  lemma {:induction false} EchoIsClean(t: string, n: int)
    requires Clean(t, EOC_TAG)
    ensures Clean(t + Decimal(n) + [LF], EOC_TAG)
  {
    var d, r := Decimal(n), Decimal(n) + [LF];
    assert forall i | 0 <= i < |d| :: IsDigit(d[i]) || d[i] == '-';
    hide Decimal;
    assert t + d + [LF] == t + r && forall i | 0 <= i < |r| :: r[i] == if i < |d| then d[i] else LF;
    forall i: nat ensures !OccursAt(t + r, EOC_TAG, i) {
      if OccursAt(t + r, EOC_TAG, i) {
        TagInside(t, r, i);
      }
    }
  }

  lemma {:induction false} ReplyText(e: Env, cmds: seq<string>)
    requires cmds != []
    ensures Flatten(ReplyLines(e, cmds)) ==
            Flatten(ReplyLines(e, cmds[..|cmds| - 1])) + LastCmdOutput(e, cmds) + TagLine(LastStatus(e, cmds))
  {
    var out, tag := LastCmdOutput(e, cmds), TagLine(LastStatus(e, cmds));
    var before, lines, f := ReplyLines(e, cmds[..|cmds| - 1]), Lines(out), Fragment(out);
    assert ReplyLines(e, cmds) == before + lines + [f + tag];
    SplitRebuilds(out);
    hide *;
    FlattenSnoc(before + lines, f + tag);
    FlattenConcat(before, lines);
    Assoc(Flatten(before) + Flatten(lines), f, tag);
    Assoc(Flatten(before), Flatten(lines), f);
  }

  // ---- the reply stream ----

  /** All lines the shell is ever given: the frames, then at most one exit line. */
  function InputLines(cmds: seq<string>, exiting: bool): seq<string> {
    AllFrameLines(cmds) + if exiting then [EXIT_CMD + [LF]] else []
  }

  lemma ExitLine(e: Env, sh: Shell)
    requires sh.alive
    ensures ExecLine(e, sh, EXIT_CMD + [LF]) == (sh.(alive := false), "")
  {
    assert |EXIT_CMD + [LF]| == 5;
    assert EXIT_CMD + [LF] == "exit\n";
  }

  /** Given all its lines the shell sends the reference reply, and it ends if and only if the exit line is among
      them. */
  lemma {:induction false} RunInput(e: Env, cmds: seq<string>, exiting: bool)
    requires AllCmdsOk(cmds)
    ensures RunLines(e, InputLines(cmds, exiting)).1 == Flatten(ReplyLines(e, cmds))
    ensures RunLines(e, InputLines(cmds, exiting)).0.hist == After(e, cmds).hist
    ensures RunLines(e, InputLines(cmds, exiting)).0.alive == !exiting
  {
    hide ExecLine, After, AllCmdsOk, ReplyLines;
    RunFrames(e, cmds);
    AfterAlive(e, cmds);
    var out := Flatten(ReplyLines(e, cmds));
    if exiting {
      RunSnoc(e, AllFrameLines(cmds), EXIT_CMD + [LF]);
      ExitLine(e, After(e, cmds));
      assert out + "" == out;
    } else {
      assert AllFrameLines(cmds) + [] == AllFrameLines(cmds);
    }
  }

  lemma LastTagLineIsLine(e: Env, cmds: seq<string>)
    requires cmds != []
    ensures IsLine(LastTagLine(e, cmds))
  {
    hide LastCmdOutput, LastStatus, TagLine;
    TagLineShape(LastStatus(e, cmds));
  }

  lemma {:induction false} ReplyLinesAreLines(e: Env, cmds: seq<string>)
    ensures AllLines(ReplyLines(e, cmds))
  {
    if cmds != [] {
      hide LastCmdOutput, LastTagLine, Lines, IsLine;
      ReplyLinesAreLines(e, cmds[..|cmds| - 1]);
      LinesAreLines(LastCmdOutput(e, cmds));
      LastTagLineIsLine(e, cmds);
    }
  }

  /** The handler splits the whole reply stream into exactly the reply lines. */
  lemma {:induction false} ReplySplits(e: Env, cmds: seq<string>)
    ensures Lines(Flatten(ReplyLines(e, cmds))) == ReplyLines(e, cmds)
    ensures Fragment(Flatten(ReplyLines(e, cmds))) == ""
  {
    var r := ReplyLines(e, cmds);
    ReplyLinesAreLines(e, cmds);
    SplitUnique(r, "");
    assert Flatten(r) + "" == Flatten(r) && r + Lines("") == r;
  }

  lemma {:induction false} LastOutputLines(e: Env, cmds: seq<string>)
    requires EnvOk(e) && AllCmdsOk(cmds) && cmds != []
    ensures forall k | 0 <= k < |Lines(LastCmdOutput(e, cmds))| :: Clean(Lines(LastCmdOutput(e, cmds))[k], EOC_TAG)
    ensures Clean(Fragment(LastCmdOutput(e, cmds)), EOC_TAG)
  {
    CmdOutputClean(e, After(e, cmds[..|cmds| - 1]), cmds[|cmds| - 1]);
    LinesClean(LastCmdOutput(e, cmds), EOC_TAG);
  }

  /** The line the last command's tag ends always signals, and stores the status if the output was terminated. */
  lemma LastTagLineEffect(e: Env, cmds: seq<string>)
    requires EnvOk(e) && AllCmdsOk(cmds) && cmds != []
    ensures SignalsOf(LastTagLine(e, cmds)) == 1
    ensures StoredBy(LastTagLine(e, cmds)) == if LastTerminated(e, cmds) then [LastStatus(e, cmds)] else []
  {
    hide EnvOk, Classify, Lines, Fragment, Clean, LastCmdOutput, LastStatus;
    LastOutputLines(e, cmds);
    ClassifyTagEnd(Fragment(LastCmdOutput(e, cmds)), LastStatus(e, cmds));
  }

  /** Whatever commands print, each frame causes one signal; the codes stored are the statuses of exactly the commands
      whose output is terminated, in order. */
  lemma {:induction false} ReplyEffect(e: Env, cmds: seq<string>)
    requires EnvOk(e) && AllCmdsOk(cmds)
    ensures Codes(ReplyLines(e, cmds)) == Stored(e, cmds)
    ensures Signals(ReplyLines(e, cmds)) == |cmds|
  {
    hide Codes, Signals, LastStatus, LastCmdOutput, LastTagLine, LastTerminated, Lines, Clean;
    NoLines();
    if cmds != [] {
      var init, out, tag := cmds[..|cmds| - 1], Lines(LastCmdOutput(e, cmds)), LastTagLine(e, cmds);
      ReplyEffect(e, init);
      LastOutputLines(e, cmds);
      CleanLinesEffect(out);
      LinesEffectConcat(ReplyLines(e, init), out);
      LinesEffectSnoc(ReplyLines(e, init) + out, tag);
      LastTagLineEffect(e, cmds);
    }
  }

  /** The m-th stored code is the status of the m-th command with terminated output. */
  lemma {:induction false} StoredIsStatus(e: Env, cmds: seq<string>, m: nat)
    requires m < |Stored(e, cmds)| || m < |Storing(e, cmds)|
    ensures |Stored(e, cmds)| == |Storing(e, cmds)|
    ensures Storing(e, cmds)[m] < |cmds| && Terminated(e, cmds, Storing(e, cmds)[m])
    ensures Stored(e, cmds)[m] == Statuses(e, cmds)[Storing(e, cmds)[m]]
  {
    hide LastTerminated, LastStatus;
    SameCount(e, cmds);
    var init := cmds[..|cmds| - 1];
    if m < |Storing(e, init)| {
      SameCount(e, init);
      StoredIsStatus(e, init, m);
      var i := Storing(e, init)[m];
      assert cmds[..i + 1] == init[..i + 1];
    } else {
      assert cmds[..|cmds|] == cmds;
    }
  }

  lemma {:induction false} SameCount(e: Env, cmds: seq<string>)
    ensures |Stored(e, cmds)| == |Storing(e, cmds)|
  {
    hide LastTerminated, LastStatus;
    if cmds != [] {
      SameCount(e, cmds[..|cmds| - 1]);
    }
  }

  /** Exactly the commands with terminated output store a code, in lock order. */
  lemma {:induction false} StoringIff(e: Env, cmds: seq<string>, i: nat)
    requires i < |cmds|
    ensures i in Storing(e, cmds) <==> Terminated(e, cmds, i)
    ensures forall j, m | 0 <= j < m < |Storing(e, cmds)| :: Storing(e, cmds)[j] < Storing(e, cmds)[m]
    ensures forall m | 0 <= m < |Storing(e, cmds)| :: Storing(e, cmds)[m] < |cmds|
  {
    hide LastTerminated;
    var init := cmds[..|cmds| - 1];
    if i < |init| {
      StoringIff(e, init, i);
      assert cmds[..i + 1] == init[..i + 1];
    } else {
      assert cmds[..i + 1] == cmds;
      if init != [] {
        StoringIff(e, init, 0);
      }
    }
  }

  /** What the handler has read, split into lines, is a prefix of the reply lines. */
  lemma {:induction false} ReadIsReply(e: Env, cmds: seq<string>, exiting: bool, consumed: seq<string>, read: string)
    requires AllCmdsOk(cmds)
    requires consumed <= InputLines(cmds, exiting)
    requires read <= RunLines(e, consumed).1
    ensures Lines(read) <= ReplyLines(e, cmds)
    ensures read <= Flatten(ReplyLines(e, cmds))
  {
    RunPrefix(e, consumed, InputLines(cmds, exiting));
    RunInput(e, cmds, exiting);
    LinesPrefix(read, Flatten(ReplyLines(e, cmds)));
    ReplySplits(e, cmds);
  }

  /** A prefix of the reply with as many signals as commands is the whole reply. */
  lemma {:induction false} AllSignalsAllReply(e: Env, cmds: seq<string>, lines: seq<string>)
    requires EnvOk(e) && AllCmdsOk(cmds)
    requires lines <= ReplyLines(e, cmds) && Signals(lines) == |cmds|
    ensures lines == ReplyLines(e, cmds)
  {
    hide Signals, LastTagLine, Lines, SignalsOf, EnvOk;
    var r := ReplyLines(e, cmds);
    ReplyEffect(e, cmds);
    if lines != r {
      var r' := r[..|r| - 1];
      assert lines <= r' && r == r' + [LastTagLine(e, cmds)];
      LinesEffectPrefix(lines, r');
      LinesEffectSnoc(r', LastTagLine(e, cmds));
      LastTagLineEffect(e, cmds);
      assert false;
    }
  }

  /** The shell after whole frames: it lives, has executed the commands in the order of the frames, and `$?` is that of
      the library's own echo, or of the start. */
  lemma {:induction false} AfterFrames(e: Env, cmds: seq<string>)
    requires AllCmdsOk(cmds)
    ensures After(e, cmds) == Shell(Executed(cmds), if cmds == [] then e.status0 else 0, true)
  {
    if cmds != [] {
      hide CmdOk, Opaque, AfterCmd;
      AfterFrames(e, cmds[..|cmds| - 1]);
      CmdKeepsAlive(e, After(e, cmds[..|cmds| - 1]), cmds[|cmds| - 1]) by { LastOk(cmds); }
    }
  }

  lemma LastOk(cmds: seq<string>)
    requires AllCmdsOk(cmds) && cmds != []
    ensures CmdOk(cmds[|cmds| - 1]) && AllCmdsOk(cmds[..|cmds| - 1])
  {
    hide CmdOk;
  }

  /** The `$?` that a frame's command finds. */
  function StatusBefore(e: Env, i: nat): int {
    if i == 0 then e.status0 else 0
  }

  /** Status and output of the i-th command, told by the environment: of a blank command those of no command, of an echo
      line its text and the status before, of any other what the environment makes of it after the earlier ones. */
  lemma {:induction false} CommandMeaning(e: Env, cmds: seq<string>, i: nat)
    requires AllCmdsOk(cmds) && i < |cmds|
    ensures var c, st, out := cmds[i], Statuses(e, cmds)[i], LastCmdOutput(e, cmds[..i + 1]);
            && (c == "" ==> st == StatusBefore(e, i) && out == "")
            && (forall t :: PlainText(t) && c + [LF] == EchoLine(t) ==>
                  st == 0 && out == t + Decimal(StatusBefore(e, i)) + [LF])
            && (Opaque(c) ==>
                  st == e.status(Executed(cmds[..i]), c) && out == e.output(Executed(cmds[..i]), c))
  {
    hide CmdOk, Opaque, EchoLine, PlainText, AfterCmd, CmdOutput, Decimal, Executed, After, Statuses;
    var upTo := cmds[..i + 1];
    assert upTo[..|upTo| - 1] == cmds[..i];
    AfterFrames(e, cmds[..i]);
    OneCommand(e, After(e, cmds[..i]), cmds[i]);
    StatusesPrefix(e, upTo, cmds);
    StatusesLast(e, upTo);
  }

  lemma StatusesLast(e: Env, cmds: seq<string>)
    requires cmds != []
    ensures Statuses(e, cmds)[|cmds| - 1] == LastStatus(e, cmds)
  {
    hide LastStatus;
  }

  // ---- growing the list of commands ----

  lemma {:induction false} FramesTextSnoc(cmds: seq<string>, c: string)
    ensures FramesText(cmds + [c]) == FramesText(cmds) + FrameText(c)
  {
    assert (cmds + [c])[..|cmds|] == cmds;
  }

  lemma {:induction false} StatusesPrefix(e: Env, a: seq<string>, b: seq<string>)
    requires a <= b
    ensures Statuses(e, a) <= Statuses(e, b)
    decreases |b|
  {
    if |a| < |b| {
      StatusesPrefix(e, a, b[..|b| - 1]);
    } else {
      assert a == b;
    }
  }
}
