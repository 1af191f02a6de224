/** Outcomes the code allows: runs, for every command and every shell, that show what a caller cannot rely on. */
module Outcomes {
  import opened Arrivals
  import opened Errors
  import opened Guarantees
  import opened Protocol
  import opened Shell
  import opened SingleClient
  import opened Tag
  import opened Text

  /** Some run ends in `s`; a run of a single client if `single`. */
  ghost predicate Reached(e: Env, s: State, single: bool) {
    exists steps, states :: RunTo(e, steps, states, s, single)
  }

  ghost predicate RunTo(e: Env, steps: seq<Step>, states: seq<State>, s: State, single: bool) {
    && (if single then SingleRun(e, steps, states) else Run(e, steps, states))
    && states[|states| - 1] == s
  }

  lemma RunExtends(e: Env, steps: seq<Step>, states: seq<State>, s: State, step: Step)
    requires Run(e, steps, states) && states[|states| - 1] == s && Enabled(s, step)
    ensures Run(e, steps + [step], states + [Apply(e, s, step)])
  {
    hide Enabled, Apply, Initial;
    var steps', states' := steps + [step], states + [Apply(e, s, step)];
    forall k | 0 <= k < |steps'|
      ensures Enabled(states'[k], steps'[k]) && states'[k + 1] == Apply(e, states'[k], steps'[k])
    {
      if k < |steps| {
        assert steps'[k] == steps[k] && states'[k] == states[k] && states'[k + 1] == states[k + 1];
      } else {
        assert steps'[k] == step && states'[k] == s;
      }
    }
  }

  lemma SingleExtends(e: Env, steps: seq<Step>, states: seq<State>, s: State, step: Step)
    requires SingleRun(e, steps, states) && states[|states| - 1] == s && Enabled(s, step) && SingleStep(s, step)
    ensures SingleRun(e, steps + [step], states + [Apply(e, s, step)])
  {
    hide Enabled, Apply, Initial, SingleStep;
    RunExtends(e, steps, states, s, step);
    var steps', states' := steps + [step], states + [Apply(e, s, step)];
    forall k | 0 <= k < |steps'| ensures SingleStep(states'[k], steps'[k]) {
      if k < |steps| {
        assert steps'[k] == steps[k] && states'[k] == states[k];
      } else {
        assert steps'[k] == step && states'[k] == s;
      }
    }
  }

  lemma ReachStep(e: Env, s: State, step: Step, single: bool)
    requires Reached(e, s, single) && Enabled(s, step) && (single ==> SingleStep(s, step))
    ensures Reached(e, Apply(e, s, step), single)
  {
    hide Enabled, Apply, SingleStep, Run, SingleRun;
    var steps, states :| RunTo(e, steps, states, s, single);
    if single {
      SingleExtends(e, steps, states, s, step);
    } else {
      RunExtends(e, steps, states, s, step);
    }
    assert RunTo(e, steps + [step], states + [Apply(e, s, step)], Apply(e, s, step), single);
  }

  function Fresh(e: Env): State {
    State(multiset{}, [], Free, NotCalled, 0, true, "", Start(e), "", "", Reading, "", None, [],
          History("", [], "", [], [], 0, 0, 0))
  }

  lemma ReachFresh(e: Env, single: bool)
    ensures Reached(e, Fresh(e), single)
  {
    assert RunTo(e, [], [Fresh(e)], Fresh(e), single);
  }

  /** The callers' side of a state, which the shell and the handler's reading leave alone. */
  predicate SameCallers(s: State, s': State) {
    && s'.blocked == s.blocked && s'.frames == s.frames && s'.owner == s.owner && s'.exit == s.exit
    && s'.h.lost == s.h.lost && s'.h.signals == s.h.signals
  }

  predicate SameAnswers(s: State, s': State) {
    s'.code == s.code && s'.h.stores == s.h.stores
  }

  /** The handler is at the start of a line. */
  predicate AtLineStart(s: State) {
    s.handler == Reading && s.pending == ""
  }

  // ---- stretches of runs ----

  /** The handler reads the rest of a line byte by byte. */
  lemma {:induction false} ReadLine(e: Env, s: State, l: string, rest: string, single: bool) returns (s': State)
    requires Reached(e, s, single) && s.handler == Reading
    requires IsLine(l) && s.toHandler == l + rest
    ensures Reached(e, s', single) && SameCallers(s, s') && SameAnswers(s, s')
    ensures s'.handler == Got(s.pending + l) && s'.pending == "" && s'.toHandler == rest
    ensures s'.toShell == s.toShell && s'.shell == s.shell && s'.emitting == s.emitting
    decreases |l|
  {
    hide Reached, FirstLf;
    ReachStep(e, s, Step.ReadByte, single);
    var t := Apply(e, s, Step.ReadByte);
    assert s.toHandler[0] == l[0] && s.toHandler[1..] == l[1..] + rest;
    if |l| == 1 {
      assert l == [LF] && l[1..] + rest == rest;
      s' := t;
    } else {
      assert t.pending + l[1..] == s.pending + l;
      s' := ReadLine(e, t, l[1..], rest, single);
    }
  }

  /** The handler logs and keeps one output line. */
  lemma KeepOutput(e: Env, s: State, l: string, single: bool) returns (s': State)
    requires Reached(e, s, single) && s.handler == Got(l) && s.pending == "" && Classify(l) == Output
    ensures Reached(e, s', single) && SameCallers(s, s') && SameAnswers(s, s')
    ensures AtLineStart(s') && s'.toHandler == s.toHandler
    ensures s'.toShell == s.toShell && s'.shell == s.shell && s'.emitting == s.emitting
  {
    hide Reached, Classify, CStr, Arrive;
    ReachStep(e, s, HandleLine, single);
    var t := Apply(e, s, HandleLine);
    ReachStep(e, t, KeepLine, single);
    s' := Apply(e, t, KeepLine);
  }

  /** The handler reads and handles clean output lines. */
  lemma {:induction false} HandleOutput(e: Env, s: State, lines: seq<string>, rest: string, single: bool)
    returns (s': State)
    requires Reached(e, s, single) && AtLineStart(s)
    requires AllLines(lines) && (forall k | 0 <= k < |lines| :: Clean(lines[k], EOC_TAG))
    requires s.toHandler == Flatten(lines) + rest
    ensures Reached(e, s', single) && SameCallers(s, s') && SameAnswers(s, s')
    ensures AtLineStart(s') && s'.toHandler == rest
    ensures s'.toShell == s.toShell && s'.shell == s.shell && s'.emitting == s.emitting
    decreases |lines|
  {
    if lines == [] {
      s' := s;
      assert Flatten(lines) + rest == rest;
    } else {
      var l, ls := lines[0], lines[1..];
      Assoc(l, Flatten(ls), rest);
      ClassifyClean(l);
      hide Reached, Clean, Classify, CStr, FirstLf, Apply, Enabled, SingleStep;
      assert s.toHandler == l + (Flatten(ls) + rest);
      var t1 := ReadLine(e, s, l, Flatten(ls) + rest, single);
      assert s.pending + l == l;
      var t2 := KeepOutput(e, t1, l, single);
      s' := HandleOutput(e, t2, ls, rest, single);
    }
  }

  /** Nothing but the callers and the stream towards the shell differs. */
  predicate SameRest(s: State, s': State) {
    && s'.shell == s.shell && s'.emitting == s.emitting && s'.toHandler == s.toHandler
    && s'.handler == s.handler && s'.pending == s.pending
    && s'.h.stores == s.h.stores
    && s'.h.lost == s.h.lost && s'.h.signals == s.h.signals
  }

  lemma AcquireNew(e: Env, s: State, cmd: string, single: bool) returns (s': State)
    requires Reached(e, s, single) && CmdOk(cmd)
    requires s.blocked == multiset{} && s.owner == Free && (single ==> AllDone(s.frames))
    ensures Reached(e, s', single) && SameRest(s, s') && s'.code == s.code && s'.toShell == s.toShell
    ensures s'.blocked == multiset{} && s'.exit == s.exit
    ensures s'.owner == ByExec(|s.frames|) && s'.frames == s.frames + [Frame(cmd, LogCmd)]
  {
    hide Reached, CmdOk;
    ReachStep(e, s, Call(cmd), single);
    var t := Apply(e, s, Call(cmd));
    ReachStep(e, t, Acquire(cmd), single);
    s' := Apply(e, t, Acquire(cmd));
    assert multiset{} + multiset{cmd} - multiset{cmd} == multiset{};
  }

  /** One action of a caller. */
  lemma Act(e: Env, s: State, i: nat, single: bool) returns (s': State)
    requires Reached(e, s, single) && CanExec(s, i)
    ensures Reached(e, s', single) && s' == ExecStep(s, i)
  {
    hide Reached, ExecStep, CanExec;
    ReachStep(e, s, Exec(i), single);
    s' := Apply(e, s, Exec(i));
  }

  /** A caller that has the mutex logs and writes its frame. */
  lemma WriteFrame(e: Env, s: State, i: nat, single: bool) returns (s': State)
    requires Reached(e, s, single) && i < |s.frames| && s.frames[i].pc == LogCmd
    ensures Reached(e, s', single) && SameRest(s, s') && s'.code == s.code
    ensures s'.blocked == s.blocked && s'.exit == s.exit && s'.owner == s.owner
    ensures s'.frames == s.frames[i := s.frames[i].(pc := Reset)]
    ensures s'.toShell == s.toShell + FrameText(s.frames[i].cmd)
  {
    hide Reached;
    var c := s.frames[i].cmd;
    var s1 := Act(e, s, i, single);
    var s2 := Act(e, s1, i, single);
    var s3 := Act(e, s2, i, single);
    var s4 := Act(e, s3, i, single);
    s' := Act(e, s4, i, single);
    var x := s.toShell;
    assert s'.toShell == x + c + [LF] + EOC_CMD + [LF];
    assert x + c + [LF] + EOC_CMD + [LF] == x + (c + [LF] + EOC_CMD + [LF]);
  }

  /** The caller resets the code and waits. */
  lemma ResetAndWait(e: Env, s: State, i: nat, single: bool) returns (s': State)
    requires Reached(e, s, single) && i < |s.frames| && s.frames[i].pc == Reset
    ensures Reached(e, s', single) && SameRest(s, s') && s'.code == -9996 && s'.toShell == s.toShell
    ensures s'.blocked == s.blocked && s'.exit == s.exit && s'.owner == Free
    ensures s'.frames == s.frames[i := s.frames[i].(pc := Waiting)]
  {
    hide Reached;
    var s1 := Act(e, s, i, single);
    s' := Act(e, s1, i, single);
  }

  /** The handler signals a waiting caller, who takes the mutex again and returns the code it finds. */
  lemma SignalAndReturn(e: Env, s: State, i: nat, single: bool) returns (s': State)
    requires Reached(e, s, single) && i < |s.frames| && s.frames[i].pc == Waiting && s.owner == Free
    requires s.handler == Signalling
    ensures Reached(e, s', single) && s'.frames == s.frames[i := s.frames[i].(pc := Done(s.code))]
  {
    hide Reached;
    ReachStep(e, s, HandlerSignal(Some(i)), single);
    var s1 := Apply(e, s, HandlerSignal(Some(i)));
    var s2 := Act(e, s1, i, single);
    var s3 := Act(e, s2, i, single);
    s' := Act(e, s3, i, single);
  }

  /** The shell executes one line and sends all of its output. */
  lemma ShellOneLine(e: Env, s: State, l: string, rest: string, single: bool) returns (s': State)
    requires Reached(e, s, single) && IsLine(l) && s.toShell == l + rest && s.emitting == "" && s.shell.alive
    ensures Reached(e, s', single) && SameCallers(s, s') && SameAnswers(s, s')
    ensures s'.handler == s.handler && s'.pending == s.pending
    ensures s'.toShell == rest && s'.emitting == "" && s'.shell == ExecLine(e, s.shell, l).0
    ensures s'.toHandler == s.toHandler + ExecLine(e, s.shell, l).1
  {
    hide Reached, ExecLine;
    FirstLfOfLine(l, rest);
    assert (l + rest)[..|l|] == l && (l + rest)[|l|..] == rest;
    ReachStep(e, s, ShellLine, single);
    var t := Apply(e, s, ShellLine);
    var out := ExecLine(e, s.shell, l).1;
    assert t.emitting == out;
    if out == "" {
      s' := t;
      assert s.toHandler + "" == s.toHandler;
    } else {
      ReachStep(e, t, ShellEmit(|out|), single);
      s' := Apply(e, t, ShellEmit(|out|));
      assert out[..|out|] == out && out[|out|..] == "";
    }
  }

  /** The lines of a frame, and what a living shell does with each. */
  lemma FrameParts(e: Env, sh: Shell, cmd: string)
    requires CmdOk(cmd) && sh.alive
    ensures FrameText(cmd) == cmd + [LF] + (EOC_CMD + [LF])
    ensures IsLine(cmd + [LF]) && IsLine(EOC_CMD) && IsLine([LF])
    ensures var sh1 := AfterCmd(e, sh, cmd);
            && sh1.alive
            && ExecLine(e, sh, cmd + [LF]) == (sh1, CmdOutput(e, sh, cmd))
            && ExecLine(e, sh1, EOC_CMD) == (sh1.(status := 0), TagLine(sh1.status))
            && ExecLine(e, sh1.(status := 0), [LF]) == (sh1.(status := 0), "")
  {
    hide EchoText, Decimal;
    LineOf(cmd);
    EocCmdIsLine();
    CmdKeepsAlive(e, sh, cmd);
    EocCmdPrintsStatus(e, AfterCmd(e, sh, cmd));
    BlankLine(e, AfterCmd(e, sh, cmd).(status := 0));
    Assoc(cmd + [LF], EOC_CMD, [LF]);
  }

  /** The shell executes a whole frame. */
  lemma ShellAnswers(e: Env, s: State, cmd: string, single: bool) returns (s': State)
    requires CmdOk(cmd) && Reached(e, s, single)
    requires s.toShell == FrameText(cmd) && s.emitting == "" && s.toHandler == "" && s.shell.alive
    ensures Reached(e, s', single) && SameCallers(s, s') && SameAnswers(s, s')
    ensures s'.handler == s.handler && s'.pending == s.pending
    ensures s'.toShell == "" && s'.emitting == "" && s'.shell == AfterCmd(e, s.shell, cmd).(status := 0)
    ensures s'.toHandler == CmdOutput(e, s.shell, cmd) + TagLine(AfterCmd(e, s.shell, cmd).status)
  {
    FrameParts(e, s.shell, cmd);
    hide Reached, TagLine, ExecLine, CmdOk, FrameText, AfterCmd, CmdOutput, IsLine, EchoText, FirstLf, Decimal;
    var s1 := ShellOneLine(e, s, cmd + [LF], EOC_CMD + [LF], single);
    var s2 := ShellOneLine(e, s1, EOC_CMD, [LF], single);
    assert [LF] + "" == [LF];
    s' := ShellOneLine(e, s2, [LF], "", single);
    assert "" + CmdOutput(e, s.shell, cmd) == CmdOutput(e, s.shell, cmd);
    assert s2.toHandler + "" == s2.toHandler;
  }

  /** The line the tag of a command ends, when the command runs in the given shell. */
  function TagEnd(e: Env, sh: Shell, cmd: string): string {
    Fragment(CmdOutput(e, sh, cmd)) + TagLine(AfterCmd(e, sh, cmd).status)
  }

  /** The answer to one frame arrives: output handled, the tag in the handler's hand, both streams empty. */
  lemma AnswerArrives(e: Env, s: State, cmd: string, single: bool) returns (s': State)
    requires EnvOk(e) && CmdOk(cmd) && Reached(e, s, single)
    requires s.toShell == FrameText(cmd) && s.emitting == "" && s.toHandler == "" && s.shell.alive && AtLineStart(s)
    ensures Reached(e, s', single) && SameCallers(s, s') && SameAnswers(s, s')
    ensures s'.handler == Got(TagEnd(e, s.shell, cmd)) && s'.pending == ""
    ensures s'.toShell == "" && s'.emitting == "" && s'.toHandler == ""
    ensures s'.shell == AfterCmd(e, s.shell, cmd).(status := 0)
  {
    hide Reached, EnvOk, CmdOk, AfterCmd, CmdOutput, TagLine, Lines, Fragment, Flatten, FrameText, IsLine, Clean;
    var out, tag := CmdOutput(e, s.shell, cmd), TagLine(AfterCmd(e, s.shell, cmd).status);
    var end := Fragment(out) + tag;
    var s1 := ShellAnswers(e, s, cmd, single);
    OutputLines(e, s.shell, cmd);
    Assoc(Flatten(Lines(out)), Fragment(out), tag);
    TagEndIsLine(e, s.shell, cmd);
    var s2 := HandleOutput(e, s1, Lines(out), end, single);
    assert end + "" == end;
    s' := ReadLine(e, s2, end, "", single);
    assert "" + end == end;
  }

  lemma TagEndIsLine(e: Env, sh: Shell, cmd: string)
    ensures IsLine(TagEnd(e, sh, cmd))
  {
    hide CmdOutput, AfterCmd, TagLine;
    TagLineShape(AfterCmd(e, sh, cmd).status);
  }

  lemma OutputLines(e: Env, sh: Shell, cmd: string)
    requires EnvOk(e) && CmdOk(cmd)
    ensures var out := CmdOutput(e, sh, cmd);
            && AllLines(Lines(out)) && Flatten(Lines(out)) + Fragment(out) == out
            && (forall k | 0 <= k < |Lines(out)| :: Clean(Lines(out)[k], EOC_TAG))
            && Clean(Fragment(out), EOC_TAG)
  {
    hide Lines, CmdOutput, Flatten, Clean;
    var out := CmdOutput(e, sh, cmd);
    CmdOutputClean(e, sh, cmd);
    LinesAreLines(out);
    LinesClean(out, EOC_TAG);
    SplitRebuilds(out);
  }

  /** The handler scans the line in its hand: it will signal, and the field takes the status if the output of the
      command is terminated. */
  lemma ScanTagEnd(e: Env, s: State, sh: Shell, cmd: string, single: bool) returns (s': State)
    requires EnvOk(e) && CmdOk(cmd)
    requires Reached(e, s, single) && s.handler == Got(TagEnd(e, sh, cmd)) && s.pending == ""
    ensures Reached(e, s', single) && SameCallers(s, s') && s'.handler == Signalling
    ensures s'.code == if Fragment(CmdOutput(e, sh, cmd)) == "" then AfterCmd(e, sh, cmd).status else s.code
    ensures s'.toShell == s.toShell && s'.emitting == s.emitting && s'.toHandler == s.toHandler && s'.pending == ""
  {
    hide Reached, TagLine, Classify, Arrive, CmdOutput, AfterCmd, Fragment, EnvOk, Clean;
    OutputLines(e, sh, cmd);
    ClassifyTagEnd(Fragment(CmdOutput(e, sh, cmd)), AfterCmd(e, sh, cmd).status);
    ReachStep(e, s, HandleLine, single);
    s' := Apply(e, s, HandleLine);
  }

  // ---- one client ----

  /** The only client has submitted `cmd` and the line its tag ends is in the handler's hand before the reset. */
  lemma FirstAnswer(e: Env, cmd: string, single: bool) returns (s: State)
    requires EnvOk(e) && CmdOk(cmd)
    ensures Reached(e, s, single) && s.frames == [Frame(cmd, Reset)] && s.owner == ByExec(0)
    ensures s.blocked == multiset{} && s.exit == NotCalled && s.h.lost == 0 && s.h.signals == 0
    ensures s.handler == Got(TagEnd(e, Start(e), cmd)) && s.pending == ""
    ensures s.toShell == "" && s.emitting == "" && s.toHandler == ""
  {
    hide Reached, EnvOk, CmdOk, AfterCmd, TagEnd, FrameText;
    ReachFresh(e, single);
    var s1 := AcquireNew(e, Fresh(e), cmd, single);
    assert s1.frames == [Frame(cmd, LogCmd)];
    var s2 := WriteFrame(e, s1, 0, single);
    assert s1.toShell + FrameText(cmd) == FrameText(cmd);
    s := AnswerArrives(e, s2, cmd, single);
  }

  /** The signal may come before the wait: then the only client waits for ever. */
  lemma ClientMayHang(e: Env, cmd: string)
    requires EnvOk(e) && CmdOk(cmd)
    ensures exists s :: Reached(e, s, true) && s.frames == [Frame(cmd, Waiting)] && s.h.lost == 1 && Stuck(s)
  {
    hide Reached, EnvOk, CmdOk, AfterCmd, TagEnd, Fragment, CmdOutput;
    var s1 := FirstAnswer(e, cmd, true);
    var s2 := ScanTagEnd(e, s1, Start(e), cmd, true);
    ReachStep(e, s2, HandlerSignal(None), true);
    var s3 := Apply(e, s2, HandlerSignal(None));
    var s4 := ResetAndWait(e, s3, 0, true);
    assert s4.frames == [Frame(cmd, Waiting)];
    assert Stuck(s4);
  }

  /** The store may come before the reset and the signal after the wait: then the client gets -9996. */
  lemma ClientMayGetInvalid(e: Env, cmd: string)
    requires EnvOk(e) && CmdOk(cmd)
    ensures exists s :: Reached(e, s, true) && s.frames == [Frame(cmd, Done(-9996))]
  {
    hide Reached, EnvOk, CmdOk, AfterCmd, TagEnd, Fragment, CmdOutput;
    var s1 := FirstAnswer(e, cmd, true);
    var s2 := ScanTagEnd(e, s1, Start(e), cmd, true);
    var s3 := ResetAndWait(e, s2, 0, true);
    var s4 := SignalAndReturn(e, s3, 0, true);
    assert s4.frames == [Frame(cmd, Done(INVALID_RESULT))];
  }

  /** The client waits when the tag is scanned, and returns what the field then holds. */
  lemma WaitThenScan(e: Env, cmd: string) returns (s: State)
    requires EnvOk(e) && CmdOk(cmd)
    ensures Reached(e, s, true)
    ensures s.frames == [Frame(cmd, Done(if Terminated(e, [cmd], 0) then Statuses(e, [cmd])[0] else INVALID_RESULT))]
  {
    FirstStatus(e, [cmd]);
    FirstTerminated(e, [cmd]);
    hide Reached, EnvOk, CmdOk, AfterCmd, TagEnd, Fragment, CmdOutput, Statuses, Terminated;
    var s1 := FirstAnswer(e, cmd, true);
    var s2 := ResetAndWait(e, s1, 0, true);
    var s3 := ScanTagEnd(e, s2, Start(e), cmd, true);
    s := SignalAndReturn(e, s3, 0, true);
    assert s.frames == [Frame(cmd, Done(s3.code))];
  }

  /** A client that has returned with a single command got a status only if the command's output is terminated. */
  lemma {:induction false} StatusNeedsLf(e: Env, s: State, cmd: string, r: int)
    requires EnvOk(e) && Reached(e, s, true) && s.frames == [Frame(cmd, Done(r))] && r != INVALID_RESULT
    ensures Terminated(e, [cmd], 0)
  {
    hide SingleRun, EnvOk, Terminated, Statuses;
    var steps, states :| RunTo(e, steps, states, s, true);
    SingleIsRun(e, steps, states);
    SingleClientDelivery(e, steps, states, |states| - 1, 0);
    assert Cmds(s.frames) == [cmd];
  }

  /** A client may get its command's status, when that is not -9996, if and only if the output is terminated. */
  lemma ClientMayGetStatusIff(e: Env, cmd: string)
    requires EnvOk(e) && CmdOk(cmd) && Statuses(e, [cmd])[0] != INVALID_RESULT
    ensures (exists s :: Reached(e, s, true) && s.frames == [Frame(cmd, Done(Statuses(e, [cmd])[0]))])
            <==> Terminated(e, [cmd], 0)
  {
    hide Reached, EnvOk, CmdOk, Statuses, Terminated;
    if Terminated(e, [cmd], 0) {
      var s := WaitThenScan(e, cmd);
    }
    if s :| Reached(e, s, true) && s.frames == [Frame(cmd, Done(Statuses(e, [cmd])[0]))] {
      StatusNeedsLf(e, s, cmd, Statuses(e, [cmd])[0]);
    }
  }

  lemma {:induction false} FirstStatus(e: Env, cmds: seq<string>)
    requires cmds != []
    ensures Statuses(e, cmds)[0] == AfterCmd(e, Start(e), cmds[0]).status
  {
    hide AfterCmd;
    if |cmds| == 1 {
      assert cmds[..0] == [];
    } else {
      FirstStatus(e, cmds[..|cmds| - 1]);
    }
  }

  lemma FirstTerminated(e: Env, cmds: seq<string>)
    requires cmds != []
    ensures Terminated(e, cmds, 0) <==> Fragment(CmdOutput(e, Start(e), cmds[0])) == ""
  {
    hide Fragment, CmdOutput;
    assert cmds[..1] == [cmds[0]] && [cmds[0]][..0] == [];
  }

  // ---- two clients ----

  /** Both callers wait, and the line the first command's tag ends is in the handler's hand. */
  lemma TwoWaiting(e: Env, a: string, b: string) returns (s: State)
    requires EnvOk(e) && CmdOk(a) && CmdOk(b)
    ensures Reached(e, s, false) && s.frames == [Frame(a, Waiting), Frame(b, Waiting)] && s.owner == Free
    ensures s.handler == Got(TagEnd(e, Start(e), a)) && s.pending == ""
  {
    hide *;
    var s1 := FirstAnswer(e, a, false);
    var s2 := ResetAndWait(e, s1, 0, false);
    var s3 := AcquireNew(e, s2, b, false) by { RestKept(s1, s2); }
    assert s3.frames == [Frame(a, Waiting), Frame(b, LogCmd)];
    RestKept(s1, s2);
    RestKept(s2, s3);
    var s4 := WriteFrame(e, s3, 1, false);
    RestKept(s3, s4);
    s := ResetAndWait(e, s4, 1, false);
    RestKept(s4, s);
  }

  lemma RestKept(s: State, s': State)
    requires SameRest(s, s')
    ensures s'.handler == s.handler && s'.pending == s.pending && s'.toHandler == s.toHandler
    ensures s'.h.signals == s.h.signals && s'.h.lost == s.h.lost
  {
  }

  /** With two callers waiting the signal may wake the other one: the caller of `b` returns the status of `a`, whenever
      the output of `a` is terminated. */
  lemma CallerMayGetOthersStatus(e: Env, a: string, b: string)
    requires EnvOk(e) && CmdOk(a) && CmdOk(b) && Terminated(e, [a, b], 0)
    ensures exists s :: Reached(e, s, false)
                        && s.frames == [Frame(a, Waiting), Frame(b, Done(Statuses(e, [a, b])[0]))]
  {
    hide *;
    FirstStatus(e, [a, b]);
    FirstTerminated(e, [a, b]);
    var s1 := TwoWaiting(e, a, b);
    var s2 := ScanTagEnd(e, s1, Start(e), a, false);
    CallersKept(s1, s2);
    var s3 := SignalAndReturn(e, s2, 1, false);
    assert s3.frames == [Frame(a, Waiting), Frame(b, Done(Statuses(e, [a, b])[0]))];
  }

  /** The code is read after the unlock: a caller whose status was stored while it waited, and whose signal was not
      lost, may still get -9996, because the next caller, which has the mutex, resets the field first. */
  lemma NextCallerMayEraseStatus(e: Env, a: string, b: string)
    requires EnvOk(e) && CmdOk(a) && CmdOk(b)
    ensures exists s :: Reached(e, s, false) && s.frames == [Frame(a, Done(-9996)), Frame(b, Wait)]
                        && s.owner == ByExec(1) && s.h.signals == 1 && s.h.lost == 0
  {
    hide *;
    var s1 := FirstAnswer(e, a, false);
    var s2 := ResetAndWait(e, s1, 0, false);
    RestKept(s1, s2);
    var s3 := ScanTagEnd(e, s2, Start(e), a, false);
    CallersKept(s2, s3);
    var s4 := SignalAndUnlock(e, s3, 0, false);
    var s5 := AcquireNew(e, s4, b, false);
    RestKept(s4, s5);
    assert s5.frames == [Frame(a, ReadCode), Frame(b, LogCmd)];
    var s6 := WriteFrame(e, s5, 1, false);
    RestKept(s5, s6);
    var s7 := ResetThenRead(e, s6, 1, 0, false);
    assert s7.frames == [Frame(a, Done(-9996)), Frame(b, Wait)];
  }

  /** The handler signals a waiting caller, who takes the mutex again and leaves it. */
  lemma SignalAndUnlock(e: Env, s: State, i: nat, single: bool) returns (s': State)
    requires Reached(e, s, single) && i < |s.frames| && s.frames[i].pc == Waiting && s.owner == Free
    requires s.handler == Signalling
    ensures Reached(e, s', single) && s'.frames == s.frames[i := s.frames[i].(pc := ReadCode)] && s'.owner == Free
    ensures s'.blocked == s.blocked && s'.exit == s.exit
    ensures s'.h.signals == s.h.signals + 1 && s'.h.lost == s.h.lost
  {
    hide Reached;
    ReachStep(e, s, HandlerSignal(Some(i)), single);
    var s1 := Apply(e, s, HandlerSignal(Some(i)));
    var s2 := Act(e, s1, i, single);
    s' := Act(e, s2, i, single);
  }

  /** One caller resets the field, then another reads it. */
  lemma ResetThenRead(e: Env, s: State, i: nat, j: nat, single: bool) returns (s': State)
    requires Reached(e, s, single) && i < |s.frames| && j < |s.frames| && i != j
    requires s.frames[i].pc == Reset && s.frames[j].pc == ReadCode
    ensures Reached(e, s', single) && s'.owner == s.owner
    ensures s'.frames == s.frames[i := s.frames[i].(pc := Wait)][j := s.frames[j].(pc := Done(-9996))]
    ensures s'.h.signals == s.h.signals && s'.h.lost == s.h.lost
  {
    hide Reached;
    var s1 := Act(e, s, i, single);
    s' := Act(e, s1, j, single);
  }

  /** The exit request signals when the mutex is taken: a caller may be woken by it, before anything was scanned, and
      returns -9996. */
  lemma ExitMayWakeCaller(e: Env, a: string, b: string)
    requires EnvOk(e) && CmdOk(a) && CmdOk(b)
    ensures exists s :: Reached(e, s, false) && s.frames == [Frame(a, Done(-9996)), Frame(b, Waiting)]
                        && s.exit == Lock && s.h.signals == 0
  {
    hide *;
    ReachFresh(e, false);
    FreshState(e);
    var s1 := AcquireNew(e, Fresh(e), a, false);
    assert s1.frames == [Frame(a, LogCmd)];
    RestKept(Fresh(e), s1);
    var s2 := WriteFrame(e, s1, 0, false);
    var s3 := ResetAndWait(e, s2, 0, false);
    var s4 := AcquireNew(e, s3, b, false);
    RestKept(s1, s2);
    RestKept(s2, s3);
    RestKept(s3, s4);
    assert s4.frames == [Frame(a, Waiting), Frame(b, LogCmd)];
    var s5 := ExitSignals(e, s4, 0);
    var s6 := WriteFrame(e, s5, 1, false);
    var s7 := ResetAndWait(e, s6, 1, false);
    RestKept(s5, s6);
    RestKept(s6, s7);
    var s8 := TakeAndReturn(e, s7, 0);
    assert s8.frames == [Frame(a, Done(-9996)), Frame(b, Waiting)];
  }

  lemma FreshState(e: Env)
    ensures var s := Fresh(e); s.blocked == multiset{} && s.owner == Free && s.frames == [] && s.exit == NotCalled
    ensures Fresh(e).h.signals == 0
  {
  }

  /** The exit caller finds the mutex taken and signals a waiting caller. */
  lemma ExitSignals(e: Env, s: State, i: nat) returns (s': State)
    requires Reached(e, s, false) && s.exit == NotCalled && s.owner != Free
    requires i < |s.frames| && s.frames[i].pc == Waiting
    ensures Reached(e, s', false) && s'.frames == s.frames[i := s.frames[i].(pc := Woken)]
    ensures s'.exit == Lock && s'.owner == s.owner && s'.h.signals == s.h.signals
  {
    hide Reached;
    ReachStep(e, s, Exit, false);
    var s1 := Apply(e, s, Exit);
    ReachStep(e, s1, Exit, false);
    var s2 := Apply(e, s1, Exit);
    ReachStep(e, s2, ExitSignal(Some(i)), false);
    s' := Apply(e, s2, ExitSignal(Some(i)));
  }

  /** A woken caller takes the mutex, leaves it and returns the code it finds. */
  lemma TakeAndReturn(e: Env, s: State, i: nat) returns (s': State)
    requires Reached(e, s, false) && i < |s.frames| && s.frames[i].pc == Woken && s.owner == Free
    ensures Reached(e, s', false) && s'.frames == s.frames[i := s.frames[i].(pc := Done(s.code))]
    ensures s'.exit == s.exit && s'.h.signals == s.h.signals
  {
    hide Reached;
    var s1 := Act(e, s, i, false);
    var s2 := Act(e, s1, i, false);
    s' := Act(e, s2, i, false);
  }

  lemma CallersKept(s: State, s': State)
    requires SameCallers(s, s')
    ensures s'.frames == s.frames && s'.owner == s.owner && s'.blocked == s.blocked && s'.exit == s.exit
    ensures s'.h.signals == s.h.signals && s'.h.lost == s.h.lost
  {
  }
}
