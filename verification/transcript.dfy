/** The log a single client gets when echo stays on. */
module Transcript {
  import opened Arrivals
  import opened Guarantees
  import opened Invariant
  import opened Protocol
  import opened Shell
  import opened SingleClient
  import opened Tag
  import opened Text

  /** A single client that leaves echo on. */
  ghost predicate EchoRun(e: Env, steps: seq<Step>, states: seq<State>) {
    && SingleRun(e, steps, states)
    && forall k | 0 <= k < |steps| :: steps[k] != SetEcho(false)
  }

  /** Output without what follows its last LF; all of it when it is terminated. */
  function WholeLines(out: string): string {
    out[..|out| - |Fragment(out)|]
  }

  /** The transcript of commands: each command line, then its output up to the last LF. */
  function TranscriptText(e: Env, cmds: seq<string>): string {
    if cmds == [] then ""
    else
      TranscriptText(e, cmds[..|cmds| - 1])
      + ("# " + cmds[|cmds| - 1] + [LF])
      + WholeLines(LastCmdOutput(e, cmds))
  }

  function OutLines(lines: seq<string>): seq<LogEntry> {
    seq(|lines|, i requires 0 <= i < |lines| => OutEntry(lines[i]))
  }

  /** The transcript as log entries. */
  function Entries(e: Env, cmds: seq<string>): seq<LogEntry> {
    if cmds == [] then []
    else
      Entries(e, cmds[..|cmds| - 1]) + [CmdEntry(cmds[|cmds| - 1])] + OutLines(Lines(LastCmdOutput(e, cmds)))
  }

  /** The entries the handler logs for raw lines while echo is on. */
  function LoggedFor(lines: seq<string>): seq<LogEntry> {
    if lines == [] then [] else LoggedFor(lines[..|lines| - 1]) + LoggedOne(lines[|lines| - 1])
  }

  function LoggedOne(line: string): seq<LogEntry> {
    if Classify(line) == Output then [OutEntry(CStr(line))] else []
  }

  /** The log is the transcript of the earlier commands, then, once the newest command is logged, that command and
      the output lines that have arrived since. */
  ghost predicate LogOk(e: Env, cmds: seq<string>, logged: bool, raw: seq<string>, log: seq<LogEntry>) {
    if cmds == [] then raw == [] && log == []
    else
      var prev := cmds[..|cmds| - 1];
      var base := ReplyLines(e, prev);
      if !logged then raw == base && log == Entries(e, prev)
      else base <= raw && log == Entries(e, prev) + [CmdEntry(cmds[|cmds| - 1])] + LoggedFor(raw[|base|..])
  }

  predicate NewestLogged(frames: seq<Frame>) {
    frames != [] && frames[|frames| - 1].pc != LogCmd
  }

  ghost predicate LogInv(e: Env, s: State) {
    s.echo && LogOk(e, Cmds(s.frames), NewestLogged(s.frames), RawLines(s.h.arrivals), s.log)
  }

  // ---- the entries of whole replies ----

  lemma {:induction false} LoggedForSnoc(lines: seq<string>, l: string)
    ensures LoggedFor(lines + [l]) == LoggedFor(lines) + LoggedOne(l)
  {
    assert (lines + [l])[..|lines|] == lines;
  }

  lemma CleanIsLogged(line: string)
    requires Clean(line, EOC_TAG)
    ensures LoggedOne(line) == [OutEntry(line)]
  {
    ClassifyClean(line);
    CStrOfNulFree(line);
    hide Classify, CStr;
  }

  lemma {:induction false} CleanAreLogged(lines: seq<string>)
    requires forall k | 0 <= k < |lines| :: Clean(lines[k], EOC_TAG)
    ensures LoggedFor(lines) == OutLines(lines)
  {
    hide Clean, LoggedOne;
    if lines != [] {
      var n := |lines| - 1;
      CleanAreLogged(lines[..n]);
      CleanIsLogged(lines[n]);
      assert OutLines(lines) == OutLines(lines[..n]) + [OutEntry(lines[n])];
    }
  }

  lemma {:induction false} LoggedReply(e: Env, cmds: seq<string>)
    requires EnvOk(e) && AllCmdsOk(cmds) && cmds != []
    ensures LoggedFor(Lines(LastCmdOutput(e, cmds)) + [LastTagLine(e, cmds)]) ==
            OutLines(Lines(LastCmdOutput(e, cmds)))
  {
    hide *;
    var out, tag := Lines(LastCmdOutput(e, cmds)), LastTagLine(e, cmds);
    LastOutputLines(e, cmds);
    CleanAreLogged(out);
    LoggedForSnoc(out, tag);
    LastTagLineEffect(e, cmds);
    SignalsNotLogged(tag);
    assert LoggedFor(out) + [] == LoggedFor(out);
  }

  lemma SignalsNotLogged(line: string)
    requires SignalsOf(line) == 1
    ensures LoggedOne(line) == []
  {
    hide Classify;
  }

  /** Once the newest reply is complete, the log is the whole transcript. */
  lemma {:induction false} LogComplete(e: Env, cmds: seq<string>, raw: seq<string>, log: seq<LogEntry>)
    requires EnvOk(e) && AllCmdsOk(cmds) && LogOk(e, cmds, cmds != [], raw, log)
    requires raw == ReplyLines(e, cmds)
    ensures log == Entries(e, cmds)
  {
    hide Lines, LastTagLine, LastCmdOutput, EnvOk, AllCmdsOk, OutLines, LoggedFor;
    if cmds != [] {
      var base, out, tag := ReplyLines(e, cmds[..|cmds| - 1]), Lines(LastCmdOutput(e, cmds)), LastTagLine(e, cmds);
      LoggedReply(e, cmds);
      assert raw == base + out + [tag];
      assert raw[|base|..] == out + [tag];
    }
  }

  /** Before the newest command is logged nothing of its frame is sent, so no line of its reply can have arrived. */
  lemma {:induction false} NothingArrivesBeforeLog(e: Env, s: State, line: string)
    requires Inv(e, s) && s.exit == NotCalled && s.handler == Got(line)
    requires LogOk(e, Cmds(s.frames), NewestLogged(s.frames), RawLines(s.h.arrivals), s.log)
    ensures NewestLogged(s.frames)
  {
    hide *;
    if !NewestLogged(s.frames) {
      LineRead(e, s, line);
      ReadInOrder(e, s);
      NotLogged(e, s, line);
      if s.frames != [] {
        NewestNotLogged(s.frames);
        UnsentReply(e, s);
      }
      assert false;
    }
  }

  lemma LineRead(e: Env, s: State, line: string)
    requires Inv(e, s) && s.handler == Got(line)
    ensures Lines(s.h.read) == RawLines(s.h.arrivals) + [line]
  {
    hide Lines, RawLines, LockInv, CmdsInv, SentInv, ShellInv, LastInv, CountInv, Codes, Signals, Fragment;
  }

  /** With the newest command not logged the lines that arrived are exactly the replies to the earlier ones. */
  lemma NotLogged(e: Env, s: State, line: string)
    requires LogOk(e, Cmds(s.frames), NewestLogged(s.frames), RawLines(s.h.arrivals), s.log)
    requires !NewestLogged(s.frames)
    ensures s.frames == [] ==> !(RawLines(s.h.arrivals) + [line] <= ReplyLines(e, Cmds(s.frames)))
    ensures s.frames != [] ==> !(RawLines(s.h.arrivals) + [line] <= ReplyLines(e, Cmds(s.frames)[..|s.frames| - 1]))
  {
    hide Entries, Lines, LastTagLine, NewestLogged, RawLines;
    var cmds := Cmds(s.frames);
    if cmds == [] {
      assert ReplyLines(e, cmds) == [];
    } else {
      assert |RawLines(s.h.arrivals) + [line]| > |ReplyLines(e, cmds[..|cmds| - 1])|;
    }
  }

  lemma NewestNotLogged(frames: seq<Frame>)
    requires !NewestLogged(frames) && frames != []
    ensures frames[|frames| - 1].pc == LogCmd
  {
  }

  lemma {:induction false} UnsentReply(e: Env, s: State)
    requires Inv(e, s) && s.exit == NotCalled
    requires s.frames != [] && s.frames[|s.frames| - 1].pc == LogCmd
    ensures Lines(s.h.read) <= ReplyLines(e, Cmds(s.frames)[..|s.frames| - 1])
  {
    hide *;
    UnsentConsumed(e, s);
    ReadIsSent(e, s);
    ReadIsReply(e, Cmds(s.frames)[..|s.frames| - 1], false, s.h.consumed, s.h.read);
  }

  lemma ReadIsSent(e: Env, s: State)
    requires Inv(e, s)
    ensures s.h.read <= RunLines(e, s.h.consumed).1
  {
    hide RunLines, Flatten, LockInv, CmdsInv, SentInv, HandlerInv, LastInv, CountInv;
    Assoc(s.h.read, s.toHandler, s.emitting);
  }

  lemma {:induction false} UnsentSent(e: Env, s: State)
    requires Inv(e, s) && s.exit == NotCalled
    requires s.frames != [] && s.frames[|s.frames| - 1].pc == LogCmd
    ensures s.h.sent == FramesText(Cmds(s.frames)[..|s.frames| - 1])
  {
    hide Lines, Flatten, RunLines, FrameText, HandlerInv, CountInv, LastInv, LockInv, ShellInv, CmdsInv;
    var n := |s.frames| - 1;
    var t, f := FramesText(Cmds(s.frames)[..n]), FrameText(s.frames[n].cmd);
    assert t + f + "" == t + f;
    CancelRight(s.h.sent, t, f);
  }

  lemma {:induction false} UnsentConsumed(e: Env, s: State)
    requires Inv(e, s) && s.exit == NotCalled
    requires s.frames != [] && s.frames[|s.frames| - 1].pc == LogCmd
    ensures AllCmdsOk(Cmds(s.frames)[..|s.frames| - 1])
    ensures s.h.consumed <= InputLines(Cmds(s.frames)[..|s.frames| - 1], false)
  {
    hide Lines, FramesText, Flatten, RunLines, FrameText, CmdOk, HandlerInv, CountInv, LastInv, LockInv, SentInv;
    var prev := Cmds(s.frames)[..|s.frames| - 1];
    UnsentSent(e, s);
    SplitUnique(s.h.consumed, s.toShell);
    FramesSplit(prev);
    assert AllFrameLines(prev) + [] == AllFrameLines(prev);
  }

  // ---- every step keeps it ----

  lemma LogExec(e: Env, s: State, i: nat)
    requires LogInv(e, s) && CanExec(s, i) && i == |s.frames| - 1
    ensures LogInv(e, ExecStep(s, i))
  {
    var s' := ExecStep(s, i);
    ExecMoves(s, i);
    CmdsMoved(s.frames, s'.frames, i, s'.frames[i].pc);
    ExecLogs(s, i);
    hide ExecStep, CanExec, RawLines, ReplyLines, Entries, Cmds;
    assert NewestLogged(s'.frames);
    if s.frames[i].pc == LogCmd {
      var raw := RawLines(s.h.arrivals);
      assert raw[|raw|..] == [];
      assert s.log + [CmdEntry(s.frames[i].cmd)] + [] == s.log + [CmdEntry(s.frames[i].cmd)];
    }
  }

  lemma ExecLogs(s: State, i: nat)
    requires CanExec(s, i)
    ensures var s' := ExecStep(s, i);
            && s'.echo == s.echo && s'.h.arrivals == s.h.arrivals && s'.frames[i].pc != LogCmd
            && s'.log == s.log + if s.frames[i].pc == LogCmd then [CmdEntry(s.frames[i].cmd)] else []
  {
  }

  lemma LogAcquire(e: Env, s: State, cmd: string)
    requires EnvOk(e) && Inv(e, s) && OneAtATime(s) && LogInv(e, s) && Enabled(s, Acquire(cmd))
    ensures LogInv(e, Apply(e, s, Acquire(cmd)))
  {
    hide Inv, EnvOk, Entries, ReplyLines, RawLines, LogOk;
    var cmds, cmds' := Cmds(s.frames), Cmds(s.frames + [Frame(cmd, LogCmd)]);
    assert s.blocked != multiset{};
    IdleIsAnswered(e, s);
    CmdsGood(e, s);
    LogComplete(e, cmds, RawLines(s.h.arrivals), s.log);
    assert cmds'[..|cmds'| - 1] == cmds;
    LogStarts(e, cmds', RawLines(s.h.arrivals), s.log);
  }

  lemma LogStarts(e: Env, cmds: seq<string>, raw: seq<string>, log: seq<LogEntry>)
    requires cmds != [] && raw == ReplyLines(e, cmds[..|cmds| - 1]) && log == Entries(e, cmds[..|cmds| - 1])
    ensures LogOk(e, cmds, false, raw, log)
  {
    hide ReplyLines, Entries;
  }

  lemma {:induction false} LogLine(e: Env, cmds: seq<string>, raw: seq<string>, log: seq<LogEntry>, line: string)
    requires cmds != [] && LogOk(e, cmds, true, raw, log)
    ensures LogOk(e, cmds, true, raw + [line], log + LoggedOne(line))
  {
    hide ReplyLines, Entries, LoggedOne, LoggedFor;
    var base := ReplyLines(e, cmds[..|cmds| - 1]);
    assert (raw + [line])[|base|..] == raw[|base|..] + [line];
    LoggedForSnoc(raw[|base|..], line);
    var x := Entries(e, cmds[..|cmds| - 1]) + [CmdEntry(cmds[|cmds| - 1])];
    assert x + (LoggedFor(raw[|base|..]) + LoggedOne(line)) == x + LoggedFor(raw[|base|..]) + LoggedOne(line);
  }

  lemma LineLogs(s: State, line: string)
    requires s.echo
    ensures var s' := HandleLineStep(s, line);
            && s'.frames == s.frames && s'.echo
            && s'.h.arrivals == s.h.arrivals + [Arrive(line, s.echo)] && Arrive(line, s.echo).line == line
            && s'.log == s.log + LoggedOne(line)
  {
    hide Classify, CStr;
    assert s.log + [] == s.log;
  }

  lemma LogHandles(e: Env, s: State, line: string)
    requires EnvOk(e) && Inv(e, s) && s.exit == NotCalled && s.handler == Got(line) && LogInv(e, s)
    ensures LogInv(e, HandleLineStep(s, line))
  {
    hide Inv, EnvOk, LogOk, HandleLineStep, Cmds, RawLines, LoggedOne;
    NothingArrivesBeforeLog(e, s, line);
    LogLine(e, Cmds(s.frames), RawLines(s.h.arrivals), s.log, line);
    LineLogs(s, line);
    RawSnoc(s.h.arrivals, Arrive(line, s.echo));
  }

  lemma LogSignals(e: Env, s: State, w: Option<nat>)
    requires LogInv(e, s) && CanWake(s, w)
    ensures LogInv(e, HandlerSignalStep(s, w))
  {
    hide LogOk, Cmds, RawLines;
    WakeKeepsCmds(s, w);
    assert NewestLogged(Wake(s, w).frames) == NewestLogged(s.frames);
  }

  lemma OthersKeepLog(e: Env, s: State, step: Step)
    requires LogInv(e, s) && Enabled(s, step) && step != SetEcho(false)
    requires (!MovesCaller(step) && !step.HandleLine?) || step.Call?
    ensures LogInv(e, Apply(e, s, step))
  {
    hide CmdOk, Classify, ExecLine, FirstLf, CStr, Arrive, LogOk, Cmds, RawLines, NewestLogged;
  }

  lemma LogStep(e: Env, s: State, step: Step)
    requires EnvOk(e) && Inv(e, s) && OneAtATime(s) && LogInv(e, s)
    requires Enabled(s, step) && SingleStep(s, step) && step != SetEcho(false)
    ensures LogInv(e, Apply(e, s, step))
  {
    hide Inv, EnvOk, LogInv, ExecStep, HandleLineStep, HandlerSignalStep;
    match step
    case Exec(i) => OneAtATimeExec(s, i); LogExec(e, s, i);
    case HandlerSignal(w) => LogSignals(e, s, w);
    case Acquire(cmd) => LogAcquire(e, s, cmd);
    case HandleLine => LogHandles(e, s, s.handler.line);
    case _ => OthersKeepLog(e, s, step);
  }

  lemma InitialLog(e: Env, s: State)
    requires Initial(e, s)
    ensures LogInv(e, s)
  {
  }

  lemma {:induction false} EchoRunInv(e: Env, steps: seq<Step>, states: seq<State>, k: nat)
    requires EnvOk(e) && EchoRun(e, steps, states) && k < |states|
    ensures LogInv(e, states[k])
  {
    hide Inv, EnvOk, LogInv, OneAtATime, Apply, Enabled, SingleStep, Initial;
    if k == 0 {
      InitialLog(e, states[0]);
    } else {
      EchoRunInv(e, steps, states, k - 1);
      SingleRunInv(e, steps, states, k - 1);
      RunLink(e, steps, states, k - 1);
      LogStep(e, states[k - 1], steps[k - 1]);
    }
  }

  // ---- the text ----

  lemma {:induction false} RenderSnoc(log: seq<LogEntry>, x: LogEntry)
    ensures Render(log + [x]) == Render(log) +
                                 match x
                                 case CmdEntry(cmd) => "# " + cmd + [LF]
                                 case OutEntry(text) => text
  {
    assert (log + [x])[..|log|] == log;
  }

  lemma {:induction false} RenderOut(log: seq<LogEntry>, lines: seq<string>)
    ensures Render(log + OutLines(lines)) == Render(log) + Flatten(lines)
  {
    hide Render, Flatten;
    if lines == [] {
      assert log + OutLines(lines) == log;
      FlattenConcat([], []);
      assert Flatten([]) == "" by { EmptyFlatten(); }
      assert Render(log) + "" == Render(log);
    } else {
      var n := |lines| - 1;
      RenderOut(log, lines[..n]);
      RenderSnoc(log + OutLines(lines[..n]), OutEntry(lines[n]));
      assert log + OutLines(lines) == log + OutLines(lines[..n]) + [OutEntry(lines[n])];
      FlattenSnoc(lines[..n], lines[n]);
      assert lines == lines[..n] + [lines[n]];
      Assoc(Render(log), Flatten(lines[..n]), lines[n]);
    }
  }

  lemma EmptyFlatten()
    ensures Flatten([]) == ""
  {
  }

  lemma {:induction false} EntriesText(e: Env, cmds: seq<string>)
    ensures Render(Entries(e, cmds)) == TranscriptText(e, cmds)
  {
    if cmds != [] {
      hide Render, Lines, LastCmdOutput, WholeLines;
      var prev, c, out := cmds[..|cmds| - 1], cmds[|cmds| - 1], LastCmdOutput(e, cmds);
      EntriesText(e, prev);
      RenderSnoc(Entries(e, prev), CmdEntry(c));
      RenderOut(Entries(e, prev) + [CmdEntry(c)], Lines(out));
      LinesAreWhole(out);
    }
  }

  lemma LinesAreWhole(out: string)
    ensures Flatten(Lines(out)) == WholeLines(out)
  {
    SplitRebuilds(out);
    hide Lines, Flatten, Fragment;
    var lines := Flatten(Lines(out));
    assert (lines + Fragment(out))[..|lines|] == lines;
  }

  /** No logged output holds the tag. */
  ghost predicate NoTagLogged(log: seq<LogEntry>) {
    forall k | 0 <= k < |log| && log[k].OutEntry? :: !Contains(log[k].text, EOC_TAG)
  }

  lemma {:induction false} EntriesClean(e: Env, cmds: seq<string>)
    requires EnvOk(e) && AllCmdsOk(cmds)
    ensures NoTagLogged(Entries(e, cmds))
  {
    if cmds != [] {
      hide Lines, LastCmdOutput, EnvOk, CmdOk, Contains, NulFree;
      EntriesClean(e, cmds[..|cmds| - 1]);
      LastOutputLines(e, cmds);
    }
  }

  /** The transcript theorem: when the newest call of a single client has returned, the log appended since the session
      opened is exactly, command by command, the command line and that command's output up to its last LF, and no
      output entry holds a tag. */
  lemma {:induction false} TranscriptTheorem(e: Env, steps: seq<Step>, states: seq<State>, k: nat)
    requires EnvOk(e) && SingleRun(e, steps, states) && k < |states|
    requires forall j | 0 <= j < |steps| :: steps[j] != SetEcho(false)
    requires var f := states[k].frames; f != [] && f[|f| - 1].pc.Done?
    ensures Render(states[k].log) == TranscriptText(e, Cmds(states[k].frames))
    ensures NoTagLogged(states[k].log)
  {
    hide Inv, EnvOk, OneAtATime, Render, Entries, TranscriptText, LogOk, EchoRun, NoTagLogged, ReplyLines, RawLines;
    hide Cmds;
    var s := states[k];
    SingleRunInv(e, steps, states, k);
    ItIsEchoRun(e, steps, states);
    EchoRunInv(e, steps, states, k);
    DoneIsPast(s.frames[|s.frames| - 1].pc);
    IdleIsAnswered(e, s);
    CmdsGood(e, s);
    LogComplete(e, Cmds(s.frames), RawLines(s.h.arrivals), s.log);
    EntriesText(e, Cmds(s.frames));
    EntriesClean(e, Cmds(s.frames));
  }

  lemma DoneIsPast(pc: Pc)
    requires pc.Done?
    ensures IsPast(pc)
  {
  }

  lemma ItIsEchoRun(e: Env, steps: seq<Step>, states: seq<State>)
    requires SingleRun(e, steps, states)
    requires forall j | 0 <= j < |steps| :: steps[j] != SetEcho(false)
    ensures EchoRun(e, steps, states)
  {
  }
}
