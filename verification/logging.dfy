/** The log of every run: which commands and which output lines it holds, with echo switched on and off at will. */
module Logging {
  import opened Arrivals
  import opened Guarantees
  import opened Invariant
  import opened Protocol
  import opened Shell
  import opened Tag
  import opened Text

  /** The command lines in a log, and the output lines in it. */
  function CmdTexts(log: seq<LogEntry>): seq<string> {
    if log == [] then []
    else
      var x := log[|log| - 1];
      CmdTexts(log[..|log| - 1]) + if x.CmdEntry? then [x.cmd] else []
  }

  function OutTexts(log: seq<LogEntry>): seq<string> {
    if log == [] then []
    else
      var x := log[|log| - 1];
      OutTexts(log[..|log| - 1]) + if x.OutEntry? then [x.text] else []
  }

  /** The C strings of the arrivals that should be logged. */
  function LoggedTexts(arrivals: seq<Arrival>): seq<string> {
    if arrivals == [] then []
    else
      var a := arrivals[|arrivals| - 1];
      LoggedTexts(arrivals[..|arrivals| - 1]) + if a.Logged? then [CStr(a.line)] else []
  }

  /** The commands whose callers are past logging them, in lock order. */
  function LoggedCmds(frames: seq<Frame>): seq<string> {
    if frames == [] then []
    else
      var f := frames[|frames| - 1];
      LoggedCmds(frames[..|frames| - 1]) + if f.pc != LogCmd then [f.cmd] else []
  }

  /** The exit request as logged. */
  function LoggedExit(exit: ExitPc): seq<string> {
    if exit in {WriteExit, WriteExitLf, Stopping} then ["exit"] else []
  }

  ghost predicate LogFollows(s: State) {
    && OutTexts(s.log) == LoggedTexts(s.h.arrivals)
    && CmdTexts(s.log) == LoggedCmds(s.frames) + LoggedExit(s.exit)
  }

  // ---- one entry more ----

  lemma {:induction false} EntryAdded(log: seq<LogEntry>, x: LogEntry)
    ensures CmdTexts(log + [x]) == CmdTexts(log) + if x.CmdEntry? then [x.cmd] else []
    ensures OutTexts(log + [x]) == OutTexts(log) + if x.OutEntry? then [x.text] else []
  {
    assert (log + [x])[..|log|] == log;
  }

  lemma {:induction false} ArrivalAdded(m: seq<Arrival>, a: Arrival)
    ensures LoggedTexts(m + [a]) == LoggedTexts(m) + if a.Logged? then [CStr(a.line)] else []
  {
    assert (m + [a])[..|m|] == m;
  }

  /** A caller that moves counts as logged from its first action on. */
  lemma {:induction false} CmdMoved(frames: seq<Frame>, frames': seq<Frame>, i: nat, pc: Pc)
    requires MovedTo(frames, frames', i, pc) && pc != LogCmd
    requires frames[i].pc == LogCmd ==> i == |frames| - 1
    ensures LoggedCmds(frames') == LoggedCmds(frames) + if frames[i].pc == LogCmd then [frames[i].cmd] else []
  {
    var n := |frames| - 1;
    if i == n {
      assert frames'[..n] == frames[..n];
    } else {
      assert MovedTo(frames[..n], frames'[..n], i, pc);
      CmdMoved(frames[..n], frames'[..n], i, pc);
    }
  }

  // ---- steps ----

  lemma ExecLogs(s: State, i: nat)
    requires CanExec(s, i)
    ensures var s' := ExecStep(s, i);
            && s'.h.arrivals == s.h.arrivals && s'.exit == s.exit && s'.frames[i].pc != LogCmd && s'.echo == s.echo
            && s'.log == s.log + if s.frames[i].pc == LogCmd then [CmdEntry(s.frames[i].cmd)] else []
  {
    assert s.log + [] == s.log;
  }

  lemma LogExec(s: State, i: nat)
    requires LockInv(s) && LogFollows(s) && CanExec(s, i)
    ensures LogFollows(ExecStep(s, i))
  {
    var s', f := ExecStep(s, i), s.frames[i];
    ExecMoves(s, i);
    ExecLogs(s, i);
    assert f.pc == LogCmd ==> i == |s.frames| - 1 && LoggedExit(s.exit) == [];
    hide LockInv, ExecStep, CanExec, LoggedCmds, LoggedTexts, CmdTexts, OutTexts, LoggedExit;
    CmdMoved(s.frames, s'.frames, i, s'.frames[i].pc);
    EntryAdded(s.log, CmdEntry(f.cmd));
    assert s.log + [] == s.log && OutTexts(s.log) + [] == OutTexts(s.log);
    assert LoggedCmds(s.frames) + [] == LoggedCmds(s.frames);
    var c := LoggedCmds(s.frames) + [f.cmd];
    assert c + [] == c;
  }

  lemma ExitLogs(s: State)
    requires LogFollows(s) && CanExit(s)
    ensures LogFollows(ExitStep(s))
  {
    hide LoggedCmds, LoggedTexts, CmdTexts, OutTexts;
    if s.exit == LogExit {
      EntryAdded(s.log, CmdEntry(EXIT_CMD));
      assert OutTexts(s.log) + [] == OutTexts(s.log);
      assert LoggedCmds(s.frames) + [] == LoggedCmds(s.frames);
    }
  }

  lemma LogWake(s: State, w: Option<nat>)
    requires CanWake(s, w)
    ensures LoggedCmds(Wake(s, w).frames) == LoggedCmds(s.frames)
    ensures Wake(s, w).log == s.log && Wake(s, w).exit == s.exit && Wake(s, w).h == s.h && Wake(s, w).echo == s.echo
  {
    if w.Some? {
      CmdMoved(s.frames, Wake(s, w).frames, w.value, Woken);
      assert LoggedCmds(s.frames) + [] == LoggedCmds(s.frames);
    }
  }

  lemma {:induction false} LogAcquire(frames: seq<Frame>, cmd: string)
    ensures LoggedCmds(frames + [Frame(cmd, LogCmd)]) == LoggedCmds(frames)
  {
    assert (frames + [Frame(cmd, LogCmd)])[..|frames|] == frames;
    assert LoggedCmds(frames) + [] == LoggedCmds(frames);
  }

  /** What a line becomes, by the echo switch as it stands when the line is handled, and what it adds to the log. */
  lemma {:induction false} LineArrives(s: State, line: string)
    ensures var s', tagged := HandleLineStep(s, line), Contains(CStr(line), EOC_TAG);
            && s'.h.arrivals == s.h.arrivals +
                                [if tagged then Tagged(line) else if s.echo then Logged(line) else Silenced(line)]
            && s'.log == s.log + (if !tagged && s.echo then [OutEntry(CStr(line))] else [])
            && s'.frames == s.frames && s'.exit == s.exit && s'.echo == s.echo
  {
    TaggedIff(line);
    hide Classify, CStr, Contains;
    assert s.log + [] == s.log;
  }

  lemma LogLine(s: State, line: string)
    requires LogFollows(s)
    ensures LogFollows(HandleLineStep(s, line))
  {
    LineArrives(s, line);
    var m, text := s.h.arrivals, CStr(line);
    hide HandleLineStep, CStr, Contains, LoggedCmds, LoggedTexts, CmdTexts, OutTexts, LoggedExit;
    EntryAdded(s.log, OutEntry(text));
    ArrivalAdded(m, Tagged(line));
    ArrivalAdded(m, Logged(line));
    ArrivalAdded(m, Silenced(line));
    assert s.log + [] == s.log && CmdTexts(s.log) + [] == CmdTexts(s.log) && LoggedTexts(m) + [] == LoggedTexts(m);
  }

  /** Only the handler's scan makes arrivals, and only the switch changes the echo. */
  lemma EchoStep(e: Env, s: State, step: Step)
    requires Enabled(s, step)
    ensures Apply(e, s, step).echo == if step.SetEcho? then step.on else s.echo
    ensures !step.HandleLine? ==> Apply(e, s, step).h.arrivals == s.h.arrivals
  {
    hide CmdOk, ExecLine, FirstLf, Classify, CStr, Arrive, ExecStep, CanExec;
    match step
    case Exec(i) => ExecLogs(s, i);
    case HandleLine => LineArrives(s, s.handler.line);
    case _ =>
  }

  lemma LogStep(e: Env, s: State, step: Step)
    requires LockInv(s) && LogFollows(s) && Enabled(s, step)
    ensures LogFollows(Apply(e, s, step))
  {
    hide LockInv, CmdOk, ExecLine, FirstLf, ExecStep, CanExec, ExitStep, CanExit, HandleLineStep, Wake;
    hide LoggedCmds, LoggedTexts, CmdTexts, OutTexts;
    match step
    case Exec(i) => LogExec(s, i);
    case Exit => ExitLogs(s);
    case ExitSignal(w) => LogWake(s, w);
    case HandlerSignal(w) => LogWake(s, w);
    case Acquire(cmd) => LogAcquire(s.frames, cmd);
    case HandleLine => LogLine(s, s.handler.line);
    case _ =>
  }

  lemma {:induction false} RunLog(e: Env, steps: seq<Step>, states: seq<State>, k: nat)
    requires Run(e, steps, states) && k < |states|
    ensures LogFollows(states[k])
  {
    hide Inv, LogFollows, Enabled, Apply;
    if k == 0 {
      InitialLog(e, states[0]);
    } else {
      RunLog(e, steps, states, k - 1);
      RunKeepsInv(e, steps, states, k - 1);
      Locked(e, states[k - 1]);
      assert states[k - 1 + 1] == Apply(e, states[k - 1], steps[k - 1]);
      LogStep(e, states[k - 1], steps[k - 1]);
    }
  }

  lemma InitialLog(e: Env, s: State)
    requires Initial(e, s)
    ensures LogFollows(s)
  {
  }

  // ---- the last line ----

  /** Arrival i is the last one without the tag. */
  predicate IsLastOutput(arrivals: seq<Arrival>, i: int) {
    && 0 <= i < |arrivals| && !arrivals[i].Tagged?
    && forall j | i < j < |arrivals| :: arrivals[j].Tagged?
  }

  /** The last line kept is the C string of the last arrival without the tag, if there is one. */
  ghost predicate KeepsLast(arrivals: seq<Arrival>, last: Option<string>) {
    && (forall i | IsLastOutput(arrivals, i) :: last == Some(CStr(arrivals[i].line)))
    && ((forall a | a in arrivals :: a.Tagged?) ==> last == None)
  }

  lemma {:induction false} LastOutputIsLast(arrivals: seq<Arrival>)
    ensures KeepsLast(arrivals, LastOutput(arrivals))
  {
    hide CStr;
    if arrivals != [] {
      var m := arrivals[..|arrivals| - 1];
      LastOutputIsLast(m);
      forall i | IsLastOutput(arrivals, i) ensures LastOutput(arrivals) == Some(CStr(arrivals[i].line)) {
        if i < |m| {
          assert arrivals[|m|].Tagged? && IsLastOutput(m, i);
        }
      }
    }
  }

  /** The log of every run, with any number of callers, an exit request and any switching of the echo: its command
      entries are the commands logged so far in lock order, then the exit request; its output entries are the C strings
      of exactly the lines that arrived without the tag while echo was on, in order. The last line kept is the last
      line without the tag, logged or not. */
  lemma {:induction false} LogIsExact(e: Env, steps: seq<Step>, states: seq<State>, k: nat)
    requires Run(e, steps, states) && k < |states|
    ensures LogFollows(states[k])
    ensures !states[k].handler.Keeping? ==> KeepsLast(states[k].h.arrivals, states[k].last)
  {
    hide Run, LogFollows, KeepsLast, LockInv, CmdsInv, SentInv, ShellInv, HandlerInv, CountInv, LastOutput;
    RunLog(e, steps, states, k);
    RunKeepsInv(e, steps, states, k);
    LastOutputIsLast(states[k].h.arrivals);
  }
}
