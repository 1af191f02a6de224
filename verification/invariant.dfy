/** What every step of the protocol keeps, for any number of exec callers and one exit request. */
module Invariant {
  import opened Arrivals
  import opened Protocol
  import opened Shell
  import opened Tag
  import opened Text

  /** One owner at most, and it is the one caller between lock and unlock; only the newest frame is being written. */
  ghost predicate LockInv(s: State) {
    && (forall i | 0 <= i < |s.frames| :: HoldsLock(s.frames[i].pc) <==> s.owner == ByExec(i))
    && (forall i | 0 <= i < |s.frames| :: Submitting(s.frames[i].pc) ==> i == |s.frames| - 1)
    && (s.owner.ByExec? ==> s.owner.i < |s.frames|)
    && (s.owner == ByExit <==> ExitOwns(s.exit))
  }

  ghost predicate CmdsInv(s: State) {
    && AllCmdsOk(Cmds(s.frames))
    && (forall c | c in s.blocked :: CmdOk(c))
  }

  function OwedLast(frames: seq<Frame>): string {
    if frames == [] then "" else Owed(frames[|frames| - 1])
  }

  /** What is sent and what the newest caller still owes make whole frames in lock order, then the exit line. */
  ghost predicate SentInv(s: State) {
    s.h.sent + OwedLast(s.frames) == FramesText(Cmds(s.frames)) + ExitWritten(s.exit)
  }

  /** No byte is lost on the way to the shell and back. */
  ghost predicate ShellInv(e: Env, s: State) {
    && s.h.sent == Flatten(s.h.consumed) + s.toShell
    && AllLines(s.h.consumed)
    && RunLines(e, s.h.consumed) == (s.shell, s.h.read + s.toHandler + s.emitting)
  }

  /** The handler's arrivals and its line in hand are the lines read; its effects follow from them. */
  ghost predicate HandlerInv(s: State) {
    var raw := RawLines(s.h.arrivals);
    && (s.handler.Got? ==>
          Lines(s.h.read) == raw + [s.handler.line] && s.pending == "" && Fragment(s.h.read) == "")
    && (!s.handler.Got? ==> Lines(s.h.read) == raw && s.pending == Fragment(s.h.read))
    && s.h.stores == Codes(raw)
    && s.h.signals + (if s.handler == Signalling then 1 else 0) == Signals(raw)
    && (forall k | 0 <= k < |raw| :: s.h.arrivals[k].Tagged? <==> Classify(raw[k]).TagMark?)
  }

  /** The last line kept is the last output line that arrived, once the handler is done with it. */
  ghost predicate LastInv(s: State) {
    if s.handler.Keeping? then Some(s.handler.text) == LastOutput(s.h.arrivals)
    else s.last == LastOutput(s.h.arrivals)
  }

  /** Every signal woke one caller or found none waiting; the exit caller's own signal woke at most one more. */
  ghost predicate CountInv(s: State) {
    && Count(s.frames, IsPast) + s.h.lost == s.h.signals + s.h.exitWakes
    && s.h.exitWakes <= 1
    && (s.exit in {NotCalled, TryLock, Signal} ==> s.h.exitWakes == 0)
  }

  ghost predicate Inv(e: Env, s: State) {
    LockInv(s) && CmdsInv(s) && SentInv(s) && ShellInv(e, s) && HandlerInv(s) && LastInv(s) && CountInv(s)
  }

  // ---- the initial state ----

  lemma InitialInv(e: Env, s: State)
    requires Initial(e, s)
    ensures Inv(e, s)
  {
  }

  // ---- which part of the state each kind of step touches ----

  /** Steps of exec callers and the exit caller, and signals, which may move a caller. */
  predicate MovesCaller(step: Step) {
    step.Call? || step.Acquire? || step.Exec? || step.Exit? || step.ExitSignal? || step.HandlerSignal?
  }

  lemma OthersKeepCallers(e: Env, s: State, step: Step)
    requires Enabled(s, step) && !MovesCaller(step)
    ensures var s' := Apply(e, s, step);
            && s'.frames == s.frames && s'.owner == s.owner && s'.exit == s.exit && s'.blocked == s.blocked
            && s'.h.sent == s.h.sent && s'.h.exitWakes == s.h.exitWakes
            && s'.h.signals == s.h.signals && s'.h.lost == s.h.lost
  {
    hide Classify, ExecLine, FirstLf, CStr, CmdOk, Arrive;
  }

  /** One frame's program counter changed, nothing else in the list. */
  predicate MovedTo(frames: seq<Frame>, frames': seq<Frame>, i: nat, pc: Pc) {
    i < |frames| && frames' == frames[i := frames[i].(pc := pc)]
  }

  lemma ExecMoves(s: State, i: nat)
    requires CanExec(s, i)
    ensures MovedTo(s.frames, ExecStep(s, i).frames, i, ExecStep(s, i).frames[i].pc)
    ensures ExecStep(s, i).blocked == s.blocked
  {
  }

  lemma ExitKeepsFrames(s: State)
    requires CanExit(s)
    ensures ExitStep(s).frames == s.frames && ExitStep(s).blocked == s.blocked
  {
  }

  lemma {:induction false} CmdsMoved(frames: seq<Frame>, frames': seq<Frame>, i: nat, pc: Pc)
    requires MovedTo(frames, frames', i, pc)
    ensures Cmds(frames') == Cmds(frames)
  {
  }

  // ---- lock ----

  /** How a caller's action changes the owner. */
  lemma ExecLock(s: State, i: nat)
    requires CanExec(s, i)
    ensures var s', pc, pc' := ExecStep(s, i), s.frames[i].pc, ExecStep(s, i).frames[i].pc;
            && (Submitting(pc') ==> Submitting(pc))
            && s'.exit == s.exit
            && (pc == Woken ==> s.owner == Free)
            && (if HoldsLock(pc) == HoldsLock(pc') then s'.owner == s.owner
                else if HoldsLock(pc') then s.owner == Free && s'.owner == ByExec(i)
                else s'.owner == Free)
  {
  }

  lemma LockExec(s: State, i: nat)
    requires LockInv(s) && CanExec(s, i)
    ensures LockInv(ExecStep(s, i))
  {
    var s' := ExecStep(s, i);
    var pc' := s'.frames[i].pc;
    ExecMoves(s, i);
    ExecLock(s, i);
    hide ExecStep, CanExec, Submitting, HoldsLock;
    assert forall j | 0 <= j < |s.frames| && j != i :: s'.frames[j] == s.frames[j];
    assert forall j | 0 <= j < |s'.frames| :: HoldsLock(s'.frames[j].pc) <==> s'.owner == ByExec(j);
    assert forall j | 0 <= j < |s'.frames| :: Submitting(s'.frames[j].pc) ==> j == |s'.frames| - 1;
    assert s'.owner.ByExec? ==> s'.owner.i < |s'.frames|;
    assert s'.owner == ByExit <==> ExitOwns(s'.exit);
  }

  lemma LockWake(s: State, w: Option<nat>)
    requires LockInv(s) && CanWake(s, w)
    ensures LockInv(Wake(s, w))
  {
  }

  lemma LockExit(s: State)
    requires LockInv(s) && CanExit(s)
    ensures LockInv(ExitStep(s))
  {
  }

  lemma LockStep(e: Env, s: State, step: Step)
    requires LockInv(s) && Enabled(s, step)
    ensures LockInv(Apply(e, s, step))
  {
    hide Classify, ExecLine, FirstLf, CStr, CmdOk, Arrive, ExecStep, ExitStep;
    match step
    case Exec(i) => LockExec(s, i);
    case Exit => LockExit(s);
    case ExitSignal(w) => LockWake(s, w);
    case HandlerSignal(w) => LockWake(s, w);
    case Call(_) =>
    case Acquire(_) =>
    case _ => OthersKeepCallers(e, s, step);
  }

  lemma CmdsMovedBy(e: Env, s: State, step: Step)
    requires Enabled(s, step) && !step.Acquire?
    ensures Cmds(Apply(e, s, step).frames) == Cmds(s.frames)
    ensures Apply(e, s, step).blocked == s.blocked || step.Call?
  {
    hide CmdOk, Classify, ExecLine, FirstLf, CStr, Arrive, ExecStep, ExitStep, CanExec, CanExit, Cmds;
    match step
    case Exec(i) => ExecMoves(s, i); CmdsMoved(s.frames, ExecStep(s, i).frames, i, ExecStep(s, i).frames[i].pc);
    case Exit => ExitKeepsFrames(s);
    case ExitSignal(w) => WakeKeepsCmds(s, w);
    case HandlerSignal(w) => WakeKeepsCmds(s, w);
    case Call(_) =>
    case _ => OthersKeepCallers(e, s, step);
  }

  lemma WakeKeepsCmds(s: State, w: Option<nat>)
    requires CanWake(s, w)
    ensures Cmds(Wake(s, w).frames) == Cmds(s.frames)
    ensures Wake(s, w).blocked == s.blocked
  {
    if w.Some? {
      CmdsMoved(s.frames, Wake(s, w).frames, w.value, Woken);
    }
  }

  lemma CmdsStep(e: Env, s: State, step: Step)
    requires CmdsInv(s) && Enabled(s, step)
    ensures CmdsInv(Apply(e, s, step))
  {
    if step.Acquire? {
      assert Cmds(Apply(e, s, step).frames) == Cmds(s.frames) + [step.cmd];
    } else {
      CmdsMovedBy(e, s, step);
      hide CmdOk, Classify, ExecLine, FirstLf, CStr, Arrive, ExecStep, ExitStep, CanExec, CanExit, Cmds;
    }
  }

  // ---- bytes sent ----

  /** What a caller's next action writes. */
  function Sends(f: Frame): string {
    match f.pc
    case WriteCmd => f.cmd
    case WriteLf => [LF]
    case WriteEoc => EOC_CMD
    case WriteLastLf => [LF]
    case _ => ""
  }

  lemma OwedText(c: string)
    ensures Owed(Frame(c, LogCmd)) == Owed(Frame(c, WriteCmd)) == c + Owed(Frame(c, WriteLf))
    ensures Owed(Frame(c, WriteLf)) == [LF] + Owed(Frame(c, WriteEoc))
    ensures Owed(Frame(c, WriteEoc)) == EOC_CMD + Owed(Frame(c, WriteLastLf))
    ensures Owed(Frame(c, WriteLastLf)) == [LF] + Owed(Frame(c, Reset))
  {
    var t := [LF] + EOC_CMD + [LF];
    assert FrameText(c) == c + t;
    assert t == [LF] + (EOC_CMD + [LF]);
  }

  lemma ExecSends(s: State, i: nat)
    requires CanExec(s, i)
    ensures var s' := ExecStep(s, i);
            && s'.h.sent == s.h.sent + Sends(s.frames[i])
            && Owed(s.frames[i]) == Sends(s.frames[i]) + Owed(s'.frames[i])
            && s'.exit == s.exit
  {
    OwedText(s.frames[i].cmd);
    var x, y := s.h.sent, Owed(s.frames[i]);
    assert x + "" == x && "" + y == y;
    hide FrameText;
  }

  lemma SentUnfold(s: State)
    ensures SentInv(s) <==>
            s.h.sent + (if s.frames == [] then "" else Owed(s.frames[|s.frames| - 1]))
            == FramesText(Cmds(s.frames)) + ExitWritten(s.exit)
  {
    hide Owed, FramesText, Cmds, ExitWritten;
  }

  /** Writing what is owed keeps the sum. */
  lemma SentMoved(s: State, s': State, i: nat, t: string)
    requires SentInv(s) && i < |s.frames| == |s'.frames|
    requires s'.h.sent == s.h.sent + t && Owed(s.frames[i]) == t + Owed(s'.frames[i])
    requires Cmds(s'.frames) == Cmds(s.frames) && s'.exit == s.exit
    requires i == |s.frames| - 1 || (t == "" && s'.frames[|s.frames| - 1] == s.frames[|s.frames| - 1])
    ensures SentInv(s')
  {
    hide *;
    SentUnfold(s);
    SentUnfold(s');
    if i == |s.frames| - 1 {
      Assoc(s.h.sent, t, Owed(s'.frames[i]));
    } else {
      assert s.h.sent + "" == s.h.sent;
    }
  }

  lemma {:induction false} SentExec(s: State, i: nat)
    requires LockInv(s) && SentInv(s) && CanExec(s, i)
    ensures SentInv(ExecStep(s, i))
  {
    var s' := ExecStep(s, i);
    var f' := s'.frames[i];
    ExecMoves(s, i);
    CmdsMoved(s.frames, s'.frames, i, f'.pc);
    ExecSends(s, i);
    assert i < |s.frames| - 1 ==> Sends(s.frames[i]) == "";
    hide ExecStep, FramesText, Cmds, Owed;
    SentMoved(s, s', i, Sends(s.frames[i]));
  }

  /** When nobody is submitting, nothing is owed. */
  lemma NothingOwed(s: State)
    requires LockInv(s) && !s.owner.ByExec?
    ensures OwedLast(s.frames) == ""
  {
  }

  lemma {:induction false} SentAcquire(e: Env, s: State, cmd: string)
    requires LockInv(s) && SentInv(s) && Enabled(s, Acquire(cmd))
    ensures SentInv(Apply(e, s, Acquire(cmd)))
  {
    hide FrameText, FramesText;
    var s' := Apply(e, s, Acquire(cmd));
    NothingOwed(s);
    assert Cmds(s'.frames) == Cmds(s.frames) + [cmd];
    FramesTextSnoc(Cmds(s.frames), cmd);
    assert s.h.sent + "" == s.h.sent && FramesText(Cmds(s.frames)) + "" == FramesText(Cmds(s.frames));
    var t := s.h.sent + FrameText(cmd);
    assert t + "" == t;
  }

  lemma {:induction false} SentExit(s: State)
    requires LockInv(s) && SentInv(s) && CanExit(s)
    ensures SentInv(ExitStep(s))
  {
    hide FrameText, FramesText;
    var t, x := FramesText(Cmds(s.frames)), s.h.sent;
    assert x + "" == x && t + "" == t;
    if ExitOwns(s.exit) {
      NothingOwed(s);
      Assoc(t, EXIT_CMD, [LF]);
      assert t + EXIT_CMD + "" == t + EXIT_CMD && t + EXIT_CMD + [LF] + "" == t + EXIT_CMD + [LF];
    }
  }

  lemma {:induction false} SentWake(s: State, w: Option<nat>)
    requires SentInv(s) && CanWake(s, w)
    ensures SentInv(Wake(s, w))
    ensures Cmds(Wake(s, w).frames) == Cmds(s.frames) && OwedLast(Wake(s, w).frames) == OwedLast(s.frames)
  {
    hide FrameText, FramesText;
    if w.Some? {
      CmdsMoved(s.frames, Wake(s, w).frames, w.value, Woken);
    }
  }

  lemma SentStep(e: Env, s: State, step: Step)
    requires LockInv(s) && SentInv(s) && Enabled(s, step)
    ensures SentInv(Apply(e, s, step))
  {
    hide Classify, ExecLine, FirstLf, CStr, CmdOk, Arrive, ExecStep, ExitStep, FramesText, Owed, Cmds;
    match step
    case Exec(i) => SentExec(s, i);
    case Exit => SentExit(s);
    case ExitSignal(w) => SentWake(s, w);
    case HandlerSignal(w) => SentWake(s, w);
    case Call(_) =>
    case Acquire(cmd) => SentAcquire(e, s, cmd);
    case _ => OthersKeepCallers(e, s, step);
  }

  // ---- the two byte streams ----

  predicate SameStreams(s: State, s': State) {
    && s'.h.consumed == s.h.consumed && s'.shell == s.shell && s'.h.read == s.h.read
    && s'.toHandler == s.toHandler && s'.emitting == s.emitting
  }

  function ExitSends(exit: ExitPc): string {
    match exit
    case WriteExit => EXIT_CMD
    case WriteExitLf => [LF]
    case _ => ""
  }

  lemma ExecStreams(s: State, i: nat)
    requires CanExec(s, i)
    ensures SameStreams(s, ExecStep(s, i)) && ExecStep(s, i).toShell == s.toShell + Sends(s.frames[i])
  {
    assert s.toShell + "" == s.toShell;
  }

  lemma ExitStreams(s: State)
    requires CanExit(s)
    ensures SameStreams(s, ExitStep(s)) && ExitStep(s).toShell == s.toShell + ExitSends(s.exit)
    ensures ExitStep(s).h.sent == s.h.sent + ExitSends(s.exit)
  {
    assert s.toShell + "" == s.toShell && s.h.sent + "" == s.h.sent;
  }

  function CallerSends(s: State, step: Step): string
    requires Enabled(s, step)
  {
    match step
    case Exec(i) => Sends(s.frames[i])
    case Exit => ExitSends(s.exit)
    case _ => ""
  }

  /** Callers only append to the stream towards the shell; they leave the way back and the handler alone. */
  lemma CallersOnlySend(e: Env, s: State, step: Step)
    requires Enabled(s, step) && MovesCaller(step)
    ensures var s', t := Apply(e, s, step), CallerSends(s, step);
            SameStreams(s, s') && s'.h.sent == s.h.sent + t && s'.toShell == s.toShell + t
  {
    hide CmdOk, ExecStep, ExitStep, Sends, ExitSends, CanExec;
    assert s.h.sent + "" == s.h.sent && s.toShell + "" == s.toShell;
    match step
    case Exec(i) => ExecSends(s, i); ExecStreams(s, i);
    case Exit => ExitStreams(s);
    case _ =>
  }

  lemma ShellSend(e: Env, s: State, s': State, t: string)
    requires ShellInv(e, s) && SameStreams(s, s')
    requires s'.h.sent == s.h.sent + t && s'.toShell == s.toShell + t
    ensures ShellInv(e, s')
  {
    hide RunLines, Flatten, AllLines;
    Assoc(Flatten(s.h.consumed), s.toShell, t);
  }

  lemma {:induction false} ShellReads(e: Env, s: State)
    requires ShellInv(e, s) && Enabled(s, ShellLine)
    ensures ShellInv(e, Apply(e, s, ShellLine))
  {
    hide RunLines, Flatten, ExecLine;
    var n := FirstLf(s.toShell) + 1;
    var l, rest := s.toShell[..n], s.toShell[n..];
    TakeDrop(s.toShell, n);
    assert IsLine(l);
    FlattenSnoc(s.h.consumed, l);
    Assoc(Flatten(s.h.consumed), l, rest);
    RunSnoc(e, s.h.consumed, l);
    var r := s.h.read + s.toHandler;
    assert r + "" == r;
    hide FirstLf, IsLine;
  }

  lemma {:induction false} ShellEmits(e: Env, s: State, k: nat)
    requires ShellInv(e, s) && Enabled(s, ShellEmit(k))
    ensures ShellInv(e, Apply(e, s, ShellEmit(k)))
  {
    hide RunLines, Flatten, AllLines;
    TakeDrop(s.emitting, k);
    Assoc(s.h.read + s.toHandler, s.emitting[..k], s.emitting[k..]);
    Assoc(s.h.read, s.toHandler, s.emitting[..k]);
  }

  lemma {:induction false} HandlerReads(e: Env, s: State)
    requires ShellInv(e, s) && Enabled(s, Step.ReadByte)
    ensures ShellInv(e, Apply(e, s, Step.ReadByte))
  {
    hide RunLines, Flatten, AllLines;
    Assoc(s.h.read, [s.toHandler[0]], s.toHandler[1..]);
    assert [s.toHandler[0]] + s.toHandler[1..] == s.toHandler;
  }

  lemma ShellStep(e: Env, s: State, step: Step)
    requires ShellInv(e, s) && Enabled(s, step)
    ensures ShellInv(e, Apply(e, s, step))
  {
    if MovesCaller(step) {
      CallersOnlySend(e, s, step);
      hide Apply, Enabled;
      ShellSend(e, s, Apply(e, s, step), CallerSends(s, step));
    } else {
      hide RunLines, Flatten, AllLines, Classify, FirstLf, CStr, CmdOk, Arrive;
      match step
      case ShellLine => ShellReads(e, s);
      case ShellEmit(k) => ShellEmits(e, s, k);
      case ReadByte => HandlerReads(e, s);
      case _ =>
    }
  }

  // ---- the handler ----

  predicate SameHandler(s: State, s': State) {
    && s'.handler == s.handler && s'.pending == s.pending && s'.h.read == s.h.read
    && s'.h.arrivals == s.h.arrivals && s'.h.stores == s.h.stores && s'.h.signals == s.h.signals
    && s'.last == s.last
  }

  predicate MovesHandler(step: Step) {
    step.ReadByte? || step.HandleLine? || step.HandlerSignal? || step.KeepLine?
  }

  lemma ExecKeepsHandler(s: State, i: nat)
    requires CanExec(s, i)
    ensures SameHandler(s, ExecStep(s, i))
  {
  }

  lemma OthersKeepHandler(e: Env, s: State, step: Step)
    requires Enabled(s, step) && !MovesHandler(step)
    ensures SameHandler(s, Apply(e, s, step))
  {
    hide CmdOk, ExecLine, FirstLf, ExecStep, CanExec;
    if step.Exec? {
      ExecKeepsHandler(s, step.i);
    }
  }

  lemma {:induction false} HandlerReadsByte(e: Env, s: State)
    requires HandlerInv(s) && Enabled(s, Step.ReadByte)
    ensures HandlerInv(Apply(e, s, Step.ReadByte))
  {
    hide Lines, Fragment, Codes, Signals, Classify;
    LinesSnoc(s.h.read, s.toHandler[0]);
  }

  lemma RawSnoc(arrivals: seq<Arrival>, a: Arrival)
    ensures RawLines(arrivals + [a]) == RawLines(arrivals) + [a.line]
  {
  }

  /** What handling a line does to the handler's state. */
  lemma HandledLine(s: State, line: string)
    ensures var s', a, k := HandleLineStep(s, line), Arrive(line, s.echo), Classify(line);
            && a.line == line && (a.Tagged? <==> k.TagMark?)
            && s'.h.arrivals == s.h.arrivals + [a]
            && s'.h.read == s.h.read && s'.pending == s.pending && s'.h.signals == s.h.signals
            && s'.h.stores == s.h.stores + StoredBy(line)
            && !s'.handler.Got?
            && (if s'.handler == Signalling then 1 else 0) == SignalsOf(line)
  {
    hide Classify, CStr;
    assert s.h.stores + [] == s.h.stores;
  }

  lemma {:induction false} HandlerHandlesLine(s: State, line: string)
    requires HandlerInv(s) && s.handler == Got(line)
    ensures HandlerInv(HandleLineStep(s, line))
  {
    HandledLine(s, line);
    var s', a := HandleLineStep(s, line), Arrive(line, s.echo);
    var m := s.h.arrivals;
    RawSnoc(m, a);
    LinesEffectSnoc(RawLines(m), line);
    hide Lines, Fragment, Codes, Signals, Classify, CStr, Arrive, RawLines, HandleLineStep, StoredBy, SignalsOf;
    assert forall k | 0 <= k < |m| :: (m + [a])[k] == m[k] && (RawLines(m) + [line])[k] == RawLines(m)[k];
  }

  lemma HandlerStep(e: Env, s: State, step: Step)
    requires HandlerInv(s) && Enabled(s, step)
    ensures HandlerInv(Apply(e, s, step))
  {
    if MovesHandler(step) {
      hide Lines, Fragment, Codes, Signals, Classify, CStr, Arrive, RawLines, ReadByteStep, HandleLineStep;
      match step
      case ReadByte => HandlerReadsByte(e, s);
      case HandleLine => HandlerHandlesLine(s, s.handler.line);
      case _ =>
    } else {
      OthersKeepHandler(e, s, step);
      hide Lines, Fragment, Codes, Signals, Classify, RawLines, Apply;
    }
  }

  lemma {:induction false} LastHandlesLine(s: State, line: string)
    requires LastInv(s) && s.handler == Got(line)
    ensures LastInv(HandleLineStep(s, line))
  {
    var a := Arrive(line, s.echo);
    ArrivalSnoc(s.h.arrivals, a);
    hide EffectsOf, Classify, CStr, LastOutput;
    EffectsLast(s.h.arrivals);
    EffectsLast(s.h.arrivals + [a]);
  }

  lemma EffectsLast(m: seq<Arrival>)
    ensures EffectsOf(m).last == LastOutput(m)
  {
  }

  lemma LastStep(e: Env, s: State, step: Step)
    requires LastInv(s) && Enabled(s, step)
    ensures LastInv(Apply(e, s, step))
  {
    if MovesHandler(step) {
      hide LastOutput, Classify, CStr, Arrive, HandleLineStep;
      if step.HandleLine? {
        LastHandlesLine(s, s.handler.line);
      }
    } else {
      OthersKeepHandler(e, s, step);
      hide LastOutput, Apply;
    }
  }

  // ---- counting ----

  /** Moving one caller changes a count by what that caller contributes. */
  lemma {:induction false} CountMoved(frames: seq<Frame>, frames': seq<Frame>, i: nat, pc: Pc, p: Pc -> bool)
    requires MovedTo(frames, frames', i, pc)
    ensures Count(frames', p) + (if p(frames[i].pc) then 1 else 0) == Count(frames, p) + if p(pc) then 1 else 0
  {
    var n := |frames| - 1;
    if i == n {
      assert frames'[..n] == frames[..n];
    } else {
      assert MovedTo(frames[..n], frames'[..n], i, pc);
      CountMoved(frames[..n], frames'[..n], i, pc, p);
    }
  }

  lemma CountExec(s: State, i: nat)
    requires CanExec(s, i)
    ensures Count(ExecStep(s, i).frames, IsPast) == Count(s.frames, IsPast)
    ensures var h := ExecStep(s, i).h;
            h.signals == s.h.signals && h.lost == s.h.lost && h.exitWakes == s.h.exitWakes
    ensures ExecStep(s, i).exit == s.exit
  {
    ExecMoves(s, i);
    CountMoved(s.frames, ExecStep(s, i).frames, i, ExecStep(s, i).frames[i].pc, IsPast);
    hide Count;
  }

  lemma CountWake(s: State, w: Option<nat>)
    requires CanWake(s, w)
    ensures Count(Wake(s, w).frames, IsPast) == Count(s.frames, IsPast) + if w.Some? then 1 else 0
    ensures Wake(s, w).h == s.h && Wake(s, w).exit == s.exit
  {
    if w.Some? {
      CountMoved(s.frames, Wake(s, w).frames, w.value, Woken, IsPast);
    }
  }

  lemma {:induction false} CountSnoc(frames: seq<Frame>, f: Frame, p: Pc -> bool)
    ensures Count(frames + [f], p) == Count(frames, p) + if p(f.pc) then 1 else 0
  {
    assert (frames + [f])[..|frames|] == frames;
  }

  lemma CountStep(e: Env, s: State, step: Step)
    requires CountInv(s) && Enabled(s, step)
    ensures CountInv(Apply(e, s, step))
  {
    hide Count, Classify, CStr, Arrive, ExecLine, FirstLf, CmdOk, ExecStep, CanExec, Wake;
    match step
    case Exec(i) => CountExec(s, i);
    case Exit => ExitKeepsFrames(s);
    case ExitSignal(w) => CountWake(s, w);
    case HandlerSignal(w) => CountWake(s, w);
    case Call(_) =>
    case Acquire(cmd) => CountSnoc(s.frames, Frame(cmd, LogCmd), IsPast);
    case _ => OthersKeepCallers(e, s, step);
  }

  // ---- all of it, in every run ----

  lemma StepKeepsInv(e: Env, s: State, step: Step)
    requires Inv(e, s) && Enabled(s, step)
    ensures Inv(e, Apply(e, s, step))
  {
    LockStep(e, s, step);
    CmdsStep(e, s, step);
    SentStep(e, s, step);
    ShellStep(e, s, step);
    HandlerStep(e, s, step);
    LastStep(e, s, step);
    CountStep(e, s, step);
    hide LockInv, CmdsInv, SentInv, ShellInv, HandlerInv, LastInv, CountInv, Apply, Enabled;
  }

  /** Every state of every run. */
  lemma {:induction false} RunKeepsInv(e: Env, steps: seq<Step>, states: seq<State>, k: nat)
    requires Run(e, steps, states) && k < |states|
    ensures Inv(e, states[k])
  {
    if k == 0 {
      InitialInv(e, states[0]);
    } else {
      RunKeepsInv(e, steps, states, k - 1);
      StepKeepsInv(e, states[k - 1], steps[k - 1]);
      hide Inv, Apply, Enabled;
      assert states[k - 1 + 1] == Apply(e, states[k - 1], steps[k - 1]);
    }
  }
}
