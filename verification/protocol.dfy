/** The session protocol as a step relation: exec callers, one exit request, the shell and the handler thread
    interleave on one mutex, one condition variable, two byte FIFOs and one exit code field. */
module Protocol {
  import opened Arrivals
  import opened Errors
  import opened Shell
  import opened Tag
  import opened Text

  /** Where an exec caller stands, named after the action it takes next. `Waiting` is blocked in
      `pthread_cond_wait` without the mutex; `Woken` has been signalled and must take the mutex again. */
  datatype Pc =
    | LogCmd | WriteCmd | WriteLf | WriteEoc | WriteLastLf | Reset | Wait
    | Waiting | Woken | Unlock | ReadCode | Done(result: int)

  /** An exec caller that has taken the mutex. Its index in the list is its place in lock order. */
  datatype Frame = Frame(cmd: string, pc: Pc)

  /** Where the exit caller stands; `Stopping` is inside `shell_stop_process` after the exit command is written. */
  datatype ExitPc = NotCalled | TryLock | Signal | Lock | LogExit | WriteExit | WriteExitLf | Stopping

  datatype Owner = Free | ByExec(i: nat) | ByExit

  /** The handler reads bytes, has a whole line in hand, is about to signal, or is about to keep the line. */
  datatype HandlerPc = Reading | Got(line: string) | Signalling | Keeping(text: string)

  datatype LogEntry = CmdEntry(cmd: string) | OutEntry(text: string)

  /** What happened so far; no step depends on it. */
  datatype History = History(
    sent: string, consumed: seq<string>, read: string, arrivals: seq<Arrival>, stores: seq<int>,
    signals: nat, lost: nat, exitWakes: nat)

  datatype State = State(
    blocked: multiset<string>, frames: seq<Frame>, owner: Owner, exit: ExitPc,
    code: int, echo: bool,
    toShell: string, shell: Shell, emitting: string, toHandler: string,
    handler: HandlerPc, pending: string, last: Option<string>,
    log: seq<LogEntry>, h: History)

  datatype Step =
    | Call(cmd: string)          // an exec caller passes the session test and asks for the mutex
    | Acquire(cmd: string)       // some caller asking for the mutex gets it
    | Exec(i: nat)               // frame i's caller takes its next action
    | Exit                       // the exit caller takes its next action
    | ExitSignal(w: Option<nat>) // the exit caller signals before it locks
    | SetEcho(on: bool)
    | ShellLine                  // the shell reads and executes one line
    | ShellEmit(k: nat)          // the shell sends the next k bytes of its output
    | ReadByte                   // the handler reads one byte
    | HandleLine                 // the handler scans and stores, or logs
    | HandlerSignal(w: Option<nat>)
    | KeepLine

  predicate Initial(e: Env, s: State) {
    s == State(
      multiset{}, [], Free, NotCalled, s.code, true,
      "", Start(e), "", "",
      Reading, "", None, [],
      History("", [], "", [], [], 0, 0, 0))
  }

  // ---- what each step needs ----

  /** A signal wakes one waiter if there is one, any one of them. */
  predicate CanWake(s: State, w: Option<nat>) {
    match w
    case Some(i) => i < |s.frames| && s.frames[i].pc == Waiting
    case None => forall i | 0 <= i < |s.frames| :: s.frames[i].pc != Waiting
  }

  predicate CanExec(s: State, i: nat) {
    && i < |s.frames|
    && match s.frames[i].pc
       case Waiting => false
       case Done(_) => false
       case Woken => s.owner == Free
       case _ => true
  }

  predicate CanExit(s: State) {
    match s.exit
    case Signal => false
    case Stopping => false
    case Lock => s.owner == Free
    case _ => true
  }

  predicate Enabled(s: State, step: Step) {
    match step
    case Call(cmd) => CmdOk(cmd)
    case Acquire(cmd) => cmd in s.blocked && s.owner == Free
    case Exec(i) => CanExec(s, i)
    case Exit => CanExit(s)
    case ExitSignal(w) => s.exit == Signal && CanWake(s, w)
    case SetEcho(_) => true
    case ShellLine => s.shell.alive && s.emitting == "" && FirstLf(s.toShell) < |s.toShell|
    case ShellEmit(k) => 0 < k <= |s.emitting|
    case ReadByte => s.handler == Reading && s.toHandler != ""
    case HandleLine => s.handler.Got?
    case HandlerSignal(w) => s.handler == Signalling && CanWake(s, w)
    case KeepLine => s.handler.Keeping?
  }

  // ---- what each step does ----

  function Send(s: State, t: string): State {
    s.(toShell := s.toShell + t, h := s.h.(sent := s.h.sent + t))
  }

  function SetPc(s: State, i: nat, pc: Pc): State
    requires i < |s.frames|
  {
    s.(frames := s.frames[i := s.frames[i].(pc := pc)])
  }

  function ExecStep(s: State, i: nat): State
    requires CanExec(s, i)
  {
    var cmd := s.frames[i].cmd;
    match s.frames[i].pc
    case LogCmd => SetPc(s, i, WriteCmd).(log := s.log + [CmdEntry(cmd)])
    case WriteCmd => Send(SetPc(s, i, WriteLf), cmd)
    case WriteLf => Send(SetPc(s, i, WriteEoc), [LF])
    case WriteEoc => Send(SetPc(s, i, WriteLastLf), EOC_CMD)
    case WriteLastLf => Send(SetPc(s, i, Reset), [LF])
    case Reset => SetPc(s, i, Wait).(code := INVALID_RESULT)
    case Wait => SetPc(s, i, Waiting).(owner := Free)
    case Woken => SetPc(s, i, Unlock).(owner := ByExec(i))
    case Unlock => SetPc(s, i, ReadCode).(owner := Free)
    case ReadCode => SetPc(s, i, Done(s.code))
  }

  function ExitStep(s: State): State
    requires CanExit(s)
  {
    match s.exit
    case NotCalled => s.(exit := TryLock)
    case TryLock => if s.owner == Free then s.(exit := LogExit, owner := ByExit) else s.(exit := Signal)
    case Lock => s.(exit := LogExit, owner := ByExit)
    case LogExit => s.(exit := WriteExit, log := s.log + [CmdEntry(EXIT_CMD)])
    case WriteExit => Send(s.(exit := WriteExitLf), EXIT_CMD)
    case WriteExitLf => Send(s.(exit := Stopping), [LF])
  }

  function Wake(s: State, w: Option<nat>): State
    requires CanWake(s, w)
  {
    if w.Some? then SetPc(s, w.value, Woken) else s
  }

  function ShellLineStep(e: Env, s: State): State
    requires FirstLf(s.toShell) < |s.toShell|
  {
    var n := FirstLf(s.toShell) + 1;
    var (sh, out) := ExecLine(e, s.shell, s.toShell[..n]);
    s.(toShell := s.toShell[n..], shell := sh, emitting := out,
       h := s.h.(consumed := s.h.consumed + [s.toShell[..n]]))
  }

  function ReadByteStep(s: State): State
    requires s.toHandler != ""
  {
    var b := s.toHandler[0];
    var s1 := s.(toHandler := s.toHandler[1..], h := s.h.(read := s.h.read + [b]));
    if b == LF then s1.(handler := Got(s.pending + [b]), pending := "")
    else s1.(pending := s.pending + [b])
  }

  function HandleLineStep(s: State, line: string): State {
    var kind := Classify(line);
    var arrived := s.h.arrivals + [Arrive(line, s.echo)];
    if kind.TagMark? then
      var s1 := s.(handler := if kind.signals then Signalling else Reading);
      if kind.stores then
        s1.(code := kind.code, h := s.h.(arrivals := arrived, stores := s.h.stores + [kind.code]))
      else
        s1.(h := s.h.(arrivals := arrived))
    else
      s.(handler := Keeping(CStr(line)),
         log := if s.echo then s.log + [OutEntry(CStr(line))] else s.log,
         h := s.h.(arrivals := arrived))
  }

  function HandlerSignalStep(s: State, w: Option<nat>): State
    requires CanWake(s, w)
  {
    Wake(s, w).(
      handler := Reading,
      h := s.h.(signals := s.h.signals + 1, lost := s.h.lost + if w.None? then 1 else 0))
  }

  function Apply(e: Env, s: State, step: Step): State
    requires Enabled(s, step)
  {
    match step
    case Call(cmd) => s.(blocked := s.blocked + multiset{cmd})
    case Acquire(cmd) =>
      s.(blocked := s.blocked - multiset{cmd}, frames := s.frames + [Frame(cmd, LogCmd)], owner := ByExec(|s.frames|))
    case Exec(i) => ExecStep(s, i)
    case Exit => ExitStep(s)
    case ExitSignal(w) =>
      Wake(s, w).(exit := Lock, h := s.h.(exitWakes := s.h.exitWakes + if w.Some? then 1 else 0))
    case SetEcho(on) => s.(echo := on)
    case ShellLine => ShellLineStep(e, s)
    case ShellEmit(k) => s.(emitting := s.emitting[k..], toHandler := s.toHandler + s.emitting[..k])
    case ReadByte => ReadByteStep(s)
    case HandleLine => HandleLineStep(s, s.handler.line)
    case HandlerSignal(w) => HandlerSignalStep(s, w)
    case KeepLine => s.(handler := Reading, last := Some(s.handler.text))
  }

  /** A run: states joined by steps, from an initial state. */
  ghost predicate Run(e: Env, steps: seq<Step>, states: seq<State>) {
    && |states| == |steps| + 1
    && Initial(e, states[0])
    && forall k | 0 <= k < |steps| :: Enabled(states[k], steps[k]) && states[k + 1] == Apply(e, states[k], steps[k])
  }

  // ---- views of a state ----

  /** The commands in lock order. */
  function Cmds(frames: seq<Frame>): (cmds: seq<string>)
    ensures |cmds| == |frames|
    ensures forall i | 0 <= i < |cmds| :: cmds[i] == frames[i].cmd
  {
    seq(|frames|, i requires 0 <= i < |frames| => frames[i].cmd)
  }

  /** Between taking the mutex and waiting. */
  predicate Submitting(pc: Pc) {
    pc in {LogCmd, WriteCmd, WriteLf, WriteEoc, WriteLastLf, Reset, Wait}
  }

  predicate HoldsLock(pc: Pc) {
    Submitting(pc) || pc == Unlock
  }

  /** Signalled already. */
  predicate IsPast(pc: Pc) {
    pc == Woken || pc == Unlock || pc == ReadCode || pc.Done?
  }

  predicate IsWaiting(pc: Pc) {
    pc == Waiting
  }

  /** The exit code field was reset on this caller's behalf. */
  predicate PastReset(pc: Pc) {
    pc == Wait || pc == Waiting || IsPast(pc)
  }

  function Count(frames: seq<Frame>, p: Pc -> bool): nat {
    if frames == [] then 0
    else Count(frames[..|frames| - 1], p) + if p(frames[|frames| - 1].pc) then 1 else 0
  }

  /** The part of its own frame a caller has still to write. */
  function Owed(f: Frame): string {
    match f.pc
    case LogCmd => FrameText(f.cmd)
    case WriteCmd => FrameText(f.cmd)
    case WriteLf => [LF] + EOC_CMD + [LF]
    case WriteEoc => EOC_CMD + [LF]
    case WriteLastLf => [LF]
    case _ => ""
  }

  /** The part of its own frame a caller has written. */
  function Written(f: Frame): string {
    match f.pc
    case LogCmd => ""
    case WriteCmd => ""
    case WriteLf => f.cmd
    case WriteEoc => f.cmd + [LF]
    case WriteLastLf => f.cmd + [LF] + EOC_CMD
    case _ => FrameText(f.cmd)
  }

  function ExitWritten(exit: ExitPc): string {
    match exit
    case WriteExitLf => EXIT_CMD
    case Stopping => EXIT_CMD + [LF]
    case _ => ""
  }

  predicate ExitOwns(exit: ExitPc) {
    exit in {LogExit, WriteExit, WriteExitLf, Stopping}
  }

  /** The text of the log. */
  function Render(log: seq<LogEntry>): string {
    if log == [] then ""
    else
      Render(log[..|log| - 1]) +
      match log[|log| - 1]
      case CmdEntry(cmd) => "# " + cmd + [LF]
      case OutEntry(text) => text
  }
}
