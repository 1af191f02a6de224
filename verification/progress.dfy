/** Progress of the session protocol: without new calls no run goes on for ever. */
module Progress {
  import opened Arrivals
  import opened Guarantees
  import opened Invariant
  import opened Protocol
  import opened Shell
  import opened Tag
  import opened Text

  // ---- what every step lowers ----

  /** How many actions a caller has left, its wake-up included. */
  function PcRank(pc: Pc): nat {
    match pc
    case LogCmd => 11
    case WriteCmd => 10
    case WriteLf => 9
    case WriteEoc => 8
    case WriteLastLf => 7
    case Reset => 6
    case Wait => 5
    case Waiting => 4
    case Woken => 3
    case Unlock => 2
    case ReadCode => 1
    case Done(_) => 0
  }

  function ExitRank(exit: ExitPc): nat {
    match exit
    case NotCalled => 7
    case TryLock => 6
    case Signal => 5
    case Lock => 4
    case LogExit => 3
    case WriteExit => 2
    case WriteExitLf => 1
    case Stopping => 0
  }

  /** How many actions a handler has left for the line in its hand. */
  function HandlerRank(handler: HandlerPc): nat {
    match handler
    case Got(_) => 2
    case Signalling => 1
    case Keeping(_) => 1
    case Reading => 0
  }

  function PcRanks(frames: seq<Frame>): nat {
    if frames == [] then 0 else PcRanks(frames[..|frames| - 1]) + PcRank(frames[|frames| - 1].pc)
  }

  function CallersRank(s: State): nat {
    PcRanks(s.frames) + ExitRank(s.exit)
  }

  /** `s'` is below `s`: calls asking for the mutex, then actions of callers, then bytes on the way to the shell, in its
      hand and on the way back, then actions of the handler. */
  predicate Below(s': State, s: State) {
    || |s'.blocked| < |s.blocked|
    || (|s'.blocked| == |s.blocked| &&
        (|| CallersRank(s') < CallersRank(s)
         || (CallersRank(s') == CallersRank(s) && BytesBelow(s', s))))
  }

  predicate BytesBelow(s': State, s: State) {
    || |s'.toShell| < |s.toShell|
    || (|s'.toShell| == |s.toShell| &&
        (|| |s'.emitting| < |s.emitting|
         || (|s'.emitting| == |s.emitting| &&
             (|| |s'.toHandler| < |s.toHandler|
              || (|s'.toHandler| == |s.toHandler| && HandlerRank(s'.handler) < HandlerRank(s.handler))))))
  }

  /** Moving one caller changes the sum by what that caller contributes. */
  lemma {:induction false} RanksMoved(frames: seq<Frame>, frames': seq<Frame>, i: nat, pc: Pc)
    requires MovedTo(frames, frames', i, pc)
    ensures PcRanks(frames') + PcRank(frames[i].pc) == PcRanks(frames) + PcRank(pc)
  {
    hide PcRank;
    var n := |frames| - 1;
    if i == n {
      assert frames'[..n] == frames[..n];
    } else {
      assert MovedTo(frames[..n], frames'[..n], i, pc);
      RanksMoved(frames[..n], frames'[..n], i, pc);
    }
  }

  lemma ExecRank(s: State, i: nat)
    requires CanExec(s, i)
    ensures ExecStep(s, i).exit == s.exit && ExecStep(s, i).blocked == s.blocked
    ensures PcRank(ExecStep(s, i).frames[i].pc) < PcRank(s.frames[i].pc)
  {
    ExecMoves(s, i);
  }

  lemma ExecBelow(s: State, i: nat)
    requires CanExec(s, i)
    ensures Below(ExecStep(s, i), s)
  {
    ExecMoves(s, i);
    ExecRank(s, i);
    RanksMoved(s.frames, ExecStep(s, i).frames, i, ExecStep(s, i).frames[i].pc);
    hide ExecStep, PcRanks, PcRank, ExitRank, BytesBelow;
  }

  lemma ExitBelow(s: State)
    requires CanExit(s)
    ensures Below(ExitStep(s), s)
  {
    hide PcRanks, BytesBelow;
  }

  lemma WakeRank(s: State, w: Option<nat>)
    requires CanWake(s, w)
    ensures PcRanks(Wake(s, w).frames) == PcRanks(s.frames) - if w.Some? then 1 else 0
  {
    if w.Some? {
      RanksMoved(s.frames, Wake(s, w).frames, w.value, Woken);
    }
    hide PcRanks;
  }

  lemma AcquireBelow(e: Env, s: State, cmd: string)
    requires Enabled(s, Acquire(cmd))
    ensures |Apply(e, s, Acquire(cmd)).blocked| < |s.blocked|
  {
    assert s.blocked == multiset{cmd} + (s.blocked - multiset{cmd});
  }

  /** The shell and the handler leave the callers alone; so does all that is left of the step kinds. */
  lemma BytesGoDown(e: Env, s: State, step: Step)
    requires Enabled(s, step)
    requires step.ShellLine? || step.ShellEmit? || step.ReadByte? || step.HandleLine? || step.KeepLine?
    ensures Below(Apply(e, s, step), s)
  {
    hide PcRanks, ExecLine, FirstLf, Classify, CStr, Arrive, ExitRank;
  }

  /** Every step goes down, but a new call and the echo switch, which come from outside. */
  lemma EveryStepGoesDown(e: Env, s: State, step: Step)
    requires Enabled(s, step) && !step.Call? && !step.SetEcho?
    ensures Below(Apply(e, s, step), s)
  {
    hide PcRanks, ExecStep, CanExec, ExitStep, CanExit, BytesBelow, Wake, CmdOk, FirstLf;
    match step
    case Acquire(cmd) => AcquireBelow(e, s, cmd);
    case Exec(i) => ExecBelow(s, i);
    case Exit => ExitBelow(s);
    case ExitSignal(w) => WakeRank(s, w); WakeKeeps(s, w);
    case HandlerSignal(w) => WakeRank(s, w); WakeKeeps(s, w); SignalBelow(s, w);
    case _ => BytesGoDown(e, s, step);
  }

  lemma WakeKeeps(s: State, w: Option<nat>)
    requires CanWake(s, w)
    ensures Wake(s, w).blocked == s.blocked && Wake(s, w).exit == s.exit
  {
  }

  lemma SignalBelow(s: State, w: Option<nat>)
    requires CanWake(s, w) && s.handler == Signalling
    ensures Below(HandlerSignalStep(s, w), s)
  {
    WakeRank(s, w);
    hide PcRanks, ExitRank;
  }

  // ---- runs end ----

  /** The k-th step of an endless list is taken. */
  ghost predicate Taken(e: Env, steps: nat -> Step, states: nat -> State, k: nat) {
    Enabled(states(k), steps(k)) && states(k + 1) == Apply(e, states(k), steps(k))
  }

  /** Some step after the k-th is not taken, or comes from outside. */
  lemma {:induction false} RunBreaks(e: Env, steps: nat -> Step, states: nat -> State, k: nat) returns (m: nat)
    ensures k <= m && (!Taken(e, steps, states, m) || steps(m).Call? || steps(m).SetEcho?)
    decreases |states(k).blocked|, CallersRank(states(k)), |states(k).toShell|, |states(k).emitting|,
              |states(k).toHandler|, HandlerRank(states(k).handler)
  {
    hide Enabled, Apply, CallersRank, HandlerRank;
    if Taken(e, steps, states, k) && !steps(k).Call? && !steps(k).SetEcho? {
      EveryStepGoesDown(e, states(k), steps(k));
      m := RunBreaks(e, steps, states, k + 1);
    } else {
      m := k;
    }
  }

  /** There is no endless run without steps from outside, whatever the order of the steps: no fairness is needed. */
  lemma {:induction false} NoEndlessRun(e: Env, steps: nat -> Step, states: nat -> State, n: nat)
    ensures exists m: nat :: n <= m && (!Taken(e, steps, states, m) || steps(m).Call? || steps(m).SetEcho?)
  {
    hide *;
    var m := RunBreaks(e, steps, states, n);
  }

  /** The first m steps of an endless list, and the states around them. */
  function StepsTo(steps: nat -> Step, m: nat): (r: seq<Step>)
    ensures |r| == m && forall k | 0 <= k < m :: r[k] == steps(k)
  {
    seq(m, (k: nat) => steps(k))
  }

  function StatesTo(states: nat -> State, m: nat): (r: seq<State>)
    ensures |r| == m + 1 && forall k | 0 <= k <= m :: r[k] == states(k)
  {
    seq(m + 1, (k: nat) => states(k))
  }

  /** The protocol runs from the start, and from step `n` on nothing comes from outside and something moves as long as
      anything can. */
  ghost predicate KeepsGoing(e: Env, steps: nat -> Step, states: nat -> State, n: nat) {
    && Initial(e, states(0))
    && forall k: nat ::
         || (k >= n && Stuck(states(k)))
         || (Taken(e, steps, states, k) && (k >= n ==> !steps(k).Call? && !steps(k).SetEcho?))
  }

  lemma {:induction false} FirstStuck(e: Env, steps: nat -> Step, states: nat -> State, n: nat, k: nat) returns (m: nat)
    requires KeepsGoing(e, steps, states, n) && n <= k
    ensures k <= m && Stuck(states(m)) && forall j | k <= j < m :: Taken(e, steps, states, j)
    decreases |states(k).blocked|, CallersRank(states(k)), |states(k).toShell|, |states(k).emitting|,
              |states(k).toHandler|, HandlerRank(states(k).handler)
  {
    hide Enabled, Apply, CallersRank, HandlerRank, Stuck, Initial;
    if Stuck(states(k)) {
      m := k;
    } else {
      EveryStepGoesDown(e, states(k), steps(k));
      m := FirstStuck(e, steps, states, n, k + 1);
    }
  }

  lemma TakenIsRun(e: Env, steps: nat -> Step, states: nat -> State, m: nat)
    requires Initial(e, states(0)) && forall k | 0 <= k < m :: Taken(e, steps, states, k)
    ensures Run(e, StepsTo(steps, m), StatesTo(states, m))
  {
    hide Enabled, Apply, Initial;
    var ss, ts := StepsTo(steps, m), StatesTo(states, m);
    forall k | 0 <= k < m ensures Enabled(ts[k], ss[k]) && ts[k + 1] == Apply(e, ts[k], ss[k]) {
      assert Taken(e, steps, states, k) && ts[k + 1] == states(k + 1);
    }
  }

  lemma TakenBefore(e: Env, steps: nat -> Step, states: nat -> State, n: nat)
    requires KeepsGoing(e, steps, states, n)
    ensures Initial(e, states(0)) && forall k | 0 <= k < n :: Taken(e, steps, states, k)
  {
    hide Stuck, Taken, Initial;
  }

  /** Once nothing comes from outside any more, every run reaches a state that cannot go on. Unless exit was called, as
      many callers wait there for ever as signals were lost, and all others have returned. */
  lemma {:induction false} EveryRunSettles(e: Env, steps: nat -> Step, states: nat -> State, n: nat)
    requires EnvOk(e) && KeepsGoing(e, steps, states, n)
    ensures exists m: nat ::
              && n <= m && Stuck(states(m)) && Run(e, StepsTo(steps, m), StatesTo(states, m))
              && (states(m).exit == NotCalled ==>
                    && WaitingOrDone(states(m).frames)
                    && Count(states(m).frames, IsWaiting) == states(m).h.lost)
  {
    hide *;
    var m := FirstStuck(e, steps, states, n, n);
    TakenBefore(e, steps, states, n);
    TakenIsRun(e, steps, states, m);
    if states(m).exit == NotCalled {
      var run := StatesTo(states, m);
      StuckIff(e, StepsTo(steps, m), run, m);
      StuckWaiters(e, StepsTo(steps, m), run, m);
    }
  }
}
