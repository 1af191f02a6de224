/** A single client: at most one exec call outstanding, no exit. */
module SingleClient {
  import opened Arrivals
  import opened Delivery
  import opened Guarantees
  import opened Invariant
  import opened Protocol
  import opened Shell
  import opened Tag
  import opened Text

  predicate AllDone(frames: seq<Frame>) {
    forall i | 0 <= i < |frames| :: frames[i].pc.Done?
  }

  /** The client calls exec only when no call of its own is outstanding, and never exits. */
  predicate SingleStep(s: State, step: Step) {
    && !step.Exit? && !step.ExitSignal?
    && (step.Call? ==> s.blocked == multiset{} && AllDone(s.frames))
  }

  ghost predicate SingleRun(e: Env, steps: seq<Step>, states: seq<State>) {
    && Run(e, steps, states)
    && forall k | 0 <= k < |steps| :: SingleStep(states[k], steps[k])
  }

  /** All calls but the newest have returned; a call asking for the mutex is alone. */
  ghost predicate OneAtATime(s: State) {
    && s.exit == NotCalled
    && |s.blocked| <= 1
    && (s.blocked != multiset{} ==> AllDone(s.frames))
    && forall i | 0 <= i < |s.frames| - 1 :: s.frames[i].pc.Done?
  }

  // ---- what counting gives ----

  lemma {:induction false} CountDone(frames: seq<Frame>, m: nat)
    requires m <= |frames| && forall i | 0 <= i < m :: IsPast(frames[i].pc)
    ensures Count(frames, IsPast) >= m
    decreases |frames|
  {
    var n := |frames| - 1;
    if frames != [] {
      CountDone(frames[..n], if m == |frames| then n else m);
    }
  }

  /** Calls that were signalled are signals sent: all but the newest, and the newest too once it is past its wait. */
  lemma SignalsSoFar(e: Env, s: State)
    requires EnvOk(e) && Inv(e, s) && OneAtATime(s)
    ensures s.frames != [] ==> |s.frames| >= s.h.signals >= |s.frames| - 1
    ensures s.frames != [] && IsPast(s.frames[|s.frames| - 1].pc) ==> s.h.signals == |s.frames|
  {
    hide *;
    SignalsBounded(e, s);
    BeforeExit(s);
    SignalsCounted(e, s);
    NewestDone(s);
  }

  lemma BeforeExit(s: State)
    requires OneAtATime(s)
    ensures s.exit == NotCalled
  {
  }

  lemma NewestDone(s: State)
    requires OneAtATime(s)
    ensures Count(s.frames, IsPast) >= |s.frames| - 1
    ensures s.frames != [] && IsPast(s.frames[|s.frames| - 1].pc) ==> Count(s.frames, IsPast) >= |s.frames|
  {
    hide Count;
    if s.frames != [] {
      var n := |s.frames| - 1;
      CountDone(s.frames, if IsPast(s.frames[n].pc) then n + 1 else n);
    } else {
      CountDone(s.frames, 0);
    }
  }

  /** With every call returned, the whole reply has been read and handled. */
  lemma {:induction false} IdleIsAnswered(e: Env, s: State)
    requires EnvOk(e) && Inv(e, s) && OneAtATime(s)
    requires s.frames != [] ==> IsPast(s.frames[|s.frames| - 1].pc)
    ensures RawLines(s.h.arrivals) == ReplyLines(e, Cmds(s.frames))
  {
    hide *;
    SignalsSoFar(e, s);
    SignalsBounded(e, s);
    ReadInOrder(e, s);
    CmdsGood(e, s);
    AllSignalsAllReply(e, Cmds(s.frames), RawLines(s.h.arrivals));
  }

  // ---- one call at a time ----

  lemma OneAtATimeStep(e: Env, s: State, step: Step)
    requires OneAtATime(s) && Enabled(s, step) && SingleStep(s, step)
    ensures OneAtATime(Apply(e, s, step))
  {
    hide CmdOk, Classify, ExecLine, FirstLf, CStr, Arrive, ExecStep, CanExec;
    match step
    case Exec(i) => OneAtATimeExec(s, i);
    case HandlerSignal(w) =>
    case Call(_) =>
    case Acquire(cmd) => OneAtATimeAcquire(e, s, cmd);
    case _ => OthersKeepCallers(e, s, step);
  }

  lemma OneAtATimeAcquire(e: Env, s: State, cmd: string)
    requires OneAtATime(s) && Enabled(s, Acquire(cmd))
    ensures OneAtATime(Apply(e, s, Acquire(cmd)))
  {
    assert s.blocked == multiset{cmd} + (s.blocked - multiset{cmd});
    assert |s.blocked - multiset{cmd}| == 0;
  }

  lemma OneAtATimeExec(s: State, i: nat)
    requires OneAtATime(s) && CanExec(s, i)
    ensures OneAtATime(ExecStep(s, i))
    ensures i == |s.frames| - 1
  {
    ExecMoves(s, i);
    assert s.blocked == multiset{};
    assert ExecStep(s, i).exit == s.exit;
    hide ExecStep;
  }

  lemma InitialSingle(e: Env, s: State)
    requires Initial(e, s)
    ensures OneAtATime(s)
  {
  }

  /** One link of a run. */
  lemma RunLink(e: Env, steps: seq<Step>, states: seq<State>, k: nat)
    requires SingleRun(e, steps, states) && k < |steps|
    ensures |states| == |steps| + 1 && Enabled(states[k], steps[k]) && SingleStep(states[k], steps[k])
    ensures states[k + 1] == Apply(e, states[k], steps[k])
  {
    hide Enabled, SingleStep, Apply, Initial;
  }

  lemma {:induction false} SingleRunInv(e: Env, steps: seq<Step>, states: seq<State>, k: nat)
    requires SingleRun(e, steps, states) && k < |states|
    ensures Inv(e, states[k]) && OneAtATime(states[k])
  {
    hide Inv, OneAtATime, Apply, Enabled, SingleStep, Initial;
    RunKeepsInv(e, steps, states, k);
    if k == 0 {
      InitialSingle(e, states[0]);
    } else {
      SingleRunInv(e, steps, states, k - 1);
      RunLink(e, steps, states, k - 1);
      OneAtATimeStep(e, states[k - 1], steps[k - 1]);
    }
  }

  // ---- results ----

  /** The line in hand completes the reply: it is the newest call's tag line, and that call is not past its wait. */
  lemma StoreIsNewest(e: Env, s: State, line: string)
    requires EnvOk(e) && Inv(e, s) && Inv(e, HandleLineStep(s, line)) && OneAtATime(s)
    requires s.handler == Got(line) && StoredBy(line) != []
    ensures s.frames != [] && !IsPast(s.frames[|s.frames| - 1].pc)
    ensures LastTerminated(e, Cmds(s.frames)) && Scanned(line) == LastStatus(e, Cmds(s.frames))
  {
    hide *;
    var cmds, raw, s' := Cmds(s.frames), RawLines(s.h.arrivals), HandleLineStep(s, line);
    SignalsSoFar(e, s);
    SignalsBounded(e, s);
    SignalsBounded(e, s');
    LineArrives(s, line);
    LinesEffectSnoc(raw, line);
    assert s'.frames == s.frames && s.handler != Signalling;
    ReadInOrder(e, s');
    CmdsGood(e, s);
    AllSignalsAllReply(e, cmds, raw + [line]);
    LastReplyLine(e, cmds, raw, line);
    LastTagLineEffect(e, cmds);
    OneCode(line);
  }

  lemma LineArrives(s: State, line: string)
    requires StoredBy(line) != []
    ensures var s' := HandleLineStep(s, line);
            && s'.frames == s.frames && RawLines(s'.h.arrivals) == RawLines(s.h.arrivals) + [line]
    ensures SignalsOf(line) == 1
  {
    hide Contains, CStr, ScanTag;
    RawSnoc(s.h.arrivals, Arrive(line, s.echo));
  }

  lemma LastReplyLine(e: Env, cmds: seq<string>, raw: seq<string>, line: string)
    requires raw + [line] == ReplyLines(e, cmds)
    ensures cmds != [] && line == LastTagLine(e, cmds)
  {
    hide LastTagLine, Lines;
    assert (raw + [line])[|raw|] == line;
  }

  /** What the newest call's status is called in the list of all statuses. */
  lemma NewestStatus(e: Env, a: seq<string>, b: seq<string>)
    requires a != [] && a <= b
    ensures Statuses(e, b)[|a| - 1] == LastStatus(e, a)
    ensures Terminated(e, b, |a| - 1) <==> LastTerminated(e, a)
  {
    hide LastStatus, LastTerminated;
    StatusesPrefix(e, a, b);
    assert Statuses(e, a)[|a| - 1] == LastStatus(e, a);
    assert b[..|a| - 1 + 1] == a;
  }

  /** A call that has not returned is the newest. */
  lemma NotDoneIsNewest(s: State, i: nat)
    requires OneAtATime(s) && i < |s.frames| && !s.frames[i].pc.Done?
    ensures i == |s.frames| - 1
  {
  }

  lemma ResetsPc(s: State, step: Step, i: nat)
    requires Resets(s, step, i)
    ensures i < |s.frames| && !s.frames[i].pc.Done? && !PastReset(s.frames[i].pc) && step == Exec(i)
  {
  }

  lemma ReadsPc(s: State, step: Step, i: nat)
    requires Reads(s, step, i)
    ensures i < |s.frames| && !s.frames[i].pc.Done? && PastReset(s.frames[i].pc)
  {
  }

  lemma ResetDone(e: Env, s: State, step: Step, i: nat)
    requires Enabled(s, step) && Resets(s, step, i)
    ensures i < |Apply(e, s, step).frames| && PastReset(Apply(e, s, step).frames[i].pc)
  {
  }

  /** Between its reset and its read a caller is past the reset and has not returned. */
  lemma {:induction false} CallOpen(e: Env, steps: seq<Step>, states: seq<State>, i: nat, r: nat, a: nat, b: nat)
    requires Run(e, steps, states) && |states| == |steps| + 1 && r < a < b < |steps|
    requires Resets(states[r], steps[r], i) && Reads(states[b], steps[b], i)
    ensures i < |states[a].frames| && !states[a].frames[i].pc.Done? && PastReset(states[a].frames[i].pc)
  {
    hide *;
    Link(e, steps, states, r);
    ResetDone(e, states[r], steps[r], i);
    CallersStay(e, steps, states, r + 1, a);
    ReadsPc(states[b], steps[b], i);
    if states[a].frames[i].pc.Done? {
      DoneStays(e, steps, states, a, b, i);
    }
  }

  /** Between a call's reset and its read it is the newest call, and nobody resets. */
  lemma {:induction false} InCall(e: Env, steps: seq<Step>, states: seq<State>, i: nat, r: nat, a: nat, b: nat)
    requires SingleRun(e, steps, states) && |states| == |steps| + 1 && r < a < b < |steps|
    requires Resets(states[r], steps[r], i) && Reads(states[b], steps[b], i)
    ensures i == |states[a].frames| - 1 && forall j :: !Resets(states[a], steps[a], j)
  {
    hide *;
    SingleIsRun(e, steps, states);
    SingleRunInv(e, steps, states, a);
    CallOpen(e, steps, states, i, r, a, b);
    NotDoneIsNewest(states[a], i);
    if j: nat :| Resets(states[a], steps[a], j) {
      ResetsPc(states[a], steps[a], j);
      NotDoneIsNewest(states[a], j);
    }
  }

  /** In a single client's run a stored code is the status of the newest call, whose output is terminated. */
  lemma {:induction false} StoreStep(e: Env, steps: seq<Step>, states: seq<State>, a: nat)
    requires EnvOk(e) && SingleRun(e, steps, states) && |states| == |steps| + 1 && a < |steps|
    requires Stores(states[a], steps[a])
    ensures var cmds := Cmds(states[a].frames);
            && cmds != [] && LastTerminated(e, cmds) && Scanned(states[a].handler.line) == LastStatus(e, cmds)
  {
    hide *;
    SingleRunInv(e, steps, states, a);
    SingleRunInv(e, steps, states, a + 1);
    RunLink(e, steps, states, a);
    StoresLine(e, states[a], steps[a]);
    StoreIsNewest(e, states[a], states[a].handler.line);
  }

  lemma StoresLine(e: Env, s: State, step: Step)
    requires Stores(s, step) && Enabled(s, step)
    ensures s.handler.Got? && StoredBy(s.handler.line) != []
    ensures Apply(e, s, step) == HandleLineStep(s, s.handler.line)
  {
    hide StoredBy, HandleLineStep;
  }

  /** A code stored between a call's reset and its read is that call's own. */
  lemma {:induction false} StoredInCall(
      e: Env, steps: seq<Step>, states: seq<State>, k: nat, i: nat, r: nat, a: nat, b: nat)
    requires EnvOk(e) && SingleRun(e, steps, states) && |states| == |steps| + 1 && r < a < b < k < |states|
    requires Resets(states[r], steps[r], i) && Reads(states[b], steps[b], i) && Stores(states[a], steps[a])
    ensures i < |states[k].frames| && Terminated(e, Cmds(states[k].frames), i)
    ensures Scanned(states[a].handler.line) == Statuses(e, Cmds(states[k].frames))[i]
  {
    hide *;
    SingleIsRun(e, steps, states);
    InCall(e, steps, states, i, r, a, b);
    StoreStep(e, steps, states, a);
    CallersStay(e, steps, states, a, k);
    NewestStatus(e, Cmds(states[a].frames), Cmds(states[k].frames));
  }

  lemma SingleIsRun(e: Env, steps: seq<Step>, states: seq<State>)
    requires SingleRun(e, steps, states)
    ensures Run(e, steps, states) && |states| == |steps| + 1
  {
  }

  /** A code is stored after step `r` and before step `b`. */
  ghost predicate StoredBetween(steps: seq<Step>, states: seq<State>, r: nat, b: nat)
    requires |states| == |steps| + 1 && b <= |steps|
  {
    exists a | r < a < b :: Stores(states[a], steps[a])
  }

  /** Call i resets the field at step `r` and reads it at step `b`. */
  predicate ResetAndRead(steps: seq<Step>, states: seq<State>, i: nat, r: nat, b: nat)
    requires |states| == |steps| + 1
  {
    r < b < |steps| && Resets(states[r], steps[r], i) && Reads(states[b], steps[b], i)
  }

  /** Single-client delivery, exactly: call i returns command i's own status if a code was stored between the call's
      reset and its read, which only its own tag line can do, behind terminated output; and -9996 otherwise. It never
      returns another command's status. */
  lemma {:induction false} SingleClientDelivery(e: Env, steps: seq<Step>, states: seq<State>, k: nat, i: nat)
    requires EnvOk(e) && SingleRun(e, steps, states) && k < |states|
    requires i < |states[k].frames| && states[k].frames[i].pc.Done?
    ensures |states| == |steps| + 1
    ensures exists r: nat, b: nat :: ResetAndRead(steps, states, i, r, b) && b < k
              && (var cmds := Cmds(states[k].frames);
                  && (StoredBetween(steps, states, r, b) ==> Terminated(e, cmds, i))
                  && states[k].frames[i].pc.result ==
                     if StoredBetween(steps, states, r, b) then Statuses(e, cmds)[i] else -9996)
  {
    hide Run, SingleRun, EnvOk, Cmds, LastWrite, Statuses, Terminated, Stores, Writes, Resets, Reads, Scanned;
    SingleIsRun(e, steps, states);
    var b := HasRead(e, steps, states, k, i);
    var r := HasReset(e, steps, states, b, i) by { ReadsPc(states[b], steps[b], i); }
    StoresWrite(states[r], steps[r]);
    var a := FindLastWrite(steps, states, r, b);
    LastWriteBefore(steps, states, a, b);
    FieldKept(e, steps, states, a, b);
    if Stores(states[a], steps[a]) {
      StoredInCall(e, steps, states, k, i, r, a, b);
      assert StoredBetween(steps, states, r, b);
    } else if StoredBetween(steps, states, r, b) {
      var a' :| r < a' < b && Stores(states[a'], steps[a']);
      StoresWrite(states[a'], steps[a']);
      LaterWrite(steps, states, a, b, a');
      InCall(e, steps, states, i, r, a, b);
      NotReset(states[a], steps[a]);
      assert false;
    }
    assert ResetAndRead(steps, states, i, r, b);
  }

  lemma LaterWrite(steps: seq<Step>, states: seq<State>, a: nat, b: nat, a': nat)
    requires |states| == |steps| + 1 && LastWrite(steps, states, a, b)
    requires a' < b && Writes(states[a'], steps[a'])
    ensures a' <= a && Writes(states[a], steps[a])
  {
    hide Writes;
  }

  lemma NotReset(s: State, step: Step)
    requires Writes(s, step) && !Stores(s, step)
    ensures exists j: nat :: Resets(s, step, j)
  {
    hide StoredBy;
    assert Resets(s, step, step.i);
  }

  /** In particular, a tag line scanned while its caller waits delivers the status. */
  lemma {:induction false} WaitingClientGetsStatus(
      e: Env, steps: seq<Step>, states: seq<State>, k: nat, i: nat, a: nat)
    requires EnvOk(e) && SingleRun(e, steps, states) && |states| == |steps| + 1 && a < k < |states|
    requires i < |states[k].frames| && states[k].frames[i].pc.Done?
    requires i < |states[a].frames| && states[a].frames[i].pc == Waiting && Stores(states[a], steps[a])
    ensures states[k].frames[i].pc.result == Statuses(e, Cmds(states[k].frames))[i]
  {
    hide *;
    SingleClientDelivery(e, steps, states, k, i);
    SingleIsRun(e, steps, states);
    var r: nat, b: nat :| ResetAndRead(steps, states, i, r, b) && b < k
      && states[k].frames[i].pc.result ==
         if StoredBetween(steps, states, r, b) then Statuses(e, Cmds(states[k].frames))[i] else -9996;
    WaitsInCall(e, steps, states, i, r, a, b);
    ItIsBetween(steps, states, r, a, b);
  }

  lemma ItIsBetween(steps: seq<Step>, states: seq<State>, r: nat, a: nat, b: nat)
    requires |states| == |steps| + 1 && r < a < b <= |steps| && Stores(states[a], steps[a])
    ensures StoredBetween(steps, states, r, b)
  {
  }

  lemma UnpackCall(steps: seq<Step>, states: seq<State>, i: nat, r: nat, b: nat)
    requires |states| == |steps| + 1 && ResetAndRead(steps, states, i, r, b)
    ensures r < b < |steps| && Resets(states[r], steps[r], i) && Reads(states[b], steps[b], i)
  {
  }

  /** A caller waits between its reset and its read. */
  lemma {:induction false} WaitsInCall(
      e: Env, steps: seq<Step>, states: seq<State>, i: nat, r: nat, a: nat, b: nat)
    requires Run(e, steps, states) && |states| == |steps| + 1 && ResetAndRead(steps, states, i, r, b)
    requires a < |steps| && i < |states[a].frames| && states[a].frames[i].pc == Waiting
    ensures r < a < b < |steps|
  {
    hide *;
    UnpackCall(steps, states, i, r, b);
    ResetsPc(states[r], steps[r], i);
    ReadsPc(states[b], steps[b], i);
    WaitingPast(states[a].frames[i].pc);
    if a <= r {
      CallersStay(e, steps, states, a, r);
      assert false;
    }
    if b < a {
      Link(e, steps, states, b);
      ReadDone(e, states[b], steps[b], i);
      DoneStays(e, steps, states, b + 1, a, i);
      assert false;
    }
    ReadsNotWaiting(states[b], steps[b], i);
  }

  lemma ReadDone(e: Env, s: State, step: Step, i: nat)
    requires Enabled(s, step) && Reads(s, step, i)
    ensures i < |Apply(e, s, step).frames| && Apply(e, s, step).frames[i].pc.Done?
  {
  }

  lemma ReadsNotWaiting(s: State, step: Step, i: nat)
    requires Reads(s, step, i)
    ensures s.frames[i].pc != Waiting
  {
  }

  lemma WaitingPast(pc: Pc)
    requires pc == Waiting
    ensures PastReset(pc)
  {
  }

  // ---- the lost signal ----

  /** A signal was sent while the newest call was still submitting. */
  ghost predicate SignalledEarly(steps: seq<Step>, states: seq<State>, k: nat)
    requires |states| == |steps| + 1 && k <= |steps|
  {
    exists j | 0 <= j < k :: steps[j].HandlerSignal? && NewestSubmits(states[j], |states[k].frames|)
  }

  predicate NewestSubmits(s: State, n: nat) {
    n > 0 && |s.frames| == n && Submitting(s.frames[n - 1].pc)
  }

  /** With a signal lost, the newest call is not past its wait, and no other signal was lost. */
  lemma LostLeavesNewest(e: Env, s: State)
    requires EnvOk(e) && Inv(e, s) && OneAtATime(s) && s.h.lost > 0
    ensures s.frames != [] && !IsPast(s.frames[|s.frames| - 1].pc) && s.h.lost == 1
  {
    hide *;
    BeforeExit(s);
    SignalsBounded(e, s);
    SignalsCounted(e, s);
    NewestDone(s);
  }

  lemma LostStep(e: Env, s: State, step: Step)
    requires Enabled(s, step) && OneAtATime(s) && SingleStep(s, step)
    ensures Apply(e, s, step).h.lost == s.h.lost + if step == HandlerSignal(None) then 1 else 0
    ensures step == HandlerSignal(None) ==>
              && Apply(e, s, step).frames == s.frames
              && forall i | 0 <= i < |s.frames| :: s.frames[i].pc != Waiting
    ensures step.HandlerSignal? && s.frames != [] && Submitting(s.frames[|s.frames| - 1].pc) ==>
              step == HandlerSignal(None)
    ensures step.Acquire? ==> AllDone(s.frames)
  {
    hide Classify, CStr, Arrive, ExecLine, FirstLf, CmdOk, ExecStep, CanExec;
    match step
    case Exec(i) => ExecLost(s, i);
    case _ =>
  }

  lemma ExecLost(s: State, i: nat)
    requires CanExec(s, i)
    ensures ExecStep(s, i).h.lost == s.h.lost
  {
  }

  lemma {:induction false} LostIff(e: Env, steps: seq<Step>, states: seq<State>, k: nat)
    requires EnvOk(e) && SingleRun(e, steps, states) && k < |states|
    ensures |states| == |steps| + 1
    ensures states[k].h.lost > 0 <==> SignalledEarly(steps, states, k)
  {
    hide Run, SingleRun, EnvOk, Inv, OneAtATime, Enabled, Apply, SingleStep, IsPast, Submitting;
    SingleIsRun(e, steps, states);
    if k == 0 {
      NothingLost(e, steps, states);
    } else {
      var s, s', step := states[k - 1], states[k], steps[k - 1];
      LostIff(e, steps, states, k - 1);
      SingleRunInv(e, steps, states, k - 1);
      SingleRunInv(e, steps, states, k);
      RunLink(e, steps, states, k - 1);
      LostStep(e, s, step);
      FramesGrow(e, s, step);
      if s'.h.lost > 0 {
        LostLeavesNewest(e, s');
        if s.h.lost > 0 {
          LostLeavesNewest(e, s);
          LostBlocks(s);
          assert |s'.frames| == |s.frames|;
          var j :| 0 <= j < k - 1 && steps[j].HandlerSignal? && NewestSubmits(states[j], |s.frames|);
          assert NewestSubmits(states[j], |s'.frames|);
        } else {
          PcCases(s.frames[|s.frames| - 1].pc);
          assert NewestSubmits(s, |s'.frames|);
        }
      }
      if SignalledEarly(steps, states, k) {
        var j :| 0 <= j < k && steps[j].HandlerSignal? && NewestSubmits(states[j], |s'.frames|);
        if j < k - 1 {
          CallersStay(e, steps, states, j, k - 1);
          assert NewestSubmits(states[j], |s.frames|);
        }
      }
    }
  }

  lemma NothingLost(e: Env, steps: seq<Step>, states: seq<State>)
    requires Run(e, steps, states)
    ensures states[0].h.lost == 0
  {
    hide Enabled, Apply;
  }

  lemma LostBlocks(s: State)
    requires s.frames != [] && !IsPast(s.frames[|s.frames| - 1].pc)
    ensures !AllDone(s.frames)
  {
  }

  lemma PcCases(pc: Pc)
    ensures Submitting(pc) || pc == Waiting || IsPast(pc)
  {
  }

  /** When a single client hangs, exactly: in a state that cannot go on, the newest call waits for ever if and only if
      its signal was sent before it reached its wait, and has returned otherwise. */
  lemma {:induction false} ClientHangsIff(e: Env, steps: seq<Step>, states: seq<State>, k: nat)
    requires EnvOk(e) && SingleRun(e, steps, states) && k < |states|
    requires Stuck(states[k]) && states[k].frames != []
    ensures |states| == |steps| + 1
    ensures var pc := states[k].frames[|states[k].frames| - 1].pc;
            && (pc == Waiting <==> SignalledEarly(steps, states, k))
            && (pc.Done? <==> !SignalledEarly(steps, states, k))
  {
    hide Run, SingleRun, EnvOk, Inv, OneAtATime, Stuck, Drained;
    var s := states[k];
    SingleIsRun(e, steps, states);
    SingleRunInv(e, steps, states, k);
    BeforeExit(s);
    StuckIff(e, steps, states, k);
    StuckWaiters(e, steps, states, k);
    LostIff(e, steps, states, k);
    if s.h.lost > 0 {
      LostLeavesNewest(e, s);
    }
  }
}
