/** What holds in every state of every run, whatever the interleaving and the number of exec callers. */
module Guarantees {
  import opened Arrivals
  import opened Invariant
  import opened Protocol
  import opened Shell
  import opened Tag
  import opened Text

  // ---- the byte pipeline ----

  lemma ExitLineSplits(cmds: seq<string>, exit: ExitPc)
    requires AllCmdsOk(cmds)
    ensures Lines(FramesText(cmds) + ExitWritten(exit)) == InputLines(cmds, exit == Stopping)
  {
    hide Lines, Fragment, FramesText, AllFrameLines, AllCmdsOk;
    var x := ExitWritten(exit);
    assert Lines("") == [] by { LinesOfFragment(""); }
    FramesSplit(cmds);
    LinesConcat(FramesText(cmds), x);
    if exit == Stopping {
      LinesCons(x, "");
      assert x + "" == x;
    } else {
      LinesOfFragment(x);
    }
  }

  /** The shell has executed a prefix of the frames' lines, in lock order. */
  lemma {:induction false} ConsumedInOrder(e: Env, s: State)
    requires Inv(e, s)
    ensures s.h.consumed <= InputLines(Cmds(s.frames), s.exit == Stopping)
  {
    var cmds, t := Cmds(s.frames), FramesText(Cmds(s.frames)) + ExitWritten(s.exit);
    SplitUnique(s.h.consumed, s.toShell);
    assert s.h.sent <= t;
    LinesPrefix(s.h.sent, t);
    ExitLineSplits(cmds, s.exit);
    hide Lines, FramesText, ExitWritten, Flatten, InputLines, RunLines, HandlerInv, CountInv, LastInv, LockInv;
  }

  /** What the handler has read is a prefix of the reference reply. */
  lemma {:induction false} ReadInOrder(e: Env, s: State)
    requires Inv(e, s)
    ensures var cmds := Cmds(s.frames);
            && Lines(s.h.read) <= ReplyLines(e, cmds)
            && RawLines(s.h.arrivals) <= ReplyLines(e, cmds)
            && s.h.read <= Flatten(ReplyLines(e, cmds))
            && (s.handler.Got? ==> RawLines(s.h.arrivals) + [s.handler.line] <= ReplyLines(e, cmds))
  {
    ConsumedInOrder(e, s);
    assert s.h.read <= RunLines(e, s.h.consumed).1 by {
      Assoc(s.h.read, s.toHandler, s.emitting);
    }
    ReadIsReply(e, Cmds(s.frames), s.exit == Stopping, s.h.consumed, s.h.read);
    hide Lines, Flatten, ReplyLines, InputLines, RunLines, CountInv, LastInv, LockInv, SentInv;
  }

  /** The codes the handler stores are, in lock order, the statuses of exactly the commands whose output is terminated,
      as far as their tag lines have been scanned. The shell executes commands in lock order. */
  lemma {:induction false} PipelineOrder(e: Env, steps: seq<Step>, states: seq<State>, k: nat)
    requires EnvOk(e) && Run(e, steps, states) && k < |states|
    ensures var s := states[k];
            && s.h.stores <= Stored(e, Cmds(s.frames))
            && s.shell.hist <= Executed(Cmds(s.frames))
  {
    var s := states[k];
    RunKeepsInv(e, steps, states, k);
    StoresInOrder(e, s);
    HistoryInOrder(e, s);
  }

  /** When every output so far is terminated, the m-th code stored is the m-th frame's status. */
  lemma {:induction false} AllTerminated(e: Env, cmds: seq<string>)
    requires forall i | 0 <= i < |cmds| :: Terminated(e, cmds, i)
    ensures Stored(e, cmds) == Statuses(e, cmds)
  {
    hide LastTerminated, LastStatus;
    if cmds != [] {
      var init := cmds[..|cmds| - 1];
      forall i | 0 <= i < |init| ensures Terminated(e, init, i) {
        assert init[..i + 1] == cmds[..i + 1] && Terminated(e, cmds, i);
      }
      AllTerminated(e, init);
      assert cmds[..|cmds| - 1 + 1] == cmds && Terminated(e, cmds, |cmds| - 1);
    }
  }

  lemma {:induction false} StoresInOrder(e: Env, s: State)
    requires EnvOk(e) && Inv(e, s)
    ensures s.h.stores <= Stored(e, Cmds(s.frames))
  {
    ReadInOrder(e, s);
    LinesEffectPrefix(RawLines(s.h.arrivals), ReplyLines(e, Cmds(s.frames)));
    ReplyEffect(e, Cmds(s.frames));
    hide Codes, Signals, RawLines, Lines, ReplyLines, Stored, EnvOk, ShellInv, CountInv, LastInv, LockInv, SentInv;
  }

  lemma {:induction false} HistoryInOrder(e: Env, s: State)
    requires Inv(e, s)
    ensures s.shell.hist <= Executed(Cmds(s.frames))
  {
    var cmds, exiting := Cmds(s.frames), s.exit == Stopping;
    ConsumedInOrder(e, s);
    RunPrefix(e, s.h.consumed, InputLines(cmds, exiting));
    RunInput(e, cmds, exiting);
    AfterFrames(e, cmds);
    hide InputLines, RunLines, After, Executed, HandlerInv, CountInv, LastInv, LockInv, SentInv;
  }

  // ---- frames ----

  /** The outbound stream is whole frames in lock order, then the part of the mutex owner's own unit written so far. */
  ghost predicate FramesAreWhole(s: State) {
    if s.frames == [] then s.h.sent == ExitWritten(s.exit)
    else
      var n := |s.frames| - 1;
      && s.h.sent == FramesText(Cmds(s.frames)[..n]) + Written(s.frames[n]) + ExitWritten(s.exit)
      && Written(s.frames[n]) <= FrameText(s.frames[n].cmd)
      && (Written(s.frames[n]) != FrameText(s.frames[n].cmd) ==> s.owner == ByExec(n) && ExitWritten(s.exit) == "")
  }

  /** At most one caller, exit included, is between lock and unlock. */
  ghost predicate MutualExclusion(s: State) {
    && (forall i, j | 0 <= i < |s.frames| && 0 <= j < |s.frames| ::
          HoldsLock(s.frames[i].pc) && HoldsLock(s.frames[j].pc) ==> i == j)
    && (ExitOwns(s.exit) ==> forall i | 0 <= i < |s.frames| :: !HoldsLock(s.frames[i].pc))
  }

  lemma {:induction false} WrittenAndOwed(f: Frame)
    ensures Written(f) + Owed(f) == FrameText(f.cmd)
    ensures Owed(f) != "" <==> Written(f) != FrameText(f.cmd)
  {
    OwedText(f.cmd);
    var c := f.cmd;
    assert FrameText(c) == c + ([LF] + EOC_CMD + [LF]);
    assert FrameText(c) == c + [LF] + (EOC_CMD + [LF]);
    assert FrameText(c) == c + [LF] + EOC_CMD + [LF];
    assert "" + FrameText(c) == FrameText(c) && FrameText(c) + "" == FrameText(c);
  }

  lemma CutOwed(sent: string, o: string, t: string, w: string, x: string)
    requires sent + o == t + (w + o) + x
    requires o != "" ==> x == ""
    ensures sent == t + w + x
  {
    if o == "" {
      assert sent + "" == sent && w + "" == w;
    } else {
      assert t + (w + o) + "" == t + w + "" + o;
      CancelRight(sent, t + w + "", o);
    }
  }

  lemma {:induction false} FramesOf(e: Env, s: State)
    requires Inv(e, s)
    ensures FramesAreWhole(s)
  {
    hide Written, FrameText, ShellInv, HandlerInv, LastInv, CountInv, CmdsInv, FramesAreWhole;
    if s.frames != [] {
      var n := |s.frames| - 1;
      var f := s.frames[n];
      WrittenAndOwed(f);
      if Owed(f) != "" {
        OwedByOwner(s, n);
      }
      hide Owed, ExitWritten;
      CutOwed(s.h.sent, Owed(f), FramesText(Cmds(s.frames)[..n]), Written(f), ExitWritten(s.exit));
      FramesWholeUnfold(s, n);
    } else {
      assert s.h.sent + "" == s.h.sent;
      assert "" + ExitWritten(s.exit) == ExitWritten(s.exit);
      NoFrames(s);
    }
  }

  lemma OwedByOwner(s: State, n: nat)
    requires LockInv(s) && n < |s.frames| && Owed(s.frames[n]) != ""
    ensures s.owner == ByExec(n) && ExitWritten(s.exit) == ""
  {
  }

  lemma NoFrames(s: State)
    requires s.frames == [] && s.h.sent == ExitWritten(s.exit)
    ensures FramesAreWhole(s)
  {
  }

  lemma FramesWholeUnfold(s: State, n: nat)
    requires n == |s.frames| - 1
    requires s.h.sent == FramesText(Cmds(s.frames)[..n]) + Written(s.frames[n]) + ExitWritten(s.exit)
    requires Owed(s.frames[n]) != "" ==> s.owner == ByExec(n) && ExitWritten(s.exit) == ""
    ensures FramesAreWhole(s)
  {
    hide FramesText, Cmds;
    WrittenAndOwed(s.frames[n]);
  }

  lemma CancelRight(a: string, b: string, c: string)
    requires a + c == b + c
    ensures a == b
  {
    assert a == (a + c)[..|a|];
    assert b == (b + c)[..|b|];
  }

  /** Frame atomicity and mutual exclusion, with waiting callers out of the mutex and an exit caller in it. */
  lemma {:induction false} FrameAtomicity(e: Env, steps: seq<Step>, states: seq<State>, k: nat)
    requires Run(e, steps, states) && k < |states|
    ensures FramesAreWhole(states[k]) && MutualExclusion(states[k])
  {
    RunKeepsInv(e, steps, states, k);
    FramesOf(e, states[k]);
    hide FramesAreWhole, Run, SentInv, ShellInv, HandlerInv, CountInv, LastInv, HoldsLock, ExitOwns;
  }

  // ---- signals ----

  lemma {:induction false} CountPartition(frames: seq<Frame>)
    requires forall i | 0 <= i < |frames| :: !Submitting(frames[i].pc)
    ensures Count(frames, IsPast) + Count(frames, IsWaiting) == |frames|
  {
    if frames != [] {
      CountPartition(frames[..|frames| - 1]);
    }
  }

  /** Both FIFOs are empty, the shell and the handler have nothing in hand, and every submitter has reached its wait. */
  predicate Drained(s: State) {
    && s.toShell == "" && s.emitting == "" && s.toHandler == "" && s.handler == Reading
    && forall i | 0 <= i < |s.frames| :: !Submitting(s.frames[i].pc)
  }

  /** Before any exit: callers woken by a signal, plus signals that found nobody, are the signals sent; every tag line
      scanned is signalled or is about to be; there are no more of them than frames. */
  ghost predicate SignalsAddUp(s: State) {
    var scanned := Signals(RawLines(s.h.arrivals));
    && Count(s.frames, IsPast) + s.h.lost == s.h.signals
    && s.h.signals + (if s.handler == Signalling then 1 else 0) == scanned
    && scanned <= |s.frames|
  }

  lemma {:induction false} SignalsBounded(e: Env, s: State)
    requires EnvOk(e) && Inv(e, s)
    ensures s.h.signals + (if s.handler == Signalling then 1 else 0) == Signals(RawLines(s.h.arrivals)) <= |s.frames|
  {
    hide *;
    ReadInOrder(e, s);
    CmdsGood(e, s);
    ReplyEffect(e, Cmds(s.frames));
    LinesEffectPrefix(RawLines(s.h.arrivals), ReplyLines(e, Cmds(s.frames)));
    SignalsCounted(e, s);
  }

  lemma SignalsCounted(e: Env, s: State)
    requires Inv(e, s)
    ensures s.h.signals + (if s.handler == Signalling then 1 else 0) == Signals(RawLines(s.h.arrivals))
    ensures s.exit == NotCalled ==> Count(s.frames, IsPast) + s.h.lost == s.h.signals
  {
    hide Signals, RawLines, Count, LockInv, SentInv, ShellInv, LastInv, CmdsInv, Lines, Codes;
  }

  lemma CmdsGood(e: Env, s: State)
    requires Inv(e, s)
    ensures AllCmdsOk(Cmds(s.frames))
  {
  }

  /** Once everything has drained, every frame has been answered and signalled. */
  lemma {:induction false} DrainedIsAnswered(e: Env, s: State)
    requires EnvOk(e) && Inv(e, s) && Drained(s) && s.exit == NotCalled
    ensures RawLines(s.h.arrivals) == ReplyLines(e, Cmds(s.frames))
    ensures s.h.read == Flatten(ReplyLines(e, Cmds(s.frames)))
    ensures s.h.signals == |s.frames|
  {
    var cmds := Cmds(s.frames);
    AllRead(e, s);
    ReplySplits(e, cmds);
    CmdsGood(e, s);
    ReplyEffect(e, cmds);
    SignalsCounted(e, s);
    hide Lines, Flatten, ReplyLines, Signals, Codes, RawLines, EnvOk, LockInv, SentInv, ShellInv, LastInv;
  }

  /** With nothing on the way, the bytes read are all that the shell sends for the frames. */
  lemma AllRead(e: Env, s: State)
    requires Inv(e, s) && Drained(s) && s.exit == NotCalled
    ensures s.h.read == Flatten(ReplyLines(e, Cmds(s.frames)))
  {
    var r := s.h.read;
    DrainedConsumed(e, s);
    CmdsGood(e, s);
    RunFrames(e, Cmds(s.frames));
    assert r + "" + "" == r;
    hide Lines, Flatten, ReplyLines, RunLines, AllFrameLines, LockInv, SentInv, HandlerInv, LastInv;
  }

  /** When nobody is submitting and no exit was called, exactly the frames are sent. */
  lemma AllSent(e: Env, s: State)
    requires Inv(e, s) && s.exit == NotCalled
    requires forall i | 0 <= i < |s.frames| :: !Submitting(s.frames[i].pc)
    ensures s.h.sent == FramesText(Cmds(s.frames))
  {
    var t := FramesText(Cmds(s.frames));
    assert OwedLast(s.frames) == "";
    assert s.h.sent + "" == s.h.sent && t + "" == t;
    hide FramesText, LockInv, CmdsInv, ShellInv, HandlerInv, CountInv, LastInv;
  }

  lemma {:induction false} DrainedConsumed(e: Env, s: State)
    requires Inv(e, s) && Drained(s) && s.exit == NotCalled
    ensures s.h.consumed == AllFrameLines(Cmds(s.frames))
  {
    AllSent(e, s);
    SplitUnique(s.h.consumed, "");
    FramesSplit(Cmds(s.frames));
    assert Lines("") == [] by { LinesOfFragment(""); }
    assert s.h.consumed + [] == s.h.consumed;
    hide Lines, Flatten, FramesText, AllFrameLines, RunLines, HandlerInv, CountInv, LastInv, LockInv;
  }

  /** Lost-signal accounting, for unboundedly many callers and before any exit. */
  lemma {:induction false} LostSignalAccounting(e: Env, steps: seq<Step>, states: seq<State>, k: nat)
    requires EnvOk(e) && Run(e, steps, states) && k < |states|
    requires states[k].exit == NotCalled
    ensures SignalsAddUp(states[k])
    ensures Drained(states[k]) ==>
              Count(states[k].frames, IsWaiting) == states[k].h.lost && states[k].h.signals == |states[k].frames|
  {
    var s := states[k];
    RunKeepsInv(e, steps, states, k);
    SignalsBounded(e, s);
    SignalsCounted(e, s);
    if Drained(s) {
      DrainedIsAnswered(e, s);
      CountPartition(s.frames);
    }
    hide Count, EnvOk, Run, Inv;
  }

  // ---- runs that cannot go on ----

  /** No step can move a caller, the shell or the handler any more, until somebody calls exec or exit. */
  ghost predicate Stuck(s: State) {
    forall step :: Enabled(s, step) ==> step.Call? || step.SetEcho? || step.Exit?
  }

  predicate WaitingOrDone(frames: seq<Frame>) {
    forall i | 0 <= i < |frames| :: frames[i].pc == Waiting || frames[i].pc.Done?
  }

  /** A handler that is about to signal can do so, and a caller that has the mutex can act. */
  lemma SignalsAndOwnersGo(s: State)
    ensures s.handler == Signalling ==> exists w :: Enabled(s, HandlerSignal(w))
    ensures LockInv(s) && s.owner.ByExec? ==> Enabled(s, Exec(s.owner.i))
  {
    if i: nat :| i < |s.frames| && s.frames[i].pc == Waiting {
      assert CanWake(s, Some(i));
      assert s.handler == Signalling ==> Enabled(s, HandlerSignal(Some(i)));
    } else {
      assert CanWake(s, None);
      assert s.handler == Signalling ==> Enabled(s, HandlerSignal(None));
    }
    assert LockInv(s) && s.owner.ByExec? ==> HoldsLock(s.frames[s.owner.i].pc);
  }

  lemma StuckHandler(s: State)
    requires Stuck(s)
    ensures s.emitting == "" && s.toHandler == "" && s.handler == Reading
  {
    SignalsAndOwnersGo(s);
    assert !Enabled(s, ShellEmit(1)) && !Enabled(s, Step.ReadByte) && !Enabled(s, HandleLine) && !Enabled(s, KeepLine);
  }

  lemma StuckCallers(s: State)
    requires Stuck(s) && LockInv(s) && s.exit == NotCalled
    ensures WaitingOrDone(s.frames) && s.blocked == multiset{}
  {
    SignalsAndOwnersGo(s);
    assert s.owner == Free;
    forall i | 0 <= i < |s.frames| ensures s.frames[i].pc == Waiting || s.frames[i].pc.Done? {
      assert !Enabled(s, Exec(i));
    }
    forall cmd ensures cmd !in s.blocked {
      assert !Enabled(s, Acquire(cmd));
    }
  }

  /** Before any exit the shell is alive. */
  lemma ShellLives(e: Env, s: State)
    requires Inv(e, s) && s.exit == NotCalled
    ensures s.shell.alive
  {
    hide *;
    var cmds := Cmds(s.frames);
    ConsumedInOrder(e, s);
    CmdsGood(e, s);
    RunFrames(e, cmds);
    AfterAlive(e, cmds);
    NoExitLine(cmds);
    DeadStaysDead(e, s.h.consumed, AllFrameLines(cmds));
    ShellIsRun(e, s);
  }

  lemma NoExitLine(cmds: seq<string>)
    ensures InputLines(cmds, false) == AllFrameLines(cmds)
  {
  }

  lemma ShellIsRun(e: Env, s: State)
    requires Inv(e, s)
    ensures s.shell == RunLines(e, s.h.consumed).0
    ensures AllLines(s.h.consumed) && s.h.sent == Flatten(s.h.consumed) + s.toShell
  {
    hide RunLines, LockInv, CmdsInv, SentInv, HandlerInv, CountInv, LastInv;
  }

  lemma NoLineLeft(s: State)
    requires s.shell.alive && s.emitting == "" && !Enabled(s, ShellLine)
    ensures LfFree(s.toShell)
  {
  }

  lemma NobodySubmits(frames: seq<Frame>)
    requires WaitingOrDone(frames)
    ensures forall i | 0 <= i < |frames| :: !Submitting(frames[i].pc)
  {
  }

  /** A shell that is alive reads all whole frames. */
  lemma StuckShell(e: Env, s: State)
    requires Inv(e, s) && s.exit == NotCalled && s.emitting == "" && WaitingOrDone(s.frames)
    requires !Enabled(s, ShellLine)
    ensures s.toShell == ""
  {
    hide *;
    ShellLives(e, s);
    NobodySubmits(s.frames);
    AllSent(e, s);
    CmdsGood(e, s);
    ShellIsRun(e, s);
    FramesSplit(Cmds(s.frames));
    SplitUnique(s.h.consumed, s.toShell);
    NoLineLeft(s);
    LinesOfFragment(s.toShell);
  }

  lemma StuckDrained(e: Env, s: State)
    requires Inv(e, s) && s.exit == NotCalled && Stuck(s)
    ensures Drained(s) && s.blocked == multiset{} && WaitingOrDone(s.frames)
  {
    hide Inv, CmdOk;
    StuckHandler(s);
    StuckCallers(s) by { Locked(e, s); }
    assert !Enabled(s, ShellLine);
    hide Stuck;
    StuckShell(e, s);
  }

  lemma Locked(e: Env, s: State)
    requires Inv(e, s)
    ensures LockInv(s)
  {
    hide LockInv, CmdsInv, SentInv, ShellInv, HandlerInv, LastInv, CountInv;
  }

  lemma DrainedStuck(s: State)
    requires LockInv(s) && s.exit == NotCalled
    requires Drained(s) && s.blocked == multiset{} && WaitingOrDone(s.frames)
    ensures Stuck(s)
  {
    hide CmdOk;
  }

  /** Before any exit, a run cannot go on exactly when everything has drained, nobody asks for the mutex, and every
      caller waits or has returned. */
  lemma {:induction false} StuckIff(e: Env, steps: seq<Step>, states: seq<State>, k: nat)
    requires Run(e, steps, states) && k < |states| && states[k].exit == NotCalled
    ensures var s := states[k];
            Stuck(s) <==> Drained(s) && s.blocked == multiset{} && WaitingOrDone(s.frames)
  {
    hide *;
    var s := states[k];
    RunKeepsInv(e, steps, states, k);
    Locked(e, s);
    if Stuck(s) {
      StuckDrained(e, s);
    } else if Drained(s) && s.blocked == multiset{} && WaitingOrDone(s.frames) {
      DrainedStuck(s);
    }
  }

  /** Then as many callers wait for ever as signals were lost, and all others have returned. */
  lemma {:induction false} StuckWaiters(e: Env, steps: seq<Step>, states: seq<State>, k: nat)
    requires EnvOk(e) && Run(e, steps, states) && k < |states|
    requires states[k].exit == NotCalled && Stuck(states[k])
    ensures var s := states[k];
            && Count(s.frames, IsWaiting) == s.h.lost
            && Count(s.frames, IsPast) == |s.frames| - s.h.lost
            && s.h.signals == |s.frames|
  {
    hide *;
    StuckIff(e, steps, states, k);
    LostSignalAccounting(e, steps, states, k);
    AddUp(states[k]);
  }

  lemma AddUp(s: State)
    requires SignalsAddUp(s)
    ensures Count(s.frames, IsPast) + s.h.lost == s.h.signals
  {
    hide Count, Signals, RawLines;
  }

  // ---- conservation ----

  /** Arrived lines in order, then the line in hand or the pending fragment, are exactly the bytes read. */
  lemma {:induction false} BytesConserved(e: Env, steps: seq<Step>, states: seq<State>, k: nat)
    requires Run(e, steps, states) && k < |states|
    ensures var s := states[k];
            Flatten(RawLines(s.h.arrivals)) + (if s.handler.Got? then s.handler.line else s.pending) == s.h.read
  {
    var s := states[k];
    RunKeepsInv(e, steps, states, k);
    SplitRebuilds(s.h.read);
    hide Lines, Fragment, Flatten, RawLines, Codes, Signals, LockInv, SentInv, ShellInv, CountInv, LastInv;
    if s.handler.Got? {
      FlattenSnoc(RawLines(s.h.arrivals), s.handler.line);
      var t := Flatten(RawLines(s.h.arrivals)) + s.handler.line;
      assert t + "" == t;
    }
  }
}
