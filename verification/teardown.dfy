/** Ending a session: the exit call against the handler thread's end-of-file path, and the bounded stop loop. */
module Teardown {
  import opened Errors

  // ---- the stop loop ----

  /** The first poll that is not 0, or `n` when the first `n` polls all are. */
  function FirstNonZero(poll: nat -> int, n: nat): (k: nat)
    ensures k <= n
    ensures forall j | 0 <= j < k :: poll(j) == 0
    ensures k < n ==> poll(k) != 0
  {
    if n == 0 then 0
    else
      var k := FirstNonZero(poll, n - 1);
      if k < n - 1 || poll(n - 1) != 0 then k else n
  }

  /** Outcome of polling a child at most `max` times: how it ends, how many polls and how many kills it takes. */
  ghost predicate StopOutcome(poll: nat -> int, pid: int, max: nat, err: int, polls: nat, kills: nat) {
    && (err == 0 || err == -1)
    && (err == 0 <==> exists k | 0 <= k < max :: poll(k) == pid && forall j | 0 <= j < k :: poll(j) == 0)
    && polls == (if FirstNonZero(poll, max) < max then FirstNonZero(poll, max) + 1 else max)
    && kills == (if max > 0 && poll(0) == 0 then 1 else 0)
  }

  /** `shell_stop_process` after the exit command is written: poll the child, at most `maxRetry` times (the library
      uses 3), and kill it after the first poll that finds it running. `poll(k)` is what the k-th `waitpid` answers. */
  method StopProcess(shellPid: int, maxRetry: nat, poll: nat -> int)
    returns (err: int, polls: nat, kills: nat)
    requires shellPid != 0
    ensures StopOutcome(poll, shellPid, maxRetry, err, polls, kills)
    ensures polls <= maxRetry && kills <= 1
    ensures forall j | 0 <= j < polls - 1 :: poll(j) == 0
  {
    var waited, again := 0, 0;
    polls, kills := 0, 0;
    while again < maxRetry && waited == 0
      invariant 0 <= again <= maxRetry
      invariant waited == 0 ==> polls == again && forall j | 0 <= j < polls :: poll(j) == 0
      invariant waited != 0 ==>
                  && polls == again + 1 && again < maxRetry && waited == poll(again)
                  && forall j | 0 <= j < again :: poll(j) == 0
      invariant kills == if again > 0 then 1 else 0
      decreases maxRetry - again, if waited == 0 then 1 else 0
    {
      waited := poll(polls);
      polls := polls + 1;
      if waited == 0 {
        if again == 0 {
          kills := kills + 1;
        }
        again := again + 1;
      }
    }
    err := if waited == shellPid then 0 else -1;
    var k := FirstNonZero(poll, maxRetry);
    assert waited != 0 ==> poll(again) == waited && k == again;
  }

  // ---- the two threads that may end the session ----

  /** The shell process: running, dead but not waited for, or waited for. */
  datatype Child = Running | Zombie | Reaped

  datatype Owner = Free | ByExit | ByHandler

  /** The exit caller: not started, in the stop loop with `again` empty polls behind it, joining the handler thread,
      invalidating the session, or returned. */
  datatype ExitPc = NotStarted | Stopping(again: nat) | Joining | Invalidating | Returned(err: int)

  /** The handler thread: reading, at its two trylocks and the signal between them, in its own stop loop,
      invalidating the session after a stop loop that reaped the child or not, about to end, or ended. */
  datatype HandlerPc =
    | Serving | TryFirst | SignalOther | TrySecond | HStopping(again: nat) | HInvalidating(reaped: bool)
    | Ending | Ended

  /** What a stop loop has done so far: the answers of its polls and the kills it sent. */
  datatype Polls = Polls(answers: seq<int>, kills: nat)

  datatype State = State(
    session: bool, owner: Owner, child: Child, eof: bool, exit: ExitPc, handler: HandlerPc,
    deletes: nat, joined: bool, exitStop: Polls, handlerStop: Polls)

  /** The two threads, and two events of the environment: the child dies, and the other end of the socket is closed.
      Neither event implies the other, and neither needs to come: a shell may close its descriptors and live on, and
      a background job may keep the socket open after the shell is dead. */
  datatype Actor = ExitCaller | HandlerThread | ChildDies | SocketCloses

  const OPENED: State :=
    State(true, Free, Running, false, NotStarted, Serving, 0, false, Polls([], 0), Polls([], 0))

  /** What `waitpid` with WNOHANG answers for the session's child. */
  function WaitPid(child: Child, pid: int): int {
    match child
    case Running => 0
    case Zombie => pid
    case Reaped => -1
  }

  /** The exit caller's null test and its lock acquisition are one step: it runs when no session is bound or the
      mutex is free. It joins when the handler thread has ended. The handler leaves its loop at end of file. */
  predicate Enabled(s: State, a: Actor) {
    match a
    case ExitCaller =>
      (match s.exit
       case NotStarted => !s.session || s.owner == Free
       case Joining => s.handler == Ended
       case Returned(_) => false
       case _ => true)
    case HandlerThread =>
      (match s.handler
       case Serving => s.eof
       case Ended => false
       case _ => true)
    case ChildDies => s.child == Running
    case SocketCloses => !s.eof
  }

  /** One more poll, after `again` empty ones. */
  function Polled(p: Polls, again: nat, w: int): Polls {
    Polls(p.answers + [w], p.kills + if w == 0 && again == 0 then 1 else 0)
  }

  /** One poll of the exit caller's stop loop, or its end after `max` empty polls. */
  function ExitPoll(s: State, again: nat, pid: int, max: nat): State {
    if again >= max then s.(exit := Returned(-1))
    else
      var w := WaitPid(s.child, pid);
      var s1 := s.(exitStop := Polled(s.exitStop, again, w));
      if w == 0 then s1.(exit := Stopping(again + 1))
      else if w == pid then s1.(child := Reaped, exit := Joining)
      else s1.(exit := Returned(-1))
  }

  /** The handler goes on to invalidate the session whether its own stop loop succeeds or not. */
  function HandlerPoll(s: State, again: nat, pid: int, max: nat): State {
    if again >= max then s.(handler := HInvalidating(false))
    else
      var w := WaitPid(s.child, pid);
      var s1 := s.(handlerStop := Polled(s.handlerStop, again, w));
      if w == 0 then s1.(handler := HStopping(again + 1))
      else if w == pid then s1.(child := Reaped, handler := HInvalidating(true))
      else s1.(handler := HInvalidating(false))
  }

  /** Unbind the session, then unlock and destroy the mutex and free the session. */
  function Delete(s: State): State {
    s.(session := false, owner := Free, deletes := s.deletes + 1)
  }

  /** A trylock of the handler: it gets the mutex, or goes on to `next`. */
  function TryLock(s: State, next: HandlerPc): State {
    if s.owner == Free then s.(handler := HStopping(0), owner := ByHandler) else s.(handler := next)
  }

  function Apply(s: State, a: Actor, pid: int, max: nat): State
    requires Enabled(s, a)
  {
    match a
    case ExitCaller =>
      (match s.exit
       case NotStarted =>
         if !s.session then s.(exit := Returned(NO_SESSION_ERR)) else s.(exit := Stopping(0), owner := ByExit)
       case Stopping(again) => ExitPoll(s, again, pid, max)
       case Joining => s.(exit := Invalidating, joined := true)
       case Invalidating => Delete(s).(exit := Returned(0)))
    case HandlerThread =>
      (match s.handler
       case Serving => s.(handler := TryFirst)
       case TryFirst => TryLock(s, SignalOther)
       case SignalOther => s.(handler := TrySecond)
       case TrySecond => TryLock(s, Ending)
       case HStopping(again) => HandlerPoll(s, again, pid, max)
       case HInvalidating(_) => Delete(s).(handler := Ending)
       case Ending => s.(handler := Ended))
    case ChildDies => s.(child := Zombie)
    case SocketCloses => s.(eof := true)
  }

  ghost predicate Run(pid: int, max: nat, actors: seq<Actor>, states: seq<State>) {
    && |states| == |actors| + 1 && states[0] == OPENED
    && forall k | 0 <= k < |actors| ::
         Enabled(states[k], actors[k]) && states[k + 1] == Apply(states[k], actors[k], pid, max)
  }

  // ---- what every step keeps ----

  /** The next action of the exit caller uses the session. */
  predicate ExitUses(exit: ExitPc) {
    exit.Stopping? || exit.Joining? || exit.Invalidating?
  }

  /** The next action of the handler thread uses the session. */
  predicate HandlerUses(handler: HandlerPc) {
    !handler.Ending? && !handler.Ended?
  }

  predicate HandlerEnds(handler: HandlerPc) {
    handler.HStopping? || handler.HInvalidating?
  }

  /** The session is deleted by the one who owns the mutex, at most once, when nobody uses it any more. */
  ghost predicate OwnershipInv(s: State) {
    && s.deletes == (if s.session then 0 else 1)
    && (!s.session ==> !ExitUses(s.exit) && !HandlerUses(s.handler) && s.owner == Free)
    && (s.owner == ByHandler <==> HandlerEnds(s.handler))
    && (s.owner == ByExit <==> ExitUses(s.exit) || s.exit == Returned(-1))
    && (s.exit == Returned(0) ==> !s.session)
    && (s.session && s.owner == Free ==> s.exit == NotStarted && HandlerUses(s.handler))
    && (s.handler == TrySecond || s.handler == SignalOther ==> s.owner == ByExit)
  }

  /** How far the two threads got tells what they have done and seen. */
  ghost predicate ProgressInv(s: State) {
    && (s.exit.Returned? ==> s.exit.err in {0, -1, NO_SESSION_ERR})
    && (s.exit == Returned(NO_SESSION_ERR) ==> !s.session)
    && (s.exit.Joining? || s.exit.Invalidating? || s.exit == Returned(0) ==> s.child == Reaped)
    && (s.joined <==> s.exit.Invalidating? || s.exit == Returned(0))
    && (s.joined ==> s.handler == Ended)
    && (s.child == Reaped && s.session && !HandlerEnds(s.handler) ==> s.exit.Joining? || s.exit.Invalidating?)
    && (s.handler != Serving ==> s.eof)
  }

  /** Answers of a stop loop: only the last may differ from 0; one kill, after a first answer 0. */
  predicate PollsOk(p: Polls, max: nat) {
    && |p.answers| <= max
    && (forall j | 0 <= j < |p.answers| - 1 :: p.answers[j] == 0)
    && p.kills == if p.answers != [] && p.answers[0] == 0 then 1 else 0
  }

  /** A stop loop with `again` empty polls behind it. */
  predicate Polling(p: Polls, again: nat) {
    |p.answers| == again && forall j | 0 <= j < |p.answers| :: p.answers[j] == 0
  }

  /** A stop loop that is over and reaped the child, or did not. */
  predicate Stopped(p: Polls, pid: int, max: nat, reaped: bool) {
    if reaped then p.answers != [] && p.answers[|p.answers| - 1] == pid
    else pid !in p.answers && (|p.answers| == max || (p.answers != [] && p.answers[|p.answers| - 1] != 0))
  }

  predicate ExitPollsInv(exit: ExitPc, p: Polls, pid: int, max: nat) {
    && PollsOk(p, max)
    && (exit.NotStarted? || exit == Returned(NO_SESSION_ERR) ==> p.answers == [])
    && (exit.Stopping? ==> Polling(p, exit.again))
    && (exit.Joining? || exit.Invalidating? || exit == Returned(0) ==> Stopped(p, pid, max, true))
    && (exit == Returned(-1) ==> Stopped(p, pid, max, false))
  }

  predicate HandlerPollsInv(handler: HandlerPc, p: Polls, pid: int, max: nat) {
    && PollsOk(p, max)
    && (handler in {Serving, TryFirst, SignalOther, TrySecond} ==> p.answers == [])
    && (handler.HStopping? ==> Polling(p, handler.again))
    && (handler.HInvalidating? ==> Stopped(p, pid, max, handler.reaped))
  }

  ghost predicate Inv(s: State, pid: int, max: nat) {
    && OwnershipInv(s) && ProgressInv(s)
    && ExitPollsInv(s.exit, s.exitStop, pid, max) && HandlerPollsInv(s.handler, s.handlerStop, pid, max)
  }

  lemma OwnershipStep(s: State, a: Actor, pid: int, max: nat)
    requires OwnershipInv(s) && ProgressInv(s) && Enabled(s, a) && pid > 0
    ensures OwnershipInv(Apply(s, a, pid, max))
  {
  }

  lemma ProgressStep(s: State, a: Actor, pid: int, max: nat)
    requires OwnershipInv(s) && ProgressInv(s) && Enabled(s, a) && pid > 0
    ensures ProgressInv(Apply(s, a, pid, max))
  {
  }

  /** One more poll of a stop loop. */
  lemma PolledOnce(p: Polls, again: nat, w: int, pid: int, max: nat)
    requires PollsOk(p, max) && Polling(p, again) && again < max && pid > 0
    ensures var p' := Polled(p, again, w);
            && PollsOk(p', max)
            && (w == 0 ==> Polling(p', again + 1))
            && (w != 0 ==> Stopped(p', pid, max, w == pid))
  {
    var p' := Polled(p, again, w);
    assert forall j | 0 <= j < again :: p'.answers[j] == p.answers[j];
    assert p'.answers[again] == w;
  }

  /** The exit caller's polls; the other actors leave them and the exit caller alone. */
  lemma ExitPollsStep(s: State, a: Actor, pid: int, max: nat)
    requires ExitPollsInv(s.exit, s.exitStop, pid, max) && Enabled(s, a) && pid > 0
    ensures ExitPollsInv(Apply(s, a, pid, max).exit, Apply(s, a, pid, max).exitStop, pid, max)
  {
    hide Polled, PollsOk;
    if a.ExitCaller? && s.exit.Stopping? {
      PollsBounded(s.exitStop, s.exit.again, max);
      if s.exit.again < max {
        PolledOnce(s.exitStop, s.exit.again, WaitPid(s.child, pid), pid, max);
      }
    }
  }

  lemma HandlerPollsStep(s: State, a: Actor, pid: int, max: nat)
    requires HandlerPollsInv(s.handler, s.handlerStop, pid, max) && Enabled(s, a) && pid > 0
    ensures HandlerPollsInv(Apply(s, a, pid, max).handler, Apply(s, a, pid, max).handlerStop, pid, max)
  {
    hide Polled, PollsOk;
    if a.HandlerThread? && s.handler.HStopping? {
      PollsBounded(s.handlerStop, s.handler.again, max);
      if s.handler.again < max {
        PolledOnce(s.handlerStop, s.handler.again, WaitPid(s.child, pid), pid, max);
      }
    }
  }

  lemma PollsBounded(p: Polls, again: nat, max: nat)
    requires PollsOk(p, max) && Polling(p, again)
    ensures again <= max && forall w | w in p.answers :: w == 0
  {
  }

  /** One link of a run. */
  lemma Link(pid: int, max: nat, actors: seq<Actor>, states: seq<State>, k: nat)
    requires Run(pid, max, actors, states) && k < |actors|
    ensures |states| == |actors| + 1 && states[0] == OPENED && Enabled(states[k], actors[k])
    ensures states[k + 1] == Apply(states[k], actors[k], pid, max)
  {
    hide Apply, Enabled;
  }

  lemma RunStarts(pid: int, max: nat, actors: seq<Actor>, states: seq<State>)
    requires Run(pid, max, actors, states)
    ensures |states| == |actors| + 1 && states[0] == OPENED
  {
    hide Apply, Enabled;
  }

  lemma OpenedInv(pid: int, max: nat)
    ensures Inv(OPENED, pid, max)
  {
  }

  lemma StepKeepsInv(s: State, a: Actor, pid: int, max: nat)
    requires Inv(s, pid, max) && Enabled(s, a) && pid > 0
    ensures Inv(Apply(s, a, pid, max), pid, max)
  {
    hide Apply, Enabled, OwnershipInv, ProgressInv, ExitPollsInv, HandlerPollsInv;
    OwnershipStep(s, a, pid, max);
    ProgressStep(s, a, pid, max);
    ExitPollsStep(s, a, pid, max);
    HandlerPollsStep(s, a, pid, max);
  }

  lemma {:induction false} RunKeepsInv(pid: int, max: nat, actors: seq<Actor>, states: seq<State>, k: nat)
    requires pid > 0 && Run(pid, max, actors, states) && k < |states|
    ensures Inv(states[k], pid, max)
  {
    hide *;
    RunStarts(pid, max, actors, states);
    if k > 0 {
      RunKeepsInv(pid, max, actors, states, k - 1);
      Link(pid, max, actors, states, k - 1);
      StepKeepsInv(states[k - 1], actors[k - 1], pid, max);
    } else {
      OpenedInv(pid, max);
    }
  }

  // ---- ownership ----

  /** In every interleaving the session is deleted at most once, by a thread that held the mutex, and from then on
      neither thread uses it. */
  lemma {:induction false} DeletedAtMostOnce(pid: int, max: nat, actors: seq<Actor>, states: seq<State>, k: nat)
    requires pid > 0 && Run(pid, max, actors, states) && k < |states|
    ensures var s := states[k];
            && s.deletes <= 1
            && (s.session <==> s.deletes == 0)
            && (s.deletes == 1 ==> !ExitUses(s.exit) && !HandlerUses(s.handler))
            && !(ExitUses(s.exit) && HandlerEnds(s.handler))
  {
    RunKeepsInv(pid, max, actors, states, k);
  }

  /** The exit caller took the mutex at some point. */
  predicate ExitLocked(s: State) {
    ExitUses(s.exit) || s.exit == Returned(0) || s.exit == Returned(-1)
  }

  /** If exit locks first, both trylocks of the handler fail ever after and only exit deletes, after the handler
      ended. */
  lemma {:induction false} ExitFirstExcludesHandler(
      pid: int, max: nat, actors: seq<Actor>, states: seq<State>, k: nat, j: nat)
    requires pid > 0 && Run(pid, max, actors, states) && k <= j < |states|
    requires states[k].owner == ByExit
    ensures ExitLocked(states[j]) && !HandlerEnds(states[j].handler)
    ensures states[j].deletes == 1 ==> states[j].exit == Returned(0) && states[j].handler == Ended
    decreases j
  {
    hide *;
    RunStarts(pid, max, actors, states);
    RunKeepsInv(pid, max, actors, states, j);
    if k < j {
      ExitFirstExcludesHandler(pid, max, actors, states, k, j - 1);
      RunKeepsInv(pid, max, actors, states, j - 1);
      Link(pid, max, actors, states, j - 1);
      LockedStep(states[j - 1], actors[j - 1], pid, max);
    } else {
      OwnerLocked(states[j], pid, max);
    }
    if states[j].deletes == 1 {
      LockedDelete(states[j], pid, max);
    }
  }

  lemma OwnerLocked(s: State, pid: int, max: nat)
    requires Inv(s, pid, max) && s.owner == ByExit
    ensures ExitLocked(s) && !HandlerEnds(s.handler)
  {
    hide ProgressInv, ExitPollsInv, HandlerPollsInv;
  }

  lemma LockedStep(s: State, a: Actor, pid: int, max: nat)
    requires Inv(s, pid, max) && Enabled(s, a) && pid > 0
    requires ExitLocked(s) && !HandlerEnds(s.handler)
    ensures ExitLocked(Apply(s, a, pid, max)) && !HandlerEnds(Apply(s, a, pid, max).handler)
  {
    hide ExitPollsInv, HandlerPollsInv;
  }

  lemma LockedDelete(s: State, pid: int, max: nat)
    requires Inv(s, pid, max) && ExitLocked(s) && s.deletes == 1
    ensures s.exit == Returned(0) && s.handler == Ended
  {
    hide ExitPollsInv, HandlerPollsInv;
  }

  // ---- the result of exit ----

  /** The answers recorded so far, as a poll function. */
  function Answers(polls: seq<int>): nat -> int {
    (k: nat) => if k < |polls| then polls[k] else 0
  }

  /** Polls made one by one, interleaved with the other thread, the child and the socket, end as the stop loop does
      on the same answers. */
  lemma {:induction false} StopAgrees(p: Polls, pid: int, max: nat, reaped: bool)
    requires PollsOk(p, max) && Stopped(p, pid, max, reaped) && pid > 0
    ensures StopOutcome(Answers(p.answers), pid, max, if reaped then 0 else -1, |p.answers|, p.kills)
  {
    var poll, n := Answers(p.answers), |p.answers|;
    var k := FirstNonZero(poll, max);
    assert forall j | 0 <= j < n :: poll(j) == p.answers[j];
    if n > 0 && p.answers[n - 1] != 0 {
      assert poll(n - 1) != 0;
      assert k == n - 1;
    } else {
      assert n == max;
      assert k == max;
    }
    if reaped {
      assert poll(n - 1) == pid;
    }
  }

  /** Exit returns 0 exactly when its stop loop reaped the child and the handler thread was joined. Only then is the
      session it found gone; when it fails the session stays bound and the mutex stays locked. -9997 means that the
      handler had ended the session before. */
  lemma {:induction false} ExitResult(pid: int, max: nat, actors: seq<Actor>, states: seq<State>, k: nat)
    requires pid > 0 && Run(pid, max, actors, states) && k < |states| && states[k].exit.Returned?
    ensures var s, err := states[k], states[k].exit.err;
            && err in {0, -1, -9997}
            && (err == 0 <==> s.joined)
            && (err == 0 ==> s.child == Reaped && s.handler == Ended && !s.session)
            && (err == -1 ==> s.session && s.owner == ByExit)
            && (err == -9997 ==> !s.session && s.exitStop.answers == [])
            && (err != -9997 ==>
                  StopOutcome(Answers(s.exitStop.answers), pid, max, err, |s.exitStop.answers|, s.exitStop.kills))
  {
    var s := states[k];
    RunKeepsInv(pid, max, actors, states, k);
    hide Run, PollsOk, Stopped, StopOutcome, HandlerPollsInv;
    if s.exit.err != NO_SESSION_ERR {
      StopAgrees(s.exitStop, pid, max, s.exit.err == 0);
    }
  }

  /** When the handler is about to delete the session, its own stop loop is over, with the outcome `StopProcess` has on
      the same answers; it may have failed. */
  lemma {:induction false} HandlerStops(pid: int, max: nat, actors: seq<Actor>, states: seq<State>, k: nat)
    requires pid > 0 && Run(pid, max, actors, states) && k < |states| && states[k].handler.HInvalidating?
    ensures var s, p := states[k], states[k].handlerStop;
            && s.session && s.owner == ByHandler && !ExitUses(s.exit)
            && StopOutcome(Answers(p.answers), pid, max, if s.handler.reaped then 0 else -1, |p.answers|, p.kills)
  {
    var s := states[k];
    RunKeepsInv(pid, max, actors, states, k);
    hide Run, PollsOk, Stopped, StopOutcome, ExitPollsInv;
    StopAgrees(s.handlerStop, pid, max, s.handler.reaped);
  }

  // ---- when exit returns ----

  function EventRank(s: State): nat {
    (if s.child == Running then 1 else 0) + if s.eof then 0 else 1
  }

  function HandlerRank(h: HandlerPc, max: nat): nat {
    match h
    case Serving => max + 7
    case TryFirst => max + 6
    case SignalOther => max + 5
    case TrySecond => max + 4
    case HStopping(again) => if again < max then 3 + max - again else 3
    case HInvalidating(_) => 2
    case Ending => 1
    case Ended => 0
  }

  function ExitRank(e: ExitPc, max: nat): nat {
    match e
    case NotStarted => max + 4
    case Stopping(again) => if again < max then 3 + max - again else 3
    case Joining => 2
    case Invalidating => 1
    case Returned(_) => 0
  }

  function Rank(s: State, max: nat): nat {
    EventRank(s) + HandlerRank(s.handler, max) + ExitRank(s.exit, max)
  }

  lemma ExitRankDrops(s: State, pid: int, max: nat)
    requires Enabled(s, ExitCaller)
    ensures var s' := Apply(s, ExitCaller, pid, max);
            ExitRank(s'.exit, max) < ExitRank(s.exit, max) && s'.handler == s.handler && EventRank(s') <= EventRank(s)
  {
    hide Polled, HandlerPoll;
  }

  lemma HandlerPollRank(s: State, again: nat, pid: int, max: nat)
    ensures var s' := HandlerPoll(s, again, pid, max);
            && HandlerRank(s'.handler, max) < HandlerRank(HStopping(again), max)
            && s'.exit == s.exit && EventRank(s') <= EventRank(s)
  {
    hide Polled;
  }

  lemma HandlerRankDrops(s: State, pid: int, max: nat)
    requires Enabled(s, HandlerThread)
    ensures var s' := Apply(s, HandlerThread, pid, max);
            && HandlerRank(s'.handler, max) < HandlerRank(s.handler, max)
            && s'.exit == s.exit && EventRank(s') <= EventRank(s)
  {
    hide ExitPoll, HandlerPoll;
    if s.handler.HStopping? {
      HandlerPollRank(s, s.handler.again, pid, max);
    }
  }

  lemma EventRankDrops(s: State, a: Actor, pid: int, max: nat)
    requires Enabled(s, a) && (a == ChildDies || a == SocketCloses)
    ensures var s' := Apply(s, a, pid, max);
            s'.exit == s.exit && s'.handler == s.handler && EventRank(s') < EventRank(s)
  {
    hide ExitPoll, HandlerPoll;
  }

  lemma RankDrops(s: State, a: Actor, pid: int, max: nat)
    requires Enabled(s, a)
    ensures Rank(Apply(s, a, pid, max), max) < Rank(s, max)
  {
    hide Apply, Enabled, EventRank, ExitRank, HandlerRank;
    match a
    case ExitCaller => ExitRankDrops(s, pid, max);
    case HandlerThread => HandlerRankDrops(s, pid, max);
    case _ => EventRankDrops(s, a, pid, max);
  }

  lemma OpenedRank(max: nat)
    ensures Rank(OPENED, max) == 2 * max + 13
  {
  }

  lemma {:induction false} RunsAreShort(pid: int, max: nat, actors: seq<Actor>, states: seq<State>, k: nat)
    requires pid > 0 && Run(pid, max, actors, states) && k < |states|
    ensures Rank(states[k], max) + k <= 2 * max + 13
  {
    hide *;
    RunStarts(pid, max, actors, states);
    OpenedRank(max);
    if k > 0 {
      RunsAreShort(pid, max, actors, states, k - 1);
      Link(pid, max, actors, states, k - 1);
      RankDrops(states[k - 1], actors[k - 1], pid, max);
    }
  }

  /** Neither thread can move without an event of the environment. */
  predicate ThreadsHalt(s: State) {
    !Enabled(s, ExitCaller) && !Enabled(s, HandlerThread)
  }

  /** Exit joins a handler thread that still reads, and the socket is still open. */
  predicate JoinsReader(s: State) {
    s.exit == Joining && s.handler == Serving && !s.eof
  }

  /** When exit returns, exactly: no run is longer than 2 * max + 13 steps, and in a state where neither thread can
      move exit has returned, unless it joins a handler thread that gets no end of file. */
  lemma {:induction false} ExitReturnsIff(pid: int, max: nat, actors: seq<Actor>, states: seq<State>, k: nat)
    requires pid > 0 && Run(pid, max, actors, states) && k < |states|
    ensures |actors| <= 2 * max + 13
    ensures JoinsReader(states[k]) ==> ThreadsHalt(states[k])
    ensures ThreadsHalt(states[k]) ==> (states[k].exit.Returned? <==> !JoinsReader(states[k]))
  {
    hide Run, ExitPollsInv, HandlerPollsInv, Rank;
    RunStarts(pid, max, actors, states);
    RunsAreShort(pid, max, actors, states, |actors|);
    RunKeepsInv(pid, max, actors, states, k);
  }

  // ---- outcomes that do occur, for every retry bound ----

  ghost predicate Reached(pid: int, max: nat, s: State) {
    exists actors, states :: RunTo(pid, max, actors, states, s)
  }

  ghost predicate RunTo(pid: int, max: nat, actors: seq<Actor>, states: seq<State>, s: State) {
    Run(pid, max, actors, states) && states[|actors|] == s
  }

  lemma ReachOpened(pid: int, max: nat)
    ensures Reached(pid, max, OPENED)
  {
    assert RunTo(pid, max, [], [OPENED], OPENED);
  }

  /** One more step of a run. */
  lemma Do(pid: int, max: nat, s: State, a: Actor) returns (s': State)
    requires Reached(pid, max, s) && Enabled(s, a)
    ensures s' == Apply(s, a, pid, max) && Reached(pid, max, s')
  {
    hide Apply, Enabled;
    s' := Apply(s, a, pid, max);
    var actors, states :| RunTo(pid, max, actors, states, s);
    var actors', states' := actors + [a], states + [s'];
    forall k | 0 <= k < |actors'|
      ensures Enabled(states'[k], actors'[k]) && states'[k + 1] == Apply(states'[k], actors'[k], pid, max)
    {
      if k < |actors| {
        assert states'[k] == states[k] && actors'[k] == actors[k] && states'[k + 1] == states[k + 1];
      }
    }
    assert RunTo(pid, max, actors', states', s');
  }

  /** With the child running the exit caller's stop loop makes all its polls and fails. */
  lemma {:induction false} ExitPollsInVain(pid: int, max: nat, s: State, again: nat) returns (s': State)
    requires Reached(pid, max, s) && s.exit == Stopping(again) && again <= max && s.child == Running
    ensures Reached(pid, max, s') && s' == s.(exit := Returned(-1), exitStop := s'.exitStop)
    decreases max - again
  {
    hide Reached;
    s' := Do(pid, max, s, ExitCaller);
    if again < max {
      s' := ExitPollsInVain(pid, max, s', again + 1);
    }
  }

  /** With the child running the handler's stop loop makes all its polls and fails. */
  lemma {:induction false} HandlerPollsInVain(pid: int, max: nat, s: State, again: nat) returns (s': State)
    requires Reached(pid, max, s) && s.handler == HStopping(again) && again <= max && s.child == Running
    ensures Reached(pid, max, s') && s' == s.(handler := HInvalidating(false), handlerStop := s'.handlerStop)
    decreases max - again
  {
    hide Reached;
    s' := Do(pid, max, s, HandlerThread);
    if again < max {
      s' := HandlerPollsInVain(pid, max, s', again + 1);
    }
  }

  /** At end of file a handler that finds the mutex locked by exit ends without touching the session. */
  lemma HandlerGivesUp(pid: int, max: nat, s: State) returns (s': State)
    requires Reached(pid, max, s) && s.handler == Serving && !s.eof && s.owner == ByExit
    ensures Reached(pid, max, s') && s' == s.(eof := true, handler := Ended)
  {
    hide Reached;
    s' := Do(pid, max, s, SocketCloses);
    s' := Do(pid, max, s', HandlerThread);
    s' := Do(pid, max, s', HandlerThread);
    s' := Do(pid, max, s', HandlerThread);
    s' := Do(pid, max, s', HandlerThread);
    s' := Do(pid, max, s', HandlerThread);
  }

  /** Exit locks first, reaps the child and joins a handler that still reads. */
  lemma ReachJoining(pid: int, max: nat) returns (s: State)
    requires pid > 0 && max > 0
    ensures Reached(pid, max, s) && JoinsReader(s) && s.child == Reaped && s.session && s.owner == ByExit
  {
    hide Reached;
    ReachOpened(pid, max);
    s := Do(pid, max, OPENED, ChildDies);
    s := Do(pid, max, s, ExitCaller);
    s := Do(pid, max, s, ExitCaller);
  }

  /** A stop loop that may not poll never reaps. */
  lemma ReapedNeedsPoll(pid: int, max: nat, s: State)
    requires pid > 0 && Reached(pid, max, s) && (s.exit == Joining || s.exit == Returned(0))
    ensures max > 0
  {
    var actors, states :| RunTo(pid, max, actors, states, s);
    RunKeepsInv(pid, max, actors, states, |actors|);
    hide Run;
  }

  /** Exit may return 0, if and only if the stop loop may poll at all. */
  lemma ExitMaySucceedIff(pid: int, max: nat)
    requires pid > 0
    ensures (exists s :: Reached(pid, max, s) && s.exit == Returned(0)) <==> max > 0
  {
    if max > 0 {
      var s := ReachJoining(pid, max);
      s := HandlerGivesUp(pid, max, s);
      hide Reached;
      s := Do(pid, max, s, ExitCaller);
      s := Do(pid, max, s, ExitCaller);
      assert s.exit == Returned(0);
    } else if s :| Reached(pid, max, s) && s.exit == Returned(0) {
      ReapedNeedsPoll(pid, max, s);
    }
  }

  /** Exit may be left joining with the shell dead and reaped, if and only if the stop loop may poll: a background job
      that keeps the socket open is enough. */
  lemma ExitMayHangIff(pid: int, max: nat)
    requires pid > 0
    ensures (exists s :: Reached(pid, max, s) && JoinsReader(s) && s.child == Reaped) <==> max > 0
  {
    if max > 0 {
      var s := ReachJoining(pid, max);
    } else if s :| Reached(pid, max, s) && JoinsReader(s) && s.child == Reaped {
      ReapedNeedsPoll(pid, max, s);
    }
  }

  /** Exit may fail with -1, for every bound; then the handler ends too, and nobody is left to end the session or to
      unlock the mutex. */
  lemma ExitMayFail(pid: int, max: nat)
    requires pid > 0
    ensures exists s :: Reached(pid, max, s) && s.exit == Returned(-1) && s.handler == Ended
                        && s.session && s.owner == ByExit
  {
    hide Reached;
    ReachOpened(pid, max);
    var s := Do(pid, max, OPENED, ExitCaller);
    s := ExitPollsInVain(pid, max, s, 0);
    s := HandlerGivesUp(pid, max, s);
    assert s.exit == Returned(-1);
  }

  /** The handler may delete the session while the shell still runs, for every bound: it closed the socket, and the
      handler's stop loop gave up. Exit then finds no session. */
  lemma HandlerMayLeaveChild(pid: int, max: nat)
    requires pid > 0
    ensures exists s :: Reached(pid, max, s) && s.exit == Returned(-9997) && s.handler == Ended
                        && s.deletes == 1 && s.child == Running
  {
    hide Reached;
    ReachOpened(pid, max);
    var s := Do(pid, max, OPENED, SocketCloses);
    s := Do(pid, max, s, HandlerThread);
    s := Do(pid, max, s, HandlerThread);
    s := HandlerPollsInVain(pid, max, s, 0);
    s := Do(pid, max, s, HandlerThread);
    s := Do(pid, max, s, HandlerThread);
    s := Do(pid, max, s, ExitCaller);
    assert s.exit == Returned(NO_SESSION_ERR);
  }
}
