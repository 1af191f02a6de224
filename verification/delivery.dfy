/** What exec returns, told by the steps of a run: who wrote the exit code field last before the caller read it. */
module Delivery {
  import opened Arrivals
  import opened Errors
  import opened Guarantees
  import opened Invariant
  import opened Protocol
  import opened Shell
  import opened Tag
  import opened Text

  // ---- steps that touch the exit code field ----

  /** The handler stores a code: it scans a tag line with an integer behind the tag. */
  predicate Stores(s: State, step: Step) {
    step == HandleLine && s.handler.Got? && StoredBy(s.handler.line) != []
  }

  /** Caller i resets the field. */
  predicate Resets(s: State, step: Step, i: nat) {
    step == Exec(i) && i < |s.frames| && s.frames[i].pc == Reset
  }

  /** Caller i reads the field and returns. */
  predicate Reads(s: State, step: Step, i: nat) {
    step == Exec(i) && i < |s.frames| && s.frames[i].pc == ReadCode
  }

  predicate Writes(s: State, step: Step) {
    Stores(s, step) || (step.Exec? && Resets(s, step, step.i))
  }

  /** Step `a` is the last step before `b` that writes the field. */
  ghost predicate LastWrite(steps: seq<Step>, states: seq<State>, a: nat, b: nat)
    requires |states| == |steps| + 1
  {
    a < b <= |steps| && Writes(states[a], steps[a]) && forall j | a < j < b :: !Writes(states[j], steps[j])
  }

  /** The number of codes stored before step k. */
  function StoresBefore(steps: seq<Step>, states: seq<State>, k: nat): nat
    requires |states| == |steps| + 1 && k <= |steps|
  {
    if k == 0 then 0
    else StoresBefore(steps, states, k - 1) + if Stores(states[k - 1], steps[k - 1]) then 1 else 0
  }

  /** Step `a` stores a code, and it is the code of command i: the m-th code stored is that of the m-th command with
      terminated output. */
  predicate StoresFor(e: Env, cmds: seq<string>, steps: seq<Step>, states: seq<State>, a: nat, i: nat)
    requires |states| == |steps| + 1 && a < |steps|
  {
    var m := StoresBefore(steps, states, a);
    Stores(states[a], steps[a]) && m < |Storing(e, cmds)| && Storing(e, cmds)[m] == i
  }

  /** What the field holds after step `a` has written it: the status of the command whose code it stored, or -9996. */
  function FieldAfter(e: Env, cmds: seq<string>, steps: seq<Step>, states: seq<State>, a: nat): int
    requires |states| == |steps| + 1 && a < |steps|
  {
    var m := StoresBefore(steps, states, a);
    if Stores(states[a], steps[a]) && m < |Storing(e, cmds)| && Storing(e, cmds)[m] < |cmds|
    then Statuses(e, cmds)[Storing(e, cmds)[m]]
    else -9996
  }

  /** If step `a` stores a code, it is that of one of the commands. */
  predicate CodeIsKnown(e: Env, cmds: seq<string>, steps: seq<Step>, states: seq<State>, a: nat)
    requires |states| == |steps| + 1 && a < |steps|
  {
    var m := StoresBefore(steps, states, a);
    Stores(states[a], steps[a]) ==> m < |Storing(e, cmds)| && Storing(e, cmds)[m] < |cmds|
  }

  /** Caller i resets the field at step `r` and reads it at step `b`; the last write before is step `a`, at or after
      the caller's own reset. */
  ghost predicate Delivers(steps: seq<Step>, states: seq<State>, i: nat, r: nat, a: nat, b: nat)
    requires |states| == |steps| + 1
  {
    && r <= a < b < |steps| && Resets(states[r], steps[r], i) && Reads(states[b], steps[b], i)
    && LastWrite(steps, states, a, b)
  }

  // ---- one step ----

  /** The code a line stores. */
  function Scanned(line: string): int {
    if StoredBy(line) == [] then INVALID_RESULT else StoredBy(line)[0]
  }

  lemma LineStores(s: State, line: string)
    ensures var s', c := HandleLineStep(s, line), StoredBy(line);
            && s'.h.stores == s.h.stores + c && s'.frames == s.frames
            && (if c == [] then s'.code == s.code else c == [s'.code])
  {
    hide Classify, CStr, Arrive;
    assert s.h.stores + [] == s.h.stores;
  }

  lemma ExecCode(s: State, i: nat)
    requires CanExec(s, i)
    ensures i < |s.frames|
    ensures ExecStep(s, i).code == (if s.frames[i].pc == Reset then INVALID_RESULT else s.code)
    ensures ExecStep(s, i).h.stores == s.h.stores
  {
  }

  /** Only writing steps change the field. */
  lemma CodeStep(e: Env, s: State, step: Step)
    requires Enabled(s, step)
    ensures var s' := Apply(e, s, step);
            && s'.code == (if Stores(s, step) then Scanned(s.handler.line)
                           else if Writes(s, step) then INVALID_RESULT else s.code)
            && s'.h.stores == s.h.stores + if Stores(s, step) then [Scanned(s.handler.line)] else []
  {
    hide StoredBy, ExecLine, FirstLf, CmdOk, ExecStep, CanExec, HandleLineStep;
    assert s.h.stores + [] == s.h.stores;
    match step
    case Exec(i) => ExecCode(s, i);
    case HandleLine => LineStores(s, s.handler.line); OneCode(s.handler.line);
    case _ =>
  }

  lemma OneCode(line: string)
    ensures StoredBy(line) == [] || StoredBy(line) == [Scanned(line)]
  {
    hide Classify;
  }

  /** How a step moves caller i. */
  lemma PcStep(e: Env, s: State, step: Step, i: nat)
    requires Enabled(s, step) && i < |Apply(e, s, step).frames|
    ensures var pc' := Apply(e, s, step).frames[i].pc;
            && (i >= |s.frames| ==> pc' == LogCmd)
            && (i < |s.frames| ==>
                  var pc := s.frames[i].pc;
                  && (PastReset(pc') && !PastReset(pc) ==> Resets(s, step, i))
                  && (pc'.Done? && !pc.Done? ==> Reads(s, step, i) && pc'.result == s.code)
                  && (pc.Done? ==> pc' == pc)
                  && (PastReset(pc) ==> PastReset(pc')))
  {
    hide Classify, CStr, Arrive, ExecLine, FirstLf, CmdOk, ExecStep, CanExec;
    match step
    case Exec(j) => ExecMoves(s, j); ExecPc(s, j);
    case Exit => ExitKeepsFrames(s);
    case ExitSignal(_) =>
    case HandlerSignal(_) =>
    case Acquire(_) =>
    case Call(_) =>
    case _ => OthersKeepCallers(e, s, step);
  }

  lemma ExecPc(s: State, i: nat)
    requires CanExec(s, i)
    ensures var pc, pc' := s.frames[i].pc, ExecStep(s, i).frames[i].pc;
            && !pc.Done?
            && (PastReset(pc') && !PastReset(pc) ==> pc == Reset)
            && (pc'.Done? ==> pc == ReadCode && pc'.result == s.code)
            && (PastReset(pc) ==> PastReset(pc'))
  {
  }

  // ---- along a run ----

  lemma Link(e: Env, steps: seq<Step>, states: seq<State>, k: nat)
    requires Run(e, steps, states) && k < |steps|
    ensures |states| == |steps| + 1 && Enabled(states[k], steps[k])
    ensures states[k + 1] == Apply(e, states[k], steps[k])
  {
    hide Enabled, Apply, Initial;
  }

  lemma RunStarts(e: Env, steps: seq<Step>, states: seq<State>)
    requires Run(e, steps, states)
    ensures |states| == |steps| + 1 && states[0].frames == [] && states[0].h.stores == []
  {
    hide Enabled, Apply;
  }

  lemma {:induction false} StoresCounted(e: Env, steps: seq<Step>, states: seq<State>, k: nat)
    requires Run(e, steps, states) && k < |states|
    ensures |states[k].h.stores| == StoresBefore(steps, states, k)
  {
    hide Run, Enabled, Apply, Stores, Writes, Scanned;
    RunStarts(e, steps, states);
    if k > 0 {
      StoresCounted(e, steps, states, k - 1);
      Link(e, steps, states, k - 1);
      CodeStep(e, states[k - 1], steps[k - 1]);
    }
  }

  lemma {:induction false} StoresGrow(e: Env, steps: seq<Step>, states: seq<State>, j: nat, k: nat)
    requires Run(e, steps, states) && j <= k < |states|
    ensures states[j].h.stores <= states[k].h.stores
    decreases k - j
  {
    hide *;
    if j < k {
      StoresGrow(e, steps, states, j, k - 1);
      RunStarts(e, steps, states);
      Link(e, steps, states, k - 1);
      CodeStep(e, states[k - 1], steps[k - 1]);
    }
  }

  /** Until the next write the field keeps what the last one put there. */
  lemma {:induction false} FieldKept(e: Env, steps: seq<Step>, states: seq<State>, a: nat, b: nat)
    requires Run(e, steps, states) && LastWrite(steps, states, a, b)
    ensures states[b].code ==
            if Stores(states[a], steps[a]) then Scanned(states[a].handler.line) else INVALID_RESULT
    decreases b
  {
    hide Run, Enabled, Apply, Stores, Writes, Scanned;
    RunStarts(e, steps, states);
    Link(e, steps, states, b - 1);
    CodeStep(e, states[b - 1], steps[b - 1]);
    StoresWrite(states[b - 1], steps[b - 1]);
    if a < b - 1 {
      FieldKept(e, steps, states, a, b - 1);
    }
  }

  lemma StoresWrite(s: State, step: Step)
    ensures Stores(s, step) ==> Writes(s, step)
    ensures forall i :: Resets(s, step, i) ==> Writes(s, step) && !Stores(s, step)
  {
    hide StoredBy;
  }

  /** The code a step stores is a command's status. */
  lemma {:induction false} StoredCode(e: Env, steps: seq<Step>, states: seq<State>, a: nat, k: nat)
    requires EnvOk(e) && Run(e, steps, states) && a < k < |states| && Stores(states[a], steps[a])
    ensures var cmds, m := Cmds(states[k].frames), StoresBefore(steps, states, a);
            && m < |Storing(e, cmds)| && Storing(e, cmds)[m] < |cmds|
            && Scanned(states[a].handler.line) == Statuses(e, cmds)[Storing(e, cmds)[m]]
  {
    hide *;
    RunStarts(e, steps, states);
    var cmds, m := Cmds(states[k].frames), StoresBefore(steps, states, a);
    StoresCounted(e, steps, states, a);
    Link(e, steps, states, a);
    CodeStep(e, states[a], steps[a]);
    StoresGrow(e, steps, states, a + 1, k);
    RunKeepsInv(e, steps, states, k);
    StoresInOrder(e, states[k]);
    StoredIsStatus(e, cmds, m);
  }

  /** A caller past the reset has reset the field. */
  lemma {:induction false} HasReset(e: Env, steps: seq<Step>, states: seq<State>, k: nat, i: nat) returns (r: nat)
    requires Run(e, steps, states) && k < |states| && i < |states[k].frames| && PastReset(states[k].frames[i].pc)
    ensures r < k && |states| == |steps| + 1 && Resets(states[r], steps[r], i)
  {
    hide Run, Enabled, Apply, Resets, Reads;
    RunStarts(e, steps, states);
    Link(e, steps, states, k - 1);
    PcStep(e, states[k - 1], steps[k - 1], i);
    if i < |states[k - 1].frames| && PastReset(states[k - 1].frames[i].pc) {
      r := HasReset(e, steps, states, k - 1, i);
    } else {
      r := k - 1;
    }
  }

  /** A caller that has returned has read the field, and its result is what it read. */
  lemma {:induction false} HasRead(e: Env, steps: seq<Step>, states: seq<State>, k: nat, i: nat) returns (b: nat)
    requires Run(e, steps, states) && k < |states| && i < |states[k].frames| && states[k].frames[i].pc.Done?
    ensures b < k && |states| == |steps| + 1 && Reads(states[b], steps[b], i)
    ensures states[k].frames[i].pc.result == states[b].code
  {
    hide Run, Enabled, Apply, Resets, Reads, PastReset;
    RunStarts(e, steps, states);
    Link(e, steps, states, k - 1);
    PcStep(e, states[k - 1], steps[k - 1], i);
    if i < |states[k - 1].frames| && states[k - 1].frames[i].pc.Done? {
      b := HasRead(e, steps, states, k - 1, i);
    } else {
      b := k - 1;
    }
  }

  /** Between a write and a later step there is a last write. */
  lemma {:induction false} FindLastWrite(steps: seq<Step>, states: seq<State>, r: nat, b: nat) returns (a: nat)
    requires |states| == |steps| + 1 && r < b <= |steps| && Writes(states[r], steps[r])
    ensures r <= a && LastWrite(steps, states, a, b)
  {
    hide Writes;
    if Writes(states[b - 1], steps[b - 1]) {
      a := b - 1;
    } else {
      a := FindLastWrite(steps, states, r, b - 1);
    }
  }

  // ---- results ----

  /** Exactly what any number of callers get. A caller that has returned reset the field, and later read it; its
      result is what the last write before the read put there: the status of the command whose tag line was stored, or
      -9996 after a reset and then only. That write is never older than the caller's own reset: no stale status is
      returned. */
  lemma {:induction false} ReturnValueSoundness(e: Env, steps: seq<Step>, states: seq<State>, k: nat, i: nat)
    requires EnvOk(e) && Run(e, steps, states) && k < |states|
    requires i < |states[k].frames| && states[k].frames[i].pc.Done?
    ensures |states| == |steps| + 1
    ensures exists r: nat, a: nat, b: nat ::
              && Delivers(steps, states, i, r, a, b) && b < k
              && CodeIsKnown(e, Cmds(states[k].frames), steps, states, a)
              && states[k].frames[i].pc.result == FieldAfter(e, Cmds(states[k].frames), steps, states, a)
  {
    hide Run, EnvOk, Cmds, LastWrite, Statuses, Storing, Stores, Writes, Resets, Scanned;
    var b := HasRead(e, steps, states, k, i);
    var r := HasReset(e, steps, states, b, i);
    StoresWrite(states[r], steps[r]);
    var a := FindLastWrite(steps, states, r, b);
    assert a < b by { LastWriteBefore(steps, states, a, b); }
    FieldKept(e, steps, states, a, b);
    if Stores(states[a], steps[a]) {
      StoredCode(e, steps, states, a, k);
    }
    assert Delivers(steps, states, i, r, a, b);
  }

  lemma LastWriteBefore(steps: seq<Step>, states: seq<State>, a: nat, b: nat)
    requires |states| == |steps| + 1 && LastWrite(steps, states, a, b)
    ensures a < b <= |steps|
  {
    hide Writes;
  }

  lemma {:induction false} DoneStays(e: Env, steps: seq<Step>, states: seq<State>, j: nat, k: nat, i: nat)
    requires Run(e, steps, states) && j <= k < |states|
    requires i < |states[j].frames| && states[j].frames[i].pc.Done?
    ensures i < |states[k].frames| && states[k].frames[i].pc.Done?
    decreases k - j
  {
    hide Run, Enabled, Apply, Resets, Reads, PastReset;
    if j < k {
      DoneStays(e, steps, states, j, k - 1, i);
      RunStarts(e, steps, states);
      Link(e, steps, states, k - 1);
      FramesGrow(e, states[k - 1], steps[k - 1]);
      PcStep(e, states[k - 1], steps[k - 1], i);
    }
  }

  lemma FramesGrow(e: Env, s: State, step: Step)
    requires Enabled(s, step)
    ensures Cmds(s.frames) <= Cmds(Apply(e, s, step).frames)
    ensures |Apply(e, s, step).frames| == |s.frames| + if step.Acquire? then 1 else 0
  {
    if step.Acquire? {
      assert Cmds(Apply(e, s, step).frames) == Cmds(s.frames) + [step.cmd];
    } else {
      hide Apply, Enabled;
      CmdsMovedBy(e, s, step);
    }
  }

  /** Commands stay in the list, and callers past the reset stay past it. */
  lemma {:induction false} CallersStay(e: Env, steps: seq<Step>, states: seq<State>, j: nat, k: nat)
    requires Run(e, steps, states) && j <= k < |states|
    ensures Cmds(states[j].frames) <= Cmds(states[k].frames)
    ensures forall i | 0 <= i < |states[j].frames| && PastReset(states[j].frames[i].pc) ::
              PastReset(states[k].frames[i].pc)
    decreases k - j
  {
    hide Run, Enabled, Apply, Resets, Reads, PastReset, Cmds;
    if j < k {
      var s := states[k - 1];
      CallersStay(e, steps, states, j, k - 1);
      RunStarts(e, steps, states);
      Link(e, steps, states, k - 1);
      FramesGrow(e, s, steps[k - 1]);
      forall i | 0 <= i < |s.frames| && PastReset(s.frames[i].pc)
        ensures PastReset(states[k].frames[i].pc)
      {
        PcStep(e, s, steps[k - 1], i);
      }
    }
  }

  /** A caller reads the field once. */
  lemma {:induction false} ReadsOnce(e: Env, steps: seq<Step>, states: seq<State>, b: nat, b': nat, i: nat)
    requires Run(e, steps, states) && |states| == |steps| + 1 && b < |steps| && b' < |steps|
    requires Reads(states[b], steps[b], i) && Reads(states[b'], steps[b'], i)
    ensures b == b'
  {
    hide Run;
    if b < b' {
      Link(e, steps, states, b);
      DoneStays(e, steps, states, b + 1, b', i);
    } else if b' < b {
      Link(e, steps, states, b');
      DoneStays(e, steps, states, b' + 1, b, i);
    }
  }

  lemma LastWriteOnce(steps: seq<Step>, states: seq<State>, a: nat, a': nat, b: nat)
    requires |states| == |steps| + 1 && LastWrite(steps, states, a, b) && LastWrite(steps, states, a', b)
    ensures a == a'
  {
    hide Writes;
  }

  /** The i-th status is neither -9996 nor another command's. */
  predicate Distinguished(statuses: seq<int>, i: nat)
    requires i < |statuses|
  {
    statuses[i] != -9996 && forall j | 0 <= j < |statuses| && j != i :: statuses[j] != statuses[i]
  }

  /** A field that holds a distinguished status was last written by the store of that status. */
  lemma FromOneCommand(e: Env, cmds: seq<string>, steps: seq<Step>, states: seq<State>, a: nat, i: nat)
    requires |states| == |steps| + 1 && a < |steps| && i < |cmds| && Distinguished(Statuses(e, cmds), i)
    requires FieldAfter(e, cmds, steps, states, a) == Statuses(e, cmds)[i]
    ensures StoresFor(e, cmds, steps, states, a, i)
  {
    hide Stores, StoresBefore, Statuses, Storing;
  }

  /** The step that stored command i's code comes before caller i reads, and nobody writes the field in between. */
  ghost predicate OwnCodeRead(e: Env, cmds: seq<string>, steps: seq<Step>, states: seq<State>, i: nat, k: nat)
    requires |states| == |steps| + 1
  {
    exists a: nat, b: nat :: a < b < k && b < |steps| && Reads(states[b], steps[b], i)
                   && LastWrite(steps, states, a, b) && StoresFor(e, cmds, steps, states, a, i)
  }

  /** When the promise of an own return value is kept: always when the step that stored the caller's code comes before
      the caller reads the field, with no reset and no other store in between; and only then, if the status can be told
      from -9996 and from every other command's. */
  lemma {:induction false} OwnStatusIff(e: Env, steps: seq<Step>, states: seq<State>, k: nat, i: nat)
    requires EnvOk(e) && Run(e, steps, states) && k < |states|
    requires i < |states[k].frames| && states[k].frames[i].pc.Done?
    ensures |states| == |steps| + 1
    ensures var cmds, result := Cmds(states[k].frames), states[k].frames[i].pc.result;
            && (OwnCodeRead(e, cmds, steps, states, i, k) ==> result == Statuses(e, cmds)[i])
            && (Distinguished(Statuses(e, cmds), i) && result == Statuses(e, cmds)[i] ==>
                  OwnCodeRead(e, cmds, steps, states, i, k))
  {
    hide Run, EnvOk, Cmds, LastWrite, Statuses, Storing, Stores, Writes, Resets, Reads;
    var cmds := Cmds(states[k].frames);
    ReturnValueSoundness(e, steps, states, k, i);
    var r: nat, a: nat, b: nat :| Delivers(steps, states, i, r, a, b) && b < k
                   && states[k].frames[i].pc.result == FieldAfter(e, cmds, steps, states, a);
    if Distinguished(Statuses(e, cmds), i) && states[k].frames[i].pc.result == Statuses(e, cmds)[i] {
      FromOneCommand(e, cmds, steps, states, a, i);
    }
    if OwnCodeRead(e, cmds, steps, states, i, k) {
      var a': nat, b': nat :| a' < b' < k && b' < |steps| && Reads(states[b'], steps[b'], i)
                    && LastWrite(steps, states, a', b') && StoresFor(e, cmds, steps, states, a', i);
      ReadsOnce(e, steps, states, b, b', i);
      LastWriteOnce(steps, states, a, a', b);
    }
  }
}
