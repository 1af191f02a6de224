/** The Java facade over the native session: the bound instance and the life-cycle observers. */
module Facade {
  import opened Errors
  import opened Text

  /** One `addObserver` call: its place in the order of all such calls, and the observer it registers. */
  datatype Registration = Registration(id: nat, observer: int)

  /** The process as the facade sees it. A `SuShell` object is a handle: an index into `shells`, which holds each
      object's own observer list. Objects stay usable after they are no longer the bound instance. */
  datatype State = State(
    instance: Option<nat>, shells: seq<seq<Registration>>, native: bool,
    registered: seq<int>, removed: seq<Registration>, notified: seq<Registration>)

  datatype Op =
    | GetInstance(openErr: int, smart: bool, dies: bool) // `dies`: the new shell dies before the last smart command
    | AddObserver(h: nat, observer: int)
    | RemoveObserver(h: nat, observer: int)
    | Ping(h: nat)
    | Exec(h: nat, rval: int)
    | Exit(h: nat, stopped: bool)
    | NativeDeath

  const FRESH: State := State(None, [], false, [], [], [])

  /** Methods are called on existing objects only, and the native open answers -9998 only when a session is bound. */
  predicate Enabled(s: State, op: Op) {
    match op
    case GetInstance(openErr, _, _) => openErr != SESSION_EXISTS_ERR
    case NativeDeath => true
    case _ => op.h < |s.shells|
  }

  /** Position of the first registration of an observer, or the length of the list. */
  function FirstOf(list: seq<Registration>, observer: int): (i: nat)
    ensures i <= |list|
    ensures i < |list| ==> list[i].observer == observer
    ensures forall j | 0 <= j < i :: list[j].observer != observer
  {
    if list == [] || list[0].observer == observer then 0
    else
      var k := FirstOf(list[1..], observer);
      assert forall j | 0 < j < 1 + k :: list[j] == list[1..][j - 1];
      1 + k
  }

  /** Notify every observer of one object, forget them, and unbind the instance. */
  function Invalidate(s: State, h: nat): State
    requires h < |s.shells|
  {
    s.(instance := None, shells := s.shells[h := []], notified := s.notified + s.shells[h])
  }

  /** What the native exec answers; `rval` is its answer when a session is bound. */
  function NativeExec(native: bool, rval: int): int {
    if native then rval else NO_SESSION_ERR
  }

  function GetInstanceStep(s: State, openErr: int, smart: bool, dies: bool): State {
    if s.instance.Some? then s
    else
      var h := |s.shells|;
      var s1 := s.(shells := s.shells + [[]]);
      if s.native then s1.(instance := Some(h))
      else if openErr != 0 then s1
      else
        var s2 := s1.(instance := Some(h), native := true);
        if smart && dies then Invalidate(s2.(native := false), h) else s2
  }

  function RemoveStep(s: State, h: nat, observer: int): State
    requires h < |s.shells|
  {
    var i := FirstOf(s.shells[h], observer);
    if i == |s.shells[h]| then s
    else
      s.(shells := s.shells[h := s.shells[h][..i] + s.shells[h][i + 1..]], removed := s.removed + [s.shells[h][i]])
  }

  function Apply(s: State, op: Op): State
    requires Enabled(s, op)
  {
    match op
    case GetInstance(openErr, smart, dies) => GetInstanceStep(s, openErr, smart, dies)
    case AddObserver(h, observer) =>
      s.(shells := s.shells[h := s.shells[h] + [Registration(|s.registered|, observer)]],
         registered := s.registered + [observer])
    case RemoveObserver(h, observer) => RemoveStep(s, h, observer)
    case Ping(h) => if s.native then s else Invalidate(s, h)
    case Exec(h, rval) => if NativeExec(s.native, rval) == NO_SESSION_ERR then Invalidate(s, h) else s
    case Exit(h, stopped) => s.(instance := None, native := s.native && !stopped)
    case NativeDeath => s.(native := false)
  }

  ghost predicate Run(ops: seq<Op>, states: seq<State>) {
    && |states| == |ops| + 1 && states[0] == FRESH
    && forall k | 0 <= k < |ops| :: Enabled(states[k], ops[k]) && states[k + 1] == Apply(states[k], ops[k])
  }

  // ---- the facade as an object ----

  /** Entry i of the list is the first of the observer. */
  predicate IsFirst(list: seq<Registration>, observer: int, i: int) {
    && 0 <= i < |list| && list[i].observer == observer
    && forall j | 0 <= j < i :: list[j].observer != observer
  }

  /** Only object h's list may differ. */
  predicate OthersKept(shells: seq<seq<Registration>>, shells': seq<seq<Registration>>, h: nat) {
    h < |shells| == |shells'| && forall j | 0 <= j < |shells| && j != h :: shells'[j] == shells[j]
  }

  datatype ExecResult = Result(rval: int) | SessionInvalidated

  class SuShells {
    var instance: Option<nat>
    var shells: seq<seq<Registration>>
    var native: bool
    ghost var registered: seq<int>
    ghost var removed: seq<Registration>
    var notified: seq<Registration>
    var registrations: nat

    ghost predicate Valid()
      reads this
    {
      registrations == |registered| && (instance.Some? ==> instance.value < |shells|)
    }

    ghost function Now(): State
      reads this
    {
      State(instance, shells, native, registered, removed, notified)
    }

    constructor ()
      ensures Valid() && Now() == FRESH
      ensures instance == None && !native && shells == [] && registered == [] && removed == [] && notified == []
    {
      instance, shells, native, notified, registrations := None, [], false, [], 0;
      registered, removed := [], [];
    }

    /** The native library opens a session, finds one, or fails with `openErr`. */
    method OpenShellSession(openErr: int) returns (rval: int)
      modifies this`native
      ensures rval == if old(native) then SESSION_EXISTS_ERR else openErr
      ensures native == (old(native) || openErr == 0)
      ensures old(native) ==> rval == -9998
    {
      if native {
        return SESSION_EXISTS_ERR;
      }
      native := openErr == 0;
      return openErr;
    }

    /** Notify the observers one by one, then forget them. */
    method InvalidatedSessionError(h: nat)
      requires Valid() && h < |shells|
      modifies this
      ensures Valid() && Now() == Invalidate(old(Now()), h)
      ensures OthersKept(old(shells), shells, h) && shells[h] == [] && instance == None
      ensures notified == old(notified) + old(shells[h])
      ensures registered == old(registered) && removed == old(removed) && native == old(native)
    {
      var list, k := shells[h], 0;
      while k < |list|
        invariant 0 <= k <= |list|
        invariant Valid() && Now() == old(Now()).(notified := notified)
        invariant notified == old(notified) + list[..k]
      {
        notified := notified + [list[k]];
        assert list[..k + 1] == list[..k] + [list[k]];
        k := k + 1;
      }
      assert list[..k] == list;
      instance := None;
      shells := shells[h := []];
    }

    /** Bind to a new or an existing native session, unless an instance is bound already. */
    method GetInstance(openErr: int, smart: bool, dies: bool) returns (shell: Option<nat>)
      requires Valid() && openErr != SESSION_EXISTS_ERR
      modifies this
      ensures Valid() && Now() == Apply(old(Now()), Op.GetInstance(openErr, smart, dies))
      ensures shell == instance
      ensures old(instance).Some? ==> shell == old(instance) && shells == old(shells) && native == old(native)
      ensures old(instance).None? ==>
                && shells == old(shells) + [[]] && (shell.Some? ==> shell == Some(|old(shells)|))
                && (shell.Some? <==> old(native) || (openErr == 0 && !(smart && dies)))
                && (native <==> shell.Some?)
      ensures notified == old(notified) && registered == old(registered) && removed == old(removed)
    {
      if instance.None? {
        var h := |shells|;
        shells := shells + [[]];
        instance := Some(h);
        var rval := OpenShellSession(openErr);
        if rval == 0 {
          if smart {
            UpdatePrivateEnvironment(h, dies);
          }
        } else if rval != SESSION_EXISTS_ERR {
          instance := None;
        }
      }
      shell := instance;
    }

    /** Two exports whose failure is only logged, then `cd`, which notices a dead session. */
    method UpdatePrivateEnvironment(h: nat, dies: bool)
      requires Valid() && h < |shells| && native
      modifies this
      ensures Valid()
      ensures Now() == if dies then Invalidate(old(Now()).(native := false), h) else old(Now())
    {
      if dies {
        native := false;
      }
      var r := Exec(h, 0);
    }

    method AddObserver(h: nat, observer: int) returns (count: nat)
      requires Valid() && h < |shells|
      modifies this
      ensures Valid() && Now() == Apply(old(Now()), Op.AddObserver(h, observer))
      ensures shells[h] == old(shells[h]) + [Registration(|old(registered)|, observer)]
      ensures OthersKept(old(shells), shells, h) && instance == old(instance) && native == old(native)
      ensures registered == old(registered) + [observer] && removed == old(removed) && notified == old(notified)
      ensures count == |old(shells[h])| + 1
    {
      shells := shells[h := shells[h] + [Registration(registrations, observer)]];
      registrations := registrations + 1;
      registered := registered + [observer];
      count := |shells[h]|;
    }

    method RemoveObserver(h: nat, observer: int) returns (count: nat)
      requires Valid() && h < |shells|
      modifies this
      ensures Valid() && Now() == Apply(old(Now()), Op.RemoveObserver(h, observer))
      ensures OthersKept(old(shells), shells, h) && instance == old(instance) && native == old(native)
      ensures notified == old(notified) && registered == old(registered)
      ensures forall i | IsFirst(old(shells[h]), observer, i) ::
                && shells[h] == old(shells[h])[..i] + old(shells[h])[i + 1..]
                && removed == old(removed) + [old(shells[h])[i]]
      ensures (forall r | r in old(shells[h]) :: r.observer != observer) ==>
                shells[h] == old(shells[h]) && removed == old(removed)
      ensures count == |shells[h]|
    {
      var list, i := shells[h], 0;
      while i < |list| && list[i].observer != observer
        invariant 0 <= i <= |list|
        invariant forall j | 0 <= j < i :: list[j].observer != observer
      {
        i := i + 1;
      }
      assert i == FirstOf(list, observer);
      assert i == |list| || IsFirst(list, observer, i);
      if i < |list| {
        removed := removed + [list[i]];
        shells := shells[h := list[..i] + list[i + 1..]];
      }
      count := |shells[h]|;
    }

    method Ping(h: nat) returns (alive: bool)
      requires Valid() && h < |shells|
      modifies this
      ensures Valid() && Now() == Apply(old(Now()), Op.Ping(h))
      ensures alive == old(native) && native == old(native) && OthersKept(old(shells), shells, h)
      ensures registered == old(registered) && removed == old(removed)
      ensures alive ==> instance == old(instance) && shells == old(shells) && notified == old(notified)
      ensures !alive ==> instance == None && shells[h] == [] && notified == old(notified) + old(shells[h])
    {
      alive := native;
      if !alive {
        InvalidatedSessionError(h);
      }
    }

    method Exec(h: nat, rval: int) returns (r: ExecResult)
      requires Valid() && h < |shells|
      modifies this
      ensures Valid() && Now() == Apply(old(Now()), Op.Exec(h, rval))
      ensures r == if !old(native) || rval == -9997 then SessionInvalidated else Result(rval)
      ensures registered == old(registered) && removed == old(removed)
      ensures native == old(native) && OthersKept(old(shells), shells, h)
      ensures r.Result? ==> instance == old(instance) && shells == old(shells) && notified == old(notified)
      ensures r == SessionInvalidated ==>
                instance == None && shells[h] == [] && notified == old(notified) + old(shells[h])
    {
      var answer := if native then rval else NO_SESSION_ERR;
      if answer == NO_SESSION_ERR {
        InvalidatedSessionError(h);
        return SessionInvalidated;
      }
      return Result(answer);
    }

    method Exit(h: nat, stopped: bool) returns (err: int)
      requires Valid() && h < |shells|
      modifies this`instance, this`native
      ensures Valid() && Now() == Apply(old(Now()), Op.Exit(h, stopped))
      ensures err == if !old(native) then -9997 else if stopped then 0 else -1
      ensures instance == None && shells == old(shells) && notified == old(notified)
      ensures native <==> err == -1
    {
      instance := None;
      if !native {
        return NO_SESSION_ERR;
      }
      native := !stopped;
      return if stopped then 0 else -1;
    }
  }

  // ---- conservation of registrations ----

  /** How often a registration occurs in a list. */
  function Times(list: seq<Registration>, r: Registration): nat {
    multiset(list)[r]
  }

  /** How often a registration is listed, over all objects. */
  function Listed(shells: seq<seq<Registration>>, r: Registration): nat {
    if shells == [] then 0 else Listed(shells[..|shells| - 1], r) + Times(shells[|shells| - 1], r)
  }

  /** How often a registration is anywhere: listed, removed or notified. */
  function Anywhere(s: State, r: Registration): nat {
    Listed(s.shells, r) + Times(s.removed, r) + Times(s.notified, r)
  }

  lemma TimesConcat(a: seq<Registration>, b: seq<Registration>, r: Registration)
    ensures Times(a + b, r) == Times(a, r) + Times(b, r)
    ensures Times([], r) == 0
    ensures forall x :: Times([x], r) == if x == r then 1 else 0
  {
  }

  lemma {:induction false} ListedUpdate(
      shells: seq<seq<Registration>>, h: nat, list: seq<Registration>, r: Registration)
    requires h < |shells|
    ensures Listed(shells[h := list], r) + Times(shells[h], r) == Listed(shells, r) + Times(list, r)
  {
    hide Times;
    var n, shells' := |shells| - 1, shells[h := list];
    if h == n {
      assert shells'[..n] == shells[..n];
    } else {
      assert shells'[..n] == shells[..n][h := list];
      ListedUpdate(shells[..n], h, list, r);
    }
  }

  lemma {:induction false} ListedSnoc(shells: seq<seq<Registration>>, r: Registration)
    ensures Listed(shells + [[]], r) == Listed(shells, r)
  {
    assert (shells + [[]])[..|shells|] == shells;
  }

  lemma InvalidateMoves(s: State, h: nat, r: Registration)
    requires h < |s.shells|
    ensures Anywhere(Invalidate(s, h), r) == Anywhere(s, r)
  {
    hide Listed, Times;
    ListedUpdate(s.shells, h, [], r);
    TimesConcat(s.notified, s.shells[h], r);
  }

  lemma RemoveMoves(s: State, h: nat, observer: int, r: Registration)
    requires h < |s.shells|
    ensures Anywhere(RemoveStep(s, h, observer), r) == Anywhere(s, r)
  {
    hide Listed, Times;
    var list := s.shells[h];
    var i := FirstOf(list, observer);
    if i < |list| {
      var a, b := list[..i], list[i + 1..];
      ListedUpdate(s.shells, h, a + b, r);
      assert list == a + ([list[i]] + b);
      TimesConcat(a, b, r);
      TimesConcat([list[i]], b, r);
      TimesConcat(a, [list[i]] + b, r);
      TimesConcat(s.removed, [list[i]], r);
    }
  }

  lemma AddMakes(s: State, h: nat, observer: int, r: Registration)
    requires h < |s.shells|
    ensures Anywhere(Apply(s, AddObserver(h, observer)), r) ==
            Anywhere(s, r) + if r == Registration(|s.registered|, observer) then 1 else 0
  {
    hide Listed, Times;
    var x := Registration(|s.registered|, observer);
    ListedUpdate(s.shells, h, s.shells[h] + [x], r);
    TimesConcat(s.shells[h], [x], r);
  }

  /** A step moves registrations between the lists, the removed and the notified; only `addObserver` makes one. */
  lemma AnywhereStep(s: State, op: Op, r: Registration)
    requires Enabled(s, op)
    ensures Anywhere(Apply(s, op), r) ==
            Anywhere(s, r) + if op.AddObserver? && r == Registration(|s.registered|, op.observer) then 1 else 0
  {
    hide Listed, Times, RemoveStep;
    match op
    case GetInstance(_, _, dies) =>
      ListedSnoc(s.shells, r);
      var s1 := s.(shells := s.shells + [[]], instance := Some(|s.shells|), native := false);
      InvalidateMoves(s1, |s.shells|, r);
    case AddObserver(h, observer) => AddMakes(s, h, observer, r);
    case RemoveObserver(h, observer) => RemoveMoves(s, h, observer, r);
    case Ping(h) => InvalidateMoves(s, h, r);
    case Exec(h, _) => InvalidateMoves(s, h, r);
    case _ =>
  }

  lemma RegisteredStep(s: State, op: Op)
    requires Enabled(s, op)
    ensures Apply(s, op).registered == if op.AddObserver? then s.registered + [op.observer] else s.registered
  {
  }

  /** The registrations that exist: one for each `addObserver` so far. */
  predicate Exists(s: State, r: Registration) {
    r.id < |s.registered| && r.observer == s.registered[r.id]
  }

  lemma {:induction false} RunKeepsAll(ops: seq<Op>, states: seq<State>, k: nat, r: Registration)
    requires Run(ops, states) && k < |states|
    ensures Anywhere(states[k], r) == if Exists(states[k], r) then 1 else 0
  {
    if k > 0 {
      hide Apply, Enabled, Anywhere;
      RunKeepsAll(ops, states, k - 1, r);
      var s, op := states[k - 1], ops[k - 1];
      assert states[k - 1 + 1] == Apply(s, op);
      AnywhereStep(s, op, r);
      RegisteredStep(s, op);
    } else {
      TimesConcat([], [], r);
    }
  }

  /** Some object's list holds the registration. */
  predicate IsListed(shells: seq<seq<Registration>>, r: Registration) {
    exists h | 0 <= h < |shells| :: r in shells[h]
  }

  lemma {:induction false} ListedTwice(shells: seq<seq<Registration>>, r: Registration, g: nat, h: nat)
    requires g < h < |shells|
    ensures Times(shells[g], r) + Times(shells[h], r) <= Listed(shells, r)
  {
    hide Times;
    var n := |shells| - 1;
    if h < n {
      ListedTwice(shells[..n], r, g, h);
    } else {
      ListedOnce(shells[..n], r, g);
    }
  }

  lemma {:induction false} ListedOnce(shells: seq<seq<Registration>>, r: Registration, h: nat)
    requires h < |shells|
    ensures Times(shells[h], r) <= Listed(shells, r)
  {
    hide Times;
    var n := |shells| - 1;
    if h < n {
      ListedOnce(shells[..n], r, h);
    }
  }

  lemma {:induction false} ListedSomewhere(shells: seq<seq<Registration>>, r: Registration)
    ensures Listed(shells, r) > 0 <==> IsListed(shells, r)
  {
    if shells != [] {
      var n := |shells| - 1;
      ListedSomewhere(shells[..n], r);
      if IsListed(shells[..n], r) {
        var h :| 0 <= h < n && r in shells[..n][h];
        assert r in shells[h];
      }
      if Times(shells[n], r) > 0 {
        assert r in shells[n];
      }
      if IsListed(shells, r) && !IsListed(shells[..n], r) {
        var h :| 0 <= h < |shells| && r in shells[h];
        assert h < n ==> r in shells[..n][h];
      }
    }
  }

  /** Observer conservation, over every sequence of operations: each registration that was made is in exactly one
      place, still listed, removed, or notified, and there once; so no registration is notified twice or listed with
      two objects, and nothing else is anywhere. */
  lemma {:induction false} ObserverConservation(ops: seq<Op>, states: seq<State>, k: nat, r: Registration)
    requires Run(ops, states) && k < |states|
    ensures var s := states[k];
            var listed, removed, notified := IsListed(s.shells, r), r in s.removed, r in s.notified;
            && (Exists(s, r) <==> listed || removed || notified)
            && !(listed && removed) && !(listed && notified) && !(removed && notified)
            && multiset(s.removed)[r] <= 1 && multiset(s.notified)[r] <= 1
            && (forall h | 0 <= h < |s.shells| :: multiset(s.shells[h])[r] <= 1)
            && forall g, h | 0 <= g < h < |s.shells| :: !(r in s.shells[g] && r in s.shells[h])
  {
    var s := states[k];
    RunKeepsAll(ops, states, k, r);
    hide Run, Listed, Exists;
    ListedSomewhere(s.shells, r);
    forall h | 0 <= h < |s.shells| ensures multiset(s.shells[h])[r] <= 1 {
      ListedOnce(s.shells, r, h);
    }
    forall g, h | 0 <= g < h < |s.shells| ensures !(r in s.shells[g] && r in s.shells[h]) {
      ListedTwice(s.shells, r, g, h);
    }
  }

  // ---- the bound instance ----

  predicate BoundWithoutSession(s: State) {
    s.instance.Some? && !s.native
  }

  predicate Notices(op: Op) {
    op.Ping? || op.Exec? || op.Exit?
  }

  /** The session died at step `d` while an instance was bound, and nothing noticed it before step `k`. */
  ghost predicate UnnoticedDeath(ops: seq<Op>, states: seq<State>, d: nat, k: nat)
    requires |states| == |ops| + 1 && k <= |ops|
  {
    && d < k && ops[d] == NativeDeath && states[d].instance.Some? && states[d].native
    && forall j | d < j < k :: !Notices(ops[j])
  }

  lemma BoundStep(s: State, op: Op)
    requires Enabled(s, op)
    ensures BoundWithoutSession(Apply(s, op)) <==>
            || (BoundWithoutSession(s) && !Notices(op))
            || (s.instance.Some? && s.native && op == NativeDeath)
  {
  }

  /** An instance is bound without a native session exactly when the session died while that instance was bound and
      no ping, exec or exit came after. */
  lemma {:induction false} StaleInstanceIff(ops: seq<Op>, states: seq<State>, k: nat)
    requires Run(ops, states) && k < |states|
    ensures BoundWithoutSession(states[k]) <==> exists d: nat :: UnnoticedDeath(ops, states, d, k)
  {
    if k > 0 {
      hide Apply, Enabled, BoundWithoutSession, Notices;
      StaleInstanceIff(ops, states, k - 1);
      assert states[k - 1 + 1] == Apply(states[k - 1], ops[k - 1]);
      BoundStep(states[k - 1], ops[k - 1]);
      if BoundWithoutSession(states[k]) {
        if BoundWithoutSession(states[k - 1]) && !Notices(ops[k - 1]) {
          var d: nat :| UnnoticedDeath(ops, states, d, k - 1);
          assert UnnoticedDeath(ops, states, d, k);
        } else {
          assert UnnoticedDeath(ops, states, k - 1, k);
        }
      }
      if d: nat :| UnnoticedDeath(ops, states, d, k) {
        if d < k - 1 {
          assert UnnoticedDeath(ops, states, d, k - 1);
        }
      }
    }
  }
}
