/** Callback quiescence: the registry, the handlers' snapshots and fActiveCallbacks as one
    state, stepped at the granularity of the notifier lock. */
module Quiescence {
  import opened Notifiers

  /** snapshots[d] holds the callbacks that handler d has snapshotted and not finished; its
      first one is the one that may be running. */
  datatype State = State(registry: seq<seq<Notifier>>,
                         snapshots: seq<seq<Notifier>>,
                         activeCallbacks: nat,
                         shuttingDown: bool)

  datatype Action =
    | Register(eventType: nat, n: Notifier)
    | Unregister(eventType: nat, n: Notifier)
    | Snapshot(handler: nat, eventType: nat, hasObject: set<Notifier>)
    | CallbackReturns(handler: nat)
    | BeginShutdown

  /** What one lock section does; an action nobody can take changes nothing. */
  function Step(s: State, a: Action): State {
    match a
    case Register(t, n) =>
      if t >= |s.registry| || s.shuttingDown then s
      else s.(registry := s.registry[t := Registered(s.registry[t], n)])
    case Unregister(t, n) =>
      if t >= |s.registry| then s
      else s.(registry := s.registry[t := Unregistered(s.registry[t], n)])
    case Snapshot(d, t, hasObject) =>
      if d >= |s.snapshots| || s.snapshots[d] != [] || t >= |s.registry| then s
      else
        var targets := Callable(s.registry[t], hasObject, s.shuttingDown);
        s.(snapshots := s.snapshots[d := targets], activeCallbacks := s.activeCallbacks + |targets|)
    case CallbackReturns(d) =>
      if d >= |s.snapshots| || s.snapshots[d] == [] then s
      else
        s.(snapshots := s.snapshots[d := s.snapshots[d][1..]],
           activeCallbacks := if s.activeCallbacks > 0 then s.activeCallbacks - 1 else 0)
    case BeginShutdown => s.(shuttingDown := true)
  }

  function Run(s: State, actions: seq<Action>): State
    decreases |actions|
  {
    if actions == [] then s else Run(Step(s, actions[0]), actions[1..])
  }

  function Unfinished(snapshots: seq<seq<Notifier>>): nat {
    if snapshots == [] then 0 else |snapshots[0]| + Unfinished(snapshots[1..])
  }

  /** fActiveCallbacks counts the unfinished callbacks of all handlers together, and every
      event type's list is free of duplicates and within its four slots. */
  ghost predicate Counted(s: State) {
    && s.activeCallbacks == Unfinished(s.snapshots)
    && forall t :: 0 <= t < |s.registry| ==>
         NoDuplicates(s.registry[t]) && |s.registry[t]| <= MAX_NOTIFIERS
  }

  /** A target that no event type lists. */
  ghost predicate Unlisted(s: State, n: Notifier) {
    forall t :: 0 <= t < |s.registry| ==> n !in s.registry[t]
  }

  /** A target that no handler is calling or about to call. */
  ghost predicate Untouched(s: State, n: Notifier) {
    forall d :: 0 <= d < |s.snapshots| ==> n !in s.snapshots[d]
  }

  lemma {:induction false} UnfinishedUpdate(snapshots: seq<seq<Notifier>>, d: nat, v: seq<Notifier>)
    requires d < |snapshots|
    ensures Unfinished(snapshots[d := v]) == Unfinished(snapshots) - |snapshots[d]| + |v|
  {
    if d == 0 {
      assert snapshots[d := v][1..] == snapshots[1..];
    } else {
      assert snapshots[d := v][1..] == snapshots[1..][d - 1 := v];
      UnfinishedUpdate(snapshots[1..], d - 1, v);
    }
  }

  lemma {:induction false} UnfinishedCovers(snapshots: seq<seq<Notifier>>, d: nat)
    requires d < |snapshots|
    ensures |snapshots[d]| <= Unfinished(snapshots)
  {
    if d > 0 { UnfinishedCovers(snapshots[1..], d - 1); }
  }

  lemma StepKeepsCounted(s: State, a: Action)
    requires Counted(s)
    ensures Counted(Step(s, a))
  {
    match a {
      case Register(t, n) =>
        if t < |s.registry| { RegisteredKeepsOrder(s.registry[t], n); }
      case Unregister(t, n) =>
        if t < |s.registry| { UnregisteredRemovesOne(s.registry[t], n); }
      case Snapshot(d, t, hasObject) =>
        if d < |s.snapshots| && t < |s.registry| {
          UnfinishedUpdate(s.snapshots, d, Callable(s.registry[t], hasObject, s.shuttingDown));
        }
      case CallbackReturns(d) =>
        if d < |s.snapshots| && s.snapshots[d] != [] {
          UnfinishedCovers(s.snapshots, d);
          UnfinishedUpdate(s.snapshots, d, s.snapshots[d][1..]);
        }
      case BeginShutdown =>
    }
  }

  lemma {:induction false} RunKeepsCounted(s: State, actions: seq<Action>)
    requires Counted(s)
    ensures Counted(Run(s, actions))
    decreases |actions|
  {
    if actions != [] {
      StepKeepsCounted(s, actions[0]);
      RunKeepsCounted(Step(s, actions[0]), actions[1..]);
    }
  }

  /** synchronizeCallbacks returns in a state where its test found the counter at zero: at
      that moment exactly no handler holds any callback. */
  lemma SynchronizedIffIdle(s: State)
    requires Counted(s)
    ensures s.activeCallbacks == 0 <==> forall d :: 0 <= d < |s.snapshots| ==> s.snapshots[d] == []
  {
    if s.activeCallbacks == 0 {
      forall d | 0 <= d < |s.snapshots| ensures s.snapshots[d] == [] {
        UnfinishedCovers(s.snapshots, d);
      }
    } else {
      SomeUnfinished(s.snapshots);
    }
  }

  lemma {:induction false} SomeUnfinished(snapshots: seq<seq<Notifier>>)
    requires Unfinished(snapshots) > 0
    ensures exists d :: 0 <= d < |snapshots| && snapshots[d] != []
  {
    if snapshots[0] != [] {
      assert 0 <= 0 < |snapshots| && snapshots[0] != [];
    } else {
      SomeUnfinished(snapshots[1..]);
      var d :| 0 <= d < |snapshots[1..]| && snapshots[1..][d] != [];
      assert snapshots[d + 1] != [];
    }
  }

  predicate Registers(a: Action, n: Notifier) {
    a.Register? && a.n == n
  }

  lemma StepKeepsUnlisted(s: State, a: Action, n: Notifier)
    requires Counted(s) && Unlisted(s, n) && !Registers(a, n)
    ensures Unlisted(Step(s, a), n)
    ensures Untouched(s, n) ==> Untouched(Step(s, a), n)
  {
    match a {
      case Unregister(t, m) =>
        if t < |s.registry| { UnregisteredRemovesOne(s.registry[t], m); }
      case Snapshot(d, t, hasObject) =>
        if t < |s.registry| { CallableIsRegistered(s.registry[t], hasObject, s.shuttingDown); }
      case Register(_, _) =>
      case CallbackReturns(_) =>
      case BeginShutdown =>
    }
  }

  lemma {:induction false} RunKeepsUnlisted(s: State, actions: seq<Action>, n: Notifier)
    requires Counted(s) && Unlisted(s, n)
    requires forall k :: 0 <= k < |actions| ==> !Registers(actions[k], n)
    ensures Unlisted(Run(s, actions), n)
    ensures Untouched(s, n) ==> Untouched(Run(s, actions), n)
    decreases |actions|
  {
    if actions != [] {
      StepKeepsCounted(s, actions[0]);
      StepKeepsUnlisted(s, actions[0], n);
      RunKeepsUnlisted(Step(s, actions[0]), actions[1..], n);
    }
  }

  /** Unregister everywhere, wait for the counter to reach zero, and from then on, whatever
      the handlers and other users of the registry do, the target is neither running nor in
      any handler's snapshot until it is registered again. */
  lemma UnregisterThenSynchronize(s: State, waiting: seq<Action>, after: seq<Action>, n: Notifier)
    requires Counted(s) && Unlisted(s, n)
    requires forall k :: 0 <= k < |waiting| ==> !Registers(waiting[k], n)
    requires forall k :: 0 <= k < |after| ==> !Registers(after[k], n)
    requires Run(s, waiting).activeCallbacks == 0
    ensures Untouched(Run(Run(s, waiting), after), n)
  {
    RunKeepsCounted(s, waiting);
    RunKeepsUnlisted(s, waiting, n);
    SynchronizedIffIdle(Run(s, waiting));
    RunKeepsUnlisted(Run(s, waiting), after, n);
  }

  /** Once shutdown has begun and the counter has reached zero, no callback ever starts. */
  lemma {:induction false} ShutdownStaysIdle(s: State, after: seq<Action>)
    requires Counted(s) && s.shuttingDown && s.activeCallbacks == 0
    ensures Run(s, after).activeCallbacks == 0
    decreases |after|
  {
    if after != [] {
      var a := after[0];
      SynchronizedIffIdle(s);
      if a.Snapshot? && a.eventType < |s.registry| {
        CallableIsRegistered(s.registry[a.eventType], a.hasObject, true);
        NoMember(Callable(s.registry[a.eventType], a.hasObject, true));
      }
      StepKeepsCounted(s, a);
      ShutdownStaysIdle(Step(s, a), after[1..]);
    }
  }

  lemma NoMember(list: seq<Notifier>)
    ensures list == [] || exists n :: n in list
  {
    if list != [] { assert list[0] in list; }
  }

  /** Unregistering alone is not enough: a handler may hold the target in a snapshot taken
      before. */
  lemma UnregisterAloneDoesNotSuffice(n: Notifier)
    requires n != NULL
    ensures exists s: State, actions: seq<Action> ::
              Counted(s) && Unlisted(Run(s, actions), n) && !Untouched(Run(s, actions), n)
  {
    var s := State([[n]], [[]], 0, false);
    var snapshot, unregister := Snapshot(0, 0, {n}), Unregister(0, n);
    assert Callable([n], {n}, false) == [n];
    var s1 := Step(s, snapshot);
    assert s1.snapshots == [[n]];
    var s2 := Step(s1, unregister);
    assert Run(s1, [unregister]) == Run(s2, []) == s2;
    assert [snapshot, unregister][1..] == [unregister];
    assert Run(s, [snapshot, unregister]) == s2;
    assert n in s2.snapshots[0];
    assert Unfinished([[]]) == 0;
  }
}
