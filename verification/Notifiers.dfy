/** The registry of event notifiers, and why unregistering followed by synchronizeCallbacks
    makes a notifier safe to free. */
module Notifiers {
  type Notifier = nat

  const NULL: Notifier := 0
  const EVENT_TYPES: nat := 256
  const MAX_NOTIFIERS: nat := 4

  predicate NoDuplicates(list: seq<Notifier>) {
    forall j, k :: 0 <= j < k < |list| ==> list[j] != list[k]
  }

  /** Registration of one notifier for one event type. */
  function Registered(list: seq<Notifier>, n: Notifier): seq<Notifier> {
    if n in list || |list| >= MAX_NOTIFIERS then list else list + [n]
  }

  /** Removal of the first occurrence; everything behind it moves up. */
  function Unregistered(list: seq<Notifier>, n: Notifier): seq<Notifier> {
    if list == [] then []
    else if list[0] == n then list[1..]
    else [list[0]] + Unregistered(list[1..], n)
  }

  /** Registration keeps the list free of duplicates and keeps every earlier position; the
      notifier ends up in it exactly if it was there or there was room. */
  lemma RegisteredKeepsOrder(list: seq<Notifier>, n: Notifier)
    requires NoDuplicates(list) && |list| <= MAX_NOTIFIERS
    ensures NoDuplicates(Registered(list, n)) && |Registered(list, n)| <= MAX_NOTIFIERS
    ensures list <= Registered(list, n)
    ensures n in Registered(list, n) <==> n in list || |list| < MAX_NOTIFIERS
    ensures forall m :: m != n ==> (m in Registered(list, n) <==> m in list)
  {
  }

  /** Removing position i of a list without duplicates takes out exactly that notifier. */
  lemma {:induction false} UnregisteredAt(list: seq<Notifier>, i: nat)
    requires i < |list| && NoDuplicates(list)
    ensures Unregistered(list, list[i]) == list[..i] + list[i + 1..]
  {
    if i > 0 {
      assert list[1..][i - 1] == list[i];
      UnregisteredAt(list[1..], i - 1);
    }
  }

  lemma {:induction false} UnregisteredAbsent(list: seq<Notifier>, n: Notifier)
    requires n !in list
    ensures Unregistered(list, n) == list
  {
    if list != [] {
      assert forall k :: 0 <= k < |list[1..]| ==> list[1..][k] == list[k + 1];
      UnregisteredAbsent(list[1..], n);
    }
  }

  /** After removal the notifier is gone and every other one is still there, once and in the
      order it had. */
  lemma UnregisteredRemovesOne(list: seq<Notifier>, n: Notifier)
    requires NoDuplicates(list)
    ensures NoDuplicates(Unregistered(list, n)) && |Unregistered(list, n)| <= |list|
    ensures n !in Unregistered(list, n)
    ensures forall m :: m != n ==> (m in Unregistered(list, n) <==> m in list)
  {
    hide Unregistered;
    if n in list {
      var i :| 0 <= i < |list| && list[i] == n;
      UnregisteredAt(list, i);
      var left := list[..i] + list[i + 1..];
      assert forall k :: 0 <= k < |left| ==> left[k] == list[if k < i then k else k + 1];
      assert list == list[..i] + [n] + list[i + 1..];
    } else {
      UnregisteredAbsent(list, n);
    }
  }

  /** A registration that found room is undone exactly. */
  lemma UnregisterUndoesRegister(list: seq<Notifier>, n: Notifier)
    requires NoDuplicates(list) && n !in list && |list| < MAX_NOTIFIERS
    ensures Unregistered(Registered(list, n), n) == list
  {
    UnregisteredAt(list + [n], |list|);
  }

  /** The registry as MlxEQ keeps it: four slots and a count for every event type. */
  class Registry {
    const fNotifiers: array2<Notifier>
    const fNotifierCounts: array<nat>
    var fActiveCallbacks: nat
    var fShuttingDown: bool
    /** The callbacks that some handler has snapshotted and not finished. */
    ghost var unfinished: multiset<Notifier>

    ghost predicate Valid()
      reads this, fNotifiers, fNotifierCounts
    {
      && fActiveCallbacks == |unfinished|
      && fNotifiers.Length0 == fNotifierCounts.Length == EVENT_TYPES
      && fNotifiers.Length1 == MAX_NOTIFIERS
      && (forall t :: 0 <= t < EVENT_TYPES ==> fNotifierCounts[t] <= MAX_NOTIFIERS)
      && (forall t :: 0 <= t < EVENT_TYPES ==> NoDuplicates(List(t)))
    }

    ghost function List(eventType: nat): seq<Notifier>
      requires eventType < fNotifiers.Length0 && eventType < fNotifierCounts.Length
      requires fNotifierCounts[eventType] <= fNotifiers.Length1
      reads this, fNotifiers, fNotifierCounts
    {
      seq(fNotifierCounts[eventType],
          k requires 0 <= k < fNotifierCounts[eventType] <= fNotifiers.Length1
                     && eventType < fNotifiers.Length0
            reads this, fNotifiers, fNotifierCounts => fNotifiers[eventType, k])
    }

    /** Nothing but the given event type's slots has changed. */
    twostate predicate OthersKept(eventType: nat)
      requires fNotifiers.Length0 == fNotifierCounts.Length == EVENT_TYPES
      requires fNotifiers.Length1 == MAX_NOTIFIERS
      reads fNotifiers, fNotifierCounts
    {
      forall t :: 0 <= t < EVENT_TYPES && t != eventType ==>
        && fNotifierCounts[t] == old(fNotifierCounts[t])
        && forall k :: 0 <= k < MAX_NOTIFIERS ==> fNotifiers[t, k] == old(fNotifiers[t, k])
    }

    constructor ()
      ensures Valid() && unfinished == multiset{} && !fShuttingDown
      ensures forall t :: 0 <= t < EVENT_TYPES ==> List(t) == []
      ensures fresh(fNotifiers) && fresh(fNotifierCounts)
    {
      fNotifiers := new Notifier[EVENT_TYPES, MAX_NOTIFIERS]((_, _) => NULL);
      fNotifierCounts := new nat[EVENT_TYPES](_ => 0);
      fActiveCallbacks, fShuttingDown, unfinished := 0, false, multiset{};
    }

    method RegisterNotifier(eventType: nat, n: Notifier)
      requires Valid()
      modifies fNotifiers, fNotifierCounts
      ensures Valid() && OthersKept(eventType)
      ensures eventType < EVENT_TYPES ==>
                List(eventType) == if fShuttingDown then old(List(eventType))
                                   else Registered(old(List(eventType)), n)
      ensures eventType < 256 && !fShuttingDown ==>
                (n in List(eventType) <==> n in old(List(eventType)) || |old(List(eventType))| < 4)
    {
      if eventType >= EVENT_TYPES || fShuttingDown {
        return;
      }
      ghost var list := List(eventType);
      var count := fNotifierCounts[eventType];
      for i := 0 to count
        invariant forall k :: 0 <= k < i ==> list[k] != n
      {
        if fNotifiers[eventType, i] == n {
          assert list[i] == n;
          return;
        }
      }
      RegisteredKeepsOrder(list, n);
      if count < MAX_NOTIFIERS {
        fNotifiers[eventType, count] := n;
        fNotifierCounts[eventType] := count + 1;
        assert List(eventType) == list + [n];
        KeptLists(eventType);
      }
    }

    method UnregisterNotifier(eventType: nat, n: Notifier)
      requires Valid()
      modifies fNotifiers, fNotifierCounts
      ensures Valid() && OthersKept(eventType)
      ensures eventType < EVENT_TYPES ==>
                List(eventType) == Unregistered(old(List(eventType)), n)
    {
      if eventType >= EVENT_TYPES {
        return;
      }
      ghost var list := List(eventType);
      var count := fNotifierCounts[eventType];
      var i := 0;
      while i < count && fNotifiers[eventType, i] != n
        invariant i <= count && forall k :: 0 <= k < i ==> list[k] != n
      {
        i := i + 1;
      }
      if i == count {
        UnregisteredAbsent(list, n);
        return;
      }
      UnregisteredAt(list, i);
      RemoveAt(eventType, i);
    }

    method RemoveAt(eventType: nat, i: nat)
      requires Valid() && eventType < EVENT_TYPES && i < fNotifierCounts[eventType]
      modifies fNotifiers, fNotifierCounts
      ensures Valid() && OthersKept(eventType)
      ensures List(eventType) == old(List(eventType))[..i] + old(List(eventType))[i + 1..]
      ensures fNotifiers[eventType, fNotifierCounts[eventType]] == NULL
    {
      hide NoDuplicates;
      ghost var list := List(eventType);
      var count := fNotifierCounts[eventType];
      UnregisteredAt(list, i);
      UnregisteredRemovesOne(list, list[i]);
      ShiftDown(eventType, i, count);
      fNotifiers[eventType, count - 1] := NULL;
      fNotifierCounts[eventType] := count - 1;
      forall k | 0 <= k < count - 1 ensures fNotifiers[eventType, k] == (list[..i] + list[i + 1..])[k] {
      }
      assert List(eventType) == list[..i] + list[i + 1..];
      KeptLists(eventType);
    }

    /** Every slot behind position i moves down by one. */
    method ShiftDown(eventType: nat, i: nat, count: nat)
      requires fNotifiers.Length0 == fNotifierCounts.Length == EVENT_TYPES
      requires fNotifiers.Length1 == MAX_NOTIFIERS
      requires eventType < EVENT_TYPES && i < count <= MAX_NOTIFIERS
      modifies fNotifiers
      ensures forall k :: 0 <= k < MAX_NOTIFIERS ==>
                fNotifiers[eventType, k] ==
                old(fNotifiers[eventType, if i <= k < count - 1 then k + 1 else k])
      ensures forall t, k :: 0 <= t < EVENT_TYPES && t != eventType && 0 <= k < MAX_NOTIFIERS ==>
                fNotifiers[t, k] == old(fNotifiers[t, k])
    {
      for j := i + 1 to count
        invariant forall k :: 0 <= k < MAX_NOTIFIERS ==>
                    fNotifiers[eventType, k] ==
                    old(fNotifiers[eventType, if i <= k < j - 1 then k + 1 else k])
        invariant forall t, k :: 0 <= t < EVENT_TYPES && t != eventType && 0 <= k < MAX_NOTIFIERS ==>
                    fNotifiers[t, k] == old(fNotifiers[t, k])
      {
        fNotifiers[eventType, j - 1] := fNotifiers[eventType, j];
      }
    }

    /** Untouched slots show the same list. */
    twostate lemma KeptLists(eventType: nat)
      requires old(Valid()) && OthersKept(eventType)
      requires forall t :: 0 <= t < EVENT_TYPES ==> fNotifierCounts[t] <= MAX_NOTIFIERS
      ensures forall t :: 0 <= t < EVENT_TYPES && t != eventType ==> List(t) == old(List(t))
    {
    }

    /** The snapshot a handler takes under the lock: the registered notifiers that still have
        an object to hold on to, in order, or none once shutdown has begun. Each is counted
        before the lock is dropped. */
    method Snapshot(eventType: nat, hasObject: set<Notifier>) returns (targets: seq<Notifier>)
      requires Valid()
      modifies this`fActiveCallbacks, this`unfinished
      ensures Valid() && unfinished == old(unfinished) + multiset(targets)
      ensures eventType < EVENT_TYPES ==>
                targets == Callable(List(eventType), hasObject, fShuttingDown)
      ensures eventType >= EVENT_TYPES ==> targets == []
    {
      hide NoDuplicates;
      targets := [];
      var count := if eventType < EVENT_TYPES then fNotifierCounts[eventType] else 0;
      ghost var list := if eventType < EVENT_TYPES then List(eventType) else [];
      for n := 0 to count
        invariant unfinished == old(unfinished) && fActiveCallbacks == |unfinished| + |targets|
        invariant targets == Callable(list[..n], hasObject, fShuttingDown)
      {
        assert list[..n + 1][..n] == list[..n];
        var target := fNotifiers[eventType, n];
        if target != NULL && target in hasObject && !fShuttingDown {
          targets := targets + [target];
          fActiveCallbacks := fActiveCallbacks + 1;
        }
      }
      assert list[..count] == list;
      unfinished := unfinished + multiset(targets);
      assert forall t :: 0 <= t < EVENT_TYPES ==> List(t) == old(List(t));
    }

    /** A handler has finished a callback of its snapshot: that one is no longer unfinished, the
        counter never runs short, and waiters are woken exactly when no callback is left. */
    method CallbackDone(ghost target: Notifier) returns (wakeup: bool)
      requires Valid() && target in unfinished
      modifies this`fActiveCallbacks, this`unfinished
      ensures Valid() && unfinished == old(unfinished) - multiset{target}
      ensures wakeup <==> unfinished == multiset{}
    {
      unfinished := unfinished - multiset{target};
      if fActiveCallbacks > 0 {
        fActiveCallbacks := fActiveCallbacks - 1;
      }
      wakeup := fActiveCallbacks == 0;
      assert forall t :: 0 <= t < EVENT_TYPES ==> List(t) == old(List(t));
    }
  }

  /** Those of a list that a handler may call. */
  function Callable(list: seq<Notifier>, hasObject: set<Notifier>, shuttingDown: bool): seq<Notifier> {
    if list == [] then []
    else
      var last := list[|list| - 1];
      var before := Callable(list[..|list| - 1], hasObject, shuttingDown);
      if last != NULL && last in hasObject && !shuttingDown then before + [last] else before
  }

  /** The callbacks come in the order of the list: of two of them the earlier one is registered
      further to the front, and none comes twice. */
  lemma {:induction false} CallableKeepsOrder(list: seq<Notifier>, hasObject: set<Notifier>, shuttingDown: bool)
    requires NoDuplicates(list)
    ensures NoDuplicates(Callable(list, hasObject, shuttingDown))
    ensures forall p, q :: 0 <= p < q < |Callable(list, hasObject, shuttingDown)| ==>
              Before(list, Callable(list, hasObject, shuttingDown)[p], Callable(list, hasObject, shuttingDown)[q])
  {
    if list != [] {
      var n := |list| - 1;
      var init, c := list[..n], Callable(list[..n], hasObject, shuttingDown);
      CallableKeepsOrder(init, hasObject, shuttingDown);
      CallableIsRegistered(init, hasObject, shuttingDown);
      forall p, q | 0 <= p < q < |c| ensures Before(list, c[p], c[q]) {
        assert Before(init, c[p], c[q]);
        var i, j :| 0 <= i < j < |init| && init[i] == c[p] && init[j] == c[q];
        assert list[i] == c[p] && list[j] == c[q];
      }
      forall p | 0 <= p < |c| ensures c[p] != list[n] && Before(list, c[p], list[n]) {
        assert c[p] in init;
        var i :| 0 <= i < n && init[i] == c[p];
        assert list[i] == c[p];
      }
    }
  }

  ghost predicate Before(list: seq<Notifier>, a: Notifier, b: Notifier) {
    exists i, j :: 0 <= i < j < |list| && list[i] == a && list[j] == b
  }

  lemma {:induction false} CallableIsRegistered(list: seq<Notifier>, hasObject: set<Notifier>, shuttingDown: bool)
    ensures forall n :: n in Callable(list, hasObject, shuttingDown) <==>
                        n in list && n in hasObject && n != NULL && !shuttingDown
  {
    if list != [] {
      CallableIsRegistered(list[..|list| - 1], hasObject, shuttingDown);
      assert list == list[..|list| - 1] + [list[|list| - 1]];
    }
  }
}
