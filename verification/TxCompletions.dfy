/** The send path as a whole, over every run: posting, the adapter's completions, polling and
    teardown, at the granularity of the driver's lock. */
module TxCompletions {
  import opened Status
  import opened TxRing
  import opened TxWindow
  import PhaseRing

  /** The ring as the driver has it, with every packet it took over and every packet it freed;
      targets[q] is the work-queue entry that the q-th completion names, read counts the
      completions the poll has taken, reported those the adapter knows to be taken. */
  datatype State = State(
    pc: nat, cc: nat, slots: seq<Option<Packet>>, packets: seq<Packet>, freed: multiset<Packet>,
    targets: seq<nat>, read: nat, reported: nat, polling: bool, down: bool)

  datatype Action = Xmit(packet: Packet) | Completion(target: nat) | BeginPoll | ReadCqe | EndPoll | TearDown

  ghost function Initial(): State {
    State(0, 0, SlotsOf([], 0), [], multiset{}, [], 0, 0, false, false)
  }

  /** How many entries the first n completions free. */
  function Freed(targets: seq<nat>, n: nat): nat
    requires n <= |targets|
  {
    if n == 0 then 0 else targets[n - 1] + 1
  }

  /** Polling, sending and teardown exclude each other by the lock. Sending makes the driver's own
      test for room; the adapter may complete any entry posted and not yet completed, skipping
      some, at any time while its queue lives. */
  predicate Enabled(s: State, a: Action)
  {
    match a
    case Xmit(_) => !s.polling && !s.down && Outstanding(s.pc, s.cc) < RING
    case Completion(t) => !s.down && Freed(s.targets, |s.targets|) <= t < |s.packets|
    case BeginPoll => !s.polling && !s.down
    case ReadCqe => s.polling && s.read < |s.targets|
    case EndPoll => s.polling && s.read == |s.targets|
    case TearDown => !s.polling && !s.down
  }

  /** What one completion does to the ring: the slots from the consumer on are emptied, their
      packets freed. */
  ghost function Complete(s: State, target: nat): State
    requires |s.slots| == RING
  {
    var steps := Steps(s.pc, s.cc, target);
    var after := Clear(s.slots, s.cc, steps);
    s.(cc := (s.cc + steps) % COUNTER, slots := after, freed := s.freed + (Held(s.slots) - Held(after)))
  }

  ghost function Step(s: State, a: Action): State
    requires |s.slots| == RING && Enabled(s, a)
  {
    match a
    case Xmit(p) => s.(packets := s.packets + [p], slots := s.slots[s.pc % RING := Some(p)], pc := (s.pc + 1) % COUNTER)
    case Completion(t) => s.(targets := s.targets + [t])
    case BeginPoll => s.(polling := true)
    case ReadCqe => Complete(s, s.targets[s.read] % COUNTER).(read := s.read + 1)
    case EndPoll => s.(reported := s.read, polling := false)
    case TearDown =>
      s.(pc := 0, cc := 0, slots := seq(RING, _ => None), freed := s.freed + Held(s.slots), down := true)
  }

  /** Completions name entries in order, all posted, and at most 256 entries lie beyond those the
      adapter knows to be freed. */
  ghost predicate Ordered(s: State) {
    && s.reported <= s.read <= |s.targets| && (!s.polling ==> s.reported == s.read)
    && (forall i, j :: 0 <= i < j < |s.targets| ==> s.targets[i] < s.targets[j])
    && (forall i :: 0 <= i < |s.targets| ==> s.targets[i] < |s.packets|)
    && |s.packets| <= Freed(s.targets, s.reported) + RING
  }

  /** The ring in the shape that its history gives it: with f entries freed, each slot holds the
      packet of the outstanding entry it belongs to, and the first f packets are freed, once. */
  ghost predicate InShape(s: State, f: nat) {
    && f <= |s.packets| <= f + RING
    && s.pc == |s.packets| % COUNTER && s.cc == f % COUNTER && s.slots == SlotsOf(s.packets, f)
    && s.freed == multiset(s.packets[..f])
  }

  ghost predicate Sound(s: State) {
    && |s.slots| == RING && Ordered(s) && (s.down ==> !s.polling)
    && if s.down then s.freed == multiset(s.packets) else InShape(s, Freed(s.targets, s.read))
  }

  ghost predicate IsRun(run: seq<State>, actions: seq<Action>) {
    && |run| == |actions| + 1 && run[0] == Initial()
    && forall k :: 0 <= k < |actions| ==>
         |run[k].slots| == RING && Enabled(run[k], actions[k]) && run[k + 1] == Step(run[k], actions[k])
  }

  lemma InitiallySound()
    ensures Sound(Initial())
  {
    hide SlotsOf;
  }

  lemma XmitKeepsSound(s: State, p: Packet)
    requires Sound(s) && Enabled(s, Xmit(p))
    ensures Sound(Step(s, Xmit(p)))
  {
    hide SlotsOf, Outstanding;
    var f := Freed(s.targets, s.read);
    WindowIsInOrder(s.packets, f);
    PostNewest(s.packets, f, p);
    ShortCounter(|s.packets|);
    NextCounter(|s.packets|);
    assert (s.packets + [p])[..f] == s.packets[..f];
  }

  lemma CompletionKeepsSound(s: State, t: nat)
    requires Sound(s) && Enabled(s, Completion(t))
    ensures Sound(Step(s, Completion(t)))
  {
    hide SlotsOf;
    if s.targets != [] {
      assert forall i :: 0 <= i < |s.targets| ==> s.targets[i] <= s.targets[|s.targets| - 1];
    }
  }

  lemma ReadKeepsSound(s: State)
    requires Sound(s) && Enabled(s, ReadCqe)
    ensures Sound(Step(s, ReadCqe))
  {
    hide SlotsOf, Complete, InShape, Ordered;
    ReadIsOutstanding(s);
    var t := s.targets[s.read];
    CompleteKeepsShape(s, Freed(s.targets, s.read), t);
    ShapeIgnoresRead(Complete(s, t % COUNTER), t + 1, s.read + 1);
    OnlyRing(s, t % COUNTER);
    ReadKeepsOrdered(s, Step(s, ReadCqe));
  }

  lemma OnlyRing(s: State, target: nat)
    requires |s.slots| == RING
    ensures var s' := Complete(s, target);
            && |s'.slots| == RING && s'.targets == s.targets && s'.packets == s.packets && s'.read == s.read
            && s'.reported == s.reported && s'.polling == s.polling && s'.down == s.down
  {
  }

  lemma ShapeIgnoresRead(s: State, f: nat, read: nat)
    requires InShape(s, f)
    ensures InShape(s.(read := read), f)
  {
  }

  /** A completion that names entry t leaves the first t + 1 packets freed. */
  lemma CompleteKeepsShape(s: State, f: nat, t: nat)
    requires InShape(s, f) && f <= t < |s.packets| && |s.slots| == RING
    ensures InShape(Complete(s, t % COUNTER), t + 1)
  {
    hide SlotsOf, Steps, Clear, Held, Complete;
    CompletionMoves(s.packets, s.pc, s.cc, f, t);
    FreedGrows(s.packets, f, t + 1);
    CompleteSays(s, t % COUNTER, t + 1 - f);
  }

  lemma CompletionMoves(packets: seq<Packet>, pc: nat, cc: nat, f: nat, t: nat)
    requires f <= t < |packets| <= f + RING && pc == |packets| % COUNTER && cc == f % COUNTER
    ensures Steps(pc, cc, t % COUNTER) == t + 1 - f
    ensures Clear(SlotsOf(packets, f), cc, t + 1 - f) == SlotsOf(packets, t + 1)
    ensures (cc + (t + 1 - f)) % COUNTER == (t + 1) % COUNTER
  {
    hide SlotsOf, Steps, Clear;
    CompletionOfOutstanding(|packets|, f, t);
    FreeMany(packets, f, t + 1 - f);
    CounterMoves(f, t + 1 - f);
  }

  lemma CompleteSays(s: State, target: nat, steps: nat)
    requires |s.slots| == RING && Steps(s.pc, s.cc, target) == steps
    ensures var s' := Complete(s, target);
            && s'.cc == (s.cc + steps) % COUNTER && s'.slots == Clear(s.slots, s.cc, steps)
            && s'.freed == s.freed + (Held(s.slots) - Held(s'.slots))
            && s'.pc == s.pc && s'.packets == s.packets && s'.targets == s.targets
  {
    hide Steps, Clear, Held;
  }

  /** A wrapping counter moves by k. */
  lemma CounterMoves(f: nat, k: nat)
    ensures (f % COUNTER + k) % COUNTER == (f + k) % COUNTER
  {
    PhaseRing.SkipLaps(f / COUNTER, COUNTER, f % COUNTER + k);
    assert f + k == f / COUNTER * COUNTER + (f % COUNTER + k);
  }

  lemma FreedGrows(packets: seq<Packet>, f: nat, g: nat)
    requires f <= g <= |packets| <= f + RING
    ensures multiset(packets[..f]) + (Held(SlotsOf(packets, f)) - Held(SlotsOf(packets, g))) == multiset(packets[..g])
  {
    hide SlotsOf, Held;
    HeldInWindow(packets, f);
    HeldInWindow(packets, g);
    assert packets[f..] == packets[f..g] + packets[g..];
    assert packets[..g] == packets[..f] + packets[f..g];
  }

  lemma ReadKeepsOrdered(s: State, s': State)
    requires Ordered(s) && s.polling && s.read < |s.targets|
    requires s'.targets == s.targets && s'.packets == s.packets && s'.reported == s.reported
    requires s'.read == s.read + 1 && s'.polling
    ensures Ordered(s')
  {
  }

  lemma TearDownKeepsSound(s: State)
    requires Sound(s) && Enabled(s, TearDown)
    ensures Sound(Step(s, TearDown))
  {
    hide SlotsOf, Held;
    var f := Freed(s.targets, s.read);
    HeldInWindow(s.packets, f);
    assert s.packets == s.packets[..f] + s.packets[f..];
  }

  lemma StepKeepsSound(s: State, a: Action)
    requires Sound(s) && Enabled(s, a)
    ensures Sound(Step(s, a))
  {
    hide SlotsOf, Steps, Clear, Held;
    match a {
      case Xmit(p) => XmitKeepsSound(s, p);
      case Completion(t) => CompletionKeepsSound(s, t);
      case ReadCqe => ReadKeepsSound(s);
      case TearDown => TearDownKeepsSound(s);
      case BeginPoll =>
      case EndPoll => EndPollKeepsSound(s);
    }
  }

  lemma EndPollKeepsSound(s: State)
    requires Sound(s) && Enabled(s, EndPoll)
    ensures Sound(Step(s, EndPoll))
  {
    hide SlotsOf;
  }

  lemma {:induction false} RunIsSound(run: seq<State>, actions: seq<Action>, k: nat)
    requires IsRun(run, actions) && k < |run|
    ensures Sound(run[k])
  {
    hide Sound, Step, Enabled, Initial;
    if k == 0 {
      InitiallySound();
    } else {
      RunIsSound(run, actions, k - 1);
      StepKeepsSound(run[k - 1], actions[k - 1]);
    }
  }

  /** In every run: at most 256 entries are outstanding, a slot is in use exactly if it belongs to
      one of them and then holds its packet, every packet is accounted for once as freed or
      held, and after teardown every packet has been freed. */
  lemma SendRingIsSafe(run: seq<State>, actions: seq<Action>, k: nat)
    requires IsRun(run, actions) && k < |run|
    ensures var s := run[k];
            !s.down ==>
              && RingOk(s.pc, s.cc, s.slots) && Outstanding(s.pc, s.cc) <= RING
              && (forall p :: |s.packets| - Outstanding(s.pc, s.cc) <= p < |s.packets| ==>
                    0 <= p && s.slots[p % RING] == Some(s.packets[p]))
              && multiset(s.packets) == s.freed + Held(s.slots)
    ensures run[k].down ==> run[k].freed == multiset(run[k].packets)
  {
    hide SlotsOf, Held, RingOk;
    RunIsSound(run, actions, k);
    var s := run[k];
    if !s.down {
      var f := Freed(s.targets, s.read);
      WindowIsInOrder(s.packets, f);
      HeldInWindow(s.packets, f);
      assert s.packets == s.packets[..f] + s.packets[f..];
      forall p | f <= p < |s.packets| ensures s.slots[p % RING] == Some(s.packets[p]) {
        OutstandingSlot(s.packets, f, p);
      }
    }
  }

  lemma OutstandingSlot(packets: seq<Packet>, f: nat, p: nat)
    requires f <= p < |packets| <= f + RING
    ensures SlotsOf(packets, f)[p % RING] == Some(packets[p])
  {
    SlotAt(p % RING, f, p - f);
  }

  lemma {:induction false} TargetsSpread(s: State, i: nat, j: nat)
    requires Ordered(s) && i <= j < |s.targets|
    ensures s.targets[j] >= s.targets[i] + (j - i)
  {
    if i < j { TargetsSpread(s, i, j - 1); }
  }

  /** The completion read next names an outstanding entry. */
  lemma ReadIsOutstanding(s: State)
    requires Ordered(s) && s.read < |s.targets|
    ensures Freed(s.targets, s.read) <= s.targets[s.read] < |s.packets| <= Freed(s.targets, s.read) + RING
  {
    if s.read > 0 { TargetsSpread(s, s.read - 1, s.read); }
    if s.read > s.reported && s.reported > 0 { TargetsSpread(s, s.reported - 1, s.read - 1); }
  }

  /** What the poll still has to read, as the 16-bit counters have it. */
  ghost function Unread(targets: seq<nat>, r: nat): seq<nat>
    requires r <= |targets|
  {
    seq(|targets| - r, i requires 0 <= i < |targets| - r => targets[r + i] % COUNTER)
  }

  /** In every run the completions to be read name outstanding entries, each once the earlier ones
      are done: the poll meets what it is promised. */
  lemma ReportsNameOutstanding(run: seq<State>, actions: seq<Action>, k: nat)
    requires IsRun(run, actions) && k < |run| && !run[k].down
    ensures run[k].read <= |run[k].targets|
    ensures NamesOutstanding(run[k].pc, run[k].cc, Unread(run[k].targets, run[k].read))
  {
    hide SlotsOf, NamesOutstanding, Unread;
    RunIsSound(run, actions, k);
    UnreadNameOutstanding(run[k].(polling := true), run[k].read);
  }

  lemma {:induction false} UnreadNameOutstanding(s: State, r: nat)
    requires Ordered(s) && s.polling && s.reported <= r <= |s.targets|
    ensures NamesOutstanding(|s.packets| % COUNTER, Freed(s.targets, r) % COUNTER, Unread(s.targets, r))
    decreases |s.targets| - r
  {
    hide Ordered, Outstanding;
    if r < |s.targets| {
      ReadAt(s, r);
      var f, t, n := Freed(s.targets, r), s.targets[r], |s.packets|;
      UnreadNameOutstanding(s, r + 1);
      GapIsOutstanding(n, f, t);
      assert Unread(s.targets, r)[1..] == Unread(s.targets, r + 1);
    }
  }

  lemma ReadAt(s: State, r: nat)
    requires Ordered(s) && s.polling && s.reported <= r < |s.targets|
    ensures Freed(s.targets, r) <= s.targets[r] < |s.packets| <= Freed(s.targets, r) + RING
  {
    ReadIsOutstanding(s.(read := r));
  }

  lemma GapIsOutstanding(n: nat, f: nat, t: nat)
    requires f <= t < n <= f + RING
    ensures (t % COUNTER - f % COUNTER) % COUNTER < Outstanding(n % COUNTER, f % COUNTER)
    ensures (t % COUNTER + 1) % COUNTER == (t + 1) % COUNTER
  {
    CounterGap(n, f);
    CounterGap(t, f);
    NextCounter(t);
  }

  /** In every run the 256-entry completion queue has room for each completion, however long
      the driver is between polls. */
  lemma CompletionQueueNeverOverrun(run: seq<State>, actions: seq<Action>, k: nat)
    requires IsRun(run, actions) && k < |run|
    ensures |run[k].targets| - run[k].reported <= RING
  {
    hide SlotsOf;
    RunIsSound(run, actions, k);
    var s := run[k];
    var n := |s.targets|;
    if s.reported < n {
      TargetsSpread(s, s.reported, n - 1);
      if s.reported > 0 { TargetsSpread(s, s.reported - 1, s.reported); }
    }
  }

  /** Every completion the poll reads names an outstanding entry, so the driver's 16-bit loop
      frees exactly the entries from its consumer up to that one. */
  lemma PollFreesExactly(run: seq<State>, actions: seq<Action>, k: nat)
    requires IsRun(run, actions) && k < |actions| && actions[k].ReadCqe?
    ensures var s, s' := run[k], run[k + 1];
            s.read <= |s.targets| && s'.read <= |s'.targets|
            && var before, after := Freed(s.targets, s.read), Freed(s'.targets, s'.read);
               before < after <= |s.packets|
               && Steps(s.pc, s.cc, s.targets[s.read] % COUNTER) == after - before
               && s'.freed == s.freed + multiset(s.packets[before..after])
  {
    hide SlotsOf, Steps, Clear, Held, RingOk, InShape;
    RunIsSound(run, actions, k);
    RunIsSound(run, actions, k + 1);
    var s := run[k];
    ReadIsOutstanding(s);
    var before, after := Freed(s.targets, s.read), s.targets[s.read] + 1;
    InShapeSays(s, before);
    InShapeSays(run[k + 1], after);
    CompletionOfOutstanding(|s.packets|, before, after - 1);
    assert s.packets[..after] == s.packets[..before] + s.packets[before..after];
  }

  lemma InShapeSays(s: State, f: nat)
    requires InShape(s, f)
    ensures f <= |s.packets| <= f + RING && s.pc == |s.packets| % COUNTER && s.cc == f % COUNTER
    ensures s.freed == multiset(s.packets[..f])
  {
  }

  /** The room test of the send path, on 16-bit counters, is the test on counts. */
  lemma RoomTestIsExact(run: seq<State>, actions: seq<Action>, k: nat)
    requires IsRun(run, actions) && k < |run| && !run[k].down
    ensures var s := run[k];
            s.read <= |s.targets| && Freed(s.targets, s.read) <= |s.packets|
            && Outstanding(s.pc, s.cc) == |s.packets| - Freed(s.targets, s.read)
  {
    hide SlotsOf;
    RunIsSound(run, actions, k);
    CounterGap(|run[k].packets|, Freed(run[k].targets, run[k].read));
  }
}
