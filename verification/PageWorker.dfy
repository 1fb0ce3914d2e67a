/**
 * The runtime page worker at lock granularity: one step for each section under fRequestLock, and
 * one for each action between sections. Event handlers are anonymous and unlimited in number, so
 * the state counts how many of them stand before each of their next actions.
 */
module PageWorker {
  import opened Status
  import opened PageRequests
  import opened RequestRing

  /** Where the worker's thread stands; it runs one thread call at a time. */
  datatype WorkerAt =
    | Idle
    | Entering      // started, before its first section
    | Draining      // before the next dequeue
    | Processing    // a dequeued request is in processRequest
    | Failing       // the request failed; before the discard section
    | Finishing     // before the final section
    | Reentering    // before thread_call_enter
    | Testing       // before the test of fFatal

  datatype Control = Control(
    stopping: bool,
    scheduled: bool,
    active: bool,
    reschedule: bool,
    worker: WorkerAt,
    pending: nat,          // thread calls entered and not started
    toSchedule: nat,       // callers before the section of scheduleWorker
    toEnter: nat)          // callers of scheduleWorker before thread_call_enter

  datatype Faults = Faults(
    fatal: bool,
    quarantined: bool,
    untested: bool,        // a fault was raised since the worker last tested fFatal
    toFault: nat)          // handlers whose request did not fit, before setFatal

  /** What became of an accepted request. */
  datatype Outcome = Outcome(request: PageRequest, discarded: bool)

  datatype Queue = Queue(
    accepting: bool,
    waiting: seq<PageRequest>,
    failures: nat,
    accepted: seq<PageRequest>,
    outcomes: seq<Outcome>)

  datatype State = State(c: Control, f: Faults, q: Queue)

  datatype HandlerStep = Malformed | Enqueue(request: PageRequest) | RaiseFault

  datatype CallerStep = ScheduleSection | EnterCall

  datatype WorkerStep =
    | StartCall
    | BeginSection
    | DequeueSection
    | RequestSucceeds
    | RequestFails(fault: bool)
    | DiscardSection
    | FinalSection
    | ReenterCall
    | TestFatal

  datatype Step =
    | StartRuntime
    | StopRuntime
    | StopSchedules
    | Handler(h: HandlerStep)
    | Caller(a: CallerStep)
    | Worker(w: WorkerStep)

  const Init := State(Control(false, false, false, false, Idle, 0, 0, 0),
                      Faults(false, false, false, 0),
                      Queue(false, [], 0, [], []))

  predicate WorkerEnabled(c: Control, w: WorkerStep) {
    match w
    case StartCall => c.pending > 0 && c.worker.Idle?
    case BeginSection => c.worker.Entering?
    case DequeueSection => c.worker.Draining?
    case RequestSucceeds => c.worker.Processing?
    case RequestFails(_) => c.worker.Processing?
    case DiscardSection => c.worker.Failing?
    case FinalSection => c.worker.Finishing?
    case ReenterCall => c.worker.Reentering?
    case TestFatal => c.worker.Testing?
  }

  predicate Enabled(s: State, step: Step) {
    match step
    case StartRuntime => !s.c.stopping
    case StopSchedules => s.c.stopping
    case Handler(RaiseFault) => s.f.toFault > 0
    case Caller(ScheduleSection) => s.c.toSchedule > 0
    case Caller(EnterCall) => s.c.toEnter > 0
    case Worker(w) => WorkerEnabled(s.c, w)
    case _ => true
  }

  /** The section of scheduleWorker. */
  function Schedule(c: Control): Control
    requires c.toSchedule > 0
  {
    var t := c.(toSchedule := c.toSchedule - 1);
    if c.active then t.(reschedule := true)
    else if !c.scheduled then t.(scheduled := true, toEnter := c.toEnter + 1)
    else t
  }

  function WorkerMoves(c: Control, w: WorkerStep, empty: bool): Control
    requires WorkerEnabled(c, w)
  {
    match w
    case StartCall => c.(pending := c.pending - 1, worker := Entering)
    case BeginSection => c.(scheduled := false, active := true, worker := Draining)
    case DequeueSection => c.(worker := if empty then Finishing else Processing)
    case RequestSucceeds => c.(worker := Draining)
    case RequestFails(_) => c.(worker := Failing)
    case DiscardSection => c.(worker := Finishing)
    case FinalSection =>
      var again := (c.reschedule || !empty) && !c.stopping;
      c.(active := false, reschedule := false, scheduled := c.scheduled || again,
         worker := if again then Reentering else Testing)
    case ReenterCall => c.(pending := c.pending + 1, worker := Testing)
    case TestFatal => c.(worker := Idle)
  }

  function Discarded(waiting: seq<PageRequest>): seq<Outcome> {
    seq(|waiting|, i requires 0 <= i < |waiting| => Outcome(waiting[i], true))
  }

  function WorkerConsumes(q: Queue, w: WorkerStep): Queue {
    match w
    case DequeueSection =>
      if q.waiting == [] then q
      else q.(waiting := q.waiting[1..], outcomes := q.outcomes + [Outcome(q.waiting[0], false)])
    case RequestFails(_) => q.(failures := q.failures + 1)
    case DiscardSection => q.(waiting := [], outcomes := q.outcomes + Discarded(q.waiting))
    case _ => q
  }

  function Fault(f: Faults): Faults {
    f.(fatal := true, untested := true)
  }

  function Called(c: Control): Control {
    c.(toSchedule := c.toSchedule + 1)
  }

  predicate Fits(s: State) {
    s.q.accepting && !s.c.stopping && |s.q.waiting| < QUEUE_SIZE
  }

  function Append(q: Queue, r: PageRequest): Queue {
    q.(waiting := q.waiting + [r], accepted := q.accepted + [r])
  }

  function Apply(s: State, step: Step): State
    requires Enabled(s, step)
  {
    match step
    case StartRuntime => s.(q := s.q.(accepting := true))
    case StopRuntime => State(s.c.(stopping := true), s.f, s.q.(accepting := false))
    case StopSchedules => s.(c := Called(s.c))
    case Handler(Malformed) => State(Called(s.c), Fault(s.f), s.q)
    case Handler(Enqueue(r)) =>
      if Fits(s) then State(Called(s.c), s.f, Append(s.q, r))
      else s.(f := s.f.(toFault := s.f.toFault + 1))
    case Handler(RaiseFault) => State(Called(s.c), Fault(s.f.(toFault := s.f.toFault - 1)), s.q)
    case Caller(ScheduleSection) => s.(c := Schedule(s.c))
    case Caller(EnterCall) => s.(c := s.c.(toEnter := s.c.toEnter - 1, pending := s.c.pending + 1))
    case Worker(w) =>
      var f := match w
               case RequestFails(true) => Fault(s.f)
               case TestFatal => s.f.(quarantined := s.f.quarantined || s.f.fatal, untested := false)
               case _ => s.f;
      State(WorkerMoves(s.c, w, s.q.waiting == []), f, WorkerConsumes(s.q, w))
  }

  /** The state after a run of steps, if every step was enabled in its turn. */
  function Run(s: State, steps: seq<Step>): Option<State>
    decreases |steps|
  {
    if steps == [] then Some(s)
    else if Enabled(s, steps[0]) then Run(Apply(s, steps[0]), steps[1..])
    else None
  }

  function Requests(outcomes: seq<Outcome>): seq<PageRequest> {
    seq(|outcomes|, i requires 0 <= i < |outcomes| => outcomes[i].request)
  }

  function Bit(b: bool): nat {
    if b then 1 else 0
  }

  /** How many thread calls are entered, about to be entered, or started and not yet begun. */
  function CallsDue(c: Control): nat {
    c.toEnter + c.pending + Bit(c.worker.Entering? || c.worker.Reentering?)
  }

  /** The flags say where the worker is, and one thread call is due exactly when one is scheduled. */
  ghost predicate SafeControl(c: Control) {
    && (c.active <==> c.worker.Draining? || c.worker.Processing? || c.worker.Failing? || c.worker.Finishing?)
    && !(c.scheduled && c.active)
    && (c.reschedule ==> c.active)
    && CallsDue(c) == Bit(c.scheduled)
  }

  /** A worker run is due: asked for, scheduled, or under way up to its final section. */
  predicate RunDue(c: Control) {
    c.scheduled || c.active || c.toSchedule > 0
  }

  /** No wake-up is lost, and every fault has a worker due that will test for it. */
  ghost predicate SafeWakeups(s: State) {
    && (!s.c.stopping && s.q.waiting != [] ==> RunDue(s.c))
    && (s.f.untested ==> s.f.fatal && (RunDue(s.c) || s.c.worker.Testing?))
    && (s.f.fatal && !s.f.untested ==> s.f.quarantined)
  }

  /** The ring is a FIFO of bounded length, and only a failed request discards from it. */
  ghost predicate SafeQueue(q: Queue) {
    && |q.waiting| <= QUEUE_SIZE
    && q.accepted == Requests(q.outcomes) + q.waiting
    && (q.failures == 0 ==> forall i :: 0 <= i < |q.outcomes| ==> !q.outcomes[i].discarded)
  }

  ghost predicate Safe(s: State) {
    SafeControl(s.c) && SafeWakeups(s) && SafeQueue(s.q) && (s.c.worker.Failing? ==> s.q.failures > 0)
  }

  /** A request is taken exactly if the ring accepts, the worker is not stopping and fewer than 64
      wait; otherwise nothing is queued and its handler is bound to raise the fault. */
  lemma RequestsAreTakenOrFault(s: State, r: PageRequest)
    ensures var t := Apply(s, Handler(Enqueue(r)));
            if s.q.accepting && !s.c.stopping && |s.q.waiting| < 64
            then t.q.waiting == s.q.waiting + [r] && t.q.accepted == s.q.accepted + [r]
                 && t.f == s.f && t.c.toSchedule == s.c.toSchedule + 1
            else t.q == s.q && t.c == s.c && t.f == s.f.(toFault := s.f.toFault + 1)
                 && Enabled(t, Handler(RaiseFault))
  {
  }

  /** A malformed event and a request that did not fit raise the fault, to be tested anew, and
      schedule the worker. */
  lemma BadEventsRaiseFault(s: State, h: HandlerStep)
    requires Enabled(s, Handler(h)) && (h.Malformed? || h.RaiseFault?)
    ensures var t := Apply(s, Handler(h));
            && t.f.fatal && t.f.untested && t.q == s.q && t.c.toSchedule == s.c.toSchedule + 1
            && t.f.toFault == (if h.RaiseFault? then s.f.toFault - 1 else s.f.toFault)
            && Enabled(t, Caller(ScheduleSection))
  {
  }

  lemma WorkerKeepsControl(c: Control, w: WorkerStep, empty: bool)
    requires SafeControl(c) && WorkerEnabled(c, w)
    ensures SafeControl(WorkerMoves(c, w, empty))
  {
  }

  lemma WorkerKeepsQueue(q: Queue, w: WorkerStep)
    requires SafeQueue(q) && (w.DiscardSection? ==> q.failures > 0)
    ensures SafeQueue(WorkerConsumes(q, w))
  {
    var t := WorkerConsumes(q, w);
    match w
    case DequeueSection =>
      if q.waiting != [] {
        assert Requests(t.outcomes) == Requests(q.outcomes) + [q.waiting[0]];
      }
    case DiscardSection =>
      assert Requests(t.outcomes) == Requests(q.outcomes) + q.waiting;
    case _ =>
  }

  lemma StepKeepsSafe(s: State, step: Step)
    requires Safe(s) && Enabled(s, step)
    ensures Safe(Apply(s, step))
  {
    match step
    case Worker(w) =>
      WorkerKeepsControl(s.c, w, s.q.waiting == []);
      WorkerKeepsQueue(s.q, w);
    case Handler(Enqueue(r)) =>
      assert s.q.accepted + [r] == Requests(s.q.outcomes) + (s.q.waiting + [r]);
    case _ =>
  }

  /** Every state that a safe one leads to is safe, under any interleaving. */
  lemma {:induction false} RunKeepsSafe(s: State, steps: seq<Step>)
    requires Safe(s)
    ensures Run(s, steps).Some? ==> Safe(Run(s, steps).value)
    decreases |steps|
  {
    if steps != [] && Enabled(s, steps[0]) {
      StepKeepsSafe(s, steps[0]);
      RunKeepsSafe(Apply(s, steps[0]), steps[1..]);
    }
  }

  /** The worker protocol: every reachable state is safe. */
  lemma ReachableIsSafe(steps: seq<Step>)
    ensures Run(Init, steps).Some? ==> Safe(Run(Init, steps).value)
  {
    hide Run;
    assert Requests([]) + [] == [];
    RunKeepsSafe(Init, steps);
  }

  /** No caller of scheduleWorker is in flight: the notifier is gone and callbacks are done. */
  predicate HandlersQuiet(s: State) {
    s.f.toFault == 0 && s.c.toSchedule == 0 && s.c.toEnter == 0
  }

  predicate Resting(s: State) {
    HandlersQuiet(s) && s.c.worker.Idle? && s.c.pending == 0
  }

  /** The condition that the drain loop of stopRuntimeAndDrain waits for. */
  predicate Drained(s: State) {
    !s.c.active && !s.c.scheduled && !s.c.reschedule && s.q.waiting == []
  }

  /**
   * If the drain loop returns, the worker is quiescent: no call is pending, every accepted
   * request has been served or discarded, and at most the test of fFatal is still to come.
   */
  lemma DrainedIsQuiescent(s: State)
    requires Safe(s) && Drained(s)
    ensures s.c.pending == 0 && (s.c.worker.Idle? || s.c.worker.Testing?)
    ensures Requests(s.q.outcomes) == s.q.accepted
    ensures HandlersQuiet(s) && s.f.fatal && s.c.worker.Idle? ==> s.f.quarantined
  {
    assert s.q.accepted == Requests(s.q.outcomes) + [];
  }

  /**
   * When nothing but the worker can move and it has come to rest, the drain loop returns if and
   * only if the queue is empty.
   */
  lemma RestsDrainedIff(s: State)
    requires Safe(s) && Resting(s)
    ensures Drained(s) <==> s.q.waiting == []
  {
  }

  /**
   * The final section of a stopping worker drops its reschedule, and then the worker rests: with
   * no caller in flight the drain loop ends if and only if the queue was empty at that section.
   */
  lemma FinalSectionDecidesDrain(s: State, m: State, t: State)
    requires Safe(s) && s.c.worker.Finishing? && s.c.stopping && HandlersQuiet(s)
    requires m == Apply(s, Worker(FinalSection))
    requires Enabled(m, Worker(TestFatal)) && t == Apply(m, Worker(TestFatal))
    ensures Resting(t) && (Drained(t) <==> s.q.waiting == [])
  {
    var c := WorkerMoves(s.c, FinalSection, s.q.waiting == []);
    assert c == s.c.(active := false, reschedule := false, worker := Testing);
    assert m == State(c, s.f, s.q);
    assert t.c == c.(worker := Idle) && t.q == s.q && t.f.toFault == s.f.toFault;
  }

  lemma {:induction false} RunExtended(s: State, steps: seq<Step>, step: Step)
    requires Run(s, steps).Some? && Enabled(Run(s, steps).value, step)
    ensures Run(s, steps + [step]) == Some(Apply(Run(s, steps).value, step))
    decreases |steps|
  {
    if steps == [] {
      assert steps + [step] == [step];
      assert Run(s, [step]) == Run(Apply(s, step), []);
    } else {
      assert (steps + [step])[1..] == steps[1..] + [step];
      RunExtended(Apply(s, steps[0]), steps[1..], step);
    }
  }

  /** One more step of a run from Init, from state s to state t. */
  lemma Extended(steps: seq<Step>, s: State, step: Step, t: State) returns (longer: seq<Step>)
    requires Run(Init, steps) == Some(s) && Enabled(s, step) && t == Apply(s, step)
    ensures Run(Init, longer) == Some(t)
  {
    RunExtended(Init, steps, step);
    longer := steps + [step];
  }

  /** A request arrives and a thread call is entered for it. */
  lemma RequestArrives(r: PageRequest) returns (steps: seq<Step>)
    ensures Run(Init, steps) ==
            Some(State(Control(false, true, false, false, Idle, 1, 0, 0), Init.f, Queue(true, [r], 0, [r], [])))
  {
    assert Run(Init, []) == Some(Init);
    hide Run;
    var f := Init.f;
    var q0, q1 := Queue(true, [], 0, [], []), Queue(true, [r], 0, [r], []);
    var s1 := State(Init.c, f, q0);
    steps := Extended([], Init, StartRuntime, s1);
    var s2 := State(Control(false, false, false, false, Idle, 0, 1, 0), f, q1);
    steps := Extended(steps, s1, Handler(Enqueue(r)), s2);
    var s3 := State(Control(false, true, false, false, Idle, 0, 0, 1), f, q1);
    steps := Extended(steps, s2, Caller(ScheduleSection), s3);
    steps := Extended(steps, s3, Caller(EnterCall), State(Control(false, true, false, false, Idle, 1, 0, 0), f, q1));
  }

  /** The worker serves it and has just found the queue empty. */
  lemma RequestServed(r: PageRequest) returns (steps: seq<Step>)
    ensures Run(Init, steps) ==
            Some(State(Control(false, false, true, false, Finishing, 0, 0, 0), Init.f,
                       Queue(true, [], 0, [r], [Outcome(r, false)])))
  {
    steps := RequestArrives(r);
    hide Run;
    var f := Init.f;
    var q1, q2 := Queue(true, [r], 0, [r], []), Queue(true, [], 0, [r], [Outcome(r, false)]);
    var s1 := State(Control(false, true, false, false, Idle, 1, 0, 0), f, q1);
    var s2 := State(Control(false, true, false, false, Entering, 0, 0, 0), f, q1);
    steps := Extended(steps, s1, Worker(StartCall), s2);
    var s3 := State(Control(false, false, true, false, Draining, 0, 0, 0), f, q1);
    steps := Extended(steps, s2, Worker(BeginSection), s3);
    var s4 := State(s3.c.(worker := Processing), f, q2);
    steps := Extended(steps, s3, Worker(DequeueSection), s4);
    var s5 := State(s3.c, f, q2);
    steps := Extended(steps, s4, Worker(RequestSucceeds), s5);
    steps := Extended(steps, s5, Worker(DequeueSection), State(s3.c.(worker := Finishing), f, q2));
  }

  /**
   * A run in which the queue is not empty at the final section: a second request and the stop
   * both come while the worker is finishing. The drain loop then never returns: whatever the
   * worker and the stopping thread still do, the loop's test keeps failing.
   */
  lemma DrainCanStall(r: PageRequest) returns (steps: seq<Step>, s: State)
    ensures Run(Init, steps) == Some(s)
    ensures s.c.stopping && Resting(s) && !Drained(s) && s.q.waiting == [r]
    ensures forall later :: NoNewCaller(later) && Run(s, later).Some? ==> !Drained(Run(s, later).value)
  {
    steps := RequestServed(r);
    hide Run;
    var f, o := Init.f, [Outcome(r, false)];
    var q3, q4 := Queue(true, [r], 0, [r, r], o), Queue(false, [r], 0, [r, r], o);
    var s1 := State(Control(false, false, true, false, Finishing, 0, 0, 0), f, Queue(true, [], 0, [r], o));
    var s2 := State(s1.c.(toSchedule := 1), f, q3);
    steps := Extended(steps, s1, Handler(Enqueue(r)), s2);
    var s3 := State(s2.c.(stopping := true), f, q4);
    steps := Extended(steps, s2, StopRuntime, s3);
    var s4 := State(s3.c.(toSchedule := 0, reschedule := true), f, q4);
    steps := Extended(steps, s3, Caller(ScheduleSection), s4);
    steps, s := StopAndFinish(r, steps, s4);
    forall later | NoNewCaller(later) && Run(s, later).Some? ensures !Drained(Run(s, later).value) {
      RestsForEver(s, later);
    }
  }

  /** After the notifier is gone and the stopping thread has called scheduleWorker, no handler
      acts and nobody calls it again. */
  predicate NoNewCaller(steps: seq<Step>) {
    forall k :: 0 <= k < |steps| ==> !steps[k].Handler? && !steps[k].StopSchedules?
  }

  /** At rest and stopping, nothing can move. */
  lemma {:induction false} RestsForEver(s: State, later: seq<Step>)
    requires s.c.stopping && !s.q.accepting && Resting(s) && NoNewCaller(later)
    ensures Run(s, later).Some? ==> Run(s, later).value == s
    decreases |later|
  {
    if later != [] && Enabled(s, later[0]) {
      assert later[0].StopRuntime? && Apply(s, later[0]) == s;
      RestsForEver(s, later[1..]);
    }
  }

  lemma StopAndFinish(r: PageRequest, before: seq<Step>, s0: State) returns (steps: seq<Step>, s: State)
    requires Run(Init, before) == Some(s0)
    requires s0.c == Control(true, false, true, true, Finishing, 0, 0, 0)
    requires s0.q.waiting == [r] && s0.f == Init.f
    ensures Run(Init, steps) == Some(s) && s.q == s0.q
    ensures s.c.stopping && Resting(s) && !Drained(s) && s.q.waiting == [r]
  {
    hide Run;
    var s1 := State(s0.c.(toSchedule := 1), s0.f, s0.q);
    steps := Extended(before, s0, StopSchedules, s1);
    steps := Extended(steps, s1, Caller(ScheduleSection), s0);
    var s2 := State(Control(true, false, false, false, Testing, 0, 0, 0), s0.f, s0.q);
    steps := Extended(steps, s0, Worker(FinalSection), s2);
    s := State(s2.c.(worker := Idle), s0.f, s0.q);
    steps := Extended(steps, s2, Worker(TestFatal), s);
  }
}
