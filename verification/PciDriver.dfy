/**
 * The life of the core driver as far as DMA ownership goes: firmware initialization, run time, and
 * the teardown order of cleanup with its gate in front of the final release. Firmware's answers
 * are the channel's script; what the host contributes is a parameter of each call.
 */
module PciDriver {
  import opened Status
  import opened PageRequests
  import opened FwPageList
  import opened CommandChannel
  import opened FwPages

  /** What can happen at run time: a run of the page worker over the requests it dequeues, a
      command of some other part of the driver, a page event that cannot be queued, or a fatal
      event of the device. */
  datatype Event =
    | WorkerRun(requests: seq<PageRequest>)
    | Command(code: nat)
    | BadPageEvent(fault: Fault)
    | DeviceFatal

  /** The requests that an event offers to the page worker. */
  function Wanted(e: Event): seq<PageRequest> {
    if e.WorkerRun? then e.requests else []
  }

  function Offered(events: seq<Event>): seq<seq<PageRequest>> {
    seq(|events|, i requires 0 <= i < |events| => Wanted(events[i]))
  }

  /** Each run of the worker did some of the requests it was offered, from the first on. */
  ghost predicate Prefixes(done: seq<seq<PageRequest>>, offered: seq<seq<PageRequest>>) {
    |done| <= |offered| && forall i :: 0 <= i < |done| ==> done[i] <= offered[i]
  }

  ghost function Flatten(runs: seq<seq<PageRequest>>): seq<PageRequest> {
    if runs == [] then [] else Flatten(runs[..|runs| - 1]) + runs[|runs| - 1]
  }

  /** The host's part of start, step by step, and what happens before start has returned. */
  datatype StartInput = StartInput(
    barMapped: bool,
    cmdReady: bool,
    pagesReady: bool,
    firmwareReady: bool,
    issiOffered: bool,
    capsMemory: bool,
    capQueries: nat,        // how many capability groups fwInit reads back at its end
    uarMapped: bool,
    interrupts: bool,       // doorbell-record page and interrupt vectors
    eqMemory: nat,          // how many event queues get a ring
    early: seq<Event>,      // between startRuntime and the end of start
    lateSteps: bool)        // interrupt setup, health polling, DMA service, nubs

  /** The host's part of cleanup: the worker runs until the drain is over, and what the command
      register reads back. */
  datatype CleanupInput = CleanupInput(drained: seq<seq<PageRequest>>, readsOff: bool)

  const ASYNC_AND_COMP_EQS: nat := 4

  /** No step of start meets an obstacle on the host. */
  predicate HostReady(input: StartInput) {
    && input.barMapped && input.cmdReady && input.pagesReady && input.firmwareReady && input.capsMemory
    && input.uarMapped && input.interrupts && input.eqMemory >= 4 && input.lateSteps
  }

  const SMOOTH_START := StartInput(true, true, true, true, false, true, 4, true, true, ASYNC_AND_COMP_EQS, [], true)

  const QUERY_HCA_CAP := Other(0x100)
  const SET_HCA_CAP := Other(0x109)
  const QUERY_ISSI := Other(0x10a)
  const SET_ISSI := Other(0x10b)

  /** The commands of fwInit, in order: the HCA is enabled before the boot pages, and initialized
      after the capabilities are set and the init pages are there. */
  function InitOrder(issi: bool, queries: nat): seq<Opcode> {
    [EnableHca] + BootOrder(issi) + [InitHca] + seq(queries, i => QUERY_HCA_CAP)
  }

  function BootOrder(issi: bool): seq<Opcode> {
    (if issi then [QUERY_ISSI, SET_ISSI] else [QUERY_ISSI]) + PAGES_AND_CAPS
  }

  const PAGES_AND_CAPS: seq<Opcode> := [QueryPages, QUERY_HCA_CAP, QUERY_HCA_CAP, SET_HCA_CAP, QueryPages]

  /** The commands of a log other than page commands, in order. */
  ghost function Control(log: seq<Exchange>): seq<Opcode> {
    if log == [] then []
    else
      var n := |log| - 1;
      Control(log[..n]) + if log[n].Sent? && !log[n].op.ManagePages? then [log[n].op] else []
  }

  /** How often firmware granted something, less how often it granted the undoing of it. */
  datatype Tally = Tally(enabled: int, initialized: int, eqs: int)

  function Count(t: Tally, e: Exchange): Tally {
    match e
    case Sent(EnableHca, Success) => t.(enabled := t.enabled + 1)
    case Sent(DisableHca, Success) => t.(enabled := t.enabled - 1)
    case Sent(InitHca, Success) => t.(initialized := t.initialized + 1)
    case Sent(TeardownHca, Success) => t.(initialized := t.initialized - 1)
    case Sent(CreateEq, Success) => t.(eqs := t.eqs + 1)
    case Sent(DestroyEq, Success) => t.(eqs := t.eqs - 1)
    case _ => t
  }

  ghost function TallyOf(log: seq<Exchange>): Tally {
    if log == [] then Tally(0, 0, 0) else Count(TallyOf(log[..|log| - 1]), log[|log| - 1])
  }

  /** The fields that cleanup decides on. */
  datatype View = View(
    hasPci: bool, hasCmd: bool, up: bool, hasPages: bool, hasEq: bool, validEqs: nat, bootUar: bool,
    hcaEnabled: bool, hcaInitialized: bool, runtime: bool, dmaQuarantined: bool)

  /** What cleanup sees of the page manager. */
  datatype PagesSeen = PagesSeen(pages: seq<FwPage>, fatal: bool, asks: nat)

  predicate Usable(b: View) {
    b.hasCmd && b.up
  }

  /** The commands of one cleanup, in the order of its steps, and the page requests that the runs
      of its drain did. */
  datatype Trace = Trace(
    done: seq<seq<PageRequest>>,
    drain: seq<Exchange>,
    eqs: seq<Exchange>,
    teardown: seq<Exchange>,
    reclaim: seq<Exchange>,
    disable: seq<Exchange>,
    freeUar: seq<Exchange>)

  function TillTeardown(log: seq<Exchange>, t: Trace): seq<Exchange> {
    log + t.drain + t.eqs + t.teardown
  }

  /** The log as it is when cleanup comes to its gate. */
  function TillGate(log: seq<Exchange>, t: Trace): seq<Exchange> {
    TillTeardown(log, t) + t.reclaim + t.disable
  }

  /** What one cleanup saw when it decided what to release. */
  datatype Report = Report(
    eqDestroyed: bool,
    teardownOk: bool,
    fatal: bool,            // the page manager's fault is raised
    reclaim: Option<Kr>,    // how reclaimAll ended, if it was called
    dmaQuarantined: bool,
    cmdQuarantined: bool,
    outstanding: bool,
    busMasterOff: bool)

  /** The teardown was a trusted DMA drain. */
  predicate Graceful(r: Report) {
    r.eqDestroyed && r.teardownOk && !r.dmaQuarantined && !r.cmdQuarantined && !r.outstanding
  }

  /** The report of a cleanup that releases its resources. */
  predicate Releases(r: Report) {
    Graceful(r) && r.busMasterOff
  }

  /** Reclaiming is possible: firmware still answers, and TEARDOWN_HCA did not fail. */
  ghost predicate CanReclaim(b: View, log: seq<Exchange>, t: Trace) {
    b.hasPages && b.hcaEnabled && Usable(b) && !TimedOut(TillTeardown(log, t)) && AllSucceed(t.teardown)
  }

  /** Which commands a cleanup sends: the state it starts from decides all of them but the page
      commands, and FREE_UAR is sent exactly behind an open gate. */
  ghost predicate Sends(b: View, log: seq<Exchange>, t: Trace, r: Report) {
    && Prepares(b, log, t, r)
    && AllOf(t.freeUar, FreeUar) && |t.freeUar| == (if Releases(r) && b.bootUar && b.hasCmd then 1 else 0)
  }

  /** Those it sends before its gate. */
  ghost predicate Prepares(b: View, log: seq<Exchange>, t: Trace, r: Report) {
    && Drained(b, t)
    && AllOf(t.eqs, DestroyEq) && |t.eqs| == (if b.hasEq && Usable(b) then b.validEqs else 0)
    && AllOf(t.teardown, Opcode.TeardownHca) && |t.teardown| == (if b.hcaInitialized && Usable(b) then 1 else 0)
    && Takes(t.reclaim) && (r.reclaim.Some? || t.reclaim == [])
    && (r.reclaim.Some? ==> CanReclaim(b, log, t))
    && (r.reclaim.None? ==> !(CanReclaim(b, log, t) && r.outstanding))
    && AllOf(t.disable, Opcode.DisableHca) && |t.disable| == (if b.hcaEnabled && Usable(b) then 1 else 0)
  }

  /** The drain: page commands and exactly the release-alls it was asked for, if there was one. */
  ghost predicate Drained(b: View, t: Trace) {
    && WorkerTraffic(t.drain) && Heards(t.drain) == ReleaseAlls(Flatten(t.done))
    && ((b.hasPages && b.runtime) || (t.drain == [] && t.done == []))
  }

  /** How many of the commands failed. */
  ghost function Failures(sent: seq<Exchange>): nat {
    if sent == [] then 0
    else
      var n := |sent| - 1;
      Failures(sent[..n]) + if sent[n].Sent? && !sent[n].kr.Success? then 1 else 0
  }

  /** The flags of the HCA once it has been torn down and disabled, or not. */
  ghost predicate HcaLeft(b: View, t: Trace, initialized: bool, enabled: bool) {
    && initialized == (b.hcaInitialized && !(t.teardown != [] && AllSucceed(t.teardown)))
    && enabled == (b.hcaEnabled && !(t.disable != [] && AllSucceed(t.disable)))
  }

  predicate ReclaimFailed(r: Option<Kr>) {
    r.Some? && !r.value.Success?
  }

  /** What the report says, from the state cleanup starts from and the answers it got. */
  ghost predicate Verdict(b: View, log: seq<Exchange>, t: Trace, r: Report) {
    && r.eqDestroyed == (b.hasEq ==> if Usable(b) then AllSucceed(t.eqs) else b.validEqs == 0)
    && r.teardownOk == AllSucceed(t.teardown)
    && (r.reclaim.Some? ==> (r.reclaim.value.Success? <==> !r.outstanding))
    && r.dmaQuarantined ==
       (b.dmaQuarantined || (b.hasPages && b.runtime && r.fatal) || !r.teardownOk
        || ReclaimFailed(r.reclaim) || !AllSucceed(t.disable))
    && r.cmdQuarantined == (b.hasCmd && TimedOut(TillGate(log, t)))
    && (r.outstanding ==> b.hasPages)
  }

  /**
   * The gate, in full: cleanup releases exactly if nothing sent since the driver started timed
   * out, every DESTROY_EQ, TEARDOWN_HCA and DISABLE_HCA due succeeded, nothing had called for a
   * quarantine, the page manager has no fault (or never ran), the page list is empty, and bus
   * mastering reads back off.
   */
  lemma ReleaseCondition(b: View, log: seq<Exchange>, t: Trace, r: Report)
    requires Sends(b, log, t, r) && Verdict(b, log, t, r)
    ensures Releases(r) <==>
            && !(b.hasCmd && TimedOut(TillGate(log, t)))
            && AllSucceed(t.eqs) && (b.hasEq && !Usable(b) ==> b.validEqs == 0)
            && AllSucceed(t.teardown) && AllSucceed(t.disable)
            && !b.dmaQuarantined && !(b.hasPages && b.runtime && r.fatal) && !r.outstanding && r.busMasterOff
  {
  }

  class Driver {
    const cmd: Channel
    const pages: Manager
    var hasPci: bool
    var hasCmd: bool
    var hasPages: bool
    var hasEq: bool
    var validEqs: nat
    var bootUarValid: bool
    var fHcaEnabled: bool
    var fHcaInitialized: bool
    var fRuntimePagesStarted: bool
    var fStopping: bool
    var fDmaQuarantined: bool
    var busMaster: bool
    /** The command queue page and mailboxes were freed while firmware had not answered. */
    ghost var stuckFreed: bool

    ghost function Seen(): View
      reads this, cmd
    {
      View(hasPci, hasCmd, cmd.up, hasPages, hasEq, validEqs, bootUarValid,
           fHcaEnabled, fHcaInitialized, fRuntimePagesStarted, fDmaQuarantined)
    }

    ghost function PagesNow(): PagesSeen
      reads pages`fPages, pages`fFatal, pages`asks
    {
      PagesSeen(pages.fPages, pages.fFatal, pages.asks)
    }

    /** What ties the parts together. */
    ghost predicate Core()
      reads this`hasCmd, this`hasPages, this`hasEq, this`validEqs, this`fRuntimePagesStarted, cmd, pages
    {
      && pages.cmd == cmd
      && cmd.Valid() && pages.Settled()
      && (hasPages ==> hasCmd)
      && (fRuntimePagesStarted ==> hasPages)
      && (validEqs > 0 ==> hasEq)
    }

    /** The flags and the count of event queues are what firmware granted and was not asked to
        undo: the balance of the log. */
    ghost predicate Recorded()
      reads this`fHcaEnabled, this`fHcaInitialized, this`validEqs, cmd`log
    {
      TallyOf(cmd.log) == Tally(if fHcaEnabled then 1 else 0, if fHcaInitialized then 1 else 0, validEqs)
    }

    ghost predicate Valid()
      reads this, cmd, pages
    {
      Core() && Recorded()
    }

    /** A driver that has not started. */
    ghost predicate Fresh()
      reads this, cmd, pages
    {
      && !hasCmd && !hasPages && !hasEq && validEqs == 0 && !bootUarValid && hasPci
      && !fHcaEnabled && !fHcaInitialized && !fRuntimePagesStarted && !fStopping && !fDmaQuarantined
      && cmd.log == [] && pages.fPages == [] && !pages.fFatal && !stuckFreed
    }

    /** Firmware can reach no page that has been unmapped, and none ever was unmapped too early. */
    ghost predicate DmaOwnershipSafe()
      reads this, pages, cmd`held
    {
      && pages.DmaSafe()
      && cmd.held.Keys <= Addresses(pages.fPages)
    }

    lemma SafeWhenValid()
      requires Core()
      ensures DmaOwnershipSafe()
    {
    }

    /** The command sent next, and how it ends. */
    ghost function Next(op: Opcode): Exchange
      reads cmd`log
    {
      Sent(op, Ending(cmd.script, cmd.up, cmd.log, op))
    }

    constructor (script: Script, host: nat -> Grant)
      ensures Valid() && Fresh() && fresh(cmd) && fresh(pages)
      ensures cmd.script == script && cmd.up && pages.host == host
    {
      var c := new Channel(script);
      cmd := c;
      pages := new Manager(c, host);
      hasPci, hasCmd, hasPages, hasEq, validEqs, bootUarValid := true, false, false, false, 0, false;
      fHcaEnabled, fHcaInitialized, fRuntimePagesStarted := false, false, false;
      fStopping, fDmaQuarantined, busMaster, stuckFreed := false, false, true, false;
    }

    method EnterDmaQuarantine()
      modifies this`fDmaQuarantined, this`busMaster
      ensures fDmaQuarantined && busMaster == (old(busMaster) && !hasPci)
    {
      fDmaQuarantined := true;
      if hasPci {
        busMaster := false;
      }
    }

    // Run time

    /**
     * One run of the page worker: it serves the requests until one fails, and then tests the
     * fault. `done` are those that succeeded; the release-alls in the log are theirs, and every
     * function's account is as they have it, but for the function of the one that failed.
     */
    method RunWorker(requests: seq<PageRequest>) returns (ghost done: seq<PageRequest>)
      requires Valid() && hasPages
      modifies this`fDmaQuarantined, this`busMaster, cmd, pages
      ensures Valid() && done <= requests
      ensures Served(old(pages.Now()), pages.Now(), ReleaseAlls(done))
      ensures forall g :: done == requests || g != requests[|done|].owner ==>
                OwnedCount(pages.fPages, g) == Accounted(OwnedCount(old(pages.fPages), g), done, g)
      ensures if done == requests then pages.fFatal == old(pages.fFatal) else pages.Stumbled(old(pages.Now()))
      ensures busMaster == (old(busMaster) && !(hasPci && pages.fFatal))
      ensures fDmaQuarantined <==> old(fDmaQuarantined) || pages.fFatal
      ensures old(pages.fFatal) ==> pages.fFatal
    {
      hide Served, Channel.Valid, Manager.Settled, OwnedCount, Hampered;
      var n := pages.ServeRequests(requests);
      done := requests[..n];
      TallyServed(old(pages.Now()), pages.Now(), ReleaseAlls(done));
      if pages.fFatal {
        EnterDmaQuarantine();
      }
    }

    method Handle(e: Event) returns (ghost done: seq<PageRequest>)
      requires Valid() && hasPages
      modifies this`fDmaQuarantined, this`busMaster, cmd, pages
      ensures Valid() && done <= Wanted(e)
      ensures done == Wanted(e) || pages.Stumbled(old(pages.Now()))
      ensures Kept(old(pages.Now()), pages.Now()) && (old(pages.fFatal) ==> pages.fFatal)
      ensures Heards(cmd.log) == Heards(old(cmd.log)) + ReleaseAlls(done)
      ensures old(fDmaQuarantined) ==> fDmaQuarantined
      ensures e.BadPageEvent? ==> pages.fFatal && pages.fPages == old(pages.fPages) && cmd.log == old(cmd.log)
      ensures e.Command? ==> cmd.log == old(cmd.log) + [old(Next(Other(e.code)))]
      ensures e.DeviceFatal? ==> fDmaQuarantined && cmd.log == old(cmd.log)
      ensures e.WorkerRun? && pages.fFatal ==> fDmaQuarantined
      ensures busMaster ==> old(busMaster) && (hasPci && fDmaQuarantined ==> old(fDmaQuarantined))
    {
      hide Channel.Valid, Manager.Settled, Served, OwnedCount, Hampered, Heards, ReleaseAlls;
      done := [];
      NoRuns();
      if e.WorkerRun? {
        done := RunWorker(e.requests);
        HeardServed(old(pages.Now()), pages.Now(), ReleaseAlls(done));
      } else {
        HandleOther(e);
      }
    }

    method HandleOther(e: Event)
      requires Valid() && hasPages && !e.WorkerRun?
      modifies this`fDmaQuarantined, this`busMaster, cmd, pages`fFatal, pages`fFault
      ensures Valid() && Kept(old(pages.Now()), pages.Now()) && Heards(cmd.log) == Heards(old(cmd.log))
      ensures cmd.log == old(cmd.log) + (if e.Command? then [old(Next(Other(e.code)))] else [])
      ensures pages.fFatal == (old(pages.fFatal) || e.BadPageEvent?)
      ensures fDmaQuarantined == (old(fDmaQuarantined) || e.DeviceFatal?)
      ensures busMaster == (old(busMaster) && !(e.DeviceFatal? && hasPci))
    {
      hide Driver.Valid, Heards;
      match e {
        case Command(code) =>
          var ok := SendOther(code);
        case BadPageEvent(fault) =>
          HandleBadPageEvent(fault);
        case DeviceFatal =>
          HandleDeviceFatal();
      }
    }

    method HandleBadPageEvent(fault: Fault)
      requires Valid() && hasPages
      modifies pages`fFatal, pages`fFault
      ensures Valid() && pages.fFatal
    {
      hide Channel.Valid, Manager.Settled, Heards;
      pages.RaiseFault(fault);
    }

    method HandleDeviceFatal()
      requires Valid()
      modifies this`fDmaQuarantined, this`busMaster
      ensures Valid() && fDmaQuarantined && busMaster == (old(busMaster) && !hasPci)
    {
      hide Channel.Valid, Manager.Settled, Heards;
      EnterDmaQuarantine();
    }

    /** A command of some other part of the driver. */
    method SendOther(code: nat) returns (ok: bool)
      requires Valid()
      modifies cmd
      ensures Valid() && cmd.log == old(cmd.log) + [old(Next(Other(code)))] && ok == old(Next(Other(code))).kr.Success?
      ensures Heards(cmd.log) == Heards(old(cmd.log))
    {
      hide Genuine, Held, Manager.Settled;
      var kr, answer := cmd.Exec(Other(code));
      LogNext(old(cmd.log), Sent(Other(code), kr));
      ok := kr.Success?;
    }

    /** Any events, in any order. */
    method RunEvents(events: seq<Event>) returns (ghost done: seq<seq<PageRequest>>)
      requires Valid() && hasPages
      modifies this`fDmaQuarantined, this`busMaster, cmd, pages
      ensures Valid() && Prefixes(done, Offered(events))
      ensures done == Offered(events) || pages.Stumbled(old(pages.Now()))
      ensures Kept(old(pages.Now()), pages.Now()) && Heards(cmd.log) == Heards(old(cmd.log)) + ReleaseAlls(Flatten(done))
      ensures old(fDmaQuarantined) ==> fDmaQuarantined
      ensures busMaster ==> old(busMaster) && (hasPci && fDmaQuarantined ==> old(fDmaQuarantined))
      ensures forall k :: 0 <= k < |events| && events[k].DeviceFatal? ==> fDmaQuarantined
      ensures forall k :: 0 <= k < |events| && events[k].BadPageEvent? ==> pages.fFatal
      ensures events == [] ==> Seen() == old(Seen()) && pages.Now() == old(pages.Now())
      ensures events == [] ==> pages.fPages == old(pages.fPages) && pages.fFatal == old(pages.fFatal)
    {
      hide Driver.Valid, Heards, ReleaseAlls, Hampered, Offered, Prefixes, Wanted, Flatten;
      done := [];
      NoRuns();
      OfferedNone(events);
      for i := 0 to |events|
        invariant Valid() && |done| == i && Prefixes(done, Offered(events)[..i])
        invariant Kept(old(pages.Now()), pages.Now())
        invariant Heards(cmd.log) == Heards(old(cmd.log)) + ReleaseAlls(Flatten(done))
        invariant done == Offered(events)[..i] || pages.Stumbled(old(pages.Now()))
        invariant old(fDmaQuarantined) ==> fDmaQuarantined
        invariant busMaster ==> old(busMaster) && (hasPci && fDmaQuarantined ==> old(fDmaQuarantined))
        invariant forall k :: 0 <= k < i && events[k].DeviceFatal? ==> fDmaQuarantined
        invariant forall k :: 0 <= k < i && events[k].BadPageEvent? ==> pages.fFatal
        invariant old(pages.fFatal) ==> pages.fFatal
        invariant i == 0 ==> Seen() == old(Seen()) && pages.Now() == old(pages.Now())
        invariant i == 0 ==> pages.fPages == old(pages.fPages) && pages.fFatal == old(pages.fFatal)
      {
        ghost var mark, fatal := pages.Now(), pages.fFatal;
        ghost var run := Handle(events[i]);
        HamperedOn(fatal, pages.fFatal, pages.host, old(pages.Now()), mark, pages.Now());
        OfferedOne(events, i, done, run);
        OneRunMore(done, run);
        done := done + [run];
      }
      assert Offered(events)[..|events|] == Offered(events);
    }

    // Start

    /** Firmware grants every command but perhaps a FREE_UAR and asks for at most n pages at a
        time, and the host refuses nothing. */
    ghost predicate OpenHanded(n: nat) {
      && cmd.up && Grants(cmd.script) && Modest(cmd.script, n)
      && forall k :: pages.host(k).Granted?
    }

    /** A start that meets no obstacle, and whose boot and init pages can be tracked. */
    ghost predicate Unhindered(input: StartInput, n: nat) {
      HostReady(input) && OpenHanded(n) && 2 * n <= 65536
    }

    /** Where such a start stands, with up to n pages lent: nothing has gone wrong yet. */
    ghost predicate Smooth(n: nat)
      reads this, cmd, pages
    {
      && hasPci && !fDmaQuarantined && !fStopping && !stuckFreed
      && AllSucceed(cmd.log) && |pages.fPages| <= n && !pages.fFatal
    }

    method Send(op: Opcode) returns (ok: bool)
      requires Core() && !op.ManagePages?
      modifies cmd
      ensures Core() && cmd.log == old(cmd.log) + [old(Next(op))] && ok == old(Next(op)).kr.Success?
      ensures TallyOf(cmd.log) == Count(old(TallyOf(cmd.log)), old(Next(op)))
      ensures Control(cmd.log) == Control(old(cmd.log)) + [op]
      ensures Heards(cmd.log) == Heards(old(cmd.log))
      ensures Grants(cmd.script) && cmd.up && old(AllSucceed(cmd.log)) && !op.FreeUar? ==> ok && AllSucceed(cmd.log)
    {
      hide Manager.Settled, Genuine, Held;
      var kr, answer := cmd.Exec(op);
      ok := kr.Success?;
      if AllSucceed(old(cmd.log)) { SuccessIsNoTimeout(old(cmd.log)); }
      OneMore(old(cmd.log), Sent(op, kr));
      LogNext(old(cmd.log), Sent(op, kr));
    }

    method StartupPages(phase: Phase, ghost n: nat, ghost lent: nat) returns (ok: bool)
      requires Core()
      modifies cmd, pages
      ensures Core() && old(pages.released) <= pages.released
      ensures TallyOf(cmd.log) == old(TallyOf(cmd.log)) && Heards(cmd.log) == Heards(old(cmd.log))
      ensures Control(cmd.log) == Control(old(cmd.log)) + [QueryPages]
      ensures OpenHanded(n) && lent + n <= 65536 && old(Smooth(lent)) ==> ok && Smooth(lent + n)
    {
      hide Genuine, Held, Manager.Settled, Later, Grown, Granting, AllSucceed, Heards, Control, TallyOf;
      ghost var queried := pages.Queried();
      var kr := pages.SatisfyStartupPages(phase);
      ok := kr.Success?;
      ghost var query := queried.sent[|queried.sent| - 1];
      OneMore(old(cmd.log), query);
      LogNext(old(cmd.log), query);
      LogLater(queried, pages.Now());
      if OpenHanded(n) && old(AllSucceed(cmd.log)) {
        SuccessIsNoTimeout(old(cmd.log));
        Provisioned(cmd.script, pages.host, queried, pages.Now());
      }
    }

    /** fwInit: its commands go out in the order InitOrder, up to the first that fails, and all of
        them if it succeeds. A refused ISSI does not matter. */
    method FwInit(input: StartInput, ghost n: nat) returns (ok: bool, ghost issi: bool, ghost ran: seq<Opcode>)
      requires Valid() && hasPages && !fHcaEnabled && !fHcaInitialized
      modifies this`fHcaEnabled, this`fHcaInitialized, cmd, pages
      ensures Valid() && old(pages.released) <= pages.released
      ensures Control(cmd.log) == Control(old(cmd.log)) + ran && ran <= InitOrder(issi, input.capQueries)
      ensures Heards(cmd.log) == Heards(old(cmd.log))
      ensures fHcaInitialized ==> fHcaEnabled
      ensures ok ==> fHcaInitialized && ran == InitOrder(issi, input.capQueries)
      ensures ok ==> input.firmwareReady && input.capsMemory
      ensures Unhindered(input, n) && old(Smooth(0)) ==> ok && Smooth(2 * n)
    {
      hide Channel.Valid, Manager.Settled, AllSucceed, Grants, Modest, BootOrder, Heards, Control, TallyOf, Driver.Core;
      issi, ran := false, [];
      if !input.firmwareReady {
        return false, issi, ran;
      }
      ok := Send(EnableHca);
      ran := [EnableHca];
      if !ok {
        return;
      }
      fHcaEnabled := true;
      ghost var boot;
      ok, issi, boot := BootFirmware(input, n);
      ran := ran + boot;
      if ok {
        ghost var rest;
        ok, rest := InitFirmware(input);
        ran := ran + rest;
      }
    }

    /** INIT_HCA, and the capabilities read back. */
    method InitFirmware(input: StartInput) returns (ok: bool, ghost ran: seq<Opcode>)
      requires Valid() && !fHcaInitialized
      modifies this`fHcaInitialized, cmd
      ensures Valid() && Control(cmd.log) == Control(old(cmd.log)) + ran && Heards(cmd.log) == Heards(old(cmd.log))
      ensures ran <= [InitHca] + seq(input.capQueries, i => QUERY_HCA_CAP)
      ensures ok ==> fHcaInitialized && ran == [InitHca] + seq(input.capQueries, i => QUERY_HCA_CAP)
      ensures Grants(cmd.script) && cmd.up && old(AllSucceed(cmd.log)) ==> ok && AllSucceed(cmd.log)
    {
      hide Channel.Valid, Manager.Settled, AllSucceed, Grants, Heards, Control, TallyOf, Driver.Core;
      ok := Send(InitHca);
      ran := [InitHca];
      if ok {
        fHcaInitialized := true;
        ghost var queries;
        ok, queries := ReadCaps(input);
        ran := ran + queries;
      }
    }

    /** The capabilities are read back, group by group. */
    method ReadCaps(input: StartInput) returns (ok: bool, ghost ran: seq<Opcode>)
      requires Valid()
      modifies cmd
      ensures Valid() && Control(cmd.log) == Control(old(cmd.log)) + ran && Heards(cmd.log) == Heards(old(cmd.log))
      ensures ran <= seq(input.capQueries, i => QUERY_HCA_CAP) && (ok ==> |ran| == input.capQueries)
      ensures Grants(cmd.script) && cmd.up && old(AllSucceed(cmd.log)) ==> ok && AllSucceed(cmd.log)
    {
      hide Channel.Valid, Manager.Settled, AllSucceed, Grants, Heards, Control, TallyOf;
      var queries := 0;
      ok, ran := true, [];
      while queries < input.capQueries && ok
        invariant queries <= input.capQueries && |ran| == queries && forall i :: 0 <= i < queries ==> ran[i] == QUERY_HCA_CAP
        invariant Valid() && Control(cmd.log) == Control(old(cmd.log)) + ran && Heards(cmd.log) == Heards(old(cmd.log))
        invariant Grants(cmd.script) && cmd.up && old(AllSucceed(cmd.log)) ==> ok && AllSucceed(cmd.log)
        decreases input.capQueries - queries
      {
        ok := Send(QUERY_HCA_CAP);
        ran := ran + [QUERY_HCA_CAP];
        queries := queries + 1;
      }
    }

    method BootFirmware(input: StartInput, ghost n: nat) returns (ok: bool, ghost issi: bool, ghost ran: seq<Opcode>)
      requires Core() && hasPages
      modifies cmd, pages
      ensures Core() && old(pages.released) <= pages.released
      ensures TallyOf(cmd.log) == old(TallyOf(cmd.log)) && Heards(cmd.log) == Heards(old(cmd.log))
      ensures Control(cmd.log) == Control(old(cmd.log)) + ran && ran <= BootOrder(issi)
      ensures ok ==> ran == BootOrder(issi)
      ensures ok ==> input.capsMemory
      ensures Unhindered(input, n) && old(Smooth(0)) ==> ok && Smooth(2 * n)
    {
      hide Channel.Valid, Manager.Settled, AllSucceed, Grants, Modest, Heards, Control, TallyOf, Driver.Core;
      ok := Send(QUERY_ISSI);
      ran := [QUERY_ISSI];
      issi := ok && input.issiOffered;
      if ok && input.issiOffered {
        ok := Send(SET_ISSI);
        ran := [QUERY_ISSI, SET_ISSI];
      }
      ghost var rest;
      ok, rest := PagesAndCaps(input, n);
      ran := ran + rest;
    }

    /** The boot pages, the capabilities, the init pages. */
    method PagesAndCaps(input: StartInput, ghost n: nat) returns (ok: bool, ghost ran: seq<Opcode>)
      requires Core()
      modifies cmd, pages
      ensures Core() && old(pages.released) <= pages.released
      ensures TallyOf(cmd.log) == old(TallyOf(cmd.log)) && Heards(cmd.log) == Heards(old(cmd.log))
      ensures Control(cmd.log) == Control(old(cmd.log)) + ran && ran <= PAGES_AND_CAPS
      ensures ok ==> ran == PAGES_AND_CAPS
      ensures ok ==> input.capsMemory
      ensures Unhindered(input, n) && old(Smooth(0)) ==> ok && Smooth(2 * n)
    {
      hide Channel.Valid, Manager.Settled, AllSucceed, Grants, Modest, Heards, Control, TallyOf, Driver.Core;
      ok := StartupPages(Boot, n, 0);
      ran := [QueryPages];
      if !ok || !input.capsMemory {
        return false, ran;
      }
      ghost var caps;
      ok, caps := SetCaps(input);
      ran := ran + caps;
      if ok {
        ok := StartupPages(Init, n, n);
        ran := ran + [QueryPages];
      }
    }

    method SetCaps(input: StartInput) returns (ok: bool, ghost ran: seq<Opcode>)
      requires Core()
      modifies cmd
      ensures Core()
      ensures TallyOf(cmd.log) == old(TallyOf(cmd.log)) && Heards(cmd.log) == Heards(old(cmd.log))
      ensures Control(cmd.log) == Control(old(cmd.log)) + ran
      ensures ran <= [QUERY_HCA_CAP, QUERY_HCA_CAP, SET_HCA_CAP] && (ok ==> |ran| == 3)
      ensures Grants(cmd.script) && cmd.up && old(AllSucceed(cmd.log)) ==> ok && AllSucceed(cmd.log)
    {
      hide Channel.Valid, Manager.Settled, AllSucceed, Grants, Heards, Control, TallyOf, Driver.Core;
      ok := Send(QUERY_HCA_CAP);
      ran := [QUERY_HCA_CAP];
      if ok {
        ok := Send(QUERY_HCA_CAP);
        ran := ran + [QUERY_HCA_CAP];
      }
      if ok {
        ok := Send(SET_HCA_CAP);
        ran := ran + [SET_HCA_CAP];
      }
    }

    /** BAR, command interface, page manager, firmware, boot UAR. */
    method StartCore(input: StartInput, ghost n: nat) returns (ok: bool, ghost issi: bool)
      requires Valid() && Fresh()
      modifies this, cmd, pages
      ensures Valid() && !fStopping && !hasEq && validEqs == 0 && !fRuntimePagesStarted
      ensures old(pages.released) <= pages.released && Heards(cmd.log) == []
      ensures ok ==> hasPages && hasCmd && bootUarValid && fHcaInitialized && fHcaEnabled
      ensures ok ==> Control(cmd.log) == InitOrder(issi, input.capQueries) + [AllocUar]
      ensures ok ==> input.barMapped && input.cmdReady && input.pagesReady && input.firmwareReady
      ensures ok ==> input.capsMemory && input.uarMapped && input.interrupts
      ensures Unhindered(input, n) ==> ok && Smooth(2 * n)
    {
      hide Channel.Valid, Manager.Settled, AllSucceed, Grants, Modest, TallyOf, InitOrder;
      NoneSent(FreeUar);
      ok, issi := input.barMapped && input.cmdReady, false;
      hasCmd := ok;
      if !ok {
        return;
      }
      hasPages := input.pagesReady;
      if !hasPages {
        return false, issi;
      }
      ghost var ran;
      ok, issi, ran := FwInit(input, n);
      if !ok {
        return;
      }
      ok := StartUar(input);
    }

    /** ALLOC_UAR; if its page cannot be mapped it goes straight back. */
    method StartUar(input: StartInput) returns (ok: bool)
      requires Valid() && !bootUarValid
      modifies this`bootUarValid, cmd
      ensures Valid() && Heards(cmd.log) == Heards(old(cmd.log))
      ensures bootUarValid == (old(Next(AllocUar)).kr.Success? && input.uarMapped)
      ensures ok == (bootUarValid && input.interrupts)
      ensures Control(cmd.log) == Control(old(cmd.log)) + [AllocUar] +
                if old(Next(AllocUar)).kr.Success? && !input.uarMapped then [FreeUar] else []
      ensures Grants(cmd.script) && cmd.up && old(AllSucceed(cmd.log)) && input.uarMapped ==>
                ok == input.interrupts && AllSucceed(cmd.log)
    {
      hide Channel.Valid, Manager.Settled, AllSucceed, Grants, Heards, Control, TallyOf, Ending;
      ok := Send(AllocUar);
      if !ok {
        return;
      }
      if !input.uarMapped {
        var freed := Send(FreeUar);
        return false;
      }
      bootUarValid := true;
      ok := input.interrupts;
    }

    /** The event queues, each of which needs a ring and a command: the first command that is not
        granted is the last one. */
    method CreateEqs(input: StartInput) returns (ok: bool, ghost sent: seq<Exchange>)
      requires Valid() && hasPages && validEqs == 0
      modifies this`hasEq, this`validEqs, cmd
      ensures Valid() && hasEq && cmd.log == old(cmd.log) + sent && Created(sent, validEqs)
      ensures ok <==> validEqs == ASYNC_AND_COMP_EQS
      ensures ok ==> |sent| == validEqs
      ensures ok ==> input.eqMemory >= 4
      ensures Grants(cmd.script) && cmd.up && old(AllSucceed(cmd.log)) ==>
                AllSucceed(cmd.log) && (ok <==> input.eqMemory >= 4)
    {
      hide Channel.Valid, Manager.Settled, Grants, Heards, Control, TallyOf, AllOf, AllSucceed, Created;
      hasEq, ok, sent := true, true, [];
      NoneCreated();
      while validEqs < ASYNC_AND_COMP_EQS && ok
        invariant Valid() && hasEq && validEqs <= ASYNC_AND_COMP_EQS
        invariant cmd.log == old(cmd.log) + sent && Created(sent, validEqs)
        invariant if ok then |sent| == validEqs else validEqs < ASYNC_AND_COMP_EQS
        invariant validEqs <= input.eqMemory
        invariant Grants(cmd.script) && cmd.up && old(AllSucceed(cmd.log)) ==>
                    AllSucceed(cmd.log) && (ok || input.eqMemory < 4)
        decreases ASYNC_AND_COMP_EQS - validEqs, ok
      {
        ok := validEqs < input.eqMemory;
        if ok {
          ghost var kr := Next(CreateEq).kr;
          ok := Send(CreateEq);
          OneCreated(sent, kr);
          sent := sent + [Sent(CreateEq, kr)];
          if ok { validEqs := validEqs + 1; }
        }
      }
    }

    /** start: any step may fail, also after the page worker is up and has served requests; a
        failure goes straight to cleanup. `early` and `drained` are the requests served on the
        way, run by run; `order` says which commands went out first. */
    method Start(input: StartInput, cleanup: CleanupInput, ghost n: nat)
      returns (ok: bool, ghost issi: bool, ghost early: seq<seq<PageRequest>>, ghost drained: seq<seq<PageRequest>>)
      requires Valid() && Fresh()
      modifies this, cmd, pages
      ensures Valid() && old(pages.released) <= pages.released
      ensures Prefixes(early, Offered(input.early)) && Prefixes(drained, cleanup.drained)
      ensures Heards(cmd.log) == ReleaseAlls(Flatten(early + drained)) && (ok ==> drained == [])
      ensures !ok ==> fStopping && DmaOwnershipSafe()
      ensures ok ==> !fStopping && hasPages && hasCmd && hasEq && bootUarValid && fRuntimePagesStarted
      ensures ok ==> fHcaEnabled && fHcaInitialized && validEqs == ASYNC_AND_COMP_EQS
      ensures ok ==> StartOrder(issi, input.capQueries) <= Control(cmd.log)
      ensures ok ==> HostReady(input)
      ensures Unhindered(input, n) ==> ok && (input.early == [] ==> Smooth(2 * n))
    {
      hide Driver.Valid, Driver.Fresh, AllSucceed, Grants, Modest, Heards, Control, StartOrder, Flatten, ReleaseAlls, Sends, Verdict;
      ok, issi := StartCore(input, n);
      early, drained := [], [];
      NoRuns();
      if ok {
        ok, early := StartRuntime(input, issi, 2 * n);
      }
      assert early + [] == early;
      if !ok {
        ghost var log := cmd.log;
        ghost var b := Seen();
        ghost var t;
        var report;
        report, t := Cleanup(cleanup);
        drained := t.done;
        HeardInCleanup(b, log, t, report);
        FlattenConcat(early, drained);
      }
    }

    /** The event queues, then the page worker and whatever happens before start has returned. */
    method StartRuntime(input: StartInput, ghost issi: bool, ghost lent: nat) returns (ok: bool, ghost early: seq<seq<PageRequest>>)
      requires Valid() && hasPages && hasCmd && bootUarValid && fHcaInitialized && fHcaEnabled
      requires validEqs == 0 && !fStopping && !fRuntimePagesStarted && Heards(cmd.log) == []
      requires Control(cmd.log) == InitOrder(issi, input.capQueries) + [AllocUar]
      modifies this`hasEq, this`validEqs, this`fRuntimePagesStarted, this`fDmaQuarantined, this`busMaster, cmd, pages
      ensures Valid() && hasEq && old(pages.released) <= pages.released
      ensures Prefixes(early, Offered(input.early)) && Heards(cmd.log) == ReleaseAlls(Flatten(early))
      ensures fRuntimePagesStarted <==> validEqs == 4
      ensures ok <==> fRuntimePagesStarted && input.lateSteps
      ensures ok ==> StartOrder(issi, input.capQueries) <= Control(cmd.log)
      ensures ok ==> input.eqMemory >= 4
      ensures Grants(cmd.script) && cmd.up && old(AllSucceed(cmd.log)) ==> (ok <==> input.eqMemory >= 4 && input.lateSteps)
      ensures Grants(cmd.script) && cmd.up && old(Smooth(lent)) && input.early == [] ==> Smooth(lent)
    {
      hide Channel.Valid, Manager.Settled, AllSucceed, Grants, TallyOf, InitOrder, Control, Heards, AllOf, Flatten, ReleaseAlls;
      early := [];
      NoRuns();
      ghost var sent;
      ok, sent := CreateEqs(input);
      OnlyEqs(old(cmd.log), sent);
      if ok {
        fRuntimePagesStarted := true;
        ghost var created := cmd.log;
        early := RunEvents(input.early);
        ControlGrows(created, cmd.log);
        ok := input.lateSteps;
      }
    }

    /**
     * A whole life: start, any events at run time, cleanup, with every answer of firmware and
     * every failure of the host. At its end, and so at the end of any shorter life, no page was
     * unmapped while firmware might hold it, and whatever firmware may still hold is still mapped.
     * What firmware holds is Held(script, log), and the release-alls in that log are exactly those
     * of the requests served, so the driver has no other way to part firmware from a page than a
     * reply or an event that gives it up.
     */
    method Live(input: StartInput, events: seq<Event>, cleanup: CleanupInput)
      returns (ghost early: seq<seq<PageRequest>>, ghost ran: seq<seq<PageRequest>>, ghost drained: seq<seq<PageRequest>>)
      requires Valid() && Fresh()
      modifies this, cmd, pages
      ensures Valid() && DmaOwnershipSafe() && fStopping && old(pages.released) <= pages.released
      ensures cmd.held == Held(cmd.script, cmd.log) && Genuine(cmd.script, cmd.up, cmd.log)
      ensures Heards(cmd.log) == ReleaseAlls(Flatten(early + ran + drained))
      ensures Prefixes(early, Offered(input.early)) && Prefixes(ran, Offered(events)) && Prefixes(drained, cleanup.drained)
    {
      hide Manager.Settled, Heards, Held, Genuine, Control, StartOrder, Flatten, ReleaseAlls, Sends, Verdict, Driver.Fresh;
      var ok;
      ghost var issi;
      NoRuns();
      ran := [];
      ok, issi, early, drained := Start(input, cleanup, 0);
      assert early + ran == early && early + [] == early;
      if ok {
        ran := RunEvents(events);
        FlattenConcat(early, ran);
        ghost var log := cmd.log;
        ghost var b := Seen();
        ghost var t;
        var report;
        report, t := Cleanup(cleanup);
        drained := t.done;
        HeardInCleanup(b, log, t, report);
        FlattenConcat(early + ran, drained);
      }
    }

    // Teardown

    /** A command cleanup may send: skipped if the interface is not usable, or not due. */
    method ExecIfDue(op: Opcode, due: bool) returns (ok: bool, ghost sent: seq<Exchange>)
      requires Core() && !op.ManagePages?
      modifies cmd
      ensures Core() && cmd.log == old(cmd.log) + sent && AllOf(sent, op)
      ensures |sent| == (if due && hasCmd && cmd.up then 1 else 0)
      ensures ok == AllSucceed(sent)
      ensures TallyOf(cmd.log) ==
              if |sent| == 1 && ok then Count(old(TallyOf(cmd.log)), Sent(op, Success)) else old(TallyOf(cmd.log))
    {
      hide Manager.Settled, Held, Genuine;
      ok, sent := true, [];
      if due && hasCmd && cmd.up {
        var kr, answer := cmd.Exec(op);
        sent := [Sent(op, kr)];
        ok := kr.Success?;
        LogNext(old(cmd.log), Sent(op, kr));
        assert sent[0].kr == kr;
      }
    }

    /** The worker runs until its queue has drained; the last run finds nothing to do but to test
        the fault. `done` are the requests that succeeded, run by run. */
    method DrainRuntime(runs: seq<seq<PageRequest>>)
      returns (ghost sent: seq<Exchange>, ghost done: seq<seq<PageRequest>>)
      requires Valid()
      modifies this`fRuntimePagesStarted, this`fDmaQuarantined, this`busMaster, cmd, pages
      ensures Valid() && old(pages.released) <= pages.released && old(pages.asks) <= pages.asks
      ensures cmd.log == old(cmd.log) + sent && WorkerTraffic(sent) && !fRuntimePagesStarted
      ensures Heards(sent) == ReleaseAlls(Flatten(done)) && Prefixes(done, runs)
      ensures fDmaQuarantined <==> old(fDmaQuarantined) || (hasPages && old(fRuntimePagesStarted) && pages.fFatal)
      ensures old(pages.fFatal) ==> pages.fFatal
      ensures done == runs ==> pages.fFatal == old(pages.fFatal)
      ensures hasPages && old(fRuntimePagesStarted) ==> 
                done == runs || DrainHampered(pages.fFatal, pages.host, old(pages.asks), pages.asks, sent)
      ensures !(hasPages && old(fRuntimePagesStarted)) || runs == [] ==>
                sent == [] && done == [] && pages.fPages == old(pages.fPages) && pages.fFatal == old(pages.fFatal)
    {
      hide Channel.Valid, Manager.Settled, Served, Heards, ReleaseAlls, Flatten, Hampered;
      sent, done := [], [];
      NothingHeard();
      NoRuns();
      if hasPages && fRuntimePagesStarted {
        done := ServeRuns(runs);
        SentSince(old(pages.Now()), pages.Now(), ReleaseAlls(Flatten(done)));
        sent := cmd.log[|old(cmd.log)|..];
        HamperedDrain(pages.fFatal, pages.host, old(pages.Now()), pages.Now(), sent);
        if pages.fFatal {
          EnterDmaQuarantine();
        }
        fRuntimePagesStarted := false;
      }
    }

    method ServeRuns(runs: seq<seq<PageRequest>>) returns (ghost done: seq<seq<PageRequest>>)
      requires Valid() && hasPages
      modifies this`fDmaQuarantined, this`busMaster, cmd, pages
      ensures Valid() && Served(old(pages.Now()), pages.Now(), ReleaseAlls(Flatten(done)))
      ensures |done| == |runs| && Prefixes(done, runs)
      ensures old(pages.fFatal) ==> pages.fFatal
      ensures if done == runs then pages.fFatal == old(pages.fFatal) else pages.Stumbled(old(pages.Now()))
      ensures old(fDmaQuarantined) ==> fDmaQuarantined
      ensures fDmaQuarantined ==> old(fDmaQuarantined) || pages.fFatal
      ensures runs == [] ==> pages.Now() == old(pages.Now())
      ensures runs == [] ==> pages.fPages == old(pages.fPages) && pages.fFatal == old(pages.fFatal)
    {
      hide Flatten, Served, Driver.Valid, Heards, ReleaseAlls, OwnedCount, Hampered;
      NoRuns();
      done := [];
      ServedNothing(pages.Now());
      for i := 0 to |runs|
        invariant Valid() && Served(old(pages.Now()), pages.Now(), ReleaseAlls(Flatten(done)))
        invariant |done| == i && Prefixes(done, runs)
        invariant old(pages.fFatal) ==> pages.fFatal
        invariant if done == runs[..i] then pages.fFatal == old(pages.fFatal) else pages.Stumbled(old(pages.Now()))
        invariant old(fDmaQuarantined) ==> fDmaQuarantined
        invariant fDmaQuarantined ==> old(fDmaQuarantined) || pages.fFatal
        invariant i == 0 ==> pages.Now() == old(pages.Now())
        invariant i == 0 ==> pages.fPages == old(pages.fPages) && pages.fFatal == old(pages.fFatal)
      {
        ghost var mark, fatal := pages.Now(), pages.fFatal;
        ghost var run := RunWorker(runs[i]);
        ServedKept(old(pages.Now()), mark, ReleaseAlls(Flatten(done)));
        ServedKept(mark, pages.Now(), ReleaseAlls(run));
        HamperedOn(fatal, pages.fFatal, pages.host, old(pages.Now()), mark, pages.Now());
        ServedTrans(old(pages.Now()), mark, pages.Now(), ReleaseAlls(Flatten(done)), ReleaseAlls(run));
        OneRunMore(done, run);
        assert (done + [run])[..i] == done && runs[..i + 1] == runs[..i] + [runs[i]];
        done := done + [run];
      }
      assert runs[..|runs|] == runs;
    }

    method ShutdownEqs() returns (allDestroyed: bool, ghost sent: seq<Exchange>)
      requires Valid() && hasEq
      modifies this`validEqs, cmd
      ensures Valid() && cmd.log == old(cmd.log) + sent && AllOf(sent, DestroyEq)
      ensures |sent| == (if hasCmd && cmd.up then old(validEqs) else 0)
      ensures allDestroyed <==> validEqs == 0
      ensures validEqs == if hasCmd && cmd.up then Failures(sent) else old(validEqs)
      ensures allDestroyed == if hasCmd && cmd.up then AllSucceed(sent) else old(validEqs) == 0
    {
      hide Manager.Settled, Held, Genuine, TallyOf, Failures;
      NoFailures();
      sent := [];
      if hasCmd && cmd.up {
        var failed: nat := 0;
        NoneSent(DestroyEq);
        for i := 0 to validEqs
          invariant Core() && validEqs == old(validEqs) && failed <= i == |sent|
          invariant cmd.log == old(cmd.log) + sent && AllOf(sent, DestroyEq)
          invariant TallyOf(cmd.log) == old(TallyOf(cmd.log)).(eqs := validEqs - i + failed)
          invariant (failed == 0 <==> AllSucceed(sent)) && failed == Failures(sent)
        {
          var kr, answer := cmd.Exec(DestroyEq);
          ghost var before := sent;
          LogNext(old(cmd.log) + sent, Sent(DestroyEq, kr));
          sent := sent + [Sent(DestroyEq, kr)];
          OneMore(before, Sent(DestroyEq, kr));
          FailuresNext(before, Sent(DestroyEq, kr));
          if !kr.Success? {
            failed := failed + 1;
          }
        }
        validEqs := failed;
      }
      allDestroyed := validEqs == 0;
    }

    method ReclaimPages(teardownOk: bool) returns (ghost sent: seq<Exchange>, reclaim: Option<Kr>)
      requires Valid()
      modifies this`fDmaQuarantined, cmd, pages
      ensures Valid() && cmd.log == old(cmd.log) + sent && Takes(sent)
      ensures Kept(old(pages.Now()), pages.Now()) && (old(pages.fFatal) ==> pages.fFatal)
      ensures reclaim.Some? <==>
                hasPages && fHcaEnabled && hasCmd && cmd.up && !TimedOut(old(cmd.log)) && teardownOk
                && old(pages.fPages) != []
      ensures reclaim.None? ==> sent == [] && pages.fPages == old(pages.fPages)
      ensures reclaim.Some? ==> (reclaim.value.Success? <==> pages.fPages == [])
      ensures ReclaimExcused(cmd.script, pages.host, old(pages.asks), PagesNow(), !old(pages.fFatal), sent, reclaim)
      ensures reclaim == Some(Timeout) ==>
                LastOf(sent, Timeout) || WaitedOut(cmd.script, |old(cmd.log)|, cmd.log, 5000)
      ensures !ReclaimFailed(reclaim) ==> pages.fFatal == old(pages.fFatal)
      ensures fDmaQuarantined <==> old(fDmaQuarantined) || ReclaimFailed(reclaim)
    {
      hide WaitedOut, Manager.Settled, TookSince, Genuine, Held, Generous, LastEnded, LastOf, TallyOf, Takes;
      NoTakes();
      sent, reclaim := [], None;
      if hasPages && fHcaEnabled && hasCmd && cmd.up && !cmd.quarantined && teardownOk {
        var outstanding := AnyOutstanding();
        if outstanding {
          var kr, waiting := pages.ReclaimAll(5000, 0);
          TookOnly(old(pages.Now()), pages.Now());
          sent, reclaim := cmd.log[|old(cmd.log)|..], Some(kr);
          if LastEnded(old(pages.Now()), pages.Now(), Timeout) {
            LastIsLast(old(pages.Now()), pages.Now(), sent, Timeout);
          }
          if LastEnded(old(pages.Now()), pages.Now(), kr) {
            LastIsLast(old(pages.Now()), pages.Now(), sent, kr);
          }
          if !kr.Success? {
            fDmaQuarantined := true;
          }
        }
      }
    }

    /** Pages are outstanding exactly if any are tracked, because none rests in another state. */
    method AnyOutstanding() returns (outstanding: bool)
      requires Valid()
      ensures outstanding <==> hasPages && pages.fPages != []
      ensures hasPages && !outstanding ==> cmd.held == map[]
    {
      outstanding := false;
      if hasPages {
        outstanding := pages.HasOutstandingPages();
        if !outstanding {
          pages.NothingLeft();
        }
      }
    }

    /** Clears bus mastering and reads the command register back. */
    method DisableBusMasterAndVerify(readsOff: bool) returns (verified: bool)
      modifies this`busMaster
      ensures verified == (!hasPci || readsOff)
      ensures hasPci ==> busMaster == !readsOff
    {
      if !hasPci {
        return true;
      }
      busMaster := !readsOff;
      verified := !busMaster;
    }

    /** Event queues first, then TEARDOWN_HCA. */
    method StopFirmware() returns (eqDestroyed: bool, teardownOk: bool, ghost eqs: seq<Exchange>, ghost teardown: seq<Exchange>)
      requires Valid()
      modifies this`validEqs, this`fHcaInitialized, this`fDmaQuarantined, cmd
      ensures Valid() && cmd.log == old(cmd.log) + eqs + teardown
      ensures Stopped(hasEq, hasCmd && cmd.up, old(validEqs), eqs, eqDestroyed)
      ensures Once(old(fHcaInitialized) && hasCmd && cmd.up, Opcode.TeardownHca, teardown, teardownOk)
      ensures fDmaQuarantined == (old(fDmaQuarantined) || !teardownOk)
      ensures eqDestroyed ==> validEqs == 0
      ensures validEqs == if hasEq && hasCmd && cmd.up then Failures(eqs) else old(validEqs)
      ensures fHcaInitialized == (old(fHcaInitialized) && !(teardown != [] && AllSucceed(teardown)))
    {
      hide Manager.Settled, Genuine, Held, AllOf, AllSucceed, TimedOut, TallyOf, Failures;
      NoneSent(DestroyEq);
      eqDestroyed, eqs := true, [];
      if hasEq {
        eqDestroyed, eqs := ShutdownEqs();
      }
      teardownOk, teardown := ExecIfDue(Opcode.TeardownHca, fHcaInitialized);
      NothingToSend(teardown);
      if fHcaInitialized && hasCmd && cmd.up {
        if teardownOk { fHcaInitialized := false; } else { fDmaQuarantined := true; }
      }
    }

    /** Pages next, while firmware can still return them, then DISABLE_HCA. */
    method EndFirmware(teardownOk: bool)
      returns (reclaim: Option<Kr>, disableOk: bool, ghost returning: seq<Exchange>, ghost disable: seq<Exchange>)
      requires Valid()
      modifies this`fHcaEnabled, this`fDmaQuarantined, cmd, pages
      ensures Valid() && cmd.log == old(cmd.log) + returning + disable
      ensures Once(old(fHcaEnabled) && hasCmd && cmd.up, Opcode.DisableHca, disable, disableOk)
      ensures Reclaimed(hasPages && old(fHcaEnabled) && hasCmd && cmd.up && !TimedOut(old(cmd.log)) && teardownOk,
                        old(pages.fPages), pages.fPages, returning, reclaim)
      ensures ReclaimExcused(cmd.script, pages.host, old(pages.asks), PagesNow(), !old(pages.fFatal), returning, reclaim)
      ensures !ReclaimFailed(reclaim) ==> pages.fFatal == old(pages.fFatal)
      ensures fHcaEnabled == (old(fHcaEnabled) && !(disable != [] && AllSucceed(disable)))
      ensures fDmaQuarantined == (old(fDmaQuarantined) || ReclaimFailed(reclaim) || !disableOk)
      ensures Kept(old(pages.Now()), pages.Now()) && (old(pages.fFatal) ==> pages.fFatal)
    {
      hide Manager.Settled, Genuine, Held, AllOf, AllSucceed, TimedOut, ReclaimExcused, Generous, Takes, TallyOf;
      returning, reclaim := ReclaimPages(teardownOk);
      disableOk, disable := ExecIfDue(Opcode.DisableHca, fHcaEnabled);
      NothingToSend(disable);
      if fHcaEnabled && hasCmd && cmd.up {
        if disableOk { fHcaEnabled := false; } else { fDmaQuarantined := true; }
      }
    }

    /** The steps of a teardown, without the gate. */
    method Unwind(input: CleanupInput) returns (w: Unwound, ghost t: Trace)
      requires Valid()
      modifies this`fRuntimePagesStarted, this`fDmaQuarantined, this`busMaster, this`validEqs,
               this`fHcaInitialized, this`fHcaEnabled, cmd, pages
      ensures Valid() && t.freeUar == [] && cmd.log == TillGate(old(cmd.log), t) && Prefixes(t.done, input.drained)
      ensures Followed(old(Seen()), old(cmd.log), t, w, pages.fPages)
      ensures HcaLeft(old(Seen()), t, fHcaInitialized, fHcaEnabled) && !fRuntimePagesStarted
      ensures validEqs == if hasEq && hasCmd && cmd.up then Failures(t.eqs) else old(validEqs)
      ensures w.fatal == pages.fFatal && (w.eqDestroyed ==> validEqs == 0)
      ensures fDmaQuarantined == (old(fDmaQuarantined) || w.Alarms(old(hasPages && fRuntimePagesStarted)))
      ensures old(pages.released) <= pages.released
      ensures Explained(input, old(hasPages && fRuntimePagesStarted), cmd.script, pages.host, old(PagesNow()), PagesNow(),
                        t.done, t.drain, t.reclaim, w.reclaim)
    {
      hide Manager.Settled, Genuine, Held, AllOf, AllSucceed, TimedOut, LastOf, Manager.Starved, Stopped, Once, Generous;
      hide Heards, ReleaseAlls, Flatten, WorkerTraffic, TallyOf, Takes, Prefixes, DrainHampered, Failures, Followed, Reclaimed, Drained, Explained, ReclaimExcused;
      ghost var start, p0, script := pages.Now(), PagesNow(), cmd.script;
      ghost var drain, done, eqs, teardown, returning, disable;
      var eqDestroyed, teardownOk, reclaim, disableOk;
      ghost var b, log := Seen(), cmd.log;
      drain, done := DrainRuntime(input.drained);
      ghost var p1 := PagesNow();
      eqDestroyed, teardownOk, eqs, teardown := StopFirmware();
      ghost var mark := pages.Now();
      reclaim, disableOk, returning, disable := EndFirmware(teardownOk);
      w := Unwound(pages.fFatal, eqDestroyed, teardownOk, reclaim, disableOk);
      t := Trace(done, drain, eqs, teardown, returning, disable, []);
      IsDrained(b, t);
      HasFollowed(b, log, t, w, p1.pages, pages.fPages);
      IsExplained(input, b.hasPages && b.runtime, script, pages.host, p0, p1, PagesNow(), done, drain, returning, reclaim,
                  b.hasPages && b.hcaEnabled && Usable(b) && !TimedOut(mark.sent) && teardownOk);
    }

    /** The last two readings before the decision. */
    method ReadGate(readsOff: bool) returns (outstanding: bool, verified: bool)
      requires Valid()
      modifies this`busMaster
      ensures Valid() && outstanding == (hasPages && pages.fPages != [])
      ensures hasPages && !outstanding ==> cmd.held == map[]
      ensures verified == (!hasPci || readsOff) && (hasPci ==> busMaster == !readsOff)
    {
      hide Manager.Settled, Channel.Valid;
      if fDmaQuarantined && hasPci {
        busMaster := false;
      }
      outstanding := AnyOutstanding();
      verified := DisableBusMasterAndVerify(readsOff);
    }

    /** In a calm teardown with generous firmware the gate opens. */
    lemma CalmCloses(input: CleanupInput, b: View, log: seq<Exchange>, t: Trace, r: Report, before: PagesSeen)
      requires Prepares(b, log, t, r) && Verdict(b, log, t, r) && cmd.log == TillGate(log, t) && cmd.Valid()
      requires Grants(cmd.script) && Generous(cmd.script) && (forall n :: pages.host(n).Granted?)
      requires b.hasCmd && b.up && cmd.up && !TimedOut(log) && !b.dmaQuarantined && r.busMasterOff
      requires (b.hasPages ==> b.hcaEnabled) && r.fatal == pages.fFatal && !before.fatal
      requires Calm(input, b.hasPages && b.runtime, false, t.done)
      requires Explained(input, b.hasPages && b.runtime, cmd.script, pages.host, before, PagesNow(),
                         t.done, t.drain, t.reclaim, r.reclaim)
      ensures Releases(r)
    {
      hide Grants, Generous, TimedOut, Prepares, Calm, Held;
      assert !ReclaimFailed(r.reclaim);
      OpenGate(b, cmd.script, log, t, r);
    }

    /** What it takes for cleanup to give everything back: nothing has gone wrong so far, firmware
        grants what it is asked for and gives back at least one page whenever it is asked for
        some, the host does not lack memory, and bus mastering can be turned off. */
    ghost predicate Closable(input: CleanupInput)
      reads this`hasPci, this`hasCmd, this`hasPages, this`fHcaEnabled, this`fDmaQuarantined, cmd`log, pages`fFatal
    {
      && Grants(cmd.script) && Generous(cmd.script) && (forall n :: pages.host(n).Granted?)
      && hasCmd && cmd.up && !TimedOut(cmd.log) && !fDmaQuarantined && !pages.fFatal
      && (hasPages ==> fHcaEnabled) && (hasPci ==> input.readsOff)
    }

    /** Everything cleanup does before it decides, command by command. */
    method Shutdown(input: CleanupInput) returns (report: Report, ghost t: Trace)
      requires Valid()
      modifies this`fRuntimePagesStarted, this`fDmaQuarantined, this`busMaster, this`validEqs,
               this`fHcaInitialized, this`fHcaEnabled, cmd, pages
      ensures Valid() && t.freeUar == [] && cmd.log == TillGate(old(cmd.log), t) && Prefixes(t.done, input.drained)
      ensures Prepares(old(Seen()), old(cmd.log), t, report) && Verdict(old(Seen()), old(cmd.log), t, report)
      ensures report.busMasterOff == (!hasPci || input.readsOff) && (hasPci ==> busMaster == !input.readsOff)
      ensures report.outstanding == (hasPages && pages.fPages != []) && report.fatal == pages.fFatal
      ensures hasPages && !report.outstanding ==> cmd.held == map[]
      ensures report.eqDestroyed ==> validEqs == 0
      ensures HcaLeft(old(Seen()), t, fHcaInitialized, fHcaEnabled) && !fRuntimePagesStarted
      ensures validEqs == if hasEq && hasCmd && cmd.up then Failures(t.eqs) else old(validEqs)
      ensures fDmaQuarantined == report.dmaQuarantined && (hasCmd && cmd.quarantined <==> report.cmdQuarantined)
      ensures old(Closable(input)) && Calm(input, old(hasPages && fRuntimePagesStarted), false, t.done) ==> Releases(report)
      ensures old(pages.released) <= pages.released
      ensures Explained(input, old(hasPages && fRuntimePagesStarted), cmd.script, pages.host, old(PagesNow()), PagesNow(),
                        t.done, t.drain, t.reclaim, report.reclaim)
    {
      hide Manager.Settled, Genuine, Held, TimedOut, LastOf, Manager.Starved, Generous, Grants;
      hide HcaLeft, Failures, Prepares, Verdict, Explained, Followed, Calm, Prefixes, TallyOf, Unwound.Alarms, Releases;
      ghost var b, log := Seen(), cmd.log;
      var w;
      w, t := Unwind(input);
      var outstanding, verified := ReadGate(input.readsOff);
      report := Report(w.eqDestroyed, w.teardownOk, w.fatal, w.reclaim, fDmaQuarantined,
                       hasCmd && cmd.quarantined, outstanding, verified);
      Assemble(b, log, t, report, w, pages.fPages);
      if old(Closable(input)) && Calm(input, b.hasPages && b.runtime, false, t.done) {
        CalmCloses(input, b, log, t, report, old(PagesNow()));
      }
    }

    /** The gate: a report that does not call for the release leaves everything as it is. */
    method PassGate(report: Report) returns (ghost freeUar: seq<Exchange>)
      requires Valid() && (hasCmd && cmd.quarantined <==> report.cmdQuarantined)
      requires report.outstanding == (hasPages && pages.fPages != []) && (report.eqDestroyed ==> validEqs == 0)
      requires hasPages && !report.outstanding ==> cmd.held == map[]
      modifies this`hasPages, this`fRuntimePagesStarted, this`hasEq, this`validEqs
      modifies this`bootUarValid, this`hasCmd, this`hasPci, this`stuckFreed, cmd
      modifies pages`fPages, pages`fTrackedPages, pages`released
      ensures cmd.held == old(cmd.held) && (old(hasPages) && Releases(report) ==> cmd.held == map[])
      ensures Valid() && pages.fPages == old(pages.fPages) && old(pages.released) <= pages.released
      ensures cmd.log == old(cmd.log) + freeUar && AllOf(freeUar, FreeUar)
      ensures |freeUar| == (if Releases(report) && old(bootUarValid) && old(hasCmd) then 1 else 0)
      ensures stuckFreed <==>
                old(stuckFreed) || (Releases(report) && old(hasCmd) && old(bootUarValid)
                                    && FreeUarTimesOut(cmd.script, cmd.up, old(cmd.log)))
      ensures !Releases(report) ==>
                && Seen() == old(Seen()) && pages.released == old(pages.released)
      ensures Releases(report) ==>
                !hasPages && !hasCmd && !hasEq && !bootUarValid && !hasPci && validEqs == 0 && !fRuntimePagesStarted
    {
      hide Genuine, Held, AllOf, TimedOut, FreeUarTimesOut, Manager.Settled, TallyOf;
      freeUar := [];
      NoneSent(FreeUar);
      if !report.busMasterOff || !Graceful(report) {
        return;
      }
      freeUar := ReleaseResources();
    }

    /** The releases behind the gate. Freeing the UAR issues one more firmware command, and what
        it answers does not keep the command interface from being freed. */
    method ReleaseResources() returns (ghost sent: seq<Exchange>)
      requires Valid() && (hasCmd ==> !cmd.quarantined) && validEqs == 0
      requires hasPages ==> pages.fPages == [] && cmd.held == map[]
      modifies this`hasPages, this`fRuntimePagesStarted, this`hasEq, this`validEqs
      modifies this`bootUarValid, this`hasCmd, this`hasPci, this`stuckFreed, cmd
      modifies pages`fPages, pages`fTrackedPages, pages`released
      ensures !hasEq && !bootUarValid && !hasPci && validEqs == 0 && !fRuntimePagesStarted
      ensures Valid() && !hasPages && !hasCmd && pages.fPages == old(pages.fPages)
      ensures cmd.held == old(cmd.held)
      ensures cmd.log == old(cmd.log) + sent && AllOf(sent, FreeUar)
      ensures |sent| == (if old(bootUarValid) && old(hasCmd) then 1 else 0)
      ensures stuckFreed <==>
                old(stuckFreed) || (old(hasCmd) && old(bootUarValid) && FreeUarTimesOut(cmd.script, cmd.up, old(cmd.log)))
      ensures old(pages.released) <= pages.released
    {
      hide Genuine, Held, AllOf, TimedOut, FreeUarTimesOut, Manager.Settled, TallyOf;
      ReleasePages();
      hasEq, validEqs := false, 0;
      sent := ReleaseCommands();
      hasPci := false;
    }

    method ReleasePages()
      requires Valid() && (hasPages ==> pages.fPages == [] && cmd.held == map[])
      modifies this`hasPages, this`fRuntimePagesStarted, pages`fPages, pages`fTrackedPages, pages`released
      ensures Valid() && !hasPages && !fRuntimePagesStarted && pages.fPages == old(pages.fPages)
      ensures old(pages.released) <= pages.released
    {
      hide Channel.Valid;
      if hasPages {
        pages.ReleaseAfterDmaBoundary();
        hasPages := false;
      }
      fRuntimePagesStarted := false;
    }

    /** The UAR page, then the command interface with whatever it still holds. */
    method ReleaseCommands() returns (ghost sent: seq<Exchange>)
      requires Valid() && !hasPages && (hasCmd ==> !cmd.quarantined)
      modifies this`bootUarValid, this`hasCmd, this`stuckFreed, cmd
      ensures !bootUarValid && cmd.held == old(cmd.held)
      ensures Valid() && !hasCmd && cmd.log == old(cmd.log) + sent && AllOf(sent, FreeUar)
      ensures |sent| == (if old(bootUarValid) && old(hasCmd) then 1 else 0)
      ensures stuckFreed <==>
                old(stuckFreed) || (old(hasCmd) && old(bootUarValid) && FreeUarTimesOut(cmd.script, cmd.up, old(cmd.log)))
    {
      hide Genuine, Held, AllOf, Manager.Settled, TallyOf;
      sent := [];
      NoneSent(FreeUar);
      if bootUarValid && hasCmd {
        var kr, answer := cmd.Exec(FreeUar);
        sent := [Sent(FreeUar, kr)];
        OneSent(FreeUar, kr);
        TimedOutNext(old(cmd.log), Sent(FreeUar, kr));
        LogNext(old(cmd.log), Sent(FreeUar, kr));
      }
      bootUarValid := false;
      if hasCmd {
        stuckFreed := stuckFreed || cmd.quarantined;
        hasCmd := false;
      }
    }

    /** Everything a first cleanup does. */
    method CleanupOnce(input: CleanupInput) returns (report: Report, ghost t: Trace)
      requires Valid()
      modifies this`fRuntimePagesStarted, this`fDmaQuarantined, this`busMaster, this`validEqs, this`fHcaInitialized,
               this`fHcaEnabled, this`hasPages, this`hasEq, this`bootUarValid, this`hasCmd, this`hasPci, this`stuckFreed,
               cmd, pages
      ensures Valid() && old(pages.released) <= pages.released
      ensures CleanedUp(input, old(Seen()), Seen(), cmd.script, old(cmd.log), cmd.log, t, report, old(stuckFreed), stuckFreed)
      ensures report.outstanding == (old(hasPages) && pages.fPages != []) && report.fatal == pages.fFatal
      ensures old(hasPages) && Releases(report) ==> cmd.held == map[]
      ensures old(hasPci) ==> busMaster == !input.readsOff
      ensures old(Closable(input)) && Calm(input, old(hasPages && fRuntimePagesStarted), false, t.done) ==> Releases(report)
      ensures Explained(input, old(hasPages && fRuntimePagesStarted), cmd.script, pages.host, old(PagesNow()), PagesNow(),
                        t.done, t.drain, t.reclaim, report.reclaim)
    {
      hide Releases, Graceful, Sends, Driver.Core, Driver.Recorded, Prepares, Verdict, Explained, TimedOut, Genuine, Held, FreeUarTimesOut, AllOf, AllSucceed, Prefixes, TallyOf, Failures, HcaLeft;
      hide Calm, Driver.Closable, Manager.Settled, CleanedUp, TillGate;
      ghost var b, log, stuck := Seen(), cmd.log, stuckFreed;
      report, t := Shutdown(input);
      ghost var gate := Seen();
      ghost var freeUar := PassGate(report);
      Wrapped(input, b, gate, Seen(), cmd.script, log, cmd.log, t, freeUar, report, stuck, stuckFreed);
      t := t.(freeUar := freeUar);
    }

    /**
     * cleanup. Which commands it sends, what it makes of the answers, and what it releases are all
     * determined by the state it starts from and the answers: see Sends, Verdict and
     * ReleaseCondition. What firmware may still access stays mapped. It frees the buffers of a
     * command that firmware never answered exactly if it releases and firmware does not answer
     * the FREE_UAR it then sends. Whatever pages are lent, it gets them back and releases if
     * everyone plays along (Closable) and the drain meets no failing request. A second call does
     * nothing.
     */
    method Cleanup(input: CleanupInput) returns (report: Report, ghost t: Trace)
      requires Valid()
      modifies this, cmd, pages
      ensures Valid() && DmaOwnershipSafe() && fStopping && old(pages.released) <= pages.released
      ensures old(fStopping) ==>
                && Seen() == old(Seen()) && cmd.log == old(cmd.log) && stuckFreed == old(stuckFreed)
                && pages.fPages == old(pages.fPages) && pages.released == old(pages.released)
      ensures !old(fStopping) ==>
                && cmd.log == TillGate(old(cmd.log), t) + t.freeUar && Prefixes(t.done, input.drained)
                && Sends(old(Seen()), old(cmd.log), t, report) && Verdict(old(Seen()), old(cmd.log), t, report)
      ensures !old(fStopping) ==>
                && report.busMasterOff == (!old(hasPci) || input.readsOff)
                && report.outstanding == (old(hasPages) && pages.fPages != [])
                && report.fatal == pages.fFatal
                && Explained(input, old(hasPages && fRuntimePagesStarted), cmd.script, pages.host,
                             old(PagesNow()), PagesNow(),
                        t.done, t.drain, t.reclaim, report.reclaim)
      ensures !old(fStopping) ==>
                && hasPages == (old(hasPages) && !Releases(report))
                && hasCmd == (old(hasCmd) && !Releases(report))
                && (old(hasPages) && Releases(report) ==> cmd.held == map[])
      ensures !old(fStopping) && !Releases(report) ==>
                && hasEq == old(hasEq) && bootUarValid == old(bootUarValid) && hasPci == old(hasPci)
                && validEqs == if old(hasEq && hasCmd) && cmd.up then Failures(t.eqs) else old(validEqs)
      ensures !old(fStopping) && Releases(report) ==>
                !hasEq && !bootUarValid && !hasPci && validEqs == 0
      ensures !old(fStopping) ==>
                && HcaLeft(old(Seen()), t, fHcaInitialized, fHcaEnabled) && !fRuntimePagesStarted
                && fDmaQuarantined == report.dmaQuarantined
                && (old(hasPci) ==> busMaster == !input.readsOff)
      ensures !old(fStopping) ==>
                (stuckFreed <==> old(stuckFreed) || FreesStuckCommand(old(Seen()), cmd.script, old(cmd.log), t, report))
      ensures !old(fStopping) && old(Closable(input)) && Calm(input, old(hasPages && fRuntimePagesStarted), false, t.done) ==>
                Releases(report)
    {
      hide Sends, Verdict, Explained, TimedOut, FreesStuckCommand, Prefixes, HcaLeft, Failures, Releases, AllSucceed, TillGate;
      hide Calm, Driver.Closable, Driver.Core, Driver.Recorded, Driver.DmaOwnershipSafe;
      SafeWhenValid();
      if fStopping {
        report := Report(false, false, false, None, fDmaQuarantined, false, false, false);
        t := Trace([], [], [], [], [], [], []);
        return;
      }
      fStopping := true;
      report, t := CleanupOnce(input);
      SafeWhenValid();
    }
  }

  /** What a cleanup makes of the driver: the commands it sends, what it reports of them, and, by
      that report, whether everything is given up or nothing. */
  ghost predicate CleanedUp(input: CleanupInput, b: View, now: View, script: Script, log: seq<Exchange>, logNow: seq<Exchange>,
                            t: Trace, r: Report, stuck: bool, stuckNow: bool) {
    && logNow == TillGate(log, t) + t.freeUar && Prefixes(t.done, input.drained)
    && Sends(b, log, t, r) && Verdict(b, log, t, r)
    && r.busMasterOff == (!b.hasPci || input.readsOff)
    && now.hasPages == (b.hasPages && !Releases(r)) && now.hasCmd == (b.hasCmd && !Releases(r))
    && (!Releases(r) ==> now.hasEq == b.hasEq && now.bootUar == b.bootUar && now.hasPci == b.hasPci)
    && (!Releases(r) ==> now.validEqs == if b.hasEq && b.hasCmd && b.up then Failures(t.eqs) else b.validEqs)
    && (Releases(r) ==> !now.hasEq && !now.bootUar && !now.hasPci && now.validEqs == 0)
    && HcaLeft(b, t, now.hcaInitialized, now.hcaEnabled) && !now.runtime && now.dmaQuarantined == r.dmaQuarantined
    && (stuckNow <==> stuck || FreesStuckCommand(b, script, log, t, r))
  }

  lemma Wrapped(input: CleanupInput, b: View, gate: View, now: View, script: Script, log: seq<Exchange>, logNow: seq<Exchange>,
                t: Trace, freeUar: seq<Exchange>, r: Report, stuck: bool, stuckNow: bool)
    requires logNow == TillGate(log, t) + freeUar && Prefixes(t.done, input.drained)
    requires Prepares(b, log, t, r) && Verdict(b, log, t, r) && AllOf(freeUar, FreeUar)
    requires |freeUar| == (if Releases(r) && b.bootUar && b.hasCmd then 1 else 0)
    requires r.busMasterOff == (!b.hasPci || input.readsOff)
    requires HcaLeft(b, t, gate.hcaInitialized, gate.hcaEnabled)
    requires gate.validEqs == if b.hasEq && b.hasCmd && b.up then Failures(t.eqs) else b.validEqs
    requires gate == b.(runtime := false, validEqs := gate.validEqs, hcaInitialized := gate.hcaInitialized,
                        hcaEnabled := gate.hcaEnabled, dmaQuarantined := r.dmaQuarantined)
    requires if Releases(r)
             then now == gate.(hasPages := false, hasCmd := false, hasEq := false, bootUar := false, hasPci := false, validEqs := 0)
             else now == gate
    requires stuckNow <==> stuck || (Releases(r) && b.hasCmd && b.bootUar && FreeUarTimesOut(script, b.up, TillGate(log, t)))
    ensures CleanedUp(input, b, now, script, log, logNow, t.(freeUar := freeUar), r, stuck, stuckNow)
  {
    hide Prepares, Verdict, Failures, HcaLeft, Prefixes, FreeUarTimesOut, AllOf, Releases;
    WithFreeUar(b, log, t, r, freeUar);
    HcaLeftStill(b, t, gate.hcaInitialized, gate.hcaEnabled, freeUar);
  }

  /** The one way in which cleanup frees buffers of a command that firmware never answered. */
  ghost predicate FreesStuckCommand(b: View, script: Script, log: seq<Exchange>, t: Trace, r: Report) {
    Releases(r) && b.hasCmd && b.bootUar && FreeUarTimesOut(script, b.up, TillGate(log, t))
  }

  lemma HcaLeftStill(b: View, t: Trace, initialized: bool, enabled: bool, freeUar: seq<Exchange>)
    requires HcaLeft(b, t, initialized, enabled)
    ensures HcaLeft(b, t.(freeUar := freeUar), initialized, enabled)
  {
  }

  lemma WithFreeUar(b: View, log: seq<Exchange>, t: Trace, r: Report, freeUar: seq<Exchange>)
    requires Prepares(b, log, t, r) && Verdict(b, log, t, r)
    ensures Prepares(b, log, t.(freeUar := freeUar), r) && Verdict(b, log, t.(freeUar := freeUar), r)
  {
    hide AllOf, AllSucceed, TimedOut;
  }

  /** Firmware will not answer a FREE_UAR sent next. */
  ghost predicate FreeUarTimesOut(script: Script, up: bool, log: seq<Exchange>) {
    up && script(log, FreeUar).kr.Timeout?
  }

  /** The event queues were destroyed, command by command. */
  ghost predicate Stopped(hasEq: bool, usable: bool, validEqs: nat, eqs: seq<Exchange>, eqDestroyed: bool) {
    && AllOf(eqs, DestroyEq) && |eqs| == (if hasEq && usable then validEqs else 0)
    && eqDestroyed == (hasEq ==> if usable then AllSucceed(eqs) else validEqs == 0)
  }

  /** A command was sent if it was due, and ok says how it went. */
  ghost predicate Once(due: bool, op: Opcode, sent: seq<Exchange>, ok: bool) {
    AllOf(sent, op) && |sent| == (if due then 1 else 0) && ok == AllSucceed(sent)
  }

  /** The pages were reclaimed, if that was possible and there were any. */
  ghost predicate Reclaimed(possible: bool, before: seq<FwPage>, after: seq<FwPage>, sent: seq<Exchange>, reclaim: Option<Kr>) {
    && Takes(sent)
    && (reclaim.Some? <==> possible && before != [])
    && (reclaim.None? ==> sent == [] && after == before)
    && (reclaim.Some? ==> (reclaim.value.Success? <==> after == []))
  }

  /** How the steps of a teardown went. */
  datatype Unwound = Unwound(fatal: bool, eqDestroyed: bool, teardownOk: bool, reclaim: Option<Kr>, disableOk: bool) {
    /** Something that calls for a DMA quarantine. */
    predicate Alarms(runtime: bool) {
      (runtime && fatal) || !teardownOk || ReclaimFailed(reclaim) || !disableOk
    }
  }

  ghost predicate Followed(b: View, log: seq<Exchange>, t: Trace, w: Unwound, left: seq<FwPage>) {
    && Drained(b, t)
    && Stopped(b.hasEq, Usable(b), b.validEqs, t.eqs, w.eqDestroyed)
    && Once(b.hcaInitialized && Usable(b), Opcode.TeardownHca, t.teardown, w.teardownOk)
    && Once(b.hcaEnabled && Usable(b), Opcode.DisableHca, t.disable, w.disableOk)
    && Recovered(b.hasPages && b.hcaEnabled && Usable(b) && !TimedOut(TillTeardown(log, t)) && w.teardownOk,
                 left, t.reclaim, w.reclaim)
  }

  /** From before a teardown (p0) over the end of its drain (p1) to its gate (p2). */
  lemma IsExplained(input: CleanupInput, runtime: bool, script: Script, host: nat -> Grant,
                    p0: PagesSeen, p1: PagesSeen, p2: PagesSeen,
                    done: seq<seq<PageRequest>>, drain: seq<Exchange>, sent: seq<Exchange>, reclaim: Option<Kr>, possible: bool)
    requires Reclaimed(possible, p1.pages, p2.pages, sent, reclaim)
    requires (p0.fatal ==> p1.fatal) && (p1.fatal ==> p2.fatal) && (!ReclaimFailed(reclaim) ==> p2.fatal == p1.fatal)
    requires !runtime || done == input.drained ==> p1.fatal == p0.fatal
    requires input.drained == [] ==> p1.pages == p0.pages
    requires p0.asks <= p1.asks <= p2.asks
    requires runtime ==> done == input.drained || DrainHampered(p1.fatal, host, p0.asks, p1.asks, drain)
    requires ReclaimExcused(script, host, p1.asks, p2, !p1.fatal, sent, reclaim)
    ensures Explained(input, runtime, script, host, p0, p2, done, drain, sent, reclaim)
  {
    hide Takes;
  }

  lemma IsDrained(b: View, t: Trace)
    requires WorkerTraffic(t.drain) && Heards(t.drain) == ReleaseAlls(Flatten(t.done))
    requires (b.hasPages && b.runtime) || (t.drain == [] && t.done == [])
    ensures Drained(b, t)
  {
  }

  lemma HasFollowed(b: View, log: seq<Exchange>, t: Trace, w: Unwound, drained: seq<FwPage>, left: seq<FwPage>)
    requires Drained(b, t)
    requires Stopped(b.hasEq, Usable(b), b.validEqs, t.eqs, w.eqDestroyed)
    requires Once(b.hcaInitialized && Usable(b), Opcode.TeardownHca, t.teardown, w.teardownOk)
    requires Once(b.hcaEnabled && Usable(b), Opcode.DisableHca, t.disable, w.disableOk)
    requires Reclaimed(b.hasPages && b.hcaEnabled && Usable(b) && !TimedOut(TillTeardown(log, t)) && w.teardownOk,
                       drained, left, t.reclaim, w.reclaim)
    ensures Followed(b, log, t, w, left)
  {
    hide Drained, Stopped, Once, TimedOut, Takes;
  }

  /** The pages were reclaimed, if that was possible and there were any, as seen from the end. */
  ghost predicate Recovered(possible: bool, left: seq<FwPage>, sent: seq<Exchange>, reclaim: Option<Kr>) {
    && Takes(sent)
    && (reclaim.Some? ==> possible && (reclaim.value.Success? <==> left == []))
    && (reclaim.None? ==> sent == [] && !(possible && left != []))
  }

  /** No fault so far, and the drain, if there is one, met no failing request. */
  ghost predicate Calm(input: CleanupInput, runtime: bool, fatal: bool, done: seq<seq<PageRequest>>) {
    !fatal && (runtime ==> done == input.drained)
  }

  /** A reclaim that left pages behind has raised the fault, was refused memory, or was refused by
      firmware; it gives up waiting only after five seconds, in steps of 50 ms, without a page; and
      with firmware that gives back at least one page each time, and no fault before, only memory
      can have been the cause. */
  ghost predicate ReclaimExcused(script: Script, host: nat -> Grant, from: nat, p: PagesSeen, calm: bool,
                                 sent: seq<Exchange>, reclaim: Option<Kr>)
  {
    ReclaimFailed(reclaim) ==>
      && (p.fatal || HostRefused(host, from, p.asks) || LastOf(sent, reclaim.value))
      && (reclaim.value.Timeout? ==> LastOf(sent, Timeout) || 50 * (|sent| - 1) >= 5000)
      && (Generous(script) && calm ==> HostRefused(host, from, p.asks))
  }

  ghost predicate HostRefused(host: nat -> Grant, from: nat, to: nat) {
    exists n :: from <= n < to && !host(n).Granted?
  }

  /** What became of the pages, and why. The fault stays raised once it is; only a failing request
      of the drain, or a failing reclaim, raises it; requests and pages are left for a reason; and
      where no page is lent and none is asked for, there is none at the end. */
  ghost predicate Explained(input: CleanupInput, runtime: bool, script: Script, host: nat -> Grant,
                            p0: PagesSeen, p: PagesSeen, done: seq<seq<PageRequest>>, drain: seq<Exchange>,
                            sent: seq<Exchange>, reclaim: Option<Kr>)
  {
    && (p0.fatal ==> p.fatal)
    && (Calm(input, runtime, p0.fatal, done) && !ReclaimFailed(reclaim) ==> !p.fatal)
    && (input.drained == [] && p0.pages == [] ==> p.pages == [])
    && (runtime ==> done == input.drained || DrainHampered(p.fatal, host, p0.asks, p.asks, drain))
    && ReclaimExcused(script, host, p0.asks, p, Calm(input, runtime, p0.fatal, done), sent, reclaim)
  }

  lemma Assemble(b: View, log: seq<Exchange>, t: Trace, r: Report, w: Unwound, left: seq<FwPage>)
    requires Followed(b, log, t, w, left)
    requires r.eqDestroyed == w.eqDestroyed && r.teardownOk == w.teardownOk && r.fatal == w.fatal
    requires r.reclaim == w.reclaim && r.dmaQuarantined == (b.dmaQuarantined || w.Alarms(b.hasPages && b.runtime))
    requires r.outstanding == (b.hasPages && left != [])
    requires r.cmdQuarantined == (b.hasCmd && TimedOut(TillGate(log, t)))
    ensures Prepares(b, log, t, r) && Verdict(b, log, t, r)
  {
    hide AllOf, AllSucceed, TimedOut, Drained, Takes;
  }

  /** Firmware that never asks for more than n pages at a time. */
  ghost predicate Modest(script: Script, n: nat) {
    forall log :: 0 <= Signed(script(log, QueryPages).count) <= n
  }

  /** Firmware that grants everything but perhaps a FREE_UAR. */
  ghost predicate Grants(script: Script) {
    forall log, op: Opcode :: !op.FreeUar? ==> script(log, op).kr.Success?
  }

  /** With firmware that grants everything and a host that refuses nothing, page commands pass. */
  lemma Provisioned(script: Script, host: nat -> Grant, a: Mark, b: Mark)
    requires Grants(script) && (forall k :: host(k).Granted?)
    requires AllSucceed(a.sent) && Later(a, b) && Genuine(script, true, b.sent)
    ensures Granting(host, a, b) && AllSucceed(b.sent)
  {
    hide Grants, Genuine;
    SuccessIsNoTimeout(a.sent);
    forall i | |a.sent| <= i < |b.sent| ensures b.sent[i].Sent? && !b.sent[i].op.FreeUar? {
      assert b.sent[i] == b.sent[|a.sent|..][i - |a.sent|];
    }
    GrantedSucceed(script, a.sent, b.sent);
    assert forall i :: 0 <= i < |a.sent| ==> b.sent[i] == a.sent[i];
  }

  /** What start sends first, if it succeeds. */
  ghost function StartOrder(issi: bool, queries: nat): seq<Opcode> {
    InitOrder(issi, queries) + [AllocUar] + seq(ASYNC_AND_COMP_EQS, i => CreateEq)
  }

  lemma {:induction false} ControlConcat(a: seq<Exchange>, b: seq<Exchange>)
    ensures Control(a + b) == Control(a) + Control(b)
  {
    if b == [] {
      assert a + b == a;
    } else {
      hide Control, TallyOf, Heards;
      var n := |b| - 1;
      ControlConcat(a, b[..n]);
      LogNext(a + b[..n], b[n]);
      LogNext(b[..n], b[n]);
      assert b == b[..n] + [b[n]];
      assert a + b == (a + b[..n]) + [b[n]];
    }
  }

  lemma ControlGrows(a: seq<Exchange>, b: seq<Exchange>)
    requires a <= b
    ensures Control(a) <= Control(b)
  {
    ControlConcat(a, b[|a|..]);
    assert a + b[|a|..] == b;
  }

  /** One exchange more, for each of the readings of a log. */
  lemma LogNext(log: seq<Exchange>, e: Exchange)
    ensures TallyOf(log + [e]) == Count(TallyOf(log), e)
    ensures Control(log + [e]) == Control(log) + if e.Sent? && !e.op.ManagePages? then [e.op] else []
    ensures Heards(log + [e]) == Heards(log) + if e.Heard? then [e.owner] else []
  {
    assert (log + [e])[..|log|] == log;
  }

  /** Page traffic counts for nothing but its release-alls. */
  lemma {:induction false} TallyTraffic(log: seq<Exchange>, more: seq<Exchange>)
    requires WorkerTraffic(more)
    ensures TallyOf(log + more) == TallyOf(log) && Control(log + more) == Control(log)
  {
    hide TallyOf, Control, Heards;
    if more == [] {
      assert log + more == log;
    } else {
      var n := |more| - 1;
      TallyTraffic(log, more[..n]);
      LogNext(log + more[..n], more[n]);
      assert log + more == log + more[..n] + [more[n]];
    }
  }

  lemma TallyServed(a: Mark, b: Mark, heard: seq<Function>)
    requires Served(a, b, heard)
    ensures TallyOf(b.sent) == TallyOf(a.sent)
  {
    TallyTraffic(a.sent, b.sent[|a.sent|..]);
    assert a.sent + b.sent[|a.sent|..] == b.sent;
  }

  lemma HeardServed(a: Mark, b: Mark, heard: seq<Function>)
    requires Served(a, b, heard)
    ensures Kept(a, b) && Heards(b.sent) == Heards(a.sent) + heard
  {
    HeardsConcat(a.sent, b.sent[|a.sent|..]);
    assert a.sent + b.sent[|a.sent|..] == b.sent;
  }

  lemma LogLater(a: Mark, b: Mark)
    requires Later(a, b)
    ensures a.released <= b.released
    ensures TallyOf(b.sent) == TallyOf(a.sent) && Control(b.sent) == Control(a.sent) && Heards(b.sent) == Heards(a.sent)
  {
    LaterIsServed(a, b);
    TallyTraffic(a.sent, b.sent[|a.sent|..]);
    HeardsConcat(a.sent, b.sent[|a.sent|..]);
    assert a.sent + b.sent[|a.sent|..] == b.sent;
  }

  lemma TookOnly(a: Mark, b: Mark)
    requires TookSince(a, b)
    ensures b.sent == a.sent + b.sent[|a.sent|..] && Takes(b.sent[|a.sent|..])
    ensures Kept(a, b) && TallyOf(b.sent) == TallyOf(a.sent)
  {
    hide TallyOf, Heards;
    TookIsLater(a, b);
    LogLater(a, b);
  }

  lemma LastIsLast(a: Mark, b: Mark, sent: seq<Exchange>, kr: Kr)
    requires b.sent == a.sent + sent && LastEnded(a, b, kr)
    ensures LastOf(sent, kr)
  {
    assert sent[|sent| - 1] == b.sent[|b.sent| - 1];
  }

  lemma NoTakes()
    ensures Takes([])
  {
  }

  /** The fault is raised, the host refused, a command failed, or the driver had no pages to give. */
  ghost predicate DrainHampered(fatal: bool, host: nat -> Grant, from: nat, to: nat, sent: seq<Exchange>) {
    || fatal
    || (exists n :: from <= n < to && !host(n).Granted?)
    || (exists i :: 0 <= i < |sent| && Setback(sent[i]))
  }

  lemma HamperedDrain(fatal: bool, host: nat -> Grant, a: Mark, b: Mark, sent: seq<Exchange>)
    requires b.sent == a.sent + sent
    ensures Hampered(fatal, host, a, b) ==> DrainHampered(fatal, host, a.asks, b.asks, sent)
  {
    if i :| |a.sent| <= i < |b.sent| && Setback(b.sent[i]) {
      assert Setback(sent[i - |a.sent|]);
    }
  }

  lemma ServedNothing(a: Mark)
    ensures Served(a, a, [])
  {
  }

  lemma NothingHeard()
    ensures Heards([]) == []
  {
  }

  lemma NoRuns()
    ensures Flatten([]) == [] && ReleaseAlls([]) == []
  {
  }

  lemma {:induction false} ReleaseAllsConcat(a: seq<PageRequest>, b: seq<PageRequest>)
    ensures ReleaseAlls(a + b) == ReleaseAlls(a) + ReleaseAlls(b)
  {
    if b == [] {
      assert a + b == a;
    } else {
      var n := |b| - 1;
      ReleaseAllsConcat(a, b[..n]);
      assert (a + b)[..|a + b| - 1] == a + b[..n];
    }
  }

  lemma OfferedNone(events: seq<Event>)
    ensures |Offered(events)| == |events| && Offered(events)[..0] == [] && Prefixes([], [])
  {
  }

  lemma OfferedOne(events: seq<Event>, i: nat, done: seq<seq<PageRequest>>, run: seq<PageRequest>)
    requires i < |events| && |done| == i && Prefixes(done, Offered(events)[..i]) && run <= Wanted(events[i])
    ensures Prefixes(done + [run], Offered(events)[..i + 1])
    ensures done == Offered(events)[..i] && run == Wanted(events[i]) ==> done + [run] == Offered(events)[..i + 1]
  {
  }

  lemma OneRunMore(done: seq<seq<PageRequest>>, run: seq<PageRequest>)
    ensures ReleaseAlls(Flatten(done + [run])) == ReleaseAlls(Flatten(done)) + ReleaseAlls(run)
  {
    assert (done + [run])[..|done|] == done;
    ReleaseAllsConcat(Flatten(done), run);
  }

  lemma {:induction false} FlattenConcat(a: seq<seq<PageRequest>>, b: seq<seq<PageRequest>>)
    ensures ReleaseAlls(Flatten(a + b)) == ReleaseAlls(Flatten(a)) + ReleaseAlls(Flatten(b))
  {
    hide ReleaseAlls, Flatten;
    NoRuns();
    if b == [] {
      assert a + b == a;
    } else {
      var n := |b| - 1;
      FlattenConcat(a, b[..n]);
      FlattenStep(a, b[..n], b[n]);
      assert b == b[..n] + [b[n]];
    }
  }

  lemma FlattenStep(a: seq<seq<PageRequest>>, b: seq<seq<PageRequest>>, run: seq<PageRequest>)
    requires ReleaseAlls(Flatten(a + b)) == ReleaseAlls(Flatten(a)) + ReleaseAlls(Flatten(b))
    ensures ReleaseAlls(Flatten(a + (b + [run]))) == ReleaseAlls(Flatten(a)) + ReleaseAlls(Flatten(b + [run]))
  {
    hide ReleaseAlls, Flatten;
    OneRunMore(a + b, run);
    OneRunMore(b, run);
    assert a + (b + [run]) == (a + b) + [run];
  }

  /** The release-alls of a cleanup are those of its drain. */
  lemma HeardInCleanup(b: View, log: seq<Exchange>, t: Trace, r: Report)
    requires Sends(b, log, t, r)
    ensures Heards(TillGate(log, t) + t.freeUar) == Heards(log) + ReleaseAlls(Flatten(t.done))
  {
    hide Heards, ReleaseAlls, Flatten, TimedOut, AllSucceed;
    HeardsConcat(TillGate(log, t), t.freeUar);
    HeardsConcat(TillTeardown(log, t) + t.reclaim, t.disable);
    HeardsConcat(TillTeardown(log, t), t.reclaim);
    HeardsConcat(log + t.drain + t.eqs, t.teardown);
    HeardsConcat(log + t.drain, t.eqs);
    HeardsConcat(log, t.drain);
    OnlyCommands(t.freeUar);
    OnlyCommands(t.disable);
    OnlyCommands(t.reclaim);
    OnlyCommands(t.teardown);
    OnlyCommands(t.eqs);
  }

  /** What the creation of the event queues adds to the log. */
  lemma OnlyEqs(log: seq<Exchange>, sent: seq<Exchange>)
    requires AllOf(sent, CreateEq)
    ensures Heards(log + sent) == Heards(log) && Control(log + sent) == Control(log) + seq(|sent|, i => CreateEq)
  {
    HeardsConcat(log, sent);
    OnlyCommands(sent);
    ControlConcat(log, sent);
    ControlUniform(sent);
  }

  lemma {:induction false} ControlUniform(sent: seq<Exchange>)
    requires AllOf(sent, CreateEq)
    ensures Control(sent) == seq(|sent|, i => CreateEq)
  {
    if sent != [] {
      var n := |sent| - 1;
      ControlUniform(sent[..n]);
      assert seq(n, i => CreateEq) + [CreateEq] == seq(n + 1, i => CreateEq);
    }
  }

  /** n event queues were created, one command each; at most one more was tried, and refused. */
  ghost predicate Created(sent: seq<Exchange>, n: nat) {
    && n <= |sent| <= n + 1 && AllOf(sent, CreateEq)
    && AllSucceed(sent[..n]) && (|sent| > n ==> !sent[n].kr.Success?)
  }

  lemma NoneCreated()
    ensures Created([], 0)
  {
  }

  lemma OneCreated(sent: seq<Exchange>, kr: Kr)
    requires Created(sent, |sent|)
    ensures Created(sent + [Sent(CreateEq, kr)], if kr.Success? then |sent| + 1 else |sent|)
  {
    var more := sent + [Sent(CreateEq, kr)];
    assert sent[..|sent|] == sent && more[..|sent|] == sent && more[..|sent| + 1] == more;
    OneMore(sent, Sent(CreateEq, kr));
  }

  /** The last command of a list ended so. */
  ghost predicate LastOf(sent: seq<Exchange>, kr: Kr) {
    sent != [] && sent[|sent| - 1].Sent? && sent[|sent| - 1].kr == kr
  }

  lemma NoneSent(op: Opcode)
    ensures AllOf([], op) && AllSucceed([])
  {
  }

  lemma NoFailures()
    ensures Failures([]) == 0
  {
  }

  lemma FailuresNext(sent: seq<Exchange>, e: Exchange)
    requires e.Sent?
    ensures Failures(sent + [e]) == Failures(sent) + if e.kr.Success? then 0 else 1
  {
    assert (sent + [e])[..|sent|] == sent;
  }

  lemma OneSent(op: Opcode, kr: Kr)
    ensures AllOf([Sent(op, kr)], op)
  {
  }

  lemma NothingToSend(sent: seq<Exchange>)
    ensures |sent| == 0 ==> AllSucceed(sent)
  {
  }

  lemma OneMore(sent: seq<Exchange>, next: Exchange)
    requires next.Sent?
    ensures AllSucceed(sent + [next]) <==> AllSucceed(sent) && next.kr.Success?
    ensures AllOf(sent + [next], next.op) <==> AllOf(sent, next.op)
  {
    var after := sent + [next];
    assert after[|sent|] == next;
    assert forall i :: 0 <= i < |sent| ==> after[i] == sent[i];
  }

  /** What was sent between two marks. */
  lemma SentSince(a: Mark, b: Mark, heard: seq<Function>)
    requires Served(a, b, heard)
    ensures b.sent == a.sent + b.sent[|a.sent|..] && WorkerTraffic(b.sent[|a.sent|..])
    ensures Heards(b.sent[|a.sent|..]) == heard
    ensures a.released <= b.released && a.asks <= b.asks
  {
  }

  /** Every command behind the first n succeeded. */
  ghost predicate SucceedFrom(log: seq<Exchange>, n: nat) {
    forall i :: n <= i < |log| ==> log[i].Sent? ==> log[i].kr.Success?
  }

  /** Among granting answers only a FREE_UAR fails. */
  lemma {:induction false} GrantedSucceed(script: Script, log: seq<Exchange>, more: seq<Exchange>)
    requires Grants(script) && !TimedOut(log) && log <= more && Genuine(script, true, more)
    requires forall i :: |log| <= i < |more| && more[i].Sent? ==> !more[i].op.FreeUar?
    ensures SucceedFrom(more, |log|) && !TimedOut(more)
    decreases |more|
  {
    if |more| > |log| {
      var init, last := more[..|more| - 1], more[|more| - 1];
      assert more == init + [last];
      GenuineStart(script, init, [last]);
      GrantedSucceed(script, log, init);
      assert last.Sent? ==> last.kr == Ending(script, true, init, last.op);
      TimedOutNext(init, last);
    } else {
      assert more == log;
    }
  }

  lemma PartsSucceed(log: seq<Exchange>, t: Trace)
    requires SucceedFrom(TillGate(log, t), |log|)
    ensures AllSucceed(t.eqs) && AllSucceed(t.teardown) && AllSucceed(t.reclaim) && AllSucceed(t.disable)
  {
    var gate := TillGate(log, t);
    var a, b, c := |log| + |t.drain|, |log| + |t.drain| + |t.eqs|, |TillTeardown(log, t)|;
    assert t.eqs == gate[a..a + |t.eqs|];
    assert t.teardown == gate[b..b + |t.teardown|];
    assert t.reclaim == gate[c..c + |t.reclaim|];
    assert t.disable == gate[c + |t.reclaim|..];
  }

  lemma NoFreeUarBeforeGate(b: View, log: seq<Exchange>, t: Trace, r: Report)
    requires Prepares(b, log, t, r)
    ensures var gate := TillGate(log, t);
            forall i :: |log| <= i < |gate| && gate[i].Sent? ==> !gate[i].op.FreeUar?
  {
    hide AllSucceed, TimedOut, Heards, ReleaseAlls, Flatten;
  }

  /** With granting firmware, a cleanup that got its pages back, met no fault, and can turn bus
      mastering off releases. */
  lemma OpenGate(b: View, script: Script, log: seq<Exchange>, t: Trace, r: Report)
    requires Prepares(b, log, t, r) && Verdict(b, log, t, r) && Grants(script)
    requires !TimedOut(log) && Genuine(script, true, TillGate(log, t))
    requires b.up && b.hasCmd && !b.dmaQuarantined && !(b.hasPages && b.runtime && r.fatal) && r.busMasterOff
    requires (r.outstanding ==> b.hcaEnabled) && !ReclaimFailed(r.reclaim)
    ensures Releases(r)
  {
    hide Grants, AllOf, Takes, Drained, Genuine, TimedOut, AllSucceed;
    var gate := TillGate(log, t);
    NoFreeUarBeforeGate(b, log, t, r);
    assert log <= gate;
    GrantedSucceed(script, log, gate);
    PartsSucceed(log, t);
    TimedOutConcat(TillTeardown(log, t), t.reclaim + t.disable);
    assert TillTeardown(log, t) + (t.reclaim + t.disable) == gate;
  }

  lemma GenuineStart(script: Script, a: seq<Exchange>, b: seq<Exchange>)
    requires Genuine(script, true, a + b)
    ensures Genuine(script, true, a)
  {
    forall i | 0 <= i < |a| && a[i].Sent? ensures a[i].kr == Ending(script, true, a[..i], a[i].op) {
      assert (a + b)[i] == a[i] && (a + b)[..i] == a[..i];
    }
  }

  /** With granting firmware and no page lent, a cleanup that can turn bus mastering off releases. */
  lemma SmoothRelease(b: View, script: Script, log: seq<Exchange>, t: Trace, r: Report)
    requires Sends(b, log, t, r) && Verdict(b, log, t, r) && Grants(script)
    requires AllSucceed(log) && Genuine(script, true, TillGate(log, t) + t.freeUar)
    requires b.up && b.hasCmd && !b.dmaQuarantined && !r.outstanding && r.busMasterOff
    requires !ReclaimFailed(r.reclaim) ==> !r.fatal
    ensures Releases(r)
  {
    hide Prepares, Grants, Genuine, AllOf, AllSucceed, TimedOut;
    SuccessIsNoTimeout(log);
    GenuineStart(script, TillGate(log, t), t.freeUar);
    OpenGate(b, script, log, t, r);
  }

  /**
   * "No timed-out command's buffers are freed, even by cleanup" is false of the code. Here is the
   * run: a start without obstacles, and a cleanup that passes its gate and whose FREE_UAR firmware
   * never answers. The driver ends with that command's buffers freed.
   */
  method CleanupFreesStuckCommand() returns (d: Driver)
    ensures fresh(d) && d.Valid() && d.fStopping && d.stuckFreed
  {
    hide Driver.Closable, Driver.DmaOwnershipSafe, Manager.Settled, Manager.Starved;
    hide Heards, Flatten, ReleaseAlls, Control, StartOrder, Held, TallyOf, Genuine, Sends, Verdict;
    var script: Script := (log: seq<Exchange>, op: Opcode) =>
      Answer(if op.FreeUar? then Timeout else Success, Function(0, false), 0, []);
    d := new Driver(script, (n: nat) => Granted);
    var ok;
    ghost var issi, early, drained;
    ok, issi, early, drained := d.Start(SMOOTH_START, CleanupInput([], true), 0);
    assert ok && d.Smooth(0);
    ghost var before, log := d.Seen(), d.cmd.log;
    ghost var t;
    var report;
    report, t := d.Cleanup(CleanupInput([], true));
    SmoothRelease(before, script, log, t, report);
  }
}
