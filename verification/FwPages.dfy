/**
 * Ownership of the pages lent to firmware. Every method runs with fOperationLock held, so the
 * methods are the steps of a run. What firmware holds is the channel's business (cmd.held, a
 * function of the log and of firmware's answers); what the driver believes is fPages.
 */
module FwPages {
  import opened Status
  import opened PageRequests
  import opened FwPageList
  import opened CommandChannel

  const MAX_TRACKED := 65536
  const MAX_BATCH := 512

  datatype Fault =
    | NoFault
    | RequestOverflow
    | MalformedEvent
    | GiveTimeout
    | TakeTimeout
    | Protocol
    | ReclaimTimeout

  /** What the host answers when asked for memory, or for memory and its mapping. */
  datatype Grant = Granted | OutOfMemory | NotMapped

  /** One unmapping: the address, and whether firmware may have held the page at that moment. */
  datatype Release = Release(dmaAddress: nat, held: bool)

  /** Where a run stands: what was sent, what was unmapped, how often the host was asked for memory. */
  datatype Mark = Mark(sent: seq<Exchange>, released: seq<Release>, asks: nat)

  /** A command that failed, or that says the driver has no pages to give. */
  predicate Setback(e: Exchange) {
    e.Sent? && (!e.kr.Success? || (e.op.ManagePages? && e.op.content.AllocationFailed?))
  }

  /** Something stood in the way between two marks: the fault is raised, the host refused, a
      command failed, or the driver told firmware that it had no pages to give. */
  ghost predicate Hampered(fatal: bool, host: nat -> Grant, a: Mark, b: Mark) {
    || fatal
    || (exists n :: a.asks <= n < b.asks && !host(n).Granted?)
    || (exists i :: |a.sent| <= i < |b.sent| && Setback(b.sent[i]))
  }

  /** It is not forgotten, and what came between later marks came between earlier ones. */
  lemma HamperedOn(fatal: bool, fatal': bool, host: nat -> Grant, a: Mark, b: Mark, c: Mark)
    requires Kept(a, b) && Kept(b, c) && (fatal ==> fatal')
    ensures Hampered(fatal, host, a, b) ==> Hampered(fatal', host, a, c)
    ensures Hampered(fatal', host, b, c) ==> Hampered(fatal', host, a, c)
  {
    if i :| |a.sent| <= i < |b.sent| && Setback(b.sent[i]) {
      assert Setback(c.sent[i]);
    }
  }

  /** A GIVE that firmware did not grant, or that did not get to it. */
  predicate FailedGive(e: Exchange) {
    e.Sent? && e.op.ManagePages? && e.op.content.Give? && !e.kr.Success?
  }

  /** Between two marks the host granted all that was asked of it, and firmware every GIVE. */
  ghost predicate Granting(host: nat -> Grant, a: Mark, b: Mark) {
    && (forall n :: a.asks <= n < b.asks ==> host(n).Granted?)
    && (forall i :: |a.sent| <= i < |b.sent| ==> !FailedGive(b.sent[i]))
  }

  lemma GrantingJoin(host: nat -> Grant, a: Mark, b: Mark, c: Mark)
    requires Kept(a, b) && Kept(b, c)
    ensures Granting(host, a, c) <==> Granting(host, a, b) && Granting(host, b, c)
  {
    assert forall i :: |a.sent| <= i < |b.sent| ==> c.sent[i] == b.sent[i];
  }

  lemma GrantingSame(host: nat -> Grant, a: Mark, b: Mark)
    requires a.asks == b.asks && a.sent == b.sent
    ensures Granting(host, a, b)
  {
  }

  lemma OnlyAsked(host: nat -> Grant, a: Mark, b: Mark)
    requires a.sent == b.sent
    ensures Granting(host, a, b) <==> forall n :: a.asks <= n < b.asks ==> host(n).Granted?
  {
  }

  lemma StillNotGranted(host: nat -> Grant, a: Mark, b: Mark, c: Mark)
    requires b.sent == c.sent && b.asks == c.asks
    ensures Granting(host, a, c) <==> Granting(host, a, b)
  {
  }

  /** One question to the host and, perhaps, one command. */
  lemma GrantingOne(host: nat -> Grant, a: Mark, b: Mark, e: Exchange)
    requires b.asks == a.asks + 1 && (b.sent == a.sent || b.sent == a.sent + [e])
    ensures Granting(host, a, b) <==> host(a.asks).Granted? && (b.sent == a.sent || !FailedGive(e))
  {
    if b.sent != a.sent { assert b.sent[|a.sent|] == e; }
  }

  predicate PageCommands(log: seq<Exchange>) {
    forall i :: 0 <= i < |log| ==> log[i].Sent? && log[i].op.ManagePages?
  }

  predicate Takes(log: seq<Exchange>) {
    forall i :: 0 <= i < |log| ==> log[i].Sent? && log[i].op.ManagePages? && log[i].op.content.Take?
  }

  predicate Gives(log: seq<Exchange>) {
    forall i :: 0 <= i < |log| ==> log[i].Sent? && log[i].op.ManagePages? && log[i].op.content.Give?
  }

  /** Only GIVE commands passed. */
  ghost predicate GaveSince(a: Mark, b: Mark) {
    Kept(a, b) && Gives(b.sent[|a.sent|..])
  }

  lemma GaveTrans(a: Mark, b: Mark, c: Mark)
    requires GaveSince(a, b) && GaveSince(b, c)
    ensures GaveSince(a, c)
  {
    assert c.sent[|a.sent|..] == b.sent[|a.sent|..] + c.sent[|b.sent|..];
  }

  /** No command, or one GIVE. */
  lemma GaveOne(a: Mark, b: Mark, e: Exchange)
    requires b.sent == a.sent || (b.sent == a.sent + [e] && e.Sent? && e.op.ManagePages? && e.op.content.Give?)
    requires a.released <= b.released && a.asks <= b.asks
    ensures GaveSince(a, b)
  {
  }

  lemma GaveIsLater(a: Mark, b: Mark)
    requires GaveSince(a, b)
    ensures Later(a, b)
  {
  }

  /** What a page worker leaves in the log. */
  predicate WorkerTraffic(log: seq<Exchange>) {
    forall i :: 0 <= i < |log| ==> log[i].Sent? ==> log[i].op.ManagePages?
  }

  /** Nothing is forgotten from one mark to a later one. */
  predicate Kept(a: Mark, b: Mark) {
    a.sent <= b.sent && a.released <= b.released && a.asks <= b.asks
  }

  /** From one mark to a later one only page commands passed. */
  ghost predicate Later(a: Mark, b: Mark) {
    Kept(a, b) && PageCommands(b.sent[|a.sent|..])
  }

  /** Only TAKE commands passed. */
  ghost predicate TookSince(a: Mark, b: Mark) {
    Kept(a, b) && Takes(b.sent[|a.sent|..])
  }

  /** Only page commands passed, and these release-all events. */
  ghost predicate Served(a: Mark, b: Mark, heard: seq<Function>) {
    Kept(a, b) && WorkerTraffic(b.sent[|a.sent|..]) && Heards(b.sent[|a.sent|..]) == heard
  }

  lemma LaterTrans(a: Mark, b: Mark, c: Mark)
    requires Later(a, b) && Later(b, c)
    ensures Later(a, c)
  {
    assert c.sent[|a.sent|..] == b.sent[|a.sent|..] + c.sent[|b.sent|..];
  }

  lemma TookTrans(a: Mark, b: Mark, c: Mark)
    requires TookSince(a, b) && TookSince(b, c)
    ensures TookSince(a, c)
  {
    assert c.sent[|a.sent|..] == b.sent[|a.sent|..] + c.sent[|b.sent|..];
  }

  lemma ServedTrans(a: Mark, b: Mark, c: Mark, heard: seq<Function>, more: seq<Function>)
    requires Served(a, b, heard) && Served(b, c, more)
    ensures Served(a, c, heard + more)
  {
    assert c.sent[|a.sent|..] == b.sent[|a.sent|..] + c.sent[|b.sent|..];
    HeardsConcat(b.sent[|a.sent|..], c.sent[|b.sent|..]);
  }

  lemma TookIsLater(a: Mark, b: Mark)
    requires TookSince(a, b)
    ensures Later(a, b)
  {
  }

  lemma LaterIsServed(a: Mark, b: Mark)
    requires Later(a, b)
    ensures Served(a, b, [])
  {
    OnlyCommands(b.sent[|a.sent|..]);
  }

  lemma GaveKept(a: Mark, b: Mark)
    requires GaveSince(a, b)
    ensures Kept(a, b)
  {
  }

  lemma LaterKept(a: Mark, b: Mark)
    requires Later(a, b)
    ensures Kept(a, b)
  {
  }

  lemma ServedKept(a: Mark, b: Mark, heard: seq<Function>)
    requires Served(a, b, heard)
    ensures Kept(a, b)
  {
  }

  lemma ServedOne(a: Mark, f: Function, b: Mark)
    requires b.sent == a.sent + [Heard(f)] && a.released <= b.released && a.asks <= b.asks
    ensures Served(a, b, [f])
  {
    var more := b.sent[|a.sent|..];
    assert more == [Heard(f)] && more[..0] == [];
  }

  /** At most one TAKE passed. */
  lemma TookOne(a: Mark, b: Mark, e: Exchange)
    requires e.Sent? && e.op.ManagePages? && e.op.content.Take?
    requires b.sent == a.sent || b.sent == a.sent + [e]
    requires a.released <= b.released && a.asks <= b.asks
    ensures TookSince(a, b)
  {
  }

  /** One page command more. */
  lemma LaterSent(a: Mark, content: PageCommand, kr: Kr)
    ensures Later(a, a.(sent := a.sent + [Sent(ManagePages(content), kr)]))
  {
  }

  /** No command: only asks, and unmappings. */
  lemma LaterSame(a: Mark, n: nat)
    ensures Later(a, a.(asks := a.asks + n)) && TookSince(a, a.(asks := a.asks + n))
  {
  }

  lemma EndedSince(a: Mark, b: Mark, c: Mark, kr: Kr)
    requires Kept(a, b) && LastEnded(b, c, kr)
    ensures LastEnded(a, c, kr)
  {
  }

  lemma EndedSinceTook(a: Mark, b: Mark, c: Mark, kr: Kr)
    requires TookSince(a, b)
    ensures LastEnded(b, c, kr) ==> LastEnded(a, c, kr)
  {
  }

  lemma LaterQuiet(a: Mark, b: Mark)
    requires a.sent == b.sent && a.released <= b.released && a.asks <= b.asks
    ensures Later(a, b)
  {
  }

  /** The answer to the last command sent since a mark. */
  ghost predicate LastEnded(a: Mark, b: Mark, kr: Kr) {
    |a.sent| < |b.sent| && b.sent[|b.sent| - 1].Sent? && b.sent[|b.sent| - 1].kr == kr
  }

  /** One unmapping for each address, none of a page that firmware held. */
  ghost function Unmapped(given: seq<nat>): seq<Release> {
    seq(|given|, i requires 0 <= i < |given| => Release(given[i], false))
  }

  /** Pages were added in front for f, and exactly they went to firmware. */
  ghost predicate Grown(before: seq<FwPage>, after: seq<FwPage>, held: map<nat, Function>, held': map<nat, Function>, f: Function) {
    && |after| >= |before| && after[|after| - |before|..] == before
    && held' == Lending(held, Addresses(after[..|after| - |before|]), f)
  }

  lemma NotGrown(pages: seq<FwPage>, held: map<nat, Function>, f: Function)
    ensures Grown(pages, pages, held, held, f)
  {
    assert Addresses(pages[..0]) == {};
  }

  lemma GrownInFront(before: seq<FwPage>, after: seq<FwPage>, held: map<nat, Function>, held': map<nat, Function>, f: Function)
    requires Grown(before, after, held, held', f)
    ensures |after| >= |before| && after[|after| - |before|..] == before
  {
  }

  /** The reply to a TAKE is one that the driver accepts: not too long, and every address in it is
      aligned, not zero, named once, and a page that the driver has down as firmware's for f. */
  ghost predicate Accepted(pages: seq<FwPage>, f: Function, requested: nat, answer: Answer) {
    answer.count <= requested && NamesOwned(pages, Listed(answer, requested)[..answer.count], f)
  }

  /** An accepted reply does give the pages back. */
  lemma AcceptedIsReturned(pages: seq<FwPage>, held: map<nat, Function>, f: Function, requested: nat, answer: Answer)
    requires Backed(pages, held) && Accepted(pages, f, requested, answer)
    ensures Yielded(held, f, requested, answer) == Named(Listed(answer, requested)[..answer.count])
  {
    var given := Listed(answer, requested)[..answer.count];
    forall i | 0 <= i < |given| ensures given[i] in held && held[given[i]] == f {
      assert NamesOne(pages, given[i], f);
    }
  }

  /** Where no page is in doubt, a reply that gives pages back is accepted. */
  lemma ReturnedIsAccepted(pages: seq<FwPage>, held: map<nat, Function>, f: Function, requested: nat, answer: Answer)
    requires Covered(pages, held) && Aligned(pages) && Lent(pages, false)
    requires answer.count <= requested && GivesBack(held, f, Listed(answer, requested)[..answer.count])
    ensures Accepted(pages, f, requested, answer)
  {
    var given := Listed(answer, requested)[..answer.count];
    forall i | 0 <= i < |given| ensures PageAligned(given[i]) && NamesOne(pages, given[i], f) {
      assert given[i] in Addresses(pages);
      var p :| p in pages && p.dmaAddress == given[i];
      var k :| 0 <= k < |pages| && pages[k] == p;
    }
  }

  /**
   * The pages made from handles, newest first: the first `own` handles are firmware's, those up
   * to `doubt` are ambiguous, the rest are still the host's.
   */
  ghost function Stage(handles: seq<nat>, f: Function, phase: Phase, own: nat, doubt: nat)
    : (r: seq<FwPage>)
  {
    seq(|handles|, j requires 0 <= j < |handles| =>
      var i := |handles| - 1 - j;
      FwPage(handles[i], f, phase,
             if i < own then FirmwareOwned else if i < doubt then Ambiguous else HostPrepared))
  }

  class Manager {
    const cmd: Channel
    /** The host's answer when asked for the n-th time. */
    const host: nat -> Grant
    var asks: nat
    var fPages: seq<FwPage>
    var fTrackedPages: nat
    var fFatal: bool
    var fFault: Fault
    ghost var released: seq<Release>

    /** No unmapped page was one that firmware may have held. */
    ghost predicate DmaSafe()
      reads this
    {
      forall r :: r in released ==> !r.held
    }

    /** What holds at every point inside an operation. */
    ghost predicate Tracked()
      reads this, cmd`held
    {
      && Distinct(fPages) && Aligned(fPages)
      && fTrackedPages == |fPages|
      && Covered(fPages, cmd.held)
      && DmaSafe()
    }

    ghost predicate Consistent()
      reads this, cmd`held
    {
      Tracked() && Backed(fPages, cmd.held)
    }

    /** What holds when pages of f may just have come back. */
    ghost predicate SettledBut(f: Function)
      reads this, cmd`held
    {
      && Tracked() && BackedBut(fPages, cmd.held, f)
      && |fPages| <= MAX_TRACKED
      && Lent(fPages, fFatal)
    }

    /** What holds whenever fOperationLock is free. */
    ghost predicate Settled()
      reads this, cmd`held
    {
      && Consistent()
      && |fPages| <= MAX_TRACKED
      && Lent(fPages, fFatal)
    }

    ghost function Now(): Mark
      reads this`released, this`asks, cmd`log
    {
      Mark(cmd.log, released, asks)
    }

    /** The MANAGE_PAGES sent next, and how it ends. */
    ghost function Next(content: PageCommand): Exchange
      reads cmd`log
    {
      Sent(ManagePages(content), Ending(cmd.script, cmd.up, cmd.log, ManagePages(content)))
    }

    ghost function Answered(content: PageCommand): Answer
      reads cmd`log
    {
      cmd.script(cmd.log, ManagePages(content))
    }

    /** The host refused memory, or a mapping, at some point since a mark. */
    ghost predicate Starved(a: Mark)
      reads this`asks
    {
      exists n :: a.asks <= n < asks && !host(n).Granted?
    }

    /** Something stood in the way of a request since a mark. */
    ghost predicate Stumbled(a: Mark)
      reads this`fFatal, this`asks, this`released, cmd`log
    {
      Hampered(fFatal, host, a, Now())
    }

    constructor (cmd: Channel, host: nat -> Grant)
      requires cmd.held == map[]
      ensures this.cmd == cmd && this.host == host
      ensures Settled() && fPages == [] && !fFatal && released == []
    {
      this.cmd, this.host, asks := cmd, host, 0;
      fPages, fTrackedPages, fFatal, fFault := [], 0, false, NoFault;
      released := [];
    }

    method SetFatal(fault: Fault)
      modifies this`fFatal, this`fFault
      ensures fFatal && fFault == fault
    {
      fFatal, fFault := true, fault;
    }

    /** A page event that cannot be queued. */
    method RaiseFault(fault: Fault)
      requires Settled()
      modifies this`fFatal, this`fFault
      ensures Settled() && fFatal && fFault == fault
    {
      hide Covered, Backed, Distinct, Aligned;
      SetFatal(fault);
    }

    method RemovePage(a: nat)
      requires Distinct(fPages)
      modifies this`fPages
      ensures fPages == Drop(old(fPages), {a})
    {
      var i := 0;
      while i < |fPages| && fPages[i].dmaAddress != a
        invariant i <= |fPages|
        invariant forall k :: 0 <= k < i ==> fPages[k].dmaAddress != a
      {
        i := i + 1;
      }
      if i < |fPages| {
        DropOne(fPages, i);
        fPages := fPages[..i] + fPages[i + 1..];
      } else {
        DropNone(fPages, {a});
      }
    }

    method ReleasePage(a: nat)
      requires Distinct(fPages)
      modifies this`fPages, this`fTrackedPages, this`released
      ensures fPages == Drop(old(fPages), {a})
      ensures fTrackedPages == if old(fTrackedPages) > 0 then old(fTrackedPages) - 1 else 0
      ensures released == old(released) + [Release(a, a in cmd.held)]
    {
      RemovePage(a);
      if fTrackedPages > 0 {
        fTrackedPages := fTrackedPages - 1;
      }
      released := released + [Release(a, a in cmd.held)];
    }

    method Ask() returns (grant: Grant)
      modifies this`asks
      ensures asks == old(asks) + 1 && grant == host(old(asks))
      ensures Later(old(Now()), Now()) && (!grant.Granted? ==> Starved(old(Now())))
    {
      LaterSame(Now(), 1);
      grant := host(asks);
      asks := asks + 1;
    }

    /** One MANAGE_PAGES. */
    method Send(content: PageCommand) returns (kr: Kr, answer: Answer)
      requires cmd.Valid()
      requires content.Give? ==> PendingOnly(fPages, Named(content.batch))
      modifies cmd
      ensures cmd.Valid()
      ensures cmd.log == old(cmd.log) + [old(Next(content))] && kr == old(Next(content)).kr
      ensures answer == old(Answered(content)) && cmd.held == After(old(cmd.held), old(Next(content)), answer)
      ensures Later(old(Now()), Now())
    {
      hide After, Channel.Valid, Ending;
      LaterSent(Now(), content, Next(content).kr);
      kr, answer := cmd.Exec(ManagePages(content));
    }

    /** An address above every one in use. */
    method AddressAbove() returns (a: nat)
      ensures PageAligned(a) && forall i :: 0 <= i < |fPages| ==> fPages[i].dmaAddress < a
    {
      a := PAGE_SIZE;
      for i := 0 to |fPages|
        invariant PageAligned(a) && forall k :: 0 <= k < i ==> fPages[k].dmaAddress < a
      {
        if fPages[i].dmaAddress >= a {
          a := (fPages[i].dmaAddress / PAGE_SIZE + 1) * PAGE_SIZE;
        }
      }
    }

    /** The IOMMU maps a page at any aligned, non-zero address that is not in use. */
    method MapAnywhere() returns (a: nat)
      ensures PageAligned(a) && forall i :: 0 <= i < |fPages| ==> fPages[i].dmaAddress != a
    {
      a := *;
      var inUse := exists i :: 0 <= i < |fPages| && fPages[i].dmaAddress == a;
      if !PageAligned(a) || inUse {
        a := AddressAbove();
      }
    }

    /** A page is mapped at an aligned, non-zero address that is not in use, unless the host has no
        memory or no mapping for it. */
    method AllocatePage(f: Function, phase: Phase) returns (kr: Kr, a: nat)
      requires Consistent()
      modifies this`fPages, this`fTrackedPages, this`asks
      ensures Consistent() && asks == old(asks) + 1
      ensures kr == (match host(old(asks)) case Granted => Success case OutOfMemory => NoMemory case NotMapped => NoSpace)
      ensures kr.Success? ==>
                && a != 0 && a % 4096 == 0 && a !in Addresses(old(fPages))
                && fPages == [FwPage(a, f, phase, HostPrepared)] + old(fPages)
      ensures !kr.Success? ==> fPages == old(fPages) && Starved(old(Now()))
    {
      hide Later;
      var grant := Ask();
      if grant.OutOfMemory? {
        return NoMemory, 0;
      }
      if grant.NotMapped? {
        return NoSpace, 0;
      }
      a := MapAnywhere();
      fPages := [FwPage(a, f, phase, HostPrepared)] + fPages;
      fTrackedPages := fTrackedPages + 1;
      AddressesAppend([FwPage(a, f, phase, HostPrepared)], old(fPages));
      kr := Success;
    }

    method SetOwnership(batch: seq<nat>, o: Ownership)
      modifies this`fPages
      ensures fPages == WithOwnership(old(fPages), Named(batch), o)
    {
      var i := 0;
      while i < |batch|
        invariant i <= |batch|
        invariant fPages == WithOwnership(old(fPages), Named(batch[..i]), o)
      {
        fPages := WithOwnership(fPages, {batch[i]}, o);
        i := i + 1;
        assert Named(batch[..i]) == Named(batch[..i - 1]) + {batch[i - 1]};
      }
      assert batch[..i] == batch;
    }

    /**
     * GIVE one batch. The pages end as firmware's, ambiguous, or the host's again, exactly as
     * the command succeeded, timed out, or was refused.
     */
    method GiveBatch(batch: seq<nat>, f: Function) returns (kr: Kr)
      requires Consistent() && cmd.Valid()
      requires forall i :: 0 <= i < |fPages| && fPages[i].dmaAddress in Named(batch) ==>
                 fPages[i].owner == f && fPages[i].ownership.HostPrepared?
      requires Named(batch) <= Addresses(fPages)
      modifies this, cmd
      ensures Consistent() && cmd.Valid() && GaveSince(old(Now()), Now())
      ensures |batch| == 0 || |batch| > 512 ==> kr.BadArgument? && asks == old(asks) && cmd.log == old(cmd.log)
      ensures 0 < |batch| <= MAX_BATCH ==> asks == old(asks) + 1
      ensures 0 < |batch| <= MAX_BATCH && host(old(asks)).Granted? ==>
                kr == old(Next(Give(f, batch))).kr && cmd.log == old(cmd.log) + [old(Next(Give(f, batch)))]
      ensures 0 < |batch| <= MAX_BATCH && !host(old(asks)).Granted? ==> kr.NoMemory?
      ensures 0 < |batch| <= MAX_BATCH && !kr.Success? ==> Stumbled(old(Now()))
      ensures 0 < |batch| <= MAX_BATCH ==> (kr.Success? <==> Granting(host, old(Now()), Now()))
      ensures kr.Success? ==> fPages == WithOwnership(old(fPages), Named(batch), FirmwareOwned)
      ensures kr.Timeout? ==> fPages == WithOwnership(old(fPages), Named(batch), Ambiguous) && fFatal
      ensures Refused(kr) ==> fPages == old(fPages) && cmd.held == old(cmd.held)
      ensures !Refused(kr) ==> cmd.held == Lending(old(cmd.held), Named(batch), f)
      ensures fFatal == (old(fFatal) || kr.Timeout?)
      ensures released == old(released)
    {
      hide Later, GaveSince, Starved, LastEnded, Lending, Named, Granting;
      GaveOne(Now(), Now(), Next(Give(f, batch)));
      if |batch| == 0 || |batch| > MAX_BATCH {
        return BadArgument;
      }
      var buffers := Ask();
      GrantingOne(host, old(Now()), Now(), old(Next(Give(f, batch))));
      GaveOne(old(Now()), Now(), old(Next(Give(f, batch))));
      if !buffers.Granted? {
        return NoMemory;
      }
      kr := GiveChecked(batch, f);
      GrantingOne(host, old(Now()), Now(), old(Next(Give(f, batch))));
      if !kr.Success? {
        StumbledLast(old(Now()), old(Next(Give(f, batch))));
      }
      GaveOne(old(Now()), Now(), old(Next(Give(f, batch))));
    }

    /** The command itself, for a batch of the right size. */
    method GiveChecked(batch: seq<nat>, f: Function) returns (kr: Kr)
      requires Consistent() && cmd.Valid()
      requires forall i :: 0 <= i < |fPages| && fPages[i].dmaAddress in Named(batch) ==>
                 fPages[i].owner == f && fPages[i].ownership.HostPrepared?
      requires Named(batch) <= Addresses(fPages)
      modifies this`fPages, this`fFatal, this`fFault, cmd
      ensures Consistent() && cmd.Valid() && Later(old(Now()), Now())
      ensures kr == old(Next(Give(f, batch))).kr && cmd.log == old(cmd.log) + [old(Next(Give(f, batch)))]
      ensures kr.Success? ==> fPages == WithOwnership(old(fPages), Named(batch), FirmwareOwned)
      ensures kr.Timeout? ==> fPages == WithOwnership(old(fPages), Named(batch), Ambiguous)
      ensures Refused(kr) ==> fPages == old(fPages) && cmd.held == old(cmd.held)
      ensures !Refused(kr) ==> cmd.held == Lending(old(cmd.held), Named(batch), f)
      ensures fFatal == (old(fFatal) || kr.Timeout?)
    {
      hide Later, LastEnded, Channel.Valid, Covered, Backed, WithOwnership, Distinct, Aligned, Named, Lending, Ending;
      ghost var before, held := fPages, cmd.held;
      SetOwnership(batch, GivePending);
      MarkedPending(before, Named(batch));
      var answer;
      kr, answer := Send(Give(f, batch));
      var final := if kr.Success? then FirmwareOwned else if kr.Timeout? then Ambiguous else HostPrepared;
      GiveOutcome(before, held, Named(batch), f, final);
      SameAligned(before, WithOwnership(before, Named(batch), final));
      SetOwnership(batch, final);
      if kr.Timeout? {
        SetFatal(GiveTimeout);
      }
    }

    method ReleasePrepared(handles: seq<nat>, f: Function, phase: Phase, ghost base: seq<FwPage>)
      requires Consistent() && fPages == Stage(handles, f, phase, 0, 0) + base
      modifies this`fPages, this`fTrackedPages, this`released
      ensures old(released) <= released
      ensures Consistent() && fPages == base
    {
      var i := 0;
      while i < |handles|
        invariant i <= |handles|
        invariant Consistent() && fPages == Stage(handles[i..], f, phase, 0, 0) + base
        invariant old(released) <= released
      {
        ghost var k := |handles| - 1 - i;
        StagePop(handles[i..], f, phase, base);
        assert handles[i..][1..] == handles[i + 1..];
        ReleaseOne(handles[i], k);
        i := i + 1;
      }
    }

    /** Unmaps the host's page at position k. */
    method ReleaseOne(a: nat, ghost k: nat)
      requires Consistent() && k < |fPages|
      requires fPages[k].dmaAddress == a && fPages[k].ownership.HostPrepared?
      modifies this`fPages, this`fTrackedPages, this`released
      ensures released == old(released) + [Release(a, false)]
      ensures Consistent() && fPages == old(fPages)[..k] + old(fPages)[k + 1..]
    {
      DropOne(fPages, k);
      DropKeepsMapped(fPages, {a});
      CoveredAfterDrop(fPages, cmd.held, {a});
      BackedAfterDrop(fPages, cmd.held, {a});
      assert cmd.held - {a} == cmd.held;
      ReleasePage(a);
    }

    /** All pageCount pages are prepared, or none stays. */
    method AllocateAll(f: Function, phase: Phase, pageCount: nat) returns (kr: Kr, handles: seq<nat>)
      requires Consistent()
      modifies this`fPages, this`fTrackedPages, this`released, this`asks
      ensures old(released) <= released && old(asks) <= asks <= old(asks) + pageCount
      ensures kr.Success? ==> asks == old(asks) + pageCount
      ensures Consistent()
      ensures kr.Success? || Refused(kr)
      ensures kr.Success? <==> forall n :: old(asks) <= n < asks ==> host(n).Granted?
      ensures kr.Success? ==> |handles| == pageCount && fPages == Stage(handles, f, phase, 0, 0) + old(fPages)
      ensures Refused(kr) ==> fPages == old(fPages)
    {
      ghost var base := fPages;
      handles := [];
      while |handles| < pageCount
        invariant |handles| <= pageCount
        invariant Consistent() && fPages == Stage(handles, f, phase, 0, 0) + base
        invariant old(released) <= released && asks == old(asks) + |handles|
        invariant forall n :: old(asks) <= n < asks ==> host(n).Granted?
      {
        var a;
        kr, a := AllocatePage(f, phase);
        if !kr.Success? {
          ReleasePrepared(handles, f, phase, base);
          return kr, [];
        }
        StagePush(handles, a, f, phase, base);
        handles := handles + [a];
      }
      kr := Success;
    }

    /** Reads the ownership of the tracked page at address a; k is its position. */
    method OwnershipOf(a: nat, ghost k: nat) returns (o: Ownership)
      requires Distinct(fPages) && k < |fPages| && fPages[k].dmaAddress == a
      ensures o == fPages[k].ownership
    {
      var i := 0;
      while fPages[i].dmaAddress != a
        invariant i <= k
        decreases k - i
      {
        i := i + 1;
      }
      o := fPages[i].ownership;
    }

    /** One step of a trim: the page of handle i goes if it is still the host's. */
    method TrimOne(handles: seq<nat>, f: Function, phase: Phase, ghost start: nat, ghost kept: nat,
                   ghost base: seq<FwPage>, i: nat)
      requires start <= i < |handles| && start <= kept <= |handles|
      requires Consistent()
      requires fPages == Unkept(handles, f, phase, kept, i) + (Stage(handles[..kept], f, phase, start, kept) + base)
      modifies this`fPages, this`fTrackedPages, this`released
      ensures old(released) <= released
      ensures Consistent()
      ensures fPages == Unkept(handles, f, phase, kept, i + 1) + (Stage(handles[..kept], f, phase, start, kept) + base)
    {
      ghost var k := |handles| - 1 - i;
      TrimStep(handles, f, phase, start, kept, base, i);
      var o := OwnershipOf(handles[i], k);
      if o.HostPrepared? {
        ReleaseOne(handles[i], k);
      }
    }

    /** After a failed batch, unmaps every page that is still the host's and keeps the others. */
    method Trim(handles: seq<nat>, f: Function, phase: Phase, start: nat, ghost kept: nat,
                ghost base: seq<FwPage>)
      requires start <= kept <= |handles|
      requires Consistent() && fPages == Stage(handles, f, phase, start, kept) + base
      modifies this`fPages, this`fTrackedPages, this`released
      ensures old(released) <= released
      ensures Consistent() && fPages == Stage(handles[..kept], f, phase, start, kept) + base
    {
      hide Covered, Backed, Distinct, Aligned, Stage, Unkept;
      ghost var keep := Stage(handles[..kept], f, phase, start, kept) + base;
      var i := start;
      TrimEnds(handles, f, phase, start, kept, base);
      while i < |handles|
        invariant start <= i <= |handles|
        invariant Consistent() && fPages == Unkept(handles, f, phase, kept, i) + keep
        invariant old(released) <= released
      {
        TrimOne(handles, f, phase, start, kept, base, i);
        i := i + 1;
      }
    }

    method NotifyAllocationFailure(f: Function)
      requires cmd.Valid()
      modifies cmd
      ensures cmd.Valid() && Later(old(Now()), Now()) && cmd.held == old(cmd.held)
      ensures cmd.log == old(cmd.log) + [old(Next(AllocationFailed(f)))] && Stumbled(old(Now()))
    {
      hide Channel.Valid, Later;
      var kr, answer := Send(AllocationFailed(f));
      assert Setback(cmd.log[|old(cmd.log)|]);
    }

    /** One batch of a GIVE, from handle start to handle end, and the cleanup if it fails. */
    method GiveNext(handles: seq<nat>, f: Function, phase: Phase, start: nat, end: nat,
                    ghost base: seq<FwPage>)
      returns (kr: Kr, ghost kept: nat)
      requires start < end <= |handles| && end - start <= MAX_BATCH && Consistent() && cmd.Valid()
      requires fPages == Stage(handles, f, phase, start, start) + base
      modifies this, cmd
      ensures Consistent() && cmd.Valid() && GaveSince(old(Now()), Now()) && asks == old(asks) + 1
      ensures start <= kept <= |handles| && (kr.Success? ==> kept == end)
      ensures cmd.held == Lending(old(cmd.held), Named(handles[start..kept]), f)
      ensures kr.Success? ==> fPages == Stage(handles, f, phase, end, end) + base && fFatal == old(fFatal)
      ensures !kr.Success? ==> fPages == Stage(handles[..kept], f, phase, start, kept) + base
      ensures !kr.Success? ==> fFatal == (old(fFatal) || kept > 0) && Stumbled(old(Now()))
      ensures kr.Success? <==> Granting(host, old(Now()), Now())
    {
      hide GaveSince, Lending, Channel.Valid, Granting;
      StageNamed(handles, f, phase, start, end, base, fPages);
      kept := end;
      kr := GiveBatch(handles[start..end], f);
      if !kr.Success? {
        kept := if kr.Timeout? then end else start;
        ghost var given := Now();
        Trim(handles, f, phase, start, kept, base);
        GaveOne(given, Now(), Heard(f));
        GaveTrans(old(Now()), given, Now());
        StillNotGranted(host, old(Now()), given, Now());
        LendNone(old(cmd.held), handles[start..start], f);
        if start > 0 {
          SetFatal(Protocol);
        }
      }
    }

    /** Hands the prepared pages over in batches; a failed batch keeps only what may be firmware's. */
    method GiveAll(handles: seq<nat>, f: Function, phase: Phase, ghost base: seq<FwPage>)
      returns (kr: Kr, ghost own: nat, ghost kept: nat)
      requires Consistent() && cmd.Valid()
      requires fPages == Stage(handles, f, phase, 0, 0) + base
      modifies this, cmd
      ensures Consistent() && cmd.Valid() && GaveSince(old(Now()), Now())
      ensures handles != [] ==> asks > old(asks)
      ensures own <= kept <= |handles| && fPages == Stage(handles[..kept], f, phase, own, kept) + base
      ensures cmd.held == Lending(old(cmd.held), Named(handles[..kept]), f)
      ensures kr.Success? ==> own == |handles|
      ensures fFatal == (old(fFatal) || (!kr.Success? && kept > 0))
      ensures !kr.Success? ==> Stumbled(old(Now()))
      ensures kr.Success? <==> Granting(host, old(Now()), Now())
    {
      hide GaveSince, Lending, Named, Channel.Valid, Hampered, Granting;
      GrantingSame(host, Now(), Now());
      GaveOne(Now(), Now(), Heard(f));
      LendNone(cmd.held, handles[..0], f);
      var start := 0;
      while start < |handles|
        invariant start <= |handles|
        invariant Consistent() && cmd.Valid() && GaveSince(old(Now()), Now()) && (start > 0 ==> asks > old(asks))
        invariant fPages == Stage(handles, f, phase, start, start) + base
        invariant cmd.held == Lending(old(cmd.held), Named(handles[..start]), f)
        invariant fFatal == old(fFatal) && Granting(host, old(Now()), Now())
      {
        ghost var mark := Now();
        var count := |handles| - start;
        if count > MAX_BATCH {
          count := MAX_BATCH;
        }
        kr, kept := GiveNext(handles, f, phase, start, start + count, base);
        GaveKept(old(Now()), mark);
        GaveKept(mark, Now());
        GrantingJoin(host, old(Now()), mark, Now());
        GaveTrans(old(Now()), mark, Now());
        StumbledSince(old(Now()), mark);
        LendMore(old(cmd.held), handles, start, kept, f);
        own := start;
        if !kr.Success? {
          return;
        }
        start := start + count;
      }
      assert handles[..|handles|] == handles;
      kr, own, kept := Success, |handles|, |handles|;
    }

    /**
     * GIVE pageCount pages. Whatever happens on the way, the pages that stay on the list are
     * exactly those that firmware may now access; the fault is raised exactly if some stay
     * after a failure. Before anything was given, a failure is reported to firmware if the caller
     * wants it so; after that only GIVE commands are sent. It succeeds exactly if no more than 65536 pages are tracked then, the host
     * refuses nothing and firmware grants every GIVE.
     */
    method GivePages(f: Function, pageCount: nat, phase: Phase, notifyFailure: bool) returns (kr: Kr)
      requires Settled() && cmd.Valid()
      modifies this, cmd
      ensures Settled() && cmd.Valid() && Later(old(Now()), Now())
      ensures Grown(old(fPages), fPages, old(cmd.held), cmd.held, f)
      ensures forall i :: 0 <= i < |fPages| - |old(fPages)| ==>
                fPages[i].owner == f && fPages[i].phase == phase
      ensures kr.Success? ==>
                && |fPages| == |old(fPages)| + pageCount
                && (forall i :: 0 <= i < pageCount ==> OwnedBy(fPages[i], f))
      ensures !kr.Success? && notifyFailure ==> Stumbled(old(Now()))
      ensures kr.Success? || asks > old(asks) + 1 + pageCount ==> GaveSince(old(Now()), Now())
      ensures !kr.Success? && asks <= old(asks) + 1 + pageCount ==>
                cmd.log == old(cmd.log) + if notifyFailure then [old(Next(AllocationFailed(f)))] else []
      ensures kr.Success? <==> pageCount + |old(fPages)| <= 65536 && Granting(host, old(Now()), Now())
      ensures fFatal == (old(fFatal) || (!kr.Success? && fPages != old(fPages)))
    {
      hide Later, GaveSince, Starved, Grown, Channel.Valid, Hampered, Granting;
      LaterSame(Now(), 0);
      GaveOne(Now(), Now(), Heard(f));
      GrantingSame(host, Now(), Now());
      NotGrown(fPages, cmd.held, f);
      if pageCount == 0 {
        return Success;
      }
      if pageCount > MAX_TRACKED || fTrackedPages > MAX_TRACKED - pageCount {
        if notifyFailure {
          NotifyAllocationFailure(f);
        }
        return NoResources;
      }
      var arrays := Ask();
      ghost var asked := Now();
      GrantingOne(host, old(Now()), asked, Heard(f));
      GaveOne(old(Now()), asked, Heard(f));
      if arrays.Granted? {
        kr := GivePrepared(f, pageCount, phase, notifyFailure);
        if GaveSince(asked, Now()) { GaveTrans(old(Now()), asked, Now()); }
      } else {
        if notifyFailure {
          NotifyAllocationFailure(f);
        } else {
          LaterSame(Now(), 0);
        }
        kr := NoMemory;
      }
      LaterTrans(old(Now()), asked, Now());
      LaterKept(asked, Now());
      GrantingJoin(host, old(Now()), asked, Now());
      StumbledSince(old(Now()), asked);
    }

    /** Prepares all pages, then gives them. */
    method GivePrepared(f: Function, pageCount: nat, phase: Phase, notifyFailure: bool) returns (kr: Kr)
      requires Settled() && cmd.Valid() && 0 < pageCount && |fPages| + pageCount <= MAX_TRACKED
      modifies this, cmd
      ensures Settled() && cmd.Valid() && Later(old(Now()), Now())
      ensures Grown(old(fPages), fPages, old(cmd.held), cmd.held, f)
      ensures forall i :: 0 <= i < |fPages| - |old(fPages)| ==>
                fPages[i].owner == f && fPages[i].phase == phase
      ensures kr.Success? ==>
                && |fPages| == |old(fPages)| + pageCount
                && (forall i :: 0 <= i < pageCount ==> OwnedBy(fPages[i], f))
      ensures !kr.Success? && notifyFailure ==> Stumbled(old(Now()))
      ensures kr.Success? || asks > old(asks) + pageCount ==> GaveSince(old(Now()), Now())
      ensures !kr.Success? && asks <= old(asks) + pageCount ==>
                cmd.log == old(cmd.log) + if notifyFailure then [old(Next(AllocationFailed(f)))] else []
      ensures kr.Success? <==> Granting(host, old(Now()), Now())
      ensures fFatal == (old(fFatal) || (!kr.Success? && fPages != old(fPages)))
    {
      hide Later, GaveSince, Starved, Channel.Valid, Lending, Grown, Hampered, Granting, Stage, Covered, Backed, Distinct, Aligned, Lent;
      ghost var base := fPages;
      NotGrown(fPages, cmd.held, f);
      var handles;
      kr, handles := AllocateAll(f, phase, pageCount);
      ghost var prepared := Now();
      LaterQuiet(old(Now()), prepared);
      OnlyAsked(host, old(Now()), prepared);
      if !kr.Success? {
        if notifyFailure {
          NotifyAllocationFailure(f);
          LaterTrans(old(Now()), prepared, Now());
          StumbledSince(old(Now()), prepared);
          LaterKept(prepared, Now());
          GrantingJoin(host, old(Now()), prepared, Now());
        }
        return;
      }
      ghost var own, kept;
      kr, own, kept := GiveAll(handles, f, phase, base);
      StageGrown(handles[..kept], f, phase, own, kept, base, old(cmd.held), cmd.held);
      GaveOne(old(Now()), prepared, Heard(f));
      GaveTrans(old(Now()), prepared, Now());
      GaveIsLater(prepared, Now());
      StageLent(handles[..kept], f, phase, own, base, old(fFatal), kr.Success?);
      LaterTrans(old(Now()), prepared, Now());
      LaterKept(prepared, Now());
      GrantingJoin(host, old(Now()), prepared, Now());
      StumbledSince(old(Now()), prepared);
    }

    method MarkFunctionAmbiguous(f: Function)
      requires Tracked() && BackedBut(fPages, cmd.held, f)
      modifies this`fPages
      ensures Consistent() && fPages == Doubted(old(fPages), f)
    {
      ghost var before := fPages;
      var i := 0;
      while i < |fPages|
        invariant i <= |fPages| == |before|
        invariant forall k :: 0 <= k < i ==> fPages[k] == Doubted(before, f)[k]
        invariant forall k :: i <= k < |before| ==> fPages[k] == before[k]
      {
        if OwnedBy(fPages[i], f) {
          fPages := fPages[i := fPages[i].(ownership := Ambiguous)];
        }
        i := i + 1;
      }
      assert fPages == Doubted(before, f);
      CoveredWhenDoubted(before, cmd.held, f);
    }

    /** Doubts every page that firmware owned for f, and records why. */
    method Doubt(f: Function, fault: Fault)
      requires SettledBut(f)
      modifies this`fPages, this`fFatal, this`fFault
      ensures Settled() && fPages == Doubted(old(fPages), f) && fFatal && fFault == fault
    {
      hide Covered, Backed, BackedBut, Distinct, Aligned;
      MarkFunctionAmbiguous(f);
      SetFatal(fault);
    }

    method FindPage(a: nat, f: Function) returns (r: Option<FwPage>)
      ensures r.Some? ==> exists k :: 0 <= k < |fPages| && fPages[k] == r.value
      ensures r.Some? ==> r.value.dmaAddress == a && r.value.owner == f
      ensures r.None? ==> forall k :: 0 <= k < |fPages| ==> !(fPages[k].dmaAddress == a && fPages[k].owner == f)
    {
      var i := 0;
      while i < |fPages|
        invariant i <= |fPages|
        invariant forall k :: 0 <= k < i ==> !(fPages[k].dmaAddress == a && fPages[k].owner == f)
      {
        if fPages[i].dmaAddress == a && fPages[i].owner == f {
          return Some(fPages[i]);
        }
        i := i + 1;
      }
      r := None;
    }

    /** Accepts a list exactly if it names distinct, aligned pages that firmware owned for f. */
    method ValidateReply(f: Function, given: seq<nat>) returns (ok: bool)
      requires Distinct(fPages)
      ensures ok <==> NamesOwned(fPages, given, f)
      ensures ok ==> forall i :: 0 <= i < |given| ==> given[i] != 0 && given[i] % 4096 == 0
    {
      var i := 0;
      while i < |given|
        invariant i <= |given| && NamesOwned(fPages, given[..i], f)
      {
        var ownable := ValidateOne(f, given[i]);
        if !ownable {
          return false;
        }
        var j := 0;
        while j < i
          invariant j <= i
          invariant forall k :: 0 <= k < j ==> given[k] != given[i]
        {
          if given[j] == given[i] {
            return false;
          }
          j := j + 1;
        }
        assert given[..i + 1] == given[..i] + [given[i]];
        i := i + 1;
      }
      assert given[..i] == given;
      ok := true;
    }

    /** One address of a reply. */
    method ValidateOne(f: Function, a: nat) returns (ok: bool)
      requires Distinct(fPages)
      ensures ok <==> a != 0 && a % 4096 == 0 && NamesOne(fPages, a, f)
    {
      var page := FindPage(a, f);
      ok := PageAligned(a) && page.Some? && page.value.ownership.FirmwareOwned?;
    }

    /** One page comes back: it is marked returned and unmapped. */
    method ReleaseReturned(a: nat, ghost k: nat)
      requires Tracked() && k < |fPages| && fPages[k].dmaAddress == a
      requires a !in cmd.held
      modifies this`fPages, this`fTrackedPages, this`released
      ensures released == old(released) + [Release(a, false)]
      ensures Tracked() && fPages == Drop(old(fPages), {a})
    {
      hide Covered, Distinct, Aligned;
      ghost var before := fPages;
      SetOwnership([a], Returned);
      assert Named([a]) == {a};
      SameAddresses(before, fPages);
      DropRewritten(before, {a}, Returned);
      DropKeepsMapped(before, {a});
      CoveredAfterDrop(before, cmd.held, {a});
      DropOne(before, k);
      ReleasePage(a);
    }

    /** Unmaps the pages of a validated reply. */
    method ReleaseGiven(given: seq<nat>, ghost f: Function)
      requires Tracked() && NamesOwned(fPages, given, f) && cmd.held.Keys !! Named(given)
      modifies this`fPages, this`fTrackedPages, this`released
      ensures released == old(released) + Unmapped(given)
      ensures Tracked() && fPages == Drop(old(fPages), Named(given))
    {
      ghost var before := fPages;
      var i := 0;
      NoneNamed(before);
      while i < |given|
        invariant i <= |given|
        invariant Tracked() && fPages == Drop(before, Named(given[..i]))
        invariant released == old(released) + Unmapped(given[..i])
      {
        hide Covered, Distinct, Aligned, Drop, Lent;
        ghost var m := GivenStep(before, given, f, i);
        ReleaseReturned(given[i], m);
        assert Unmapped(given[..i + 1]) == Unmapped(given[..i]) + [Release(given[i], false)];
        i := i + 1;
      }
      assert given[..i] == given;
    }

    /**
     * TAKE: all or nothing. Either exactly the pages that the reply lists come back, or none
     * does; a timeout or a malformed reply leaves all pages of the function in doubt. It fails
     * only for want of memory, by firmware's answer, or with the fault raised.
     */
    method TakePages(f: Function, requested: nat) returns (kr: Kr, returned: nat, ghost given: seq<nat>)
      requires Settled() && cmd.Valid()
      modifies this, cmd
      ensures Settled() && cmd.Valid() && TookSince(old(Now()), Now())
      ensures requested == 0 || requested > 512 ==> kr.BadArgument? && asks == old(asks) && cmd.log == old(cmd.log)
      ensures 0 < requested <= MAX_BATCH && host(old(asks)).Granted? ==>
                && cmd.log == old(cmd.log) + [old(Next(Take(f, requested)))]
                && kr == TakeEnds(old(Next(Take(f, requested))).kr, old(fPages), f, requested, old(Answered(Take(f, requested))))
      ensures 0 < requested <= MAX_BATCH && !host(old(asks)).Granted? ==>
                kr.NoMemory? && cmd.log == old(cmd.log) && fFatal == old(fFatal) && Starved(old(Now()))
      ensures kr.Success? ==> TakenBack(requested, old(Answered(Take(f, requested))), returned, given)
      ensures kr.Success? ==>
                && fPages == Drop(old(fPages), Named(given)) && cmd.held == old(cmd.held) - Named(given)
                && NamesOwned(old(fPages), given, f) && returned == |given| <= requested
                && released == old(released) + Unmapped(given) && fFatal == old(fFatal)
      ensures !kr.Success? ==> returned == 0 && released == old(released)
      ensures !kr.Success? ==>
                || (fPages == old(fPages) && cmd.held == old(cmd.held) && fFatal == old(fFatal) && !kr.Timeout?)
                || (fPages == Doubted(old(fPages), f) && fFatal)
      ensures kr.Timeout? ==> LastEnded(old(Now()), Now(), kr)
      ensures !kr.Success? && 0 < requested <= MAX_BATCH ==>
                fFatal || Starved(old(Now())) || LastEnded(old(Now()), Now(), kr)
    {
      hide TookSince, Starved, LastEnded, Accepted, Channel.Valid, TakeEnds, TakenBack;
      LaterSame(Now(), 0);
      returned, given := 0, [];
      if requested == 0 || requested > MAX_BATCH {
        return BadArgument, returned, given;
      }
      var buffers := Ask();
      ghost var asked := Now();
      if !buffers.Granted? {
        LaterSame(old(Now()), 1);
        return NoMemory, returned, given;
      }
      kr, returned, given := TakeChecked(f, requested);
      TookOne(old(Now()), Now(), old(Next(Take(f, requested))));
      if LastEnded(asked, Now(), kr) {
        EndedSince(old(Now()), asked, Now(), kr);
      }
    }

    method TakeChecked(f: Function, requested: nat) returns (kr: Kr, returned: nat, ghost given: seq<nat>)
      requires Settled() && cmd.Valid()
      modifies this`fPages, this`fTrackedPages, this`released, this`fFatal, this`fFault, cmd
      ensures Settled() && cmd.Valid()
      ensures cmd.log == old(cmd.log) + [old(Next(Take(f, requested)))]
      ensures kr == TakeEnds(old(Next(Take(f, requested))).kr, old(fPages), f, requested, old(Answered(Take(f, requested))))
      ensures kr.Success? ==> TakenBack(requested, old(Answered(Take(f, requested))), returned, given)
      ensures kr.Success? ==>
                && fPages == Drop(old(fPages), Named(given)) && cmd.held == old(cmd.held) - Named(given)
                && NamesOwned(old(fPages), given, f) && returned == |given| <= requested
                && released == old(released) + Unmapped(given) && fFatal == old(fFatal)
      ensures !kr.Success? ==> returned == 0 && released == old(released)
      ensures !kr.Success? ==>
                || (fPages == old(fPages) && cmd.held == old(cmd.held) && fFatal == old(fFatal) && !kr.Timeout?)
                || (fPages == Doubted(old(fPages), f) && fFatal)
      ensures !kr.Success? ==> fFatal || LastEnded(old(Now()), Now(), kr)
      ensures kr.Timeout? ==> LastEnded(old(Now()), Now(), kr)
    {
      hide Channel.Valid, Covered, Backed, BackedBut, Distinct, Aligned, Lent, Drop, Ending, GivesBack;
      returned, given := 0, [];
      var answer;
      kr, answer := Send(Take(f, requested));
      HeldAfterTake(fPages, old(cmd.held), f, requested, kr, answer);
      if kr.Timeout? {
        Doubt(f, TakeTimeout);
        return;
      }
      if !kr.Success? {
        return;
      }
      var count, listed := answer.count, Listed(answer, requested);
      var valid := false;
      if count <= requested {
        valid := ValidateReply(f, listed[..count]);
      }
      if !valid {
        Doubt(f, Protocol);
        return IOError, 0, [];
      }
      returned, given := count, listed[..count];
      AcceptedIsReturned(fPages, old(cmd.held), f, requested, answer);
      BackedAfterDrop(fPages, old(cmd.held), Named(given));
      LentAfterDrop(fPages, Named(given), fFatal);
      ReleaseGiven(listed[..count], f);
    }

    /** One step of the release-all scan: looks at position i and returns the next position. */
    method ReleaseIfOwned(f: Function, i: nat, ghost before: seq<FwPage>, ghost k: nat) returns (next: nat)
      requires Tracked() && HeldFor(cmd.held, f) == {}
      requires k < |before| && i == |WithoutOwned(before[..k], f)|
      requires fPages == WithoutOwned(before[..k], f) + before[k..]
      modifies this`fPages, this`fTrackedPages, this`released
      ensures old(released) <= released && |released| + |fPages| == |old(released)| + |old(fPages)|
      ensures Tracked()
      ensures next == |WithoutOwned(before[..k + 1], f)|
      ensures fPages == WithoutOwned(before[..k + 1], f) + before[k + 1..]
    {
      WithoutOwnedStep(before, k, f, fPages, i);
      if OwnedBy(fPages[i], f) {
        DropOne(fPages, i);
        NoneHeld(fPages, cmd.held, f, i);
        ReleaseReturned(fPages[i].dmaAddress, i);
        next := i;
      } else {
        next := i + 1;
      }
    }

    /** Unmaps every page that the driver has down as firmware's for f, which holds none any more. */
    method ReleaseAllForFunction(f: Function)
      requires SettledBut(f) && HeldFor(cmd.held, f) == {}
      modifies this`fPages, this`fTrackedPages, this`released
      ensures old(released) <= released && |released| + |fPages| == |old(released)| + |old(fPages)|
      ensures Settled()
      ensures fPages == WithoutOwned(old(fPages), f)
    {
      hide Covered, Backed, BackedBut, Distinct, Aligned, Lent, WithoutOwned, OwnedBy, HeldFor;
      ghost var before := fPages;
      WithoutNone(before, f);
      var i := 0;
      ghost var k := 0;
      while i < |fPages|
        invariant k <= |before| && i == |WithoutOwned(before[..k], f)|
        invariant fPages == WithoutOwned(before[..k], f) + before[k..]
        invariant Tracked() && old(released) <= released && |released| + |fPages| == |old(released)| + |before|
        decreases |before| - k
      {
        i := ReleaseIfOwned(f, i, before, k);
        k := k + 1;
      }
      assert before[..k] == before && fPages == WithoutOwned(before, f);
      LentWithoutOwned(before, f, fFatal);
      BackedWithoutOwned(before, cmd.held, f);
    }

    /** Takes `remaining` pages back in batches of at most MAX_BATCH; `gone` is what came back. */
    method TakeAll(f: Function, remaining: nat) returns (kr: Kr, ghost gone: set<nat>)
      requires Settled() && cmd.Valid()
      modifies this, cmd
      ensures Settled() && cmd.Valid() && TookSince(old(Now()), Now())
      ensures kr.Success? ==>
                && OwnedCount(fPages, f) + remaining == OwnedCount(old(fPages), f) && fFatal == old(fFatal)
                && fPages == Drop(old(fPages), gone) && cmd.held == old(cmd.held) - gone
      ensures !kr.Success? ==> Stumbled(old(Now()))
      ensures old(Returnable()) && remaining <= OwnedCount(old(fPages), f) ==> kr.Success? || Starved(old(Now()))
      ensures old(fFatal) ==> fFatal
      ensures forall g :: g != f ==> OwnedCount(fPages, g) == OwnedCount(old(fPages), g)
    {
      hide TookSince, Starved, Channel.Valid, Manager.Settled, Manager.Excused, Hampered, Generous, TimedOut;
      LaterSame(Now(), 0);
      var left := remaining;
      kr, gone := Success, {};
      DropNone(fPages, {});
      while left > 0
        invariant 0 <= left <= remaining && Settled() && cmd.Valid() && TookSince(old(Now()), Now())
        invariant kr.Success? && fFatal == old(fFatal) && (old(Returnable()) ==> Returnable())
        invariant OwnedCount(fPages, f) + (remaining - left) == OwnedCount(old(fPages), f)
        invariant forall g :: g != f ==> OwnedCount(fPages, g) == OwnedCount(old(fPages), g)
        invariant fPages == Drop(old(fPages), gone) && cmd.held == old(cmd.held) - gone
      {
        ghost var mark := Now();
        var returned;
        ghost var given;
        kr, returned, given := TakeBatch(f, if left > MAX_BATCH then MAX_BATCH else left);
        TookTrans(old(Now()), mark, Now());
        if !kr.Success? {
          ExcusedSince(old(Now()), mark, kr);
          ExcusedStumbles(old(Now()), kr);
          return;
        }
        DropDrop(old(fPages), gone, Named(given));
        gone := gone + Named(given);
        if returned == 0 {
          GiveUp(f, Protocol);
          kr := IOError;
          return;
        }
        left := left - returned;
      }
    }

    /** Firmware returned nothing although it had said that it would. */
    method GiveUp(f: Function, fault: Fault)
      requires Settled()
      modifies this`fPages, this`fFatal, this`fFault
      ensures Settled() && fFatal && fFault == fault && |fPages| == |old(fPages)|
      ensures forall a :: Stumbled(a)
      ensures forall g :: g != f ==> OwnedCount(fPages, g) == OwnedCount(old(fPages), g)
    {
      ghost var doubted := fPages;
      SettledAnyway(f);
      Doubt(f, fault);
      forall g ensures g != f ==> OwnedCount(fPages, g) == OwnedCount(doubted, g) {
        CountDoubted(doubted, f, g);
      }
    }

    /** One TAKE of up to `batch` pages, by the counts: what comes back is gone from the function's
        count. Firmware that gives pages back when asked does so here. */
    method TakeBatch(f: Function, batch: nat) returns (kr: Kr, returned: nat, ghost given: seq<nat>)
      requires Settled() && cmd.Valid() && 0 < batch <= MAX_BATCH
      modifies this, cmd
      ensures Settled() && cmd.Valid() && TookSince(old(Now()), Now())
      ensures kr.Success? ==>
                && returned <= batch && fPages == Drop(old(fPages), Named(given))
                && cmd.held == old(cmd.held) - Named(given) && fFatal == old(fFatal)
                && |fPages| + returned == |old(fPages)| && |cmd.log| == |old(cmd.log)| + 1
                && OwnedCount(fPages, f) + returned == OwnedCount(old(fPages), f)
      ensures kr.Success? && returned > 0 ==>
                forall from: nat :: from <= |old(cmd.log)| ==> Row(cmd.script, from, cmd.log, 0)
      ensures kr.Success? && returned == 0 ==>
                forall from: nat, n: nat :: from <= |old(cmd.log)| && Row(cmd.script, from, old(cmd.log), n) ==>
                  Row(cmd.script, from, cmd.log, n + 1)
      ensures forall g :: g != f ==> OwnedCount(fPages, g) == OwnedCount(old(fPages), g)
      ensures !kr.Success? ==> Excused(old(Now()), kr) && |fPages| == |old(fPages)| && (old(fFatal) ==> fFatal)
      ensures !kr.Success? && kr.Timeout? ==> LastEnded(old(Now()), Now(), Timeout)
      ensures old(Returnable()) && OwnedCount(old(fPages), f) > 0 ==>
                !fFatal && (if kr.Success? then Returnable() && returned > 0 else Starved(old(Now())))
    {
      hide Row, TookSince, Channel.Valid, Generous, TimedOut, LastEnded, Starved, TakeEnds, Manager.Settled;
      ghost var before := fPages;
      DistinctNow();
      if Returnable() && OwnedCount(fPages, f) > 0 {
        NextTakeReturns(f, batch);
      }
      kr, returned, given := TakePages(f, batch);
      TimedOutNext(old(cmd.log), old(Next(Take(f, batch))));
      if kr.Success? {
        forall from: nat | from <= |old(cmd.log)| ensures returned > 0 ==> Row(cmd.script, from, cmd.log, 0) {
          RowNext(cmd.script, from, old(cmd.log), old(Next(Take(f, batch))));
        }
        forall from: nat, n: nat | from <= |old(cmd.log)| && returned == 0 && Row(cmd.script, from, old(cmd.log), n)
          ensures Row(cmd.script, from, cmd.log, n + 1)
        {
          RowNext(cmd.script, from, old(cmd.log), old(Next(Take(f, batch))));
        }
      }
      TakeCounted(before, fPages, f, given, kr.Success?);
    }

    lemma NeverTooMany()
      requires Settled()
      ensures |fPages| <= 65536
    {
    }

    lemma DistinctNow()
      requires Settled()
      ensures Distinct(fPages)
    {
    }

    lemma SettledAnyway(f: Function)
      requires Settled()
      ensures SettledBut(f)
    {
    }

    /**
     * One page request. When it succeeds, the number of pages that firmware owns for its function
     * changes by exactly numPages (or drops to zero for release-all), and so does what firmware
     * holds; no request, whatever its outcome, changes the count of another function. Only a
     * release-all request passes for a release-all.
     */
    method ProcessRequest(request: PageRequest) returns (kr: Kr)
      requires Settled() && cmd.Valid()
      modifies this, cmd
      ensures Settled() && cmd.Valid()
      ensures request.releaseAll ==>
                && kr.Success? && cmd.log == old(cmd.log) + [Heard(request.owner)]
                && fPages == WithoutOwned(old(fPages), request.owner)
                && cmd.held == old(cmd.held) - HeldFor(old(cmd.held), request.owner)
      ensures !request.releaseAll ==> Later(old(Now()), Now())
      ensures !request.releaseAll && request.numPages > 0 ==>
                Grown(old(fPages), fPages, old(cmd.held), cmd.held, request.owner)
      ensures !request.releaseAll && request.numPages > 0 ==>
                (kr.Success? <==> request.numPages + |old(fPages)| <= 65536 && Granting(host, old(Now()), Now()))
      ensures !request.releaseAll && request.numPages < 0 ==> TookSince(old(Now()), Now())
      ensures !request.releaseAll && -0x8000_0000 < request.numPages < 0 && old(Returnable())
              && -request.numPages <= OwnedCount(old(fPages), request.owner) ==>
                kr.Success? || Starved(old(Now()))
      ensures Served(old(Now()), Now(), if request.releaseAll then [request.owner] else [])
      ensures kr.Success? ==>
                OwnedCount(fPages, request.owner) ==
                if request.releaseAll then 0 else OwnedCount(old(fPages), request.owner) + request.numPages
      ensures forall g :: g != request.owner ==> OwnedCount(fPages, g) == OwnedCount(old(fPages), g)
      ensures kr.Success? ==> fFatal == old(fFatal)
      ensures !kr.Success? ==> Stumbled(old(Now()))
      ensures old(fFatal) ==> fFatal
      ensures !request.releaseAll && request.numPages in {0, -0x8000_0000} ==>
                kr.BadArgument? && fFatal && fPages == old(fPages)
    {
      hide Later, TookSince, Served, Channel.Valid, Grown, Granting, Starved, Hampered, Generous, TimedOut;
      ghost var before := fPages;
      var f := request.owner;
      kr := Success;
      if request.releaseAll {
        kr := ServeReleaseAll(f);
      } else if request.numPages > 0 {
        kr := GivePages(f, request.numPages, Runtime, true);
        GrownCounted(before, fPages, old(cmd.held), cmd.held, f, kr.Success?);
        LaterIsServed(old(Now()), Now());
      } else if request.numPages < 0 && request.numPages != -0x8000_0000 {
        ghost var gone;
        kr, gone := TakeAll(f, -request.numPages);
        TookIsLater(old(Now()), Now());
        LaterIsServed(old(Now()), Now());
      } else {
        LaterSame(Now(), 0);
        LaterIsServed(Now(), Now());
        kr := BadArgument;
        SetFatal(MalformedEvent);
        FaultExcuses(old(Now()), kr);
        ExcusedStumbles(old(Now()), kr);
      }
    }

    /** Firmware gave everything up for f: it holds nothing any more, and its pages are unmapped. */
    method ServeReleaseAll(f: Function) returns (kr: Kr)
      requires Settled() && cmd.Valid()
      modifies this`fPages, this`fTrackedPages, this`released, cmd
      ensures Settled() && cmd.Valid() && kr.Success?
      ensures cmd.log == old(cmd.log) + [Heard(f)] && fPages == WithoutOwned(old(fPages), f)
      ensures cmd.held == old(cmd.held) - HeldFor(old(cmd.held), f)
      ensures Served(old(Now()), Now(), [f])
      ensures forall g :: OwnedCount(fPages, g) == if g == f then 0 else OwnedCount(old(fPages), g)
    {
      hide Served, Channel.Valid, Covered, Backed, BackedBut, Distinct, Aligned, Lent;
      ghost var before := fPages;
      cmd.Hear(f);
      LessHeld(fPages, old(cmd.held), HeldFor(old(cmd.held), f), f);
      assert HeldFor(cmd.held, f) == {};
      ReleaseAllForFunction(f);
      ServedOne(old(Now()), f, Now());
      forall g ensures OwnedCount(fPages, g) == if g == f then 0 else OwnedCount(before, g) {
        CountWithoutOwned(before, f, g);
      }
      kr := Success;
    }

    /**
     * The worker's loop over the requests it dequeues: it ends after the first that fails, and
     * `done` of them succeeded. The release-alls in the log are those of these requests, and the
     * accounts are as these requests have them, but for the function of the one that failed.
     */
    method ServeRequests(requests: seq<PageRequest>) returns (done: nat)
      requires Settled() && cmd.Valid()
      modifies this, cmd
      ensures Settled() && cmd.Valid() && done <= |requests|
      ensures Served(old(Now()), Now(), ReleaseAlls(requests[..done]))
      ensures forall g :: done == |requests| || g != requests[done].owner ==>
                OwnedCount(fPages, g) == Accounted(OwnedCount(old(fPages), g), requests[..done], g)
      ensures if done == |requests| then fFatal == old(fFatal) else Stumbled(old(Now()))
      ensures requests == [] ==> Now() == old(Now()) && fPages == old(fPages)
      ensures old(fFatal) ==> fFatal
    {
      hide Served, Later, TookSince, Channel.Valid, Manager.Settled, Grown, WithoutOwned, OwnedCount, Hampered;
      LaterSame(Now(), 0);
      LaterIsServed(Now(), Now());
      done := 0;
      while done < |requests|
        invariant Settled() && cmd.Valid() && done <= |requests|
        invariant Served(old(Now()), Now(), ReleaseAlls(requests[..done]))
        invariant forall g :: OwnedCount(fPages, g) == Accounted(OwnedCount(old(fPages), g), requests[..done], g)
        invariant fFatal == old(fFatal)
        invariant done == 0 ==> Now() == old(Now()) && fPages == old(fPages)
      {
        ghost var mark := Now();
        var request := requests[done];
        var kr := ProcessRequest(request);
        ServedTrans(old(Now()), mark, Now(), ReleaseAlls(requests[..done]), if request.releaseAll then [request.owner] else []);
        assert requests[..done + 1][..done] == requests[..done];
        if !kr.Success? {
          assert ReleaseAlls(requests[..done]) + [] == ReleaseAlls(requests[..done]);
          ServedKept(old(Now()), mark, ReleaseAlls(requests[..done]));
          StumbledSince(old(Now()), mark);
          return;
        }
        done := done + 1;
      }
    }

    /** How the QUERY_PAGES sent next ends, and what it asks for. */
    ghost function Query(): (r: (Kr, Function, int32))
      reads cmd`log
    {
      var answer := cmd.script(cmd.log, QueryPages);
      (Ending(cmd.script, cmd.up, cmd.log, QueryPages), answer.owner, Signed(answer.count))
    }

    /** The mark after that query. */
    ghost function Queried(): Mark
      reads this, cmd`log
    {
      Now().(sent := cmd.log + [Sent(QueryPages, Query().0)])
    }

    /**
     * Boot or init provisioning: success gives firmware exactly the pages it asks for, for the
     * function it names; a query for nothing ends there.
     */
    method SatisfyStartupPages(phase: Phase) returns (kr: Kr)
      requires Settled() && cmd.Valid()
      modifies this, cmd
      ensures Settled() && cmd.Valid() && Later(old(Queried()), Now())
      ensures Grown(old(fPages), fPages, old(cmd.held), cmd.held, old(Query()).1)
      ensures kr.Success? ==>
                && old(Query()).0.Success? && old(Query()).2 >= 0
                && |fPages| == |old(fPages)| + old(Query()).2 && fPages[old(Query()).2..] == old(fPages)
      ensures kr.Success? ==> forall i :: 0 <= i < old(Query()).2 ==>
                OwnedBy(fPages[i], old(Query()).1) && fPages[i].phase == phase
      ensures kr.Success? <==>
                && old(Query()).0.Success? && 0 <= old(Query()).2 && old(Query()).2 + |old(fPages)| <= 65536
                && Granting(host, old(Queried()), Now())
      ensures kr.Success? ==> fFatal == old(fFatal)
      ensures old(Query()).0.Success? && old(Query()).2 == 0 ==>
                kr.Success? && Now() == old(Queried()) && cmd.held == old(cmd.held)
    {
      hide Later, Ending, Grown, Genuine, Held, Hampered, Manager.Settled, Granting;
      NotGrown(fPages, cmd.held, Query().1);
      var answer;
      kr, answer := cmd.Exec(QueryPages);
      ghost var queried := Now();
      LaterSame(queried, 0);
      GrantingSame(host, queried, queried);
      NeverTooMany();
      if !kr.Success? {
        return;
      }
      var pages := Signed(answer.count);
      if pages < 0 {
        return IOError;
      }
      if pages > 0 {
        kr := GivePages(answer.owner, pages, phase, false);
        GrownInFront(old(fPages), fPages, old(cmd.held), cmd.held, answer.owner);
      }
    }

    method HasOutstandingPages() returns (r: bool)
      ensures r <==>
              exists i :: 0 <= i < |fPages| && (InFirmwareHands(fPages[i]) || fPages[i].ownership.GivePending?)
    {
      var i := 0;
      while i < |fPages|
        invariant i <= |fPages|
        invariant forall k :: 0 <= k < i ==>
                    !InFirmwareHands(fPages[k]) && !fPages[k].ownership.GivePending?
      {
        if InFirmwareHands(fPages[i]) || fPages[i].ownership.GivePending? {
          return true;
        }
        i := i + 1;
      }
      r := false;
    }

    method HasAmbiguousPages() returns (r: bool)
      ensures r <==>
              exists i :: 0 <= i < |fPages| && (fPages[i].ownership.Ambiguous? || fPages[i].ownership.GivePending?)
    {
      var i := 0;
      while i < |fPages|
        invariant i <= |fPages|
        invariant forall k :: 0 <= k < i ==>
                    !fPages[k].ownership.Ambiguous? && !fPages[k].ownership.GivePending?
      {
        if fPages[i].ownership.Ambiguous? || fPages[i].ownership.GivePending? {
          return true;
        }
        i := i + 1;
      }
      r := false;
    }

    /** The function of the first page that firmware owns, and how many it owns for it. */
    method ScanOwned() returns (first: Option<Function>, count: nat)
      ensures first.None? ==> forall i :: 0 <= i < |fPages| ==> !fPages[i].ownership.FirmwareOwned?
      ensures first.Some? ==> count == OwnedCount(fPages, first.value) && count > 0
    {
      first, count := None, 0;
      var i := 0;
      while i < |fPages|
        invariant i <= |fPages|
        invariant first.None? ==> count == 0 && forall k :: 0 <= k < i ==> !fPages[k].ownership.FirmwareOwned?
        invariant first.Some? ==> count == OwnedCount(fPages[..i], first.value) && count > 0
      {
        assert fPages[..i + 1] == fPages[..i] + [fPages[i]];
        if fPages[i].ownership.FirmwareOwned? {
          if first.None? {
            first := Some(fPages[i].owner);
            CountNone(fPages[..i], fPages[i].owner);
          }
          if fPages[i].owner == first.value {
            count := count + 1;
          }
        }
        if first.Some? {
          CountAppend(fPages[..i], [fPages[i]], first.value);
          assert OwnedCount(fPages[..i + 1], first.value) ==
                 OwnedCount(fPages[..i], first.value) + if OwnedBy(fPages[i], first.value) then 1 else 0;
        }
        i := i + 1;
      }
      assert fPages[..i] == fPages;
    }

    lemma FirstIsInHands()
      requires Settled()
      ensures fPages != [] ==> InFirmwareHands(fPages[0])
    {
    }

    /** With no page in firmware's hands, the list is empty and firmware holds nothing. */
    lemma NothingLeft()
      requires Settled()
      requires forall i :: 0 <= i < |fPages| ==> !InFirmwareHands(fPages[i])
      ensures fPages == [] && cmd.held == map[]
    {
      FirstIsInHands();
      assert Addresses(fPages) == {};
    }

    /** Why a reclaim may fail: the fault is raised, memory was short, or firmware said so. */
    ghost predicate Excused(a: Mark, kr: Kr)
      reads this`fFatal, this`asks, this`released, cmd`log
    {
      fFatal || Starved(a) || LastEnded(a, Now(), kr)
    }

    /** Nothing stands in the way of the pages' return: firmware gives some back whenever it is
        asked, the interface carries the command, and no page is in doubt. */
    ghost predicate Returnable()
      reads this, cmd
    {
      Generous(cmd.script) && cmd.up && !TimedOut(cmd.log) && !fFatal
    }

    /** Then the next TAKE for a function that owns a page succeeds and brings back at least one. */
    lemma NextTakeReturns(f: Function, requested: nat)
      requires Settled() && cmd.Valid() && Returnable()
      requires OwnedCount(fPages, f) > 0 && requested > 0
      ensures TakeEnds(Next(Take(f, requested)).kr, fPages, f, requested, Answered(Take(f, requested))).Success?
      ensures Answered(Take(f, requested)).count > 0 && Next(Take(f, requested)).kr.Success?
    {
      hide Genuine, Held, GivesBack, Covered, Aligned, Lent, NamesOwned;
      OwnedIsHeld(fPages, cmd.held, f);
      assert Yields(cmd.script, cmd.log, f, requested);
      ReturnedIsAccepted(fPages, cmd.held, f, requested, Answered(Take(f, requested)));
    }

    /**
     * The rounds of reclaimAll: on success firmware owns no page any more. With a timeout of
     * 2^32-1 the wait never expires; the method then stops after `patience` fruitless rounds in
     * a row and says that the driver is still waiting.
     */
    method ReclaimRounds(timeoutMs: uint32, patience: nat) returns (result: Kr, waiting: bool)
      requires Settled() && cmd.Valid()
      modifies this, cmd
      ensures Settled() && cmd.Valid() && TookSince(old(Now()), Now())
      ensures waiting ==> timeoutMs == 0xFFFF_FFFF && fPages != []
      ensures !waiting && result.Success? ==> forall i :: 0 <= i < |fPages| ==> !fPages[i].ownership.FirmwareOwned?
      ensures !waiting && !result.Success? ==> Excused(old(Now()), result) && fPages != []
      ensures !waiting && result.Timeout? ==>
                LastEnded(old(Now()), Now(), Timeout) || 50 * (|cmd.log| - |old(cmd.log)| - 1) >= timeoutMs
      ensures !waiting && result.Timeout? ==>
                LastEnded(old(Now()), Now(), Timeout) || WaitedOut(cmd.script, |old(cmd.log)|, cmd.log, timeoutMs)
      ensures old(fFatal) ==> fFatal
      ensures result.Success? ==> fFatal == old(fFatal)
      ensures old(Returnable()) ==> !waiting && !fFatal && (result.Success? || Starved(old(Now())))
    {
      hide Row, WaitedOut, TookSince, Starved, LastEnded, Channel.Valid, Generous, TimedOut, Manager.Settled, Manager.Excused;
      LaterSame(Now(), 0);
      NoRow(cmd.script, cmd.log);
      var waited: uint32 := 0;
      var fruitless := 0;
      result, waiting := Success, false;
      while true
        invariant Settled() && cmd.Valid() && TookSince(old(Now()), Now())
        invariant waited == Waited(fruitless) && fFatal == old(fFatal) && |old(cmd.log)| + fruitless <= |cmd.log|
        invariant Row(cmd.script, |old(cmd.log)|, cmd.log, fruitless)
        invariant forall k: nat :: k < fruitless ==> Waited(k) < timeoutMs
        invariant old(Returnable()) ==> Returnable() && fruitless == 0
        invariant timeoutMs != 0xFFFF_FFFF ==> fruitless <= LAST_WAIT
        invariant timeoutMs == 0xFFFF_FFFF ==> fruitless <= patience
        decreases |fPages|, (if timeoutMs == 0xFFFF_FFFF then patience else LAST_WAIT) - fruitless
      {
        var first, count := ScanOwned();
        if first.None? {
          return Success, false;
        }
        if count > MAX_BATCH {
          count := MAX_BATCH;
        }
        ghost var before, mark := fPages, Now();
        var returned;
        ghost var given;
        result, returned, given := TakeBatch(first.value, count);
        CountedIsListed(before, first.value);
        TookTrans(old(Now()), mark, Now());
        if !result.Success? {
          ExcusedSince(old(Now()), mark, result);
          EndedSinceTook(old(Now()), mark, Now(), result);
          return;
        }
        if returned == 0 {
          if waited >= timeoutMs {
            GiveUp(first.value, ReclaimTimeout);
            Waiting(cmd.script, |old(cmd.log)|, cmd.log, timeoutMs, fruitless + 1);
            FaultExcuses(old(Now()), Timeout);
            return Timeout, false;
          }
          if timeoutMs == 0xFFFF_FFFF && fruitless == patience {
            return Success, true;
          }
          NextWait(fruitless, timeoutMs);
          waited := (waited + 50) % 0x1_0000_0000;
          fruitless := fruitless + 1;
        } else {
          waited, fruitless := 0, 0;
        }
      }
    }

    /** What stood in the way since a mark did so since any earlier one. */
    lemma StumbledSince(a: Mark, b: Mark)
      requires Kept(a, b)
      ensures Stumbled(b) ==> Stumbled(a)
    {
    }

    /** The last command failed. */
    lemma StumbledLast(a: Mark, e: Exchange)
      requires cmd.log == a.sent + [e] && Setback(e)
      ensures Stumbled(a)
    {
      assert cmd.log[|a.sent|] == e;
    }

    /** A request fails for one of these reasons. */
    lemma ExcusedStumbles(a: Mark, kr: Kr)
      requires Excused(a, kr) && !kr.Success?
      ensures Stumbled(a)
    {
      if LastEnded(a, Now(), kr) {
        assert Setback(cmd.log[|cmd.log| - 1]);
      }
    }

    lemma FaultExcuses(a: Mark, kr: Kr)
      requires fFatal
      ensures Excused(a, kr)
    {
    }

    lemma ExcusedSince(a: Mark, b: Mark, kr: Kr)
      requires TookSince(a, b)
      ensures Excused(b, kr) ==> Excused(a, kr)
      ensures Starved(b) ==> Starved(a)
    {
      if LastEnded(b, Now(), kr) { EndedSince(a, b, Now(), kr); }
    }

    /**
     * Takes every page back, waiting at most timeoutMs for progress. It ends: each round either
     * shortens the list or uses up the wait budget, which runs out for every timeout but one
     * (see WaitBudgetExpires). Success means that nothing is left, on either side; and firmware
     * that gives back at least one page each time is always enough for success.
     */
    method ReclaimAll(timeoutMs: uint32, patience: nat) returns (result: Kr, waiting: bool)
      requires Settled() && cmd.Valid()
      modifies this, cmd
      ensures Settled() && cmd.Valid() && TookSince(old(Now()), Now())
      ensures waiting ==> timeoutMs == 0xFFFF_FFFF
      ensures !waiting ==> (result.Success? <==> fPages == [])
      ensures result.Success? && !waiting ==> cmd.held == map[]
      ensures !waiting && !result.Success? ==> Excused(old(Now()), result)
      ensures !waiting && result.Timeout? ==>
                LastEnded(old(Now()), Now(), Timeout) || 50 * (|cmd.log| - |old(cmd.log)| - 1) >= timeoutMs
      ensures !waiting && result.Timeout? ==>
                LastEnded(old(Now()), Now(), Timeout) || WaitedOut(cmd.script, |old(cmd.log)|, cmd.log, timeoutMs)
      ensures old(fFatal) ==> fFatal
      ensures result.Success? ==> fFatal == old(fFatal)
      ensures old(Returnable()) ==> !waiting && !fFatal && (result.Success? || Starved(old(Now())))
    {
      hide WaitedOut, TookSince, Starved, LastEnded, Channel.Valid, Generous, TimedOut;
      result, waiting := ReclaimRounds(timeoutMs, patience);
      if waiting {
        return;
      }
      var ambiguous := HasAmbiguousPages();
      if result.Success? {
        if ambiguous {
          result := NotReady;
        } else {
          NothingLeft();
        }
      }
    }

    /**
     * The final release drops every page unconditionally. It is safe exactly if firmware holds
     * nothing; MlxPCIDriver::cleanup establishes that before calling it.
     */
    method ReleaseAfterDmaBoundary()
      requires Settled()
      modifies this`fPages, this`fTrackedPages, this`released
      ensures fPages == [] && fTrackedPages == 0
      ensures DmaSafe() <==> cmd.held == map[]
      ensures cmd.held == map[] ==> Settled()
      ensures old(released) <= released
    {
      hide Covered, Backed, Lent, Aligned;
      ghost var before := fPages;
      ghost var i := 0;
      while |fPages| > 0
        invariant 0 <= i <= |before| && fPages == before[i..] && fTrackedPages == |fPages|
        invariant released == old(released) + Flushed(before[..i], cmd.held)
      {
        DropOne(fPages, 0);
        assert before[..i + 1] == before[..i] + [before[i]];
        ReleasePage(fPages[0].dmaAddress);
        i := i + 1;
      }
      assert before[..i] == before;
      FlushIsSafe(before, cmd.held, old(released));
      NothingTracked(cmd.held);
    }
  }

  /** Every page unmapped, firmware's or not. */
  ghost function Flushed(pages: seq<FwPage>, held: map<nat, Function>): seq<Release> {
    seq(|pages|, i requires 0 <= i < |pages| => Release(pages[i].dmaAddress, pages[i].dmaAddress in held))
  }

  lemma FlushIsSafe(pages: seq<FwPage>, held: map<nat, Function>, log: seq<Release>)
    requires Covered(pages, held) && forall r :: r in log ==> !r.held
    ensures (forall r :: r in log + Flushed(pages, held) ==> !r.held) <==> held == map[]
  {
    if held != map[] {
      var a :| a in held;
      var p :| p in pages && p.dmaAddress == a;
      var k :| 0 <= k < |pages| && pages[k] == p;
      assert Flushed(pages, held)[k] in log + Flushed(pages, held);
    }
  }

  lemma NothingTracked(held: map<nat, Function>)
    ensures held == map[] ==> Covered([], held)
    ensures Backed([], held) && Aligned([]) && Lent([], true) && Lent([], false)
  {
  }

  /** The 32-bit wait counter after k fruitless rounds of 50 ms. */
  function Waited(k: nat): uint32 {
    50 * k % 0x1_0000_0000
  }

  /** The round at which the wrapping counter peaks, at 2^32 - 2. */
  const LAST_WAIT: nat := 0x3d70_a3d7

  /**
   * The wait budget of reclaimAll runs out for every 32-bit timeout except 2^32 - 1: the counter
   * moves in steps of 50 and wraps, so it takes only even values.
   */
  lemma WaitBudgetExpires(timeoutMs: uint32)
    ensures (exists k: nat :: Waited(k) >= timeoutMs) <==> timeoutMs != 0xFFFF_FFFF
  {
    assert Waited(LAST_WAIT) == 0xFFFF_FFFE;
    forall k: nat ensures Waited(k) <= 0xFFFF_FFFE {
      assert Waited(k) % 2 == 0 by {
        assert 50 * k == 0x1_0000_0000 * (50 * k / 0x1_0000_0000) + Waited(k);
      }
    }
  }

  /** One more fruitless round that has not reached the timeout. */
  lemma NextWait(k: nat, timeoutMs: uint32)
    requires Waited(k) < timeoutMs
    ensures (Waited(k) + 50) % 0x1_0000_0000 == Waited(k + 1)
    ensures timeoutMs != 0xFFFF_FFFF && k <= LAST_WAIT ==> k < LAST_WAIT
  {
  }

  /** The release-alls among the requests, in order. */
  ghost function ReleaseAlls(requests: seq<PageRequest>): seq<Function> {
    if requests == [] then []
    else
      var n := |requests| - 1;
      ReleaseAlls(requests[..n]) + if requests[n].releaseAll then [requests[n].owner] else []
  }

  /** The number of pages on f's account, once n, after the requests: those given less those
      taken since its last release-all. */
  ghost function Accounted(n: int, requests: seq<PageRequest>, f: Function): int {
    if requests == [] then n
    else
      var last := requests[|requests| - 1];
      var before := Accounted(n, requests[..|requests| - 1], f);
      if last.owner != f then before
      else if last.releaseAll then 0
      else before + last.numPages
  }

  /** How a TAKE ends for the driver, from how its command ended and what the reply lists. */
  ghost function TakeEnds(kr: Kr, pages: seq<FwPage>, f: Function, requested: nat, answer: Answer): Kr {
    if !kr.Success? then kr else if Accepted(pages, f, requested, answer) then Success else IOError
  }

  /** The pages given back are those that the reply lists. */
  ghost predicate TakenBack(requested: nat, answer: Answer, returned: nat, given: seq<nat>) {
    answer.count <= requested && returned == answer.count && given == Listed(answer, requested)[..returned]
  }

  /** The last n commands are all answered with nothing given back. */
  ghost predicate Barren(script: Script, log: seq<Exchange>, n: nat) {
    n <= |log| && forall i :: |log| - n <= i < |log| ==> log[i].Sent? && script(log[..i], log[i].op).count == 0
  }

  /** The log ends in just n of them since a point. */
  ghost predicate Row(script: Script, from: nat, log: seq<Exchange>, n: nat) {
    from + n <= |log| && Barren(script, log, n) && (from + n == |log| || !Barren(script, log, n + 1))
  }

  /** A command that brings nothing makes the row longer, any other ends it. */
  lemma RowNext(script: Script, from: nat, log: seq<Exchange>, e: Exchange)
    requires from <= |log| && e.Sent?
    ensures script(log, e.op).count != 0 ==> Row(script, from, log + [e], 0)
    ensures script(log, e.op).count == 0 ==>
              forall n: nat :: Row(script, from, log, n) ==> Row(script, from, log + [e], n + 1)
  {
    var next := log + [e];
    assert next[..|log|] == log && next[|log|] == e;
    forall n: nat ensures Barren(script, next, n + 1) <==> Barren(script, log, n) && script(log, e.op).count == 0 {
      forall i | 0 <= i < |log| ensures next[..i] == log[..i] && next[i] == log[i] {
      }
      assert Barren(script, next, n + 1) ==> script(next[..|log|], next[|log|].op).count == 0;
      if Barren(script, next, n + 1) {
        forall i | |log| - n <= i < |log| ensures log[i].Sent? && script(log[..i], log[i].op).count == 0 {
          assert next[i].Sent? && script(next[..i], next[i].op).count == 0;
        }
      }
    }
    assert Barren(script, next, 0);
  }

  /** A reclaim gives up only when it has slept 50 ms after every TAKE of a row that brought
      nothing, but for the last, and the wait counter has only then reached the timeout. */
  ghost predicate WaitedOut(script: Script, from: nat, log: seq<Exchange>, timeoutMs: nat) {
    exists n: nat :: Row(script, from, log, n) && n > 0
      && Waited(n - 1) >= timeoutMs && forall k: nat :: k < n - 1 ==> Waited(k) < timeoutMs
  }

  /** The pages that a GIVE is about to name are marked as being given. */
  ghost predicate PendingOnly(pages: seq<FwPage>, batch: set<nat>) {
    forall i :: 0 <= i < |pages| && pages[i].dmaAddress in batch ==> pages[i].ownership.GivePending?
  }

  lemma MarkedPending(pages: seq<FwPage>, batch: set<nat>)
    ensures PendingOnly(WithOwnership(pages, batch, GivePending), batch)
  {
  }

  lemma NoRow(script: Script, log: seq<Exchange>)
    ensures Row(script, |log|, log, 0)
  {
  }

  lemma Waiting(script: Script, from: nat, log: seq<Exchange>, timeoutMs: nat, n: nat)
    requires Row(script, from, log, n) && n > 0 && Waited(n - 1) >= timeoutMs
    requires forall k: nat :: k < n - 1 ==> Waited(k) < timeoutMs
    ensures WaitedOut(script, from, log, timeoutMs) && 50 * (|log| - from - 1) >= timeoutMs
  {
  }

  /** Asked for pages that it holds for f, firmware gives back at least one. */
  ghost predicate Yields(script: Script, log: seq<Exchange>, f: Function, requested: nat) {
    var answer := script(log, ManagePages(Take(f, requested)));
    && answer.kr.Success? && 0 < answer.count <= requested
    && GivesBack(Held(script, log), f, Listed(answer, requested)[..answer.count])
  }

  ghost predicate Generous(script: Script) {
    forall log, f, requested: nat ::
      requested > 0 && HeldFor(Held(script, log), f) != {} ==> Yields(script, log, f, requested)
  }

  /** What a TAKE did to the counts. */
  lemma TakeCounted(before: seq<FwPage>, after: seq<FwPage>, f: Function, given: seq<nat>, ok: bool)
    requires Distinct(before)
    requires ok ==> NamesOwned(before, given, f) && after == Drop(before, Named(given))
    requires !ok ==> after == before || after == Doubted(before, f)
    ensures ok ==> OwnedCount(after, f) + |given| == OwnedCount(before, f) && |after| + |given| == |before|
    ensures forall g :: g != f ==> OwnedCount(after, g) == OwnedCount(before, g)
  {
    forall g ensures ok ==> OwnedCount(after, g) + (if g == f then |given| else 0) == OwnedCount(before, g)
             ensures g != f ==> OwnedCount(after, g) == OwnedCount(before, g)
    {
      CountDoubted(before, f, g);
      if ok {
        CountDropNamed(before, given, f, g);
      }
    }
    if ok {
      CountDropNamed(before, given, f, f);
    }
  }

  /** What a TAKE may have taken from under the driver's account: only pages of f. */
  lemma HeldAfterTake(pages: seq<FwPage>, held: map<nat, Function>, f: Function, requested: nat, kr: Kr, answer: Answer)
    requires Covered(pages, held) && Backed(pages, held)
    ensures var held' := After(held, Sent(ManagePages(Take(f, requested)), kr), answer);
            Covered(pages, held') && BackedBut(pages, held', f)
  {
    hide Covered, Backed, BackedBut, Yielded, HeldFor;
    YieldedIsHeld(held, f, requested, answer);
    LessHeld(pages, held, Yielded(held, f, requested, answer), f);
    assert {} <= HeldFor(held, f);
    LessHeld(pages, held, {}, f);
    assert held - {} == held;
  }

  lemma NoneHeld(pages: seq<FwPage>, held: map<nat, Function>, f: Function, i: nat)
    requires Covered(pages, held) && HeldFor(held, f) == {}
    requires i < |pages| && pages[i].owner == f
    ensures pages[i].dmaAddress !in held
  {
    HeldForOne(held, f, pages[i].dmaAddress);
  }

  lemma HeldForOne(held: map<nat, Function>, f: Function, a: nat)
    ensures a in HeldFor(held, f) <==> a in held && held[a] == f
  {
  }

  lemma CountedIsListed(pages: seq<FwPage>, f: Function)
    ensures OwnedCount(pages, f) > 0 ==> exists i :: 0 <= i < |pages| && OwnedBy(pages[i], f)
  {
    if forall i :: 0 <= i < |pages| ==> !OwnedBy(pages[i], f) {
      CountNone(pages, f);
    }
  }

  lemma OwnedIsHeld(pages: seq<FwPage>, held: map<nat, Function>, f: Function)
    requires Backed(pages, held) && OwnedCount(pages, f) > 0
    ensures HeldFor(held, f) != {}
  {
    CountedIsListed(pages, f);
    var i :| 0 <= i < |pages| && OwnedBy(pages[i], f);
    assert pages[i].dmaAddress in HeldFor(held, f);
  }

  /** What a GIVE did to the counts, from the shape it left the list in. */
  lemma GrownCounted(before: seq<FwPage>, after: seq<FwPage>, held: map<nat, Function>, held': map<nat, Function>,
                     f: Function, all: bool)
    requires Grown(before, after, held, held', f)
    requires forall i :: 0 <= i < |after| - |before| ==> after[i].owner == f
    requires all ==> forall i :: 0 <= i < |after| - |before| ==> OwnedBy(after[i], f)
    ensures forall g :: g != f ==> OwnedCount(after, g) == OwnedCount(before, g)
    ensures all ==> OwnedCount(after, f) == OwnedCount(before, f) + |after| - |before|
  {
    var news := after[..|after| - |before|];
    assert after == news + before;
    forall g ensures OwnedCount(after, g) == OwnedCount(news, g) + OwnedCount(before, g)
    {
      CountAppend(news, before, g);
    }
    forall g | g != f ensures OwnedCount(news, g) == 0 {
      CountNone(news, g);
    }
    if all {
      CountUniform(news, f, f);
    }
  }

  lemma LendNone(held: map<nat, Function>, given: seq<nat>, f: Function)
    requires given == []
    ensures Lending(held, Named(given), f) == held
  {
    assert Named(given) == {};
  }

  lemma LendMore(held: map<nat, Function>, handles: seq<nat>, start: nat, kept: nat, f: Function)
    requires start <= kept <= |handles|
    ensures Lending(Lending(held, Named(handles[..start]), f), Named(handles[start..kept]), f) ==
            Lending(held, Named(handles[..kept]), f)
  {
    hide Lending, Named;
    var a, b, c := handles[..start], handles[start..kept], handles[..kept];
    assert c == a + b;
    NamedConcat(a, b);
    LendTwice(held, Named(a), Named(b), f);
  }

  lemma NamedConcat(a: seq<nat>, b: seq<nat>)
    ensures Named(a + b) == Named(a) + Named(b)
  {
  }

  lemma LendTwice(held: map<nat, Function>, s: set<nat>, t: set<nat>, f: Function)
    ensures Lending(Lending(held, s, f), t, f) == Lending(held, s + t, f)
  {
  }

  /** The pages of a stage are those of its handles. */
  lemma StageGrown(handles: seq<nat>, f: Function, phase: Phase, own: nat, doubt: nat,
                   base: seq<FwPage>, held: map<nat, Function>, held': map<nat, Function>)
    requires held' == Lending(held, Named(handles), f)
    ensures Grown(base, Stage(handles, f, phase, own, doubt) + base, held, held', f)
  {
    hide Lending;
    var news := Stage(handles, f, phase, own, doubt);
    assert (news + base)[..|news|] == news;
    forall a ensures a in Addresses(news) <==> a in Named(handles) {
      if a in Addresses(news) {
        var p :| p in news && p.dmaAddress == a;
      }
      if a in Named(handles) {
        var i :| 0 <= i < |handles| && handles[i] == a;
        assert news[|handles| - 1 - i] in news;
      }
    }
    assert Addresses(news) == Named(handles);
  }

  /** A stage in front of lent pages is lent: those that are not firmware's are in doubt. */
  lemma StageLent(handles: seq<nat>, f: Function, phase: Phase, own: nat, base: seq<FwPage>, fatal: bool, ok: bool)
    requires Lent(base, fatal) && own <= |handles| && (ok ==> own == |handles|)
    ensures var pages := Stage(handles, f, phase, own, |handles|) + base;
            && Lent(pages, fatal || (!ok && |handles| > 0))
            && |pages| == |handles| + |base| && pages[|handles|..] == base && (pages == base <==> handles == [])
            && (forall i :: 0 <= i < |handles| ==> pages[i].owner == f && pages[i].phase == phase)
            && (ok ==> forall i :: 0 <= i < |handles| ==> OwnedBy(pages[i], f))
  {
  }

  lemma SameAligned(pages: seq<FwPage>, after: seq<FwPage>)
    requires Aligned(pages) && Addresses(after) == Addresses(pages)
    ensures Aligned(after)
  {
  }

  lemma DropKeepsMapped(pages: seq<FwPage>, s: set<nat>)
    requires Distinct(pages) && Aligned(pages)
    ensures Distinct(Drop(pages, s)) && Aligned(Drop(pages, s))
  {
    DropKeepsDistinct(pages, s);
    AddressesDrop(pages, s);
  }

  lemma WithoutNone(pages: seq<FwPage>, f: Function)
    ensures WithoutOwned(pages[..0], f) == [] && WithoutOwned(pages[..0], f) + pages[0..] == pages
  {
  }

  lemma StagePush(handles: seq<nat>, a: nat, f: Function, phase: Phase, base: seq<FwPage>)
    ensures [FwPage(a, f, phase, HostPrepared)] + (Stage(handles, f, phase, 0, 0) + base) ==
            Stage(handles + [a], f, phase, 0, 0) + base
  {
  }

  /** The oldest prepared page is the last of its stage. */
  lemma StagePop(handles: seq<nat>, f: Function, phase: Phase, base: seq<FwPage>)
    requires |handles| > 0
    ensures var pages, k := Stage(handles, f, phase, 0, 0) + base, |handles| - 1;
            && pages[k] == FwPage(handles[0], f, phase, HostPrepared)
            && pages[..k] + pages[k + 1..] == Stage(handles[1..], f, phase, 0, 0) + base
  {
  }

  /** The host's pages that a trim which has reached index i has not unmapped yet. */
  ghost function Unkept(handles: seq<nat>, f: Function, phase: Phase, kept: nat, i: nat): seq<FwPage>
    requires kept <= |handles| && i <= |handles|
  {
    Stage(handles[if i < kept then kept else i..], f, phase, 0, 0)
  }

  lemma TrimEnds(handles: seq<nat>, f: Function, phase: Phase, start: nat, kept: nat, base: seq<FwPage>)
    requires start <= kept <= |handles|
    ensures var keep := Stage(handles[..kept], f, phase, start, kept) + base;
            && Stage(handles, f, phase, start, kept) + base == Unkept(handles, f, phase, kept, start) + keep
            && Unkept(handles, f, phase, kept, |handles|) + keep == keep
  {
    var all, few := Stage(handles, f, phase, start, kept), Stage(handles[..kept], f, phase, start, kept);
    assert all == Unkept(handles, f, phase, kept, start) + few;
    assert all + base == Unkept(handles, f, phase, kept, start) + (few + base);
  }

  lemma TrimStep(handles: seq<nat>, f: Function, phase: Phase, start: nat, kept: nat,
                 base: seq<FwPage>, i: nat)
    requires start <= i < |handles| && start <= kept <= |handles|
    ensures var keep := Stage(handles[..kept], f, phase, start, kept) + base;
            var pages, k := Unkept(handles, f, phase, kept, i) + keep, |handles| - 1 - i;
            && k < |pages|
            && pages[k] == FwPage(handles[i], f, phase, if i < kept then Ambiguous else HostPrepared)
            && (if i < kept then pages else pages[..k] + pages[k + 1..]) ==
               Unkept(handles, f, phase, kept, i + 1) + keep
  {
    if i >= kept {
      StagePop(handles[i..], f, phase, Stage(handles[..kept], f, phase, start, kept) + base);
      assert handles[i..][1..] == handles[i + 1..];
    }
  }

  /** What marking one batch of a staged list does: the stage moves, and the rest stays. */
  lemma StageNamed(handles: seq<nat>, f: Function, phase: Phase, start: nat, end: nat,
                   base: seq<FwPage>, pages: seq<FwPage>)
    requires start <= end <= |handles|
    requires pages == Stage(handles, f, phase, start, start) + base && Distinct(pages)
    ensures forall i :: 0 <= i < |pages| && pages[i].dmaAddress in Named(handles[start..end]) ==>
              pages[i].owner == f && pages[i].ownership.HostPrepared?
    ensures Named(handles[start..end]) <= Addresses(pages)
    ensures WithOwnership(pages, Named(handles[start..end]), FirmwareOwned) ==
            Stage(handles, f, phase, end, end) + base
    ensures WithOwnership(pages, Named(handles[start..end]), Ambiguous) ==
            Stage(handles, f, phase, start, end) + base
  {
    var s := Named(handles[start..end]);
    var n := |handles|;
    forall i | 0 <= i < |pages|
      ensures pages[i].dmaAddress in s <==> n - end <= i < n - start
    {
      if n - end <= i < n - start {
        assert handles[start..end][n - 1 - i - start] == pages[i].dmaAddress;
      }
      if pages[i].dmaAddress in s {
        var k :| 0 <= k < end - start && handles[start..end][k] == pages[i].dmaAddress;
        assert pages[n - 1 - (start + k)].dmaAddress == pages[i].dmaAddress;
      }
    }
    forall a | a in s ensures a in Addresses(pages) {
      var k :| 0 <= k < end - start && handles[start..end][k] == a;
      assert pages[n - 1 - (start + k)] in pages;
    }
  }
}
