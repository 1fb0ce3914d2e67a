/** The slots of the firmware command queue: which are free, which hold a command firmware is
    working on, and which were lost to a timeout. */
module CmdSlots {
  import opened Status
  import opened PhaseRing
  import opened CommandChannel
  import opened Checksum

  const MAX_COMMANDS: nat := 32
  const PAGE_BYTES: nat := 4096

  // Geometry

  datatype Geometry = Geometry(logSz: nat, logStride: nat)

  /** What init accepts of the byte firmware declares its queue with. */
  function ParseGeometry(params: nat, cmdqSize: nat): Option<Geometry>
    requires params < 256
  {
    var logSz, logStride := params / 16 % 16, params % 16;
    if logSz >= 31 || logStride < 6 || logSz + logStride > 12 then None
    else if Pow2(logSz) < 2 || Pow2(logSz) > MAX_COMMANDS || logSz > 5
            || cmdqSize < Pow2(logSz + logStride) then None
    else Some(Geometry(logSz, logStride))
  }

  function QueueSize(g: Geometry): nat {
    Pow2(g.logSz)
  }

  /** idx << logStride */
  function DescriptorAt(g: Geometry, idx: nat): nat {
    idx * Pow2(g.logStride)
  }

  /** Every accepted queue has a page slot and at least one other, and its descriptors lie apart
      inside the mapped buffer and the 4096-byte page. */
  lemma DescriptorsApart(params: nat, cmdqSize: nat, i: nat, j: nat)
    requires params < 256 && ParseGeometry(params, cmdqSize).Some?
    ensures var g := ParseGeometry(params, cmdqSize).value;
            && 2 <= QueueSize(g) <= MAX_COMMANDS
            && (i < j ==> DescriptorAt(g, i) + DESCRIPTOR_BYTES <= DescriptorAt(g, j))
            && (j < QueueSize(g) ==> DescriptorAt(g, j) + DESCRIPTOR_BYTES <= cmdqSize)
            && (j < QueueSize(g) ==> DescriptorAt(g, j) + DESCRIPTOR_BYTES <= PAGE_BYTES)
  {
    hide Pow2;
    var g := ParseGeometry(params, cmdqSize).value;
    StrideAndTotal(g);
    if i < j { StridesApart(Pow2(g.logStride), i, j); }
    if j < QueueSize(g) { StridesApart(Pow2(g.logStride), j, QueueSize(g)); }
  }

  /** Of all the bytes firmware may declare, exactly those are accepted that ask for 2 to 32
      descriptors of at least 64 bytes each that fit the page and the buffer. */
  lemma GeometryIsExact(logSz: nat, logStride: nat, cmdqSize: nat)
    requires logSz < 16 && logStride < 16
    ensures ParseGeometry(16 * logSz + logStride, cmdqSize) ==
            if 1 <= logSz <= 5 && 6 <= logStride && logSz + logStride <= 12 && Pow2(logSz + logStride) <= cmdqSize
            then Some(Geometry(logSz, logStride)) else None
  {
    hide Pow2;
    SmallQueues();
    Nibbles(logSz, logStride);
  }

  lemma Nibbles(high: nat, low: nat)
    requires high < 16 && low < 16
    ensures (16 * high + low) / 16 % 16 == high && (16 * high + low) % 16 == low
  {
  }

  lemma SmallQueues()
    ensures Pow2(0) == 1 && forall n :: 1 <= n <= 5 ==> 2 <= Pow2(n) <= 32
  {
    assert Pow2(1) == 2 && Pow2(2) == 4 && Pow2(3) == 8 && Pow2(4) == 16 && Pow2(5) == 32;
    forall n | 1 <= n <= 5 ensures 2 <= Pow2(n) <= 32 {
      assert n == 1 || n == 2 || n == 3 || n == 4 || n == 5;
    }
  }

  lemma StrideAndTotal(g: Geometry)
    requires 6 <= g.logStride && g.logSz + g.logStride <= 12
    ensures Pow2(g.logStride) >= DESCRIPTOR_BYTES
    ensures QueueSize(g) * Pow2(g.logStride) == Pow2(g.logSz + g.logStride) <= PAGE_BYTES
  {
    hide Pow2;
    var total := g.logSz + g.logStride;
    PageBytes();
    PowersMultiply(6, g.logStride - 6);
    MultipleGap(Pow2(g.logStride - 6), Pow2(6));
    PowersMultiply(g.logStride, g.logSz);
    PowersMultiply(total, 12 - total);
    MultipleGap(Pow2(12 - total), Pow2(total));
  }

  lemma StridesApart(stride: nat, i: nat, j: nat)
    requires i < j
    ensures i * stride + stride <= j * stride
  {
    MultipleGap(j - i, stride);
    assert j * stride - i * stride == (j - i) * stride;
  }

  lemma PageBytes()
    ensures Pow2(6) == DESCRIPTOR_BYTES && Pow2(12) == PAGE_BYTES
  {
    assert Pow2(6) == 64;
    PowersMultiply(6, 6);
  }

  // The slots as a state machine

  datatype Entry = InFlight(opcode: Opcode) | TimedOut(opcode: Opcode)

  /** Regular slots are 0..maxRegCmds-1, each with a bit that says it is free; slot maxRegCmds is
      the page slot, guarded by the page lock. */
  datatype State = State(maxRegCmds: nat, bitmask: seq<bool>, entries: map<nat, Entry>,
                         quarantined: bool, pageLocked: bool)

  datatype Action = Issue(opcode: Opcode) | Finish(idx: nat) | TimeOut(idx: nat)

  /** The lowest set bit, or the length if there is none. */
  function FirstSet(bits: seq<bool>): nat {
    if bits == [] || bits[0] then 0 else 1 + FirstSet(bits[1..])
  }

  function Initial(maxRegCmds: nat): State {
    State(maxRegCmds, seq(maxRegCmds, _ => true), map[], false, false)
  }

  /** The answer to an attempt to issue a command; success means that it is now in flight. A page
      command waits for the page lock first. */
  function Admit(s: State, op: Opcode): Kr {
    if s.quarantined && !AllowedInQuarantine(op) then NotReady
    else if op.ManagePages? then (if s.maxRegCmds in s.entries then Busy else Success)
    else if FirstSet(s.bitmask) < |s.bitmask| then Success
    else NoSpace
  }

  function SlotFor(s: State, op: Opcode): nat {
    if op.ManagePages? then s.maxRegCmds else FirstSet(s.bitmask)
  }

  predicate InFlightAt(s: State, idx: nat) {
    idx in s.entries && s.entries[idx].InFlight?
  }

  predicate Enabled(s: State, a: Action) {
    match a
    case Issue(op) => op.ManagePages? ==> !s.pageLocked
    case Finish(idx) => InFlightAt(s, idx)
    case TimeOut(idx) => InFlightAt(s, idx)
  }

  function Step(s: State, a: Action): State
    requires Enabled(s, a)
  {
    match a
    case Issue(op) =>
      if !Admit(s, op).Success? then s
      else
        var idx := SlotFor(s, op);
        s.(entries := s.entries[idx := InFlight(op)],
           pageLocked := s.pageLocked || op.ManagePages?,
           bitmask := if op.ManagePages? then s.bitmask else s.bitmask[idx := false])
    case Finish(idx) =>
      s.(entries := s.entries - {idx},
         pageLocked := s.pageLocked && idx != s.maxRegCmds,
         bitmask := if idx < |s.bitmask| then s.bitmask[idx := true] else s.bitmask)
    case TimeOut(idx) =>
      s.(entries := s.entries[idx := TimedOut(s.entries[idx].opcode)],
         quarantined := true,
         pageLocked := s.pageLocked && idx != s.maxRegCmds)
  }

  /** Free bits, in-flight slots and timed-out slots partition the queue; the page slot is for
      MANAGE_PAGES and nothing else; the interface is quarantined exactly when something timed
      out. */
  ghost predicate Partitioned(s: State) {
    && |s.bitmask| == s.maxRegCmds
    && (forall idx :: idx in s.entries ==> idx <= s.maxRegCmds)
    && (forall idx :: 0 <= idx < s.maxRegCmds ==> (s.bitmask[idx] <==> idx !in s.entries))
    && (forall idx :: idx in s.entries ==> (s.entries[idx].opcode.ManagePages? <==> idx == s.maxRegCmds))
    && (s.pageLocked <==> InFlightAt(s, s.maxRegCmds))
    && (s.quarantined <==> exists idx :: idx in s.entries && s.entries[idx].TimedOut?)
  }

  lemma {:induction false} FirstSetIsLowest(bits: seq<bool>)
    ensures FirstSet(bits) <= |bits|
    ensures FirstSet(bits) < |bits| ==> bits[FirstSet(bits)]
    ensures forall i :: 0 <= i < FirstSet(bits) ==> !bits[i]
  {
    if bits != [] && !bits[0] {
      FirstSetIsLowest(bits[1..]);
      assert forall i :: 0 < i < |bits| ==> bits[i] == bits[1..][i - 1];
    }
  }

  lemma InitiallyPartitioned(maxRegCmds: nat)
    ensures Partitioned(Initial(maxRegCmds))
  {
  }

  lemma StepKeepsPartitioned(s: State, a: Action)
    requires Partitioned(s) && Enabled(s, a)
    ensures Partitioned(Step(s, a))
  {
    hide FirstSet, Partitioned;
    match a {
      case Issue(op) => IssueKeepsPartitioned(s, op);
      case Finish(i) => FinishKeepsPartitioned(s, i);
      case TimeOut(i) => TimeOutKeepsPartitioned(s, i);
    }
  }

  lemma IssueKeepsPartitioned(s: State, op: Opcode)
    requires Partitioned(s) && Enabled(s, Issue(op))
    ensures Partitioned(Step(s, Issue(op)))
  {
    hide FirstSet, Partitioned;
    if Admit(s, op).Success? {
      IssueTakesFreeSlot(s, op);
      PlacingKeepsPartitioned(s, op, SlotFor(s, op), Step(s, Issue(op)));
    }
  }

  lemma PlacingKeepsPartitioned(s: State, op: Opcode, idx: nat, s': State)
    requires Partitioned(s) && idx !in s.entries && idx <= s.maxRegCmds
    requires op.ManagePages? <==> idx == s.maxRegCmds
    requires s' == s.(entries := s.entries[idx := InFlight(op)],
                      pageLocked := s.pageLocked || op.ManagePages?,
                      bitmask := if op.ManagePages? then s.bitmask else s'.bitmask)
    requires idx < s.maxRegCmds ==> |s.bitmask| == s.maxRegCmds && s'.bitmask == s.bitmask[idx := false]
    ensures Partitioned(s')
  {
    if s.quarantined {
      var i :| i in s.entries && s.entries[i].TimedOut?;
      assert i in s'.entries && s'.entries[i].TimedOut?;
    }
  }

  lemma FinishKeepsPartitioned(s: State, i: nat)
    requires Partitioned(s) && InFlightAt(s, i)
    ensures Partitioned(Step(s, Finish(i)))
  {
    var s' := Step(s, Finish(i));
    if s.quarantined {
      var idx :| idx in s.entries && s.entries[idx].TimedOut?;
      assert idx in s'.entries && s'.entries[idx].TimedOut?;
    }
  }

  lemma TimeOutKeepsPartitioned(s: State, i: nat)
    requires Partitioned(s) && InFlightAt(s, i)
    ensures Partitioned(Step(s, TimeOut(i)))
  {
    var s' := Step(s, TimeOut(i));
    assert i in s'.entries && s'.entries[i].TimedOut?;
  }

  /** A run of a new queue. */
  ghost predicate IsRun(run: seq<State>, actions: seq<Action>) {
    && |run| == |actions| + 1 && run[0] == Initial(run[0].maxRegCmds)
    && forall k :: 0 <= k < |actions| ==> Enabled(run[k], actions[k]) && run[k + 1] == Step(run[k], actions[k])
  }

  lemma {:induction false} RunKeepsPartitioned(run: seq<State>, actions: seq<Action>, k: nat)
    requires IsRun(run, actions) && k < |run|
    ensures Partitioned(run[k])
  {
    if k == 0 {
      InitiallyPartitioned(run[0].maxRegCmds);
    } else {
      RunKeepsPartitioned(run, actions, k - 1);
      StepKeepsPartitioned(run[k - 1], actions[k - 1]);
    }
  }

  /** A command that timed out keeps its slot and its buffers for the rest of every run. */
  lemma {:induction false} TimedOutForever(run: seq<State>, actions: seq<Action>, j: nat, k: nat, idx: nat)
    requires IsRun(run, actions) && j <= k < |run|
    requires idx in run[j].entries && run[j].entries[idx].TimedOut?
    ensures idx in run[k].entries && run[k].entries[idx] == run[j].entries[idx]
  {
    hide Partitioned, Step, Enabled;
    if j < k {
      TimedOutForever(run, actions, j, k - 1, idx);
      RunKeepsPartitioned(run, actions, k - 1);
      StepKeepsTimedOut(run[k - 1], actions[k - 1], idx);
    }
  }

  lemma StepKeepsTimedOut(s: State, a: Action, idx: nat)
    requires Partitioned(s) && Enabled(s, a) && idx in s.entries && s.entries[idx].TimedOut?
    ensures idx in Step(s, a).entries && Step(s, a).entries[idx] == s.entries[idx]
  {
    hide FirstSet;
    FirstSetIsLowest(s.bitmask);
  }

  /** Once anything has timed out, the only commands that still reach firmware are TEARDOWN_HCA
      and DISABLE_HCA, the two that end its use of host memory. */
  lemma OnlyTeardownAfterTimeout(run: seq<State>, actions: seq<Action>, j: nat, k: nat, idx: nat)
    requires IsRun(run, actions) && j <= k < |actions|
    requires idx in run[j].entries && run[j].entries[idx].TimedOut?
    ensures actions[k].Issue? && run[k + 1] != run[k] ==>
              actions[k].opcode.TeardownHca? || actions[k].opcode.DisableHca?
  {
    TimedOutForever(run, actions, j, k, idx);
    RunKeepsPartitioned(run, actions, k);
  }

  /** And those two do reach it, timeouts or not, for as long as a regular slot is free. */
  lemma TeardownStillPasses(s: State, op: Opcode)
    requires Partitioned(s) && (op.TeardownHca? || op.DisableHca?)
    requires exists i :: 0 <= i < s.maxRegCmds && i !in s.entries
    ensures exists i :: 0 <= i < s.maxRegCmds && i !in s.entries &&
              Step(s, Issue(op)).entries == s.entries[i := InFlight(op)]
  {
    FirstSetIsLowest(s.bitmask);
    AdmissionIsExact(s, op);
    IssueTakesFreeSlot(s, op);
    var i := SlotFor(s, op);
    assert 0 <= i < s.maxRegCmds && i !in s.entries;
  }

  /** When a command is let in, and what it is told otherwise. */
  lemma AdmissionIsExact(s: State, op: Opcode)
    requires Partitioned(s)
    ensures Admit(s, op) == NotReady <==>
            (exists i :: i in s.entries && s.entries[i].TimedOut?) && !op.TeardownHca? && !op.DisableHca?
    ensures Admit(s, op) == Busy ==> op.ManagePages? && s.maxRegCmds in s.entries
    ensures Admit(s, op) == NoSpace ==> !op.ManagePages? && forall i :: 0 <= i < s.maxRegCmds ==> i in s.entries
    ensures Admit(s, op) == Success ==>
              if op.ManagePages? then s.maxRegCmds !in s.entries
              else exists i :: 0 <= i < s.maxRegCmds && i !in s.entries
    ensures Admit(s, op) in {NotReady, Busy, NoSpace, Success}
  {
    FirstSetIsLowest(s.bitmask);
    if !op.ManagePages? && Admit(s, op) == Success {
      var i := FirstSet(s.bitmask);
      assert 0 <= i < s.maxRegCmds && i !in s.entries;
    }
  }

  /** A new command never takes a slot that firmware may still use. */
  lemma IssueTakesFreeSlot(s: State, op: Opcode)
    requires Partitioned(s) && Enabled(s, Issue(op)) && Admit(s, op).Success?
    ensures SlotFor(s, op) !in s.entries && SlotFor(s, op) <= s.maxRegCmds
    ensures !op.ManagePages? ==> SlotFor(s, op) < s.maxRegCmds == |s.bitmask|
    ensures Step(s, Issue(op)).entries == s.entries[SlotFor(s, op) := InFlight(op)]
  {
    FirstSetIsLowest(s.bitmask);
  }

  /** Finishing the command just issued restores the slots exactly. */
  lemma FinishUndoesIssue(s: State, op: Opcode)
    requires Partitioned(s) && Enabled(s, Issue(op)) && Admit(s, op).Success?
    ensures Step(Step(s, Issue(op)), Finish(SlotFor(s, op))) == s
  {
    FirstSetIsLowest(s.bitmask);
    var idx := SlotFor(s, op);
    assert s.entries[idx := InFlight(op)] - {idx} == s.entries;
  }

  /** The same slots as MlxCmd keeps them. */
  class CommandQueue {
    const fMaxRegCmds: nat
    const fEntArr: array<Option<Entry>>
    var fBitmask: seq<bool>
    var fQuarantined: bool
    var fPageLocked: bool
    var fUp: bool

    ghost function View(): State
      reads this, fEntArr
    {
      State(fMaxRegCmds, fBitmask,
            map i | 0 <= i < fEntArr.Length && fEntArr[i].Some? :: fEntArr[i].value,
            fQuarantined, fPageLocked)
    }

    ghost predicate Valid()
      reads this, fEntArr
    {
      && fEntArr.Length == MAX_COMMANDS && 1 <= fMaxRegCmds < MAX_COMMANDS
      && Partitioned(View())
    }

    constructor (g: Geometry)
      requires 2 <= QueueSize(g) <= MAX_COMMANDS
      ensures Valid() && View() == Initial(QueueSize(g) - 1) && fUp && fresh(fEntArr)
    {
      fMaxRegCmds := QueueSize(g) - 1;
      fEntArr := new Option<Entry>[MAX_COMMANDS](_ => None);
      fBitmask := seq(QueueSize(g) - 1, _ => true);
      fQuarantined, fPageLocked, fUp := false, false, true;
      new;
      assert View().entries == map[];
    }

    /** Takes the lowest free regular slot. */
    method AllocIdx() returns (found: bool, idx: nat)
      modifies this`fBitmask
      ensures idx == FirstSet(old(fBitmask))
      ensures found <==> idx < |old(fBitmask)|
      ensures fBitmask == if found then old(fBitmask)[idx := false] else old(fBitmask)
    {
      idx := 0;
      while idx < |fBitmask| && !fBitmask[idx]
        invariant idx <= |fBitmask| && FirstSet(fBitmask) == idx + FirstSet(fBitmask[idx..])
      {
        assert fBitmask[idx..][1..] == fBitmask[idx + 1..];
        idx := idx + 1;
      }
      found := idx < |fBitmask|;
      if found {
        fBitmask := fBitmask[idx := false];
      }
    }

    /** The part of exec up to the doorbell; memoryLeft says whether the entry and its mailboxes
        could be allocated, and if not the slot goes straight back. */
    method Issue(op: Opcode, memoryLeft: bool) returns (kr: Kr, idx: nat)
      requires Valid() && Enabled(View(), Action.Issue(op))
      modifies this`fBitmask, this`fPageLocked, fEntArr
      ensures Valid()
      ensures kr == if !fUp then NotReady
                    else if Admit(old(View()), op).Success? && !memoryLeft then NoMemory
                    else Admit(old(View()), op)
      ensures kr.Success? ==> idx == SlotFor(old(View()), op)
      ensures fUp && fQuarantined && !op.TeardownHca? && !op.DisableHca? ==> kr == NotReady
      ensures fUp && (op.TeardownHca? || op.DisableHca?) ==> kr in {Success, NoSpace, NoMemory}
      ensures View() == if kr.Success? then Step(old(View()), Action.Issue(op)) else old(View())
    {
      hide FirstSet;
      idx := fMaxRegCmds;
      ghost var s := View();
      FirstSetIsLowest(s.bitmask);
      if !fUp || (fQuarantined && !AllowedInQuarantine(op)) {
        return NotReady, idx;
      }
      if op.ManagePages? {
        if fEntArr[idx].Some? {
          return Busy, idx;
        }
      } else {
        var found;
        found, idx := AllocIdx();
        if !found {
          assert View() == s;
          return NoSpace, idx;
        }
      }
      if !memoryLeft {
        if !op.ManagePages? {
          fBitmask := fBitmask[idx := true];
        }
        assert View() == s;
        return NoMemory, idx;
      }
      Commit(op, idx, s);
      kr := Success;
    }

    method Commit(op: Opcode, idx: nat, ghost s: State)
      requires fEntArr.Length == MAX_COMMANDS && 1 <= fMaxRegCmds < MAX_COMMANDS
      requires Partitioned(s) && Enabled(s, Action.Issue(op)) && Admit(s, op).Success?
      requires s.maxRegCmds == fMaxRegCmds && idx == SlotFor(s, op)
      requires View() == s.(bitmask := if op.ManagePages? then s.bitmask else s.bitmask[idx := false])
      modifies this`fPageLocked, fEntArr
      ensures Valid() && View() == Step(s, Action.Issue(op))
    {
      hide Partitioned, FirstSet;
      IssueTakesFreeSlot(s, op);
      StepKeepsPartitioned(s, Action.Issue(op));
      fEntArr[idx] := Some(InFlight(op));
      fPageLocked := fPageLocked || op.ManagePages?;
      assert View().entries == s.entries[idx := InFlight(op)];
    }

    method Finish(idx: nat)
      requires Valid() && Enabled(View(), Action.Finish(idx))
      modifies this`fBitmask, this`fPageLocked, fEntArr
      ensures Valid() && View() == Step(old(View()), Action.Finish(idx))
    {
      ghost var s := View();
      StepKeepsPartitioned(s, Action.Finish(idx));
      if idx == fMaxRegCmds {
        fPageLocked := false;
      } else {
        fBitmask := fBitmask[idx := true];
      }
      fEntArr[idx] := None;
      assert View().entries == s.entries - {idx};
    }

    /** The slot, its entry and its buffers stay as they are; only the page lock is released. */
    method TimeOut(idx: nat)
      requires Valid() && Enabled(View(), Action.TimeOut(idx))
      modifies this`fQuarantined, this`fPageLocked, fEntArr
      ensures Valid() && View() == Step(old(View()), Action.TimeOut(idx))
    {
      ghost var s := View();
      assert idx <= fMaxRegCmds;
      hide Partitioned;
      StepKeepsPartitioned(s, Action.TimeOut(idx));
      fEntArr[idx] := Some(TimedOut(fEntArr[idx].value.opcode));
      fQuarantined := true;
      if idx == fMaxRegCmds {
        fPageLocked := false;
      }
      assert View().entries == s.entries[idx := TimedOut(s.entries[idx].opcode)];
    }
  }
}
