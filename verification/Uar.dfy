/** The doorbell-record slots and blue-flame registers of the boot UAR. */
module Uar {
  import opened Status
  import opened PhaseRing
  import opened DoorbellBitmap

  const BF_OFFSET: nat := 0x800
  const BF_REGISTERS: nat := 4

  /** The 32-bit offset of a blue-flame register whose size is 2^logSize. */
  function BfOffset(dbi: nat, logSize: nat): nat {
    (BF_OFFSET + dbi * Pow2(logSize)) % WRAP
  }

  class UarPage {
    const fDbBitmap: array<Word>
    /** The doorbell-record page, absent until it is mapped. */
    var fDbRecord: Option<array<nat>>
    var fUarBitmap: seq<bool>
    var fUarMapped: bool
    const logBfRegSize: nat

    ghost predicate Valid()
      reads this, fDbBitmap
    {
      && fDbBitmap.Length == 2
      && (fDbRecord.Some? ==> fDbRecord.value.Length >= SLOTS
                              && fDbRecord.value as object != fDbBitmap as object)
      && |fUarBitmap| == BF_REGISTERS && logBfRegSize < 32
    }

    ghost function Slots(): Words
      requires fDbBitmap.Length == 2
      reads fDbBitmap
    {
      fDbBitmap[..]
    }

    /** The doorbell-record page, if there is one. */
    ghost function Record(): set<object>
      reads this
    {
      if fDbRecord.Some? then {fDbRecord.value} else {}
    }

    constructor (logBfRegSize: nat, dbRecord: Option<array<nat>>, mapped: bool)
      requires logBfRegSize < 32 && (dbRecord.Some? ==> dbRecord.value.Length >= SLOTS)
      ensures Valid() && fresh(fDbBitmap) && fDbRecord == dbRecord
      ensures forall s :: 0 <= s < SLOTS ==> !Taken(Slots(), s)
      ensures InPairs(Slots()) && fUarBitmap == [false, false, false, false]
    {
      this.logBfRegSize, fDbRecord, fUarMapped := logBfRegSize, dbRecord, mapped;
      fDbBitmap := new Word[2](_ => seq(64, _ => false));
      fUarBitmap := [false, false, false, false];
    }

    method SlotTaken(slot: nat) returns (taken: bool)
      requires Valid() && slot < SLOTS
      ensures taken == Taken(Slots(), slot)
    {
      taken := fDbBitmap[slot / 64][slot % 64];
    }

    /** First fit over the 128 slots for one slot or two adjacent ones. */
    method AllocDbSlots(count: nat) returns (kr: Kr, offset: nat)
      requires Valid()
      modifies fDbBitmap, Record()
      ensures Valid() && offset % 4 == 0
      ensures kr.BadArgument? <==> fDbRecord.None? || count == 0 || count > 2
      ensures kr.Success? ==> FirstFit(old(Slots()), count, offset / 4)
                              && Slots() == TakeRun(old(Slots()), offset / 4, count)
      ensures kr.Success? ==> forall i :: 0 <= i < fDbRecord.value.Length ==>
                fDbRecord.value[i] ==
                if offset / 4 <= i < offset / 4 + count then 0 else old(fDbRecord.value[i])
      ensures !kr.Success? ==> Slots() == old(Slots())
      ensures kr.NoResources? ==> forall s :: 0 <= s ==> !Fits(old(Slots()), s, count)
      ensures kr.Success? ==> fDbRecord.Some? && 0 < count <= 2
      ensures kr.Success? || kr.BadArgument? || kr.NoResources?
    {
      if fDbRecord.None? || count == 0 || count > 2 {
        return BadArgument, 0;
      }
      var slot := 0;
      while slot + count <= SLOTS
        invariant slot + count <= SLOTS + 1
        invariant forall s :: 0 <= s < slot ==> !Fits(Slots(), s, count)
        invariant Slots() == old(Slots())
        invariant fDbRecord.value[..] == old(fDbRecord.value[..])
      {
        var free := RunIsFree(slot, count);
        if free {
          TakeSlots(slot, count);
          assert fDbRecord.value[..] == old(fDbRecord.value[..]);
          ZeroRecord(slot, count);
          return Success, slot * 4;
        }
        slot := slot + 1;
      }
      return NoResources, 0;
    }

    method RunIsFree(slot: nat, count: nat) returns (free: bool)
      requires Valid() && slot + count <= SLOTS
      ensures free <==> Fits(Slots(), slot, count)
    {
      for i := 0 to count
        invariant forall k :: slot <= k < slot + i ==> !Taken(Slots(), k)
      {
        var taken := SlotTaken(slot + i);
        if taken {
          return false;
        }
      }
      return true;
    }

    method TakeSlots(slot: nat, count: nat)
      requires Valid() && slot + count <= SLOTS
      modifies fDbBitmap
      ensures Valid() && Slots() == TakeRun(old(Slots()), slot, count)
    {
      for i := 0 to count
        invariant Slots() == TakeRun(old(Slots()), slot, i)
      {
        var w := (slot + i) / 64;
        ghost var before := Slots();
        fDbBitmap[w] := fDbBitmap[w][(slot + i) % 64 := true];
        assert Slots() == Take(before, slot + i);
      }
    }

    method ZeroRecord(slot: nat, count: nat)
      requires Valid() && fDbRecord.Some? && slot + count <= SLOTS
      modifies fDbRecord.value
      ensures forall i :: 0 <= i < fDbRecord.value.Length ==>
                fDbRecord.value[i] == if slot <= i < slot + count then 0 else old(fDbRecord.value[i])
    {
      var record := fDbRecord.value;
      for k := 0 to count
        invariant forall i :: 0 <= i < record.Length ==>
                    record[i] == if slot <= i < slot + k then 0 else old(record[i])
      {
        record[slot + k] := 0;
      }
    }

    /** Clears whatever slots the caller names, if they are slots at all. */
    method FreeDbSlots(offset: nat, count: nat)
      requires Valid() && count <= 2
      modifies fDbBitmap
      ensures Valid()
      ensures Slots() == if offset % 4 == 0 && offset / 4 + count <= SLOTS
                         then FreeRun(old(Slots()), offset / 4, count) else old(Slots())
    {
      if count == 0 || offset % 4 != 0 || offset / 4 + count > SLOTS {
        return;
      }
      var slot := offset / 4;
      for i := 0 to count
        invariant Slots() == FreeRun(old(Slots()), slot, i)
      {
        var w := (slot + i) / 64;
        ghost var before := Slots();
        fDbBitmap[w] := fDbBitmap[w][(slot + i) % 64 := false];
        assert Slots() == Free(before, slot + i);
      }
    }

    /** Every user allocates two slots at a time: the lowest free pair, or none because all
        64 are live. */
    method AllocPair() returns (kr: Kr, offset: nat)
      requires Valid() && InPairs(Slots())
      modifies fDbBitmap, Record()
      ensures Valid() && InPairs(Slots())
      ensures kr.Success? ==> offset % 8 == 0 && offset / 8 < PAIRS
                              && offset / 8 !in old(LivePairs(Slots()))
                              && LivePairs(Slots()) == old(LivePairs(Slots())) + {offset / 8}
      ensures !kr.Success? ==> LivePairs(Slots()) == old(LivePairs(Slots()))
      ensures kr.NoResources? ==> forall p :: 0 <= p < PAIRS ==> p in LivePairs(Slots())
      ensures kr.Success? || kr.BadArgument? || kr.NoResources?
      ensures kr.BadArgument? <==> fDbRecord.None?
      ensures kr.Success? <==> fDbRecord.Some? && |old(LivePairs(Slots()))| < 64
    {
      hide Taken, TakeRun, FreeRun;
      kr, offset := AllocDbSlots(2);
      ghost var before := old(Slots());
      PairSearch(before, offset / 4);
      FullIffCounted(LivePairs(before));
      if kr.Success? {
        LivePairsStep(before, offset / 8);
        PairSteps(before, offset / 8);
      }
    }

    method FreePair(offset: nat)
      requires Valid() && InPairs(Slots()) && offset % 8 == 0 && offset / 8 < PAIRS
      modifies fDbBitmap
      ensures Valid() && InPairs(Slots())
      ensures LivePairs(Slots()) == old(LivePairs(Slots())) - {offset / 8}
    {
      hide Taken, TakeRun, FreeRun;
      FreeDbSlots(offset, 2);
      assert offset / 4 == 2 * (offset / 8);
      LivePairsStep(old(Slots()), offset / 8);
      PairSteps(old(Slots()), offset / 8);
    }

    /** The lowest free register, unless its doorbell would leave the page or the page is not
        mapped; then the bitmap is as before. */
    method AllocBfreg() returns (kr: Kr, offset: nat)
      requires Valid()
      modifies this`fUarBitmap
      ensures Valid()
      ensures kr.Success? ==> exists dbi ::
                0 <= dbi < BF_REGISTERS && LowestFree(old(fUarBitmap), dbi)
                && offset == BfOffset(dbi, logBfRegSize) && fUarBitmap == old(fUarBitmap)[dbi := true]
      ensures kr.Success? ==> offset + 8 <= 4096
      ensures !kr.Success? ==> fUarBitmap == old(fUarBitmap)
      ensures kr.NoSpace? <==> forall d :: 0 <= d < BF_REGISTERS ==> old(fUarBitmap)[d]
      ensures kr.NotReady? <==> exists dbi ::
                0 <= dbi < BF_REGISTERS && LowestFree(old(fUarBitmap), dbi)
                && (!fUarMapped || BfOffset(dbi, logBfRegSize) + 8 > 4096)
      ensures kr.Success? || kr.NoSpace? || kr.NotReady?
    {
      var dbi := 0;
      while dbi < BF_REGISTERS && fUarBitmap[dbi]
        invariant dbi <= BF_REGISTERS && forall d :: 0 <= d < dbi ==> fUarBitmap[d]
      {
        dbi := dbi + 1;
      }
      if dbi == BF_REGISTERS {
        return NoSpace, 0;
      }
      assert LowestFree(old(fUarBitmap), dbi);
      fUarBitmap := fUarBitmap[dbi := true];
      offset := BfOffset(dbi, logBfRegSize);
      if !fUarMapped || offset + 8 > 4096 {
        fUarBitmap := fUarBitmap[dbi := false];
        return NotReady, offset;
      }
      kr := Success;
    }

    method FreeBfreg(offset: nat)
      requires Valid()
      modifies this`fUarBitmap
      ensures Valid()
      ensures forall d :: 0 <= d < BF_REGISTERS ==>
                fUarBitmap[d] == (old(fUarBitmap)[d] && offset != BF_OFFSET + d * Pow2(logBfRegSize))
    {
      var stride := Pow2(logBfRegSize);
      if offset < BF_OFFSET || (offset - BF_OFFSET) % stride != 0 {
        DivideBack(offset - BF_OFFSET, stride);
        return;
      }
      var dbi := (offset - BF_OFFSET) / stride;
      DivideBack(offset - BF_OFFSET, stride);
      if dbi >= BF_REGISTERS {
        return;
      }
      fUarBitmap := fUarBitmap[dbi := false];
    }
  }

  predicate LowestFree(bitmap: seq<bool>, i: nat) {
    i < |bitmap| && !bitmap[i] && forall d :: 0 <= d < i ==> bitmap[d]
  }

  /** A distance is d strides exactly when it divides evenly with quotient d. */
  lemma DivideBack(distance: int, stride: nat)
    requires stride > 0
    ensures forall d :: 0 <= d < BF_REGISTERS ==>
              (distance == d * stride <==> distance >= 0 && distance % stride == 0 && distance / stride == d)
  {
    forall d | 0 <= d < BF_REGISTERS
      ensures distance == d * stride <==> distance >= 0 && distance % stride == 0 && distance / stride == d
    {
      MultipleGap(d, stride);
      SkipLaps(d, stride, 0);
      if distance >= 0 { assert distance == distance / stride * stride + distance % stride; }
    }
  }

  /** The four registers have different offsets, and each offset leads back to its register,
      exactly when their size is at most 2^30: from 2^31 on the 32-bit offset wraps. */
  lemma BfOffsetsDistinct(logSize: nat)
    requires logSize < 32
    ensures logSize <= 30 <==>
              forall i, j :: 0 <= i < j < BF_REGISTERS ==> BfOffset(i, logSize) != BfOffset(j, logSize)
    ensures logSize <= 30 <==>
              forall i :: 0 <= i < BF_REGISTERS ==> BfOffset(i, logSize) == BF_OFFSET + i * Pow2(logSize)
  {
    hide BfOffset, Pow2;
    if logSize <= 30 {
      SmallOffsets(logSize);
    } else {
      LargeOffsets();
    }
  }

  lemma SmallOffsets(logSize: nat)
    requires logSize <= 30
    ensures forall i :: 0 <= i < BF_REGISTERS ==> BfOffset(i, logSize) == BF_OFFSET + i * Pow2(logSize)
    ensures forall i, j :: 0 <= i < j < BF_REGISTERS ==> BfOffset(i, logSize) != BfOffset(j, logSize)
  {
    hide Pow2;
    SmallRegisters(logSize);
    OffsetsOfStride(Pow2(logSize));
    forall i, j | 0 <= i < j < BF_REGISTERS ensures BfOffset(i, logSize) != BfOffset(j, logSize) {
      MultipleGap(j - i, Pow2(logSize));
      assert j * Pow2(logSize) - i * Pow2(logSize) == (j - i) * Pow2(logSize);
    }
  }

  lemma LargeOffsets()
    ensures BfOffset(0, 31) == BfOffset(2, 31) && BfOffset(2, 31) != BF_OFFSET + 2 * Pow2(31)
  {
    hide Pow2;
    PowersOfTwo();
  }

  lemma OffsetsOfStride(stride: nat)
    requires 0 < stride <= 0x4000_0000
    ensures forall i :: 0 <= i < BF_REGISTERS ==>
              (BF_OFFSET + i * stride) % WRAP == BF_OFFSET + i * stride
    ensures 0 * stride < 1 * stride < 2 * stride < 3 * stride
  {
    forall i | 0 <= i < BF_REGISTERS
      ensures (BF_OFFSET + i * stride) % WRAP == BF_OFFSET + i * stride
    {
      assert i == 0 || i == 1 || i == 2 || i == 3;
    }
  }

  lemma SmallRegisters(logSize: nat)
    requires logSize <= 30
    ensures Pow2(logSize) <= 0x4000_0000
  {
    PowersMultiply(logSize, 30 - logSize);
    PowersMultiply(30, 1);
    PowersOfTwo();
    MultipleGap(Pow2(30 - logSize), Pow2(logSize));
  }

  // Runs of pair allocations

  datatype PairAction = AllocPair | FreePair(offset: nat)

  /** The bitmap with the offsets its users hold. */
  datatype PairState = PairState(words: Words, held: set<nat>)

  /** A user frees only what it holds. */
  ghost predicate PairStep(s: PairState, a: PairAction, s': PairState) {
    match a
    case AllocPair =>
      (exists slot :: 0 <= slot && FirstFit(s.words, 2, slot)
        && s' == PairState(TakeRun(s.words, slot, 2), s.held + {4 * slot}))
      || ((forall slot :: 0 <= slot ==> !Fits(s.words, slot, 2)) && s' == s)
    case FreePair(offset) =>
      && offset in s.held && offset % 4 == 0 && offset / 4 + 2 <= SLOTS
      && s' == PairState(FreeRun(s.words, offset / 4, 2), s.held - {offset})
  }

  ghost predicate PairRun(run: seq<PairState>, actions: seq<PairAction>) {
    && |run| == |actions| + 1
    && forall k :: 0 <= k < |actions| ==> PairStep(run[k], actions[k], run[k + 1])
  }

  /** The held offsets are exactly those of the live pairs: even-aligned, hence disjoint. */
  ghost predicate Unfragmented(s: PairState) {
    && InPairs(s.words)
    && (forall offset :: offset in s.held ==> offset % 8 == 0 && offset / 8 < PAIRS)
    && (forall p :: 0 <= p < PAIRS ==> (PairLive(s.words, p) <==> 8 * p in s.held))
  }

  /** A new page, with no slot taken and nothing held, is such a state. */
  lemma NewPageIsUnfragmented(words: Words)
    requires forall slot :: 0 <= slot < SLOTS ==> !Taken(words, slot)
    ensures Unfragmented(PairState(words, {}))
  {
    hide Taken;
    forall p | 0 <= p < PAIRS
      ensures (Taken(words, 2 * p) <==> Taken(words, 2 * p + 1)) && !PairLive(words, p)
    {
    }
  }

  lemma StepKeepsUnfragmented(s: PairState, a: PairAction, s': PairState)
    requires Unfragmented(s) && PairStep(s, a, s')
    ensures Unfragmented(s')
  {
    hide Taken, TakeRun, FreeRun, Unfragmented;
    if a.AllocPair? {
      if slot :| 0 <= slot && FirstFit(s.words, 2, slot)
                 && s' == PairState(TakeRun(s.words, slot, 2), s.held + {4 * slot}) {
        AllocKeepsUnfragmented(s, slot);
      }
    } else {
      HeldIsPair(s, a.offset);
      FreeKeepsUnfragmented(s, a.offset / 8);
    }
  }

  lemma HeldIsPair(s: PairState, offset: nat)
    requires Unfragmented(s) && offset in s.held
    ensures offset == 8 * (offset / 8) && offset / 4 == 2 * (offset / 8) && offset / 8 < PAIRS
  {
  }

  lemma AllocKeepsUnfragmented(s: PairState, slot: nat)
    requires Unfragmented(s) && FirstFit(s.words, 2, slot)
    ensures Unfragmented(PairState(TakeRun(s.words, slot, 2), s.held + {4 * slot}))
  {
    hide Taken, TakeRun, FreeRun;
    PairSearch(s.words, slot);
    TakeKeepsUnfragmented(s, slot / 2);
  }

  lemma TakeKeepsUnfragmented(s: PairState, p: nat)
    requires Unfragmented(s) && p < PAIRS
    ensures Unfragmented(PairState(TakeRun(s.words, 2 * p, 2), s.held + {8 * p}))
  {
    hide Taken, TakeRun, FreeRun;
    PairSteps(s.words, p);
  }

  lemma FreeKeepsUnfragmented(s: PairState, p: nat)
    requires Unfragmented(s) && p < PAIRS
    ensures Unfragmented(PairState(FreeRun(s.words, 2 * p, 2), s.held - {8 * p}))
  {
    hide Taken, TakeRun, FreeRun;
    PairSteps(s.words, p);
  }

  lemma {:induction false} RunKeepsUnfragmented(run: seq<PairState>, actions: seq<PairAction>, k: nat)
    requires PairRun(run, actions) && Unfragmented(run[0]) && k < |run|
    ensures Unfragmented(run[k])
  {
    if k > 0 {
      RunKeepsUnfragmented(run, actions, k - 1);
      StepKeepsUnfragmented(run[k - 1], actions[k - 1], run[k]);
    }
  }

  /** In every run an allocation finds no pair only when all 64 are held: there is never free
      room that the search cannot use. */
  lemma FailsOnlyWhenFull(run: seq<PairState>, actions: seq<PairAction>, k: nat)
    requires PairRun(run, actions) && Unfragmented(run[0]) && k < |run|
    ensures (forall slot :: 0 <= slot ==> !Fits(run[k].words, slot, 2)) <==>
            forall p :: 0 <= p < PAIRS ==> 8 * p in run[k].held
    ensures run[k].held <= AllOffsets()
  {
    RunKeepsUnfragmented(run, actions, k);
    PairSearch(run[k].words, 0);
    assert forall p :: 0 <= p < PAIRS ==> (PairLive(run[k].words, p) <==> 8 * p in run[k].held);
    forall offset | offset in run[k].held ensures offset in AllOffsets() {
      assert offset == 8 * (offset / 8);
    }
  }

  function AllOffsets(): set<nat> {
    set p | 0 <= p < PAIRS :: 8 * p
  }

  /** Freeing a pair straight after its allocation restores the whole state. */
  lemma FreeUndoesAlloc(s: PairState, s1: PairState, s2: PairState, offset: nat)
    requires Unfragmented(s) && PairStep(s, AllocPair, s1)
    requires offset in s1.held && offset !in s.held && PairStep(s1, FreePair(offset), s2)
    ensures s2 == s
  {
    var slot :| 0 <= slot && FirstFit(s.words, 2, slot)
                && s1 == PairState(TakeRun(s.words, slot, 2), s.held + {4 * slot});
    FreeRunUndoesTakeRun(s.words, slot, 2);
  }
}
