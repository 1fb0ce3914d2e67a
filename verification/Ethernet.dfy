/** Bringing the Ethernet interface up and down: a dozen firmware objects, any command of which
    may be refused. What firmware and the host answer is an input: the n-th answer to whatever is
    asked of them. */
module Ethernet {
  import opened Status
  import opened DoorbellBitmap
  import opened FirmwareObjects
  import PhaseRing
  import Uar

  const RX_RING: nat := 256

  /** Firmware answers success or an error. */
  predicate Answer(kr: Kr) {
    !kr.Timeout?
  }

  /** The doorbell pair an offset names; none if the offset is invalid. */
  function PairOf(offset: nat): set<nat> {
    if offset == INVALID then {} else {offset / 8}
  }

  function PairsOf(tx: nat, txCq: nat, rx: nat, rxCq: nat): set<nat> {
    PairOf(tx) + PairOf(txCq) + PairOf(rx) + PairOf(rxCq)
  }

  function Pairs(db: Doorbells): set<nat> {
    PairsOf(db.tx, db.txCq, db.rx, db.rxCq)
  }

  predicate PairOffset(offset: nat) {
    offset == INVALID || (offset % 8 == 0 && offset / 8 < PAIRS)
  }

  /** Every record is a pair of its own, marked live in the page. */
  ghost predicate PairsHeld(db: Doorbells, livePairs: set<nat>) {
    && PairOffset(db.tx) && PairOffset(db.txCq) && PairOffset(db.rx) && PairOffset(db.rxCq)
    && Pairs(db) <= livePairs
    && PairOf(db.tx) !! PairOf(db.txCq) + PairOf(db.rx) + PairOf(db.rxCq)
    && PairOf(db.txCq) !! PairOf(db.rx) + PairOf(db.rxCq)
    && PairOf(db.rx) !! PairOf(db.rxCq)
    && (db.bf.Some? ==> db.bf.value == Uar.BF_OFFSET)
  }

  /** Taking a pair that was free, or giving one back, leaves every other user's pairs alone. */
  lemma RecordTaken(db: Doorbells, page: set<nat>, k: Kind, offset: nat)
    requires k.Sq? || k.TxCq? || k.Rq? || k.RxCq?
    requires PairsHeld(db, page) && RecordOf(db, k) == INVALID
    requires PairOffset(offset) && offset != INVALID && offset / 8 !in page
    ensures PairsHeld(WithRecord(db, k, offset), page + {offset / 8})
    ensures (page + {offset / 8}) - Pairs(WithRecord(db, k, offset)) == page - Pairs(db)
  {
    assert Pairs(WithRecord(db, k, offset)) == Pairs(db) + {offset / 8};
  }

  lemma RecordIsPair(db: Doorbells, page: set<nat>, k: Kind)
    requires k.Sq? || k.TxCq? || k.Rq? || k.RxCq?
    requires PairsHeld(db, page) && RecordOf(db, k) != INVALID
    ensures RecordOf(db, k) % 8 == 0 && RecordOf(db, k) / 8 < PAIRS
  {
  }

  lemma RecordReturned(db: Doorbells, page: set<nat>, k: Kind)
    requires k.Sq? || k.TxCq? || k.Rq? || k.RxCq?
    requires PairsHeld(db, page) && RecordOf(db, k) != INVALID
    ensures PairsHeld(WithRecord(db, k, INVALID), page - {RecordOf(db, k) / 8})
    ensures (page - {RecordOf(db, k) / 8}) - Pairs(WithRecord(db, k, INVALID)) == page - Pairs(db)
  {
    assert Pairs(WithRecord(db, k, INVALID)) == Pairs(db) - {RecordOf(db, k) / 8};
  }

  /** Freeing the register at the base offset clears the first bit of the four. */
  lemma FirstRegisterFreed(bitmap: seq<bool>, logSize: nat)
    requires |bitmap| == Uar.BF_REGISTERS
    requires forall d :: 0 <= d < Uar.BF_REGISTERS ==>
               bitmap[d] == ([true, false, false, false][d]
                             && Uar.BF_OFFSET != Uar.BF_OFFSET + d * PhaseRing.Pow2(logSize))
    ensures bitmap == [false, false, false, false]
  {
    assert !bitmap[0] && !bitmap[1] && !bitmap[2] && !bitmap[3];
  }

  /** The interface is the only user of the registers, so it is given the first. */
  lemma FirstRegister(before: seq<bool>, after: seq<bool>, offset: nat, logSize: nat)
    requires before == [false, false, false, false]
    requires exists dbi :: 0 <= dbi < Uar.BF_REGISTERS && Uar.LowestFree(before, dbi)
               && offset == Uar.BfOffset(dbi, logSize) && after == before[dbi := true]
    ensures offset == Uar.BF_OFFSET && after == [true, false, false, false]
  {
    var dbi :| 0 <= dbi < Uar.BF_REGISTERS && Uar.LowestFree(before, dbi)
               && offset == Uar.BfOffset(dbi, logSize) && after == before[dbi := true];
    assert !before[0];
  }

  /** With no register taken the first is the lowest, and its doorbell lies in the page. */
  lemma OnlyFirstIsLowest(bitmap: seq<bool>, logSize: nat)
    requires bitmap == [false, false, false, false]
    ensures forall d :: 0 <= d ==> (Uar.LowestFree(bitmap, d) <==> d == 0)
    ensures Uar.LowestFree(bitmap, 0) && !bitmap[0] && Uar.BfOffset(0, logSize) == Uar.BF_OFFSET
  {
    forall d | 0 <= d ensures Uar.LowestFree(bitmap, d) <==> d == 0 {
      assert !bitmap[0];
    }
    assert 0 * PhaseRing.Pow2(logSize) == 0;
  }

  function WithCq(b: Buffers, k: Kind): Buffers {
    if k.TxCq? then b.(txCq := true) else b.(rxCq := true)
  }

  lemma RecordIsThere(db: Doorbells, k: Kind, offset: nat)
    requires k.Sq? || k.TxCq? || k.Rq? || k.RxCq?
    requires offset != INVALID
    ensures HasDoorbell(k, WithRecord(db, k, offset))
  {
  }

  /** All answers from one number to another were grants. */
  ghost predicate AllGranted(answer: nat -> Kr, from: nat, to: nat) {
    forall n :: from <= n < to ==> answer(n).Success?
  }

  /** Firmware's answers to commands, and the host's to requests for memory, in the order of
      asking. */
  class Oracle {
    const answer: nat -> Kr
    var asked: nat

    constructor (answer: nat -> Kr)
      ensures this.answer == answer && asked == 0
    {
      this.answer, asked := answer, 0;
    }

    /** kr is success exactly if everything asked for since then was granted. */
    ghost predicate Told(kr: Kr, from: nat)
      reads this`asked
    {
      from <= asked && (kr.Success? <==> AllGranted(answer, from, asked))
    }

    method Ask() returns (kr: Kr)
      modifies this`asked
      ensures asked == old(asked) + 1 && Answer(kr) && Told(kr, old(asked))
    {
      kr := answer(asked);
      if kr.Timeout? {
        kr := IOError;
      }
      asked := asked + 1;
    }
  }

  class Interface {
    const uar: Uar.UarPage
    const oracle: Oracle
    /** Whether the core driver has its event queues. */
    const coreHasEq: bool
    var fPd: nat
    var fTd: nat
    var fMkeyIndex: nat
    var fTisn: nat
    var fTxCqn: nat
    var fSqn: nat
    var fRxCqn: nat
    var fRqn: nat
    var fTirn: nat
    var fFlowTableId: nat
    var fFlowGroupId: nat
    var fFlowEntryValid: bool
    var fFlowRootActive: bool
    var fTxRing: bool
    var fRxRing: bool
    var fTxBuf: Pool
    var fTxCqDesc: bool
    var fRxBuf: Pool
    var fRxCqDesc: bool
    var fTxDbOffset: nat
    var fTxCqDbOffset: nat
    var fRxDbOffset: nat
    var fRxCqDbOffset: nat
    var fTxBf: nat
    var fTxBfValid: bool
    var fEnabled: bool
    var fEnabling: bool
    var fDisabling: bool
    var fNotifierRegistered: bool
    var fRxPc: nat
    /** The objects firmware has created and not destroyed. */
    ghost var live: Objects
    /** Whether the queues have been moved from reset to ready. */
    ghost var sqReady: bool
    ghost var rqReady: bool
    /** How many destroying commands firmware has refused so far. */
    ghost var failedDestroys: nat

    /** The objects the driver knows of. */
    ghost function Handles(): Objects
      reads this
    {
      Objects(fPd, fTd, fMkeyIndex, fTisn, fTxCqn, fSqn, fRxCqn, fRqn, fTirn, fFlowTableId, fFlowGroupId,
              if fFlowEntryValid then 0 else INVALID, if fFlowRootActive then 0 else INVALID)
    }

    ghost function HostMemory(): Buffers
      reads this
    {
      Buffers(fTxBuf, fTxRing, fTxCqDesc, fRxBuf, fRxRing, fRxCqDesc)
    }

    ghost function OwnDoorbells(): Doorbells
      reads this
    {
      Doorbells(fTxDbOffset, fTxCqDbOffset, fRxDbOffset, fRxCqDbOffset,
                if fTxBfValid then Some(fTxBf) else None)
    }

    ghost function PagePairs(): set<nat>
      reads uar.fDbBitmap
    {
      if uar.fDbBitmap.Length == 2 then LivePairs(uar.Slots()) else {}
    }

    /** The page has a pair left. */
    ghost predicate PairFree()
      reads uar`fDbRecord, uar.fDbBitmap
    {
      uar.fDbRecord.Some? && |PagePairs()| < 64
    }

    /** What the page must have left for the transmit side, the receive side, and both. */
    ghost predicate TxRoom()
      reads uar, uar.fDbBitmap, this`fTxRing
    {
      fTxRing && uar.fDbRecord.Some? && uar.fUarMapped && |PagePairs()| + 2 <= 64
    }

    ghost predicate RxRoom()
      reads uar, uar.fDbBitmap, this`fRxRing
    {
      fRxRing && uar.fDbRecord.Some? && |PagePairs()| + 2 <= 64
    }

    ghost predicate Room()
      reads uar, uar.fDbBitmap, this`fTxRing, this`fRxRing
    {
      && fTxRing && fRxRing && coreHasEq
      && uar.fDbRecord.Some? && uar.fUarMapped && |PagePairs()| + 4 <= 64
    }

    /** The doorbell pairs that other users of the page hold. */
    ghost function OtherPairs(): set<nat>
      reads this, uar.fDbBitmap
    {
      PagePairs() - PairsOf(fTxDbOffset, fTxCqDbOffset, fRxDbOffset, fRxCqDbOffset)
    }

    /** What the interface believes to hold of the page is marked there. */
    ghost predicate Held()
      reads this, uar, uar.fDbBitmap
    {
      && uar.Valid() && InPairs(uar.Slots())
      && PairsHeld(OwnDoorbells(), PagePairs())
      && uar.fUarBitmap == [fTxBfValid, false, false, false]
    }

    ghost predicate TxGone()
      reads this
    {
      && fTisn == fTxCqn == fSqn == INVALID
      && fTxBuf.Absent? && !fTxCqDesc && !fTxBfValid
      && fTxDbOffset == fTxCqDbOffset == INVALID
    }

    ghost predicate RxGone()
      reads this
    {
      && fRxCqn == fRqn == fTirn == INVALID
      && fRxBuf.Absent? && !fRxCqDesc
      && fRxDbOffset == fRxCqDbOffset == INVALID
    }

    ghost predicate FlowGone()
      reads this
    {
      fFlowTableId == fFlowGroupId == INVALID && !fFlowEntryValid && !fFlowRootActive
    }

    /** Everything the interface ever took has been given back. */
    ghost predicate Nothing()
      reads this
    {
      live == NO_OBJECTS && NoBuffers(HostMemory()) && OwnDoorbells() == NO_DOORBELLS
    }

    ghost predicate GlobalsLive()
      reads this
    {
      fPd != INVALID && fTd != INVALID && fMkeyIndex != INVALID
    }

    ghost predicate TxLive()
      reads this
    {
      fTisn != INVALID && fTxCqn != INVALID && fSqn != INVALID && fTxBfValid && sqReady
    }

    ghost predicate RxLive()
      reads this
    {
      fRxCqn != INVALID && fRqn != INVALID && fTirn != INVALID && rqReady
    }

    ghost predicate FlowLive()
      reads this
    {
      fFlowTableId != INVALID && fFlowGroupId != INVALID && fFlowEntryValid && fFlowRootActive
    }

    /** What every step keeps: the handles are exactly the live objects, and nothing live lacks
        what it needs. */
    ghost predicate Valid()
      reads this, uar, uar.fDbBitmap
    {
      live == Handles() && Consistent(live, HostMemory(), OwnDoorbells()) && Held()
    }

    /** What every call keeps: an enabled interface has all of its objects, and it is called on
        completions exactly while it is enabled. */
    ghost predicate Settled()
      reads this, uar, uar.fDbBitmap
    {
      && Valid()
      && (fEnabled ==> GlobalsLive() && TxLive() && RxLive() && FlowLive() && coreHasEq)
      && (fNotifierRegistered <==> fEnabled)
    }

    constructor (uar: Uar.UarPage, oracle: Oracle, coreHasEq: bool)
      requires uar.Valid() && InPairs(uar.Slots()) && uar.fUarBitmap == [false, false, false, false]
      ensures Settled() && Nothing() && !fEnabled && this.uar == uar && fTxRing && fRxRing
      ensures this.oracle == oracle && this.coreHasEq == coreHasEq
    {
      this.uar, this.oracle, this.coreHasEq := uar, oracle, coreHasEq;
      fPd, fTd, fMkeyIndex, fTisn, fTxCqn, fSqn := INVALID, INVALID, INVALID, INVALID, INVALID, INVALID;
      fRxCqn, fRqn, fTirn, fFlowTableId, fFlowGroupId := INVALID, INVALID, INVALID, INVALID, INVALID;
      fFlowEntryValid, fFlowRootActive, fTxRing, fRxRing := false, false, true, true;
      fTxBuf, fTxCqDesc, fRxBuf, fRxCqDesc := Absent, false, Absent, false;
      fTxDbOffset, fTxCqDbOffset, fRxDbOffset, fRxCqDbOffset := INVALID, INVALID, INVALID, INVALID;
      fTxBf, fTxBfValid, fEnabled, fEnabling, fDisabling := 0, false, false, false, false;
      fNotifierRegistered, fRxPc, live, failedDestroys := false, 0, NO_OBJECTS, 0;
      sqReady, rqReady := false, false;
    }

    // Firmware commands

    /** A creating command: firmware numbers the object; flow entry and root have no number.
        The buffers and doorbell record of a new queue are still the caller's own. */
    method ExecCreate(k: Kind, ghost b: Buffers, ghost db: Doorbells) returns (kr: Kr, id: nat)
      requires Consistent(live, b, db) && MayCreate(live, b, k)
      requires HasDoorbell(k, db) && (k.Pd? || fPd == live.pd != INVALID)
      modifies this`live, oracle
      ensures oracle.Told(kr, old(oracle.asked))
      ensures Answer(kr) && id < INVALID && (k.FlowEntry? || k.FlowRoot? ==> id == 0)
      ensures live == if kr.Success? then With(old(live), k, id) else old(live)
      ensures Consistent(live, b, db)
    {
      kr := oracle.Ask();
      id := *;
      id := if k.FlowEntry? || k.FlowRoot? then 0 else id % 0x100_0000;
      if kr.Success? {
        CreateKeepsConsistent(live, b, db, k, id);
        live := With(live, k, id);
      }
    }

    method ExecDestroy(k: Kind, id: nat) returns (kr: Kr)
      requires Consistent(live, HostMemory(), OwnDoorbells()) && MayDestroy(live, k, id)
      requires k.Pd? ==> live == NO_OBJECTS.(pd := id) && NoBuffers(HostMemory())
                         && OwnDoorbells() == NO_DOORBELLS
      modifies this`live, this`failedDestroys, oracle
      ensures Answer(kr) && oracle.Told(kr, old(oracle.asked))
      ensures live == if kr.Success? then With(old(live), k, INVALID) else old(live)
      ensures failedDestroys == old(failedDestroys) + (if kr.Success? then 0 else 1)
      ensures Consistent(live, HostMemory(), OwnDoorbells())
    {
      kr := oracle.Ask();
      if kr.Success? {
        DestroyKeepsConsistent(live, HostMemory(), OwnDoorbells(), k, id);
        live := With(live, k, INVALID);
      } else {
        failedDestroys := failedDestroys + 1;
      }
    }

    // Protection domain, transport domain and memory key

    method AllocPd() returns (kr: Kr)
      requires Valid() && Nothing()
      modifies this`fPd, this`live, oracle
      ensures Valid() && Answer(kr) && oracle.Told(kr, old(oracle.asked))
      ensures kr.Success? <==> fPd != INVALID
    {
      hide Consistent, PairsHeld, InPairs, PagePairs;
      var id;
      kr, id := ExecCreate(Pd, HostMemory(), OwnDoorbells());
      if kr.Success? {
        fPd := id;
      }
    }

    method AllocTd() returns (kr: Kr)
      requires Valid() && fPd != INVALID && fTd == INVALID
      modifies this`fTd, this`live, oracle
      ensures Valid() && Answer(kr) && oracle.Told(kr, old(oracle.asked))
      ensures kr.Success? <==> fTd != INVALID
    {
      hide Consistent, PairsHeld, InPairs, PagePairs;
      var id;
      kr, id := ExecCreate(Td, HostMemory(), OwnDoorbells());
      if kr.Success? {
        fTd := id;
      }
    }

    method CreateMkey() returns (kr: Kr)
      requires Valid() && fPd != INVALID && fMkeyIndex == INVALID
      modifies this`fMkeyIndex, this`live, oracle
      ensures Valid() && Answer(kr) && oracle.Told(kr, old(oracle.asked))
      ensures kr.Success? <==> fMkeyIndex != INVALID
    {
      hide Consistent, PairsHeld, InPairs, PagePairs;
      var id;
      kr, id := ExecCreate(Mkey, HostMemory(), OwnDoorbells());
      if kr.Success? {
        fMkeyIndex := id;
      }
    }

    method AllocGlobalResources() returns (kr: Kr)
      requires Valid() && Nothing()
      modifies this`fPd, this`fTd, this`fMkeyIndex, this`live, this`failedDestroys, oracle
      ensures Valid() && Answer(kr) && oracle.Told(kr, old(oracle.asked))
      ensures kr.Success? ==> GlobalsLive()
      ensures !kr.Success? && failedDestroys == old(failedDestroys) ==> Nothing()
      ensures failedDestroys >= old(failedDestroys)
    {
      hide Consistent, Held;
      kr := AllocPd();
      if !kr.Success? {
        return;
      }
      kr := AllocTd();
      if kr.Success? {
        kr := CreateMkey();
      }
      if !kr.Success? {
        var _ := DeallocGlobalResources();
      }
    }

    /** Key first, then the transport domain, and the protection domain only if that went. */
    method DeallocGlobalResources() returns (kr: Kr)
      requires Valid() && TxGone() && RxGone() && FlowGone()
      modifies this`fPd, this`fTd, this`fMkeyIndex, this`live, this`failedDestroys, oracle
      ensures Valid() && Answer(kr) && oracle.Told(kr, old(oracle.asked))
      ensures kr.Success? ==> Nothing() && failedDestroys == old(failedDestroys)
      ensures !kr.Success? ==> failedDestroys > old(failedDestroys)
    {
      hide Consistent, Held;
      kr := DestroyMkey();
      if !kr.Success? {
        return;
      }
      var firstError := DeallocTd();
      if firstError.Success? {
        firstError := DeallocPd();
      }
      kr := firstError;
    }

    method DestroyMkey() returns (kr: Kr)
      requires Valid() && TxGone() && RxGone()
      modifies this`fMkeyIndex, this`live, this`failedDestroys, oracle
      ensures Valid() && Answer(kr) && oracle.Told(kr, old(oracle.asked))
      ensures kr.Success? ==> fMkeyIndex == INVALID && failedDestroys == old(failedDestroys)
      ensures !kr.Success? ==> fMkeyIndex == old(fMkeyIndex) && live == old(live) && failedDestroys > old(failedDestroys)
    {
      hide Consistent, PairsHeld, InPairs, PagePairs;
      kr := Success;
      if fMkeyIndex != INVALID {
        kr := ExecDestroy(Mkey, fMkeyIndex);
        if kr.Success? {
          fMkeyIndex := INVALID;
        }
      }
    }

    method DeallocTd() returns (kr: Kr)
      requires Valid() && TxGone() && RxGone()
      modifies this`fTd, this`live, this`failedDestroys, oracle
      ensures Valid() && Answer(kr) && oracle.Told(kr, old(oracle.asked))
      ensures kr.Success? ==> fTd == INVALID && failedDestroys == old(failedDestroys)
      ensures !kr.Success? ==> fTd == old(fTd) && live == old(live) && failedDestroys > old(failedDestroys)
    {
      hide Consistent, PairsHeld, InPairs, PagePairs;
      kr := Success;
      if fTd != INVALID {
        kr := ExecDestroy(Td, fTd);
        if kr.Success? {
          fTd := INVALID;
        }
      }
    }

    method DeallocPd() returns (kr: Kr)
      requires Valid() && TxGone() && RxGone() && FlowGone() && fMkeyIndex == fTd == INVALID
      modifies this`fPd, this`live, this`failedDestroys, oracle
      ensures Valid() && Answer(kr) && oracle.Told(kr, old(oracle.asked))
      ensures kr.Success? ==> fPd == INVALID && failedDestroys == old(failedDestroys)
      ensures !kr.Success? ==> fPd == old(fPd) && live == old(live) && failedDestroys > old(failedDestroys)
    {
      hide Consistent, PairsHeld, InPairs, PagePairs;
      kr := Success;
      if fPd != INVALID {
        kr := ExecDestroy(Pd, fPd);
        if kr.Success? {
          fPd := INVALID;
        }
      }
    }

    // The transmit side

    method DestroySq() returns (kr: Kr)
      requires Valid()
      modifies this`fSqn, this`live, this`failedDestroys, oracle
      ensures Valid() && Answer(kr) && oracle.Told(kr, old(oracle.asked))
      ensures kr.Success? ==> fSqn == INVALID && failedDestroys == old(failedDestroys)
      ensures !kr.Success? ==> fSqn == old(fSqn) && live == old(live) && failedDestroys > old(failedDestroys)
    {
      hide Consistent, PairsHeld, InPairs, PagePairs;
      kr := Success;
      if fSqn != INVALID {
        kr := ExecDestroy(Sq, fSqn);
        if kr.Success? {
          fSqn := INVALID;
        }
      }
    }

    method FreeTxPool()
      requires Valid() && fSqn == INVALID
      modifies this`fTxBuf
      ensures Valid() && fTxBuf.Absent?
    {
      hide Consistent, PairsHeld, InPairs, PagePairs;
      if !fTxBuf.Absent? {
        NothingWithoutPd(live, HostMemory(), OwnDoorbells());
        MemoryKeepsConsistent(live, HostMemory(), OwnDoorbells(), TxPool);
        fTxBuf := Absent;
      }
    }

    method FreeTxDoorbell()
      requires Valid() && fSqn == INVALID
      modifies this`fTxDbOffset, uar.fDbBitmap
      ensures Valid() && fTxDbOffset == INVALID
      ensures OtherPairs() == old(OtherPairs())
    {
      hide Consistent, PairsHeld, InPairs, LivePairs;
      if fTxDbOffset != INVALID {
        NothingWithoutPd(live, HostMemory(), OwnDoorbells());
        RecordIsPair(OwnDoorbells(), PagePairs(), Sq);
        RecordReturned(OwnDoorbells(), PagePairs(), Sq);
        RecordKeepsConsistent(live, HostMemory(), OwnDoorbells(), Sq, INVALID);
        uar.FreePair(fTxDbOffset);
        fTxDbOffset := INVALID;
      }
    }

    method FreeTxBfreg()
      requires Valid()
      modifies this`fTxBf, this`fTxBfValid, uar`fUarBitmap
      ensures Valid() && !fTxBfValid
    {
      hide Consistent, InPairs, PagePairs, PairsOf;
      if fTxBfValid {
        NothingWithoutPd(live, HostMemory(), OwnDoorbells());
        RegisterKeepsConsistent(live, HostMemory(), OwnDoorbells(), None);
        uar.FreeBfreg(fTxBf);
        FirstRegisterFreed(uar.fUarBitmap, uar.logBfRegSize);
        fTxBf, fTxBfValid := 0, false;
      }
    }

    method DestroyTxCq() returns (kr: Kr)
      requires Valid() && fSqn == INVALID
      modifies this`fTxCqn, this`live, this`failedDestroys, oracle
      ensures Valid() && Answer(kr) && oracle.Told(kr, old(oracle.asked))
      ensures kr.Success? ==> fTxCqn == INVALID && failedDestroys == old(failedDestroys)
      ensures !kr.Success? ==> fTxCqn == old(fTxCqn) && live == old(live) && failedDestroys > old(failedDestroys)
    {
      hide Consistent, PairsHeld, InPairs, PagePairs;
      kr := Success;
      if fTxCqn != INVALID {
        kr := ExecDestroy(TxCq, fTxCqn);
        if kr.Success? {
          fTxCqn := INVALID;
        }
      }
    }

    method FreeTxCqBuffer()
      requires Valid() && fTxCqn == INVALID
      modifies this`fTxCqDesc
      ensures Valid() && !fTxCqDesc
    {
      hide Consistent, PairsHeld, InPairs, PagePairs;
      if fTxCqDesc {
        NothingWithoutPd(live, HostMemory(), OwnDoorbells());
        MemoryKeepsConsistent(live, HostMemory(), OwnDoorbells(), TxCqBuffer);
        fTxCqDesc := false;
      }
    }

    method FreeTxCqDoorbell()
      requires Valid() && fTxCqn == INVALID
      modifies this`fTxCqDbOffset, uar.fDbBitmap
      ensures Valid() && fTxCqDbOffset == INVALID
      ensures OtherPairs() == old(OtherPairs())
    {
      hide Consistent, PairsHeld, InPairs, LivePairs;
      if fTxCqDbOffset != INVALID {
        NothingWithoutPd(live, HostMemory(), OwnDoorbells());
        RecordIsPair(OwnDoorbells(), PagePairs(), TxCq);
        RecordReturned(OwnDoorbells(), PagePairs(), TxCq);
        RecordKeepsConsistent(live, HostMemory(), OwnDoorbells(), TxCq, INVALID);
        uar.FreePair(fTxCqDbOffset);
        fTxCqDbOffset := INVALID;
      }
    }

    method DestroyTis() returns (kr: Kr)
      requires Valid() && fSqn == INVALID
      modifies this`fTisn, this`live, this`failedDestroys, oracle
      ensures Valid() && Answer(kr) && oracle.Told(kr, old(oracle.asked))
      ensures kr.Success? ==> fTisn == INVALID && failedDestroys == old(failedDestroys)
      ensures !kr.Success? ==> fTisn == old(fTisn) && live == old(live) && failedDestroys > old(failedDestroys)
    {
      hide Consistent, PairsHeld, InPairs, PagePairs;
      kr := Success;
      if fTisn != INVALID {
        kr := ExecDestroy(Tis, fTisn);
        if kr.Success? {
          fTisn := INVALID;
        }
      }
    }

    /** The part that CREATE_CQ, CREATE_SQ and CREATE_RQ share: a doorbell record first, and back
        it goes if the command is refused. b is the memory the queue will find allocated. */
    method CreateQueue(k: Kind, ghost b: Buffers) returns (kr: Kr, id: nat, dbOffset: nat)
      requires k.Sq? || k.TxCq? || k.Rq? || k.RxCq?
      requires Valid() && fPd != INVALID && RecordOf(OwnDoorbells(), k) == INVALID
      requires Consistent(live, b, OwnDoorbells()) && MayCreate(live, b, k)
      modifies this`live, uar.fDbBitmap, uar.Record(), oracle
      ensures old(oracle.asked) <= oracle.asked
      ensures kr.Success? <==> old(PairFree()) && AllGranted(oracle.answer, old(oracle.asked), oracle.asked)
      ensures !old(PairFree()) ==> kr.NoResources?
      ensures kr.Success? ==> |PagePairs()| == |old(PagePairs())| + 1
      ensures Answer(kr) && uar.Valid() && InPairs(uar.Slots())
      ensures !kr.Success? ==> live == old(live) && PagePairs() == old(PagePairs())
      ensures kr.Success? ==> id < INVALID && live == With(old(live), k, id)
      ensures kr.Success? ==> dbOffset != INVALID
      ensures kr.Success? ==> Consistent(live, b, WithRecord(OwnDoorbells(), k, dbOffset))
      ensures kr.Success? ==> PairsHeld(WithRecord(OwnDoorbells(), k, dbOffset), PagePairs())
      ensures kr.Success? ==>
                PagePairs() - Pairs(WithRecord(OwnDoorbells(), k, dbOffset)) == old(OtherPairs())
    {
      hide Consistent, PairsHeld, PairsOf, InPairs, LivePairs, MayCreate;
      id := 0;
      ghost var page := PagePairs();
      kr, dbOffset := uar.AllocPair();
      if !kr.Success? {
        kr := NoResources;
        return;
      }
      RecordTaken(OwnDoorbells(), page, k, dbOffset);
      RecordKeepsConsistent(live, b, OwnDoorbells(), k, dbOffset);
      RecordIsThere(OwnDoorbells(), k, dbOffset);
      kr, id := ExecCreate(k, b, WithRecord(OwnDoorbells(), k, dbOffset));
      if !kr.Success? {
        uar.FreePair(dbOffset);
        assert PagePairs() == page;
      }
    }

    /** CREATE_CQ after allocating and mapping the ring of completions, all of it still the
        caller's. */
    method CmdCreateCq(k: Kind) returns (kr: Kr, id: nat, dbOffset: nat)
      requires k.TxCq? || k.RxCq?
      requires Valid() && fPd != INVALID && RecordOf(OwnDoorbells(), k) == INVALID && !IsLive(live, k)
      modifies this`live, uar.fDbBitmap, uar.Record(), oracle
      ensures old(oracle.asked) <= oracle.asked
      ensures kr.Success? <==> old(PairFree()) && AllGranted(oracle.answer, old(oracle.asked), oracle.asked)
      ensures kr.Success? ==> |PagePairs()| == |old(PagePairs())| + 1
      ensures Answer(kr) && uar.Valid() && InPairs(uar.Slots())
      ensures !kr.Success? ==> live == old(live) && PagePairs() == old(PagePairs())
      ensures kr.Success? ==> id < INVALID && live == With(old(live), k, id)
      ensures kr.Success? ==> dbOffset != INVALID
      ensures kr.Success? ==>
                Consistent(live, WithCq(HostMemory(), k), WithRecord(OwnDoorbells(), k, dbOffset))
      ensures kr.Success? ==> PairsHeld(WithRecord(OwnDoorbells(), k, dbOffset), PagePairs())
      ensures kr.Success? ==>
                PagePairs() - Pairs(WithRecord(OwnDoorbells(), k, dbOffset)) == old(OtherPairs())
    {
      hide Consistent, PairsHeld, InPairs, PairsOf, PagePairs;
      kr := oracle.Ask();
      if !kr.Success? {
        return NoMemory, 0, 0;
      }
      MemoryKeepsConsistent(live, HostMemory(), OwnDoorbells(), if k.TxCq? then TxCqBuffer else RxCqBuffer);
      kr, id, dbOffset := CreateQueue(k, WithCq(HostMemory(), k));
    }

    method CreateTxCq() returns (kr: Kr)
      requires Valid() && fPd != INVALID && fTxCqn == fTxCqDbOffset == INVALID && !fTxCqDesc
      modifies this`fTxCqn, this`fTxCqDesc, this`fTxCqDbOffset, this`live, uar.fDbBitmap, uar.Record(), oracle
      ensures old(oracle.asked) <= oracle.asked
      ensures kr.Success? <==> old(PairFree()) && AllGranted(oracle.answer, old(oracle.asked), oracle.asked)
      ensures kr.Success? ==> |PagePairs()| == |old(PagePairs())| + 1
      ensures Valid() && Answer(kr) && OtherPairs() == old(OtherPairs())
      ensures kr.Success? ==> fTxCqn != INVALID
    {
      hide Consistent, PairsHeld, PairsOf, InPairs, PagePairs, PairFree, AllGranted, Uar.UarPage.Valid;
      var id, dbOffset;
      kr, id, dbOffset := CmdCreateCq(TxCq);
      if kr.Success? {
        fTxCqn, fTxCqDesc, fTxCqDbOffset := id, true, dbOffset;
      }
    }

    method CreateTis() returns (kr: Kr)
      requires Valid() && fPd != INVALID && fTd != INVALID && fTisn == INVALID
      modifies this`fTisn, this`live, oracle
      ensures Valid() && Answer(kr) && oracle.Told(kr, old(oracle.asked))
      ensures kr.Success? <==> fTisn != INVALID
    {
      hide Consistent, PairsHeld, InPairs, PagePairs;
      var id;
      kr, id := ExecCreate(Tis, HostMemory(), OwnDoorbells());
      if kr.Success? {
        fTisn := id;
      }
    }

    method CreateSq() returns (kr: Kr)
      requires Valid() && GlobalsLive() && fSqn == fTxDbOffset == INVALID && fTxBuf.Mapped? && fTisn != INVALID && fTxCqn != INVALID
      modifies this`fSqn, this`fTxDbOffset, this`live, uar.fDbBitmap, uar.Record(), oracle
      ensures old(oracle.asked) <= oracle.asked
      ensures kr.Success? <==> fTxRing && old(PairFree()) && AllGranted(oracle.answer, old(oracle.asked), oracle.asked)
      ensures kr.Success? ==> |PagePairs()| == |old(PagePairs())| + 1
      ensures Valid() && Answer(kr) && OtherPairs() == old(OtherPairs())
      ensures kr.Success? ==> fSqn != INVALID
    {
      hide Consistent, PairsHeld, PairsOf, InPairs, PagePairs, PairFree, AllGranted;
      if !fTxRing {
        return NotReady;
      }
      var id, dbOffset;
      kr, id, dbOffset := CreateQueue(Sq, HostMemory());
      if kr.Success? {
        fSqn, fTxDbOffset := id, dbOffset;
      }
    }

    method AllocTxPool() returns (kr: Kr)
      requires Valid() && fPd != INVALID && fTxBuf.Absent?
      modifies this`fTxBuf, oracle
      ensures Valid() && Answer(kr) && oracle.Told(kr, old(oracle.asked))
      ensures kr.Success? || kr.NoMemory?
      ensures fTxBuf == if kr.Success? then Unmapped else Absent
    {
      hide Consistent, PairsHeld, InPairs, PagePairs;
      kr := oracle.Ask();
      if kr.Success? {
        NothingWithoutPd(live, HostMemory(), OwnDoorbells());
        LiveQueuesAreMapped(live, HostMemory(), OwnDoorbells());
        PoolKeepsConsistent(live, HostMemory(), OwnDoorbells(), TxPool);
        fTxBuf := Unmapped;
      } else {
        kr := NoMemory;
      }
    }

    method MapTxPool() returns (kr: Kr)
      requires Valid() && fPd != INVALID && fTxBuf.Unmapped?
      modifies this`fTxBuf, oracle
      ensures Valid() && Answer(kr) && oracle.Told(kr, old(oracle.asked))
      ensures fTxBuf == if kr.Success? then Mapped else Unmapped
    {
      hide Consistent, PairsHeld, InPairs, PagePairs;
      kr := oracle.Ask();
      if kr.Success? {
        MemoryKeepsConsistent(live, HostMemory(), OwnDoorbells(), TxPool);
        fTxBuf := Mapped;
      }
    }

    method AllocTxBfreg() returns (kr: Kr)
      requires Valid() && fPd != INVALID && !fTxBfValid
      modifies this`fTxBf, this`fTxBfValid, uar`fUarBitmap
      ensures Valid() && Answer(kr)
      ensures kr.Success? <==> fTxBfValid
      ensures kr.Success? <==> uar.fUarMapped
    {
      hide Consistent, InPairs, PagePairs, PairsOf;
      var offset;
      OnlyFirstIsLowest(uar.fUarBitmap, uar.logBfRegSize);
      kr, offset := uar.AllocBfreg();
      if kr.Success? {
        RegisterKeepsConsistent(live, HostMemory(), OwnDoorbells(), Some(Uar.BF_OFFSET));
        FirstRegister(old(uar.fUarBitmap), uar.fUarBitmap, offset, uar.logBfRegSize);
        fTxBf, fTxBfValid := offset, true;
      }
    }

    /** Pool, TIS, CQ, SQ, register, and the step to ready; the first failure undoes what
        it can. */
    method CreateTxResources() returns (kr: Kr)
      requires Valid() && GlobalsLive() && TxGone()
      modifies this`fTisn, this`fTxCqn, this`fSqn, this`fTxBuf, this`fTxCqDesc
      modifies this`fTxDbOffset, this`fTxCqDbOffset, this`fTxBf, this`fTxBfValid
      modifies this`sqReady, this`live, this`failedDestroys, uar.fDbBitmap, uar.Record(), uar`fUarBitmap, oracle
      ensures Valid() && Answer(kr) && OtherPairs() == old(OtherPairs())
      ensures old(oracle.asked) <= oracle.asked
      ensures kr.Success? <==> old(TxRoom()) && AllGranted(oracle.answer, old(oracle.asked), oracle.asked)
      ensures kr.Success? ==> |PagePairs()| == |old(PagePairs())| + 2
      ensures kr.Success? ==> TxLive()
      ensures failedDestroys >= old(failedDestroys)
    {
      hide Valid, PagePairs, PairsOf;
      kr := AllocTxPool();
      if !kr.Success? {
        return;
      }
      kr := MapTxPool();
      if kr.Success? { kr := CreateTxObjects(); }
      if !kr.Success? {
        var _ := DestroyTxResources();
      }
    }

    method CreateTxObjects() returns (kr: Kr)
      requires Valid() && GlobalsLive() && fTxBuf.Mapped? && !fTxCqDesc && !fTxBfValid
      requires fTisn == fTxCqn == fSqn == fTxDbOffset == fTxCqDbOffset == INVALID
      modifies this`fTisn, this`fTxCqn, this`fSqn, this`fTxCqDesc
      modifies this`fTxDbOffset, this`fTxCqDbOffset, this`fTxBf, this`fTxBfValid
      modifies this`sqReady, this`live, uar.fDbBitmap, uar.Record(), uar`fUarBitmap, oracle
      ensures Valid() && Answer(kr) && OtherPairs() == old(OtherPairs())
      ensures old(oracle.asked) <= oracle.asked
      ensures kr.Success? <==> old(TxRoom()) && AllGranted(oracle.answer, old(oracle.asked), oracle.asked)
      ensures kr.Success? ==> |PagePairs()| == |old(PagePairs())| + 2
      ensures kr.Success? ==> TxLive()
    {
      hide Valid, PagePairs, PairsOf;
      ResetSq();
      kr := CreateTis();
      if kr.Success? { kr := CreateTxCq(); }
      if kr.Success? { kr := CreateSq(); }
      if kr.Success? { kr := AllocTxBfreg(); }
      if kr.Success? { kr := ModifySqReady(); }
    }

    ghost method ResetSq()
      requires Valid()
      modifies this`sqReady
      ensures Valid() && !sqReady
    {
      hide Consistent, PairsHeld, InPairs, PagePairs;
      sqReady := false;
    }

    method ModifySqReady() returns (kr: Kr)
      requires Valid() && fSqn != INVALID
      modifies this`sqReady, oracle
      ensures Valid() && Answer(kr) && oracle.Told(kr, old(oracle.asked)) && (kr.Success? ==> sqReady)
    {
      hide Consistent, PairsHeld, InPairs, PagePairs;
      kr := oracle.Ask();
      if kr.Success? {
        sqReady := true;
      }
    }

    /** The queue goes first; its pool, doorbell and register follow, then CQ and TIS. A refusal
        keeps everything that what is left still needs. */
    method DestroyTxResources() returns (kr: Kr)
      requires Valid()
      modifies this`fTisn, this`fTxCqn, this`fSqn, this`fTxBuf, this`fTxCqDesc
      modifies this`fTxDbOffset, this`fTxCqDbOffset, this`fTxBf, this`fTxBfValid
      modifies this`live, this`failedDestroys, uar.fDbBitmap, uar`fUarBitmap, oracle
      ensures Valid() && Answer(kr) && OtherPairs() == old(OtherPairs())
      ensures oracle.Told(kr, old(oracle.asked))
      ensures kr.Success? ==> TxGone() && failedDestroys == old(failedDestroys)
      ensures !kr.Success? ==> failedDestroys > old(failedDestroys)
    {
      hide Valid, PagePairs, PairsOf;
      kr := DestroySq();
      if !kr.Success? {
        return;
      }
      FreeTxPool();
      FreeTxDoorbell();
      FreeTxBfreg();
      kr := DestroyTxCq();
      if !kr.Success? {
        return;
      }
      FreeTxCqBuffer();
      FreeTxCqDoorbell();
      kr := DestroyTis();
    }

    // The receive side

    method DestroyTir() returns (kr: Kr)
      requires Valid() && FlowGone()
      modifies this`fTirn, this`live, this`failedDestroys, oracle
      ensures Valid() && Answer(kr) && oracle.Told(kr, old(oracle.asked))
      ensures kr.Success? ==> fTirn == INVALID && failedDestroys == old(failedDestroys)
      ensures !kr.Success? ==> fTirn == old(fTirn) && live == old(live) && failedDestroys > old(failedDestroys)
    {
      hide Consistent, PairsHeld, InPairs, PagePairs;
      kr := Success;
      if fTirn != INVALID {
        kr := ExecDestroy(Tir, fTirn);
        if kr.Success? {
          fTirn := INVALID;
        }
      }
    }

    method DestroyRq() returns (kr: Kr)
      requires Valid() && fTirn == INVALID
      modifies this`fRqn, this`live, this`failedDestroys, oracle
      ensures Valid() && Answer(kr) && oracle.Told(kr, old(oracle.asked))
      ensures kr.Success? ==> fRqn == INVALID && failedDestroys == old(failedDestroys)
      ensures !kr.Success? ==> fRqn == old(fRqn) && live == old(live) && failedDestroys > old(failedDestroys)
    {
      hide Consistent, PairsHeld, InPairs, PagePairs;
      kr := Success;
      if fRqn != INVALID {
        kr := ExecDestroy(Rq, fRqn);
        if kr.Success? {
          fRqn := INVALID;
        }
      }
    }

    method FreeRxPool()
      requires Valid() && fRqn == INVALID
      modifies this`fRxBuf
      ensures Valid() && fRxBuf.Absent?
    {
      hide Consistent, PairsHeld, InPairs, PagePairs;
      if !fRxBuf.Absent? {
        NothingWithoutPd(live, HostMemory(), OwnDoorbells());
        MemoryKeepsConsistent(live, HostMemory(), OwnDoorbells(), RxPool);
        fRxBuf := Absent;
      }
    }

    method FreeRxDoorbell()
      requires Valid() && fRqn == INVALID
      modifies this`fRxDbOffset, uar.fDbBitmap
      ensures Valid() && fRxDbOffset == INVALID
      ensures OtherPairs() == old(OtherPairs())
    {
      hide Consistent, PairsHeld, InPairs, LivePairs;
      if fRxDbOffset != INVALID {
        NothingWithoutPd(live, HostMemory(), OwnDoorbells());
        RecordIsPair(OwnDoorbells(), PagePairs(), Rq);
        RecordReturned(OwnDoorbells(), PagePairs(), Rq);
        RecordKeepsConsistent(live, HostMemory(), OwnDoorbells(), Rq, INVALID);
        uar.FreePair(fRxDbOffset);
        fRxDbOffset := INVALID;
      }
    }

    method DestroyRxCq() returns (kr: Kr)
      requires Valid() && fRqn == INVALID
      modifies this`fRxCqn, this`live, this`failedDestroys, oracle
      ensures Valid() && Answer(kr) && oracle.Told(kr, old(oracle.asked))
      ensures kr.Success? ==> fRxCqn == INVALID && failedDestroys == old(failedDestroys)
      ensures !kr.Success? ==> fRxCqn == old(fRxCqn) && live == old(live) && failedDestroys > old(failedDestroys)
    {
      hide Consistent, PairsHeld, InPairs, PagePairs;
      kr := Success;
      if fRxCqn != INVALID {
        kr := ExecDestroy(RxCq, fRxCqn);
        if kr.Success? {
          fRxCqn := INVALID;
        }
      }
    }

    method FreeRxCqBuffer()
      requires Valid() && fRxCqn == INVALID
      modifies this`fRxCqDesc
      ensures Valid() && !fRxCqDesc
    {
      hide Consistent, PairsHeld, InPairs, PagePairs;
      if fRxCqDesc {
        NothingWithoutPd(live, HostMemory(), OwnDoorbells());
        MemoryKeepsConsistent(live, HostMemory(), OwnDoorbells(), RxCqBuffer);
        fRxCqDesc := false;
      }
    }

    method FreeRxCqDoorbell()
      requires Valid() && fRxCqn == INVALID
      modifies this`fRxCqDbOffset, uar.fDbBitmap
      ensures Valid() && fRxCqDbOffset == INVALID
      ensures OtherPairs() == old(OtherPairs())
    {
      hide Consistent, PairsHeld, InPairs, LivePairs;
      if fRxCqDbOffset != INVALID {
        NothingWithoutPd(live, HostMemory(), OwnDoorbells());
        RecordIsPair(OwnDoorbells(), PagePairs(), RxCq);
        RecordReturned(OwnDoorbells(), PagePairs(), RxCq);
        RecordKeepsConsistent(live, HostMemory(), OwnDoorbells(), RxCq, INVALID);
        uar.FreePair(fRxCqDbOffset);
        fRxCqDbOffset := INVALID;
      }
    }

    method CreateRxCq() returns (kr: Kr)
      requires Valid() && fPd != INVALID && fRxCqn == fRxCqDbOffset == INVALID && !fRxCqDesc
      modifies this`fRxCqn, this`fRxCqDesc, this`fRxCqDbOffset, this`live, uar.fDbBitmap, uar.Record(), oracle
      ensures old(oracle.asked) <= oracle.asked
      ensures kr.Success? <==> old(PairFree()) && AllGranted(oracle.answer, old(oracle.asked), oracle.asked)
      ensures kr.Success? ==> |PagePairs()| == |old(PagePairs())| + 1
      ensures Valid() && Answer(kr) && OtherPairs() == old(OtherPairs())
      ensures kr.Success? ==> fRxCqn != INVALID
    {
      hide Consistent, PairsHeld, PairsOf, InPairs, PagePairs, PairFree, AllGranted, Uar.UarPage.Valid;
      var id, dbOffset;
      kr, id, dbOffset := CmdCreateCq(RxCq);
      if kr.Success? {
        fRxCqn, fRxCqDesc, fRxCqDbOffset := id, true, dbOffset;
      }
    }

    method CreateRq() returns (kr: Kr)
      requires Valid() && GlobalsLive() && fRqn == fRxDbOffset == INVALID && fRxBuf.Mapped? && fRxCqn != INVALID
      modifies this`fRqn, this`fRxDbOffset, this`live, uar.fDbBitmap, uar.Record(), oracle
      ensures old(oracle.asked) <= oracle.asked
      ensures kr.Success? <==> fRxRing && old(PairFree()) && AllGranted(oracle.answer, old(oracle.asked), oracle.asked)
      ensures kr.Success? ==> |PagePairs()| == |old(PagePairs())| + 1
      ensures Valid() && Answer(kr) && OtherPairs() == old(OtherPairs())
      ensures kr.Success? ==> fRqn != INVALID
    {
      hide Consistent, PairsHeld, PairsOf, InPairs, PagePairs, PairFree, AllGranted;
      if !fRxRing {
        return NotReady;
      }
      var id, dbOffset;
      kr, id, dbOffset := CreateQueue(Rq, HostMemory());
      if kr.Success? {
        fRqn, fRxDbOffset := id, dbOffset;
      }
    }

    method CreateTir() returns (kr: Kr)
      requires Valid() && fPd != INVALID && fRqn != INVALID && fTd != INVALID && fTirn == INVALID
      modifies this`fTirn, this`live, oracle
      ensures Valid() && Answer(kr) && oracle.Told(kr, old(oracle.asked))
      ensures kr.Success? <==> fTirn != INVALID
    {
      hide Consistent, PairsHeld, InPairs, PagePairs;
      var id;
      kr, id := ExecCreate(Tir, HostMemory(), OwnDoorbells());
      if kr.Success? {
        fTirn := id;
      }
    }

    method AllocRxPool() returns (kr: Kr)
      requires Valid() && fPd != INVALID && fRxBuf.Absent?
      modifies this`fRxBuf, oracle
      ensures Valid() && Answer(kr) && oracle.Told(kr, old(oracle.asked))
      ensures kr.Success? || kr.NoMemory?
      ensures fRxBuf == if kr.Success? then Unmapped else Absent
    {
      hide Consistent, PairsHeld, InPairs, PagePairs;
      kr := oracle.Ask();
      if kr.Success? {
        NothingWithoutPd(live, HostMemory(), OwnDoorbells());
        LiveQueuesAreMapped(live, HostMemory(), OwnDoorbells());
        PoolKeepsConsistent(live, HostMemory(), OwnDoorbells(), RxPool);
        fRxBuf := Unmapped;
      } else {
        kr := NoMemory;
      }
    }

    method MapRxPool() returns (kr: Kr)
      requires Valid() && fPd != INVALID && fRxBuf.Unmapped?
      modifies this`fRxBuf, oracle
      ensures Valid() && Answer(kr) && oracle.Told(kr, old(oracle.asked))
      ensures fRxBuf == if kr.Success? then Mapped else Unmapped
    {
      hide Consistent, PairsHeld, InPairs, PagePairs;
      kr := oracle.Ask();
      if kr.Success? {
        MemoryKeepsConsistent(live, HostMemory(), OwnDoorbells(), RxPool);
        fRxBuf := Mapped;
      }
    }

    method CreateRxResources() returns (kr: Kr)
      requires Valid() && GlobalsLive() && RxGone() && FlowGone()
      modifies this`fRxCqn, this`fRqn, this`fTirn, this`fRxBuf, this`fRxCqDesc
      modifies this`fRxDbOffset, this`fRxCqDbOffset
      modifies this`fRxPc, this`rqReady, this`live, this`failedDestroys, uar.fDbBitmap, uar.Record(), oracle
      ensures Valid() && Answer(kr) && OtherPairs() == old(OtherPairs())
      ensures old(oracle.asked) <= oracle.asked
      ensures kr.Success? <==> old(RxRoom()) && AllGranted(oracle.answer, old(oracle.asked), oracle.asked)
      ensures kr.Success? ==> |PagePairs()| == |old(PagePairs())| + 2
      ensures kr.Success? ==> RxLive()
      ensures failedDestroys >= old(failedDestroys)
    {
      hide Valid, PagePairs, PairsOf;
      kr := AllocRxPool();
      if !kr.Success? {
        return;
      }
      kr := MapRxPool();
      if kr.Success? { kr := CreateRxObjects(); }
      if !kr.Success? {
        var _ := DestroyRxResources();
      }
    }

    method CreateRxObjects() returns (kr: Kr)
      requires Valid() && GlobalsLive() && fRxBuf.Mapped? && !fRxCqDesc
      requires fRxCqn == fRqn == fTirn == fRxDbOffset == fRxCqDbOffset == INVALID
      modifies this`fRxCqn, this`fRqn, this`fTirn, this`fRxCqDesc
      modifies this`fRxDbOffset, this`fRxCqDbOffset, this`fRxPc, this`rqReady, this`live, uar.fDbBitmap, uar.Record(), oracle
      ensures Valid() && Answer(kr) && OtherPairs() == old(OtherPairs())
      ensures old(oracle.asked) <= oracle.asked
      ensures kr.Success? <==> old(RxRoom()) && AllGranted(oracle.answer, old(oracle.asked), oracle.asked)
      ensures kr.Success? ==> |PagePairs()| == |old(PagePairs())| + 2
      ensures kr.Success? ==> RxLive()
    {
      hide Valid, PagePairs, PairsOf;
      ResetRq();
      kr := CreateRxCq();
      if kr.Success? { kr := CreateRq(); }
      if kr.Success? { kr := CreateTir(); }
      if kr.Success? { kr := PostInitialWqes(); }
      if kr.Success? { kr := ModifyRqReady(); }
    }

    method ResetRq()
      requires Valid()
      modifies this`fRxPc, this`rqReady
      ensures Valid() && fRxPc == 0 && !rqReady
    {
      hide Consistent, PairsHeld, InPairs, PagePairs;
      fRxPc, rqReady := 0, false;
    }

    /** All descriptors; that takes nothing but the ring. */
    method PostInitialWqes() returns (kr: Kr)
      requires Valid() && fRxPc == 0
      modifies this`fRxPc
      ensures Valid() && Answer(kr) && (kr.Success? ==> fRxPc == 256)
      ensures kr == if fRxRing then Success else NotReady
    {
      hide Consistent, PairsHeld, InPairs, PagePairs;
      while fRxPc < RX_RING
        invariant Valid() && fRxPc <= RX_RING
      {
        if !fRxRing {
          return NotReady;
        }
        fRxPc := fRxPc + 1;
      }
      kr := if fRxRing then Success else NotReady;
    }

    /** The queue is made ready only with all of its descriptors posted. */
    method ModifyRqReady() returns (kr: Kr)
      requires Valid() && fRqn != INVALID && fRxPc == RX_RING
      modifies this`rqReady, oracle
      ensures Valid() && Answer(kr) && oracle.Told(kr, old(oracle.asked)) && (kr.Success? ==> rqReady)
    {
      hide Consistent, PairsHeld, InPairs, PagePairs;
      kr := oracle.Ask();
      if kr.Success? {
        rqReady := true;
      }
    }

    /** Only once no flow entry steers packets to the TIR. */
    method DestroyRxResources() returns (kr: Kr)
      requires Valid() && FlowGone()
      modifies this`fRxCqn, this`fRqn, this`fTirn, this`fRxBuf, this`fRxCqDesc
      modifies this`fRxDbOffset, this`fRxCqDbOffset
      modifies this`live, this`failedDestroys, uar.fDbBitmap, oracle
      ensures Valid() && Answer(kr) && OtherPairs() == old(OtherPairs())
      ensures oracle.Told(kr, old(oracle.asked))
      ensures kr.Success? ==> RxGone() && failedDestroys == old(failedDestroys)
      ensures !kr.Success? ==> failedDestroys > old(failedDestroys)
    {
      hide Valid, PagePairs, PairsOf;
      kr := DestroyTir();
      if !kr.Success? {
        return;
      }
      kr := DestroyRq();
      if !kr.Success? {
        return;
      }
      FreeRxPool();
      FreeRxDoorbell();
      kr := DestroyRxCq();
      if !kr.Success? {
        return;
      }
      FreeRxCqBuffer();
      FreeRxCqDoorbell();
    }

    // Flow steering

    method CreateFlowTable() returns (kr: Kr)
      requires Valid() && fPd != INVALID && fFlowTableId == INVALID
      modifies this`fFlowTableId, this`live, oracle
      ensures Valid() && Answer(kr) && oracle.Told(kr, old(oracle.asked))
      ensures kr.Success? <==> fFlowTableId != INVALID
    {
      hide Consistent, PairsHeld, InPairs, PagePairs;
      var id;
      kr, id := ExecCreate(FlowTable, HostMemory(), OwnDoorbells());
      if kr.Success? {
        fFlowTableId := id;
      }
    }

    method CreateFlowGroup() returns (kr: Kr)
      requires Valid() && fPd != INVALID && fFlowTableId != INVALID && fFlowGroupId == INVALID
      modifies this`fFlowGroupId, this`live, oracle
      ensures Valid() && Answer(kr) && oracle.Told(kr, old(oracle.asked))
      ensures kr.Success? <==> fFlowGroupId != INVALID
    {
      hide Consistent, PairsHeld, InPairs, PagePairs;
      var id;
      kr, id := ExecCreate(FlowGroup, HostMemory(), OwnDoorbells());
      if kr.Success? {
        fFlowGroupId := id;
      }
    }

    method SetFlowEntry() returns (kr: Kr)
      requires Valid() && fPd != INVALID && fFlowTableId != INVALID && fFlowGroupId != INVALID
               && fTirn != INVALID && !fFlowEntryValid
      modifies this`fFlowEntryValid, this`live, oracle
      ensures Valid() && Answer(kr) && oracle.Told(kr, old(oracle.asked))
      ensures kr.Success? <==> fFlowEntryValid
    {
      hide Consistent, PairsHeld, InPairs, PagePairs;
      var id;
      kr, id := ExecCreate(FlowEntry, HostMemory(), OwnDoorbells());
      if kr.Success? {
        fFlowEntryValid := true;
      }
    }

    method SetFlowRoot() returns (kr: Kr)
      requires Valid() && fPd != INVALID && fFlowTableId != INVALID && !fFlowRootActive
      modifies this`fFlowRootActive, this`live, oracle
      ensures Valid() && Answer(kr) && oracle.Told(kr, old(oracle.asked))
      ensures kr.Success? <==> fFlowRootActive
    {
      hide Consistent, PairsHeld, InPairs, PagePairs;
      var id;
      kr, id := ExecCreate(FlowRoot, HostMemory(), OwnDoorbells());
      if kr.Success? {
        fFlowRootActive := true;
      }
    }

    method ClearFlowRoot() returns (kr: Kr)
      requires Valid()
      modifies this`fFlowRootActive, this`live, this`failedDestroys, oracle
      ensures Valid() && Answer(kr) && oracle.Told(kr, old(oracle.asked))
      ensures kr.Success? ==> !fFlowRootActive && failedDestroys == old(failedDestroys)
      ensures !kr.Success? ==> fFlowRootActive == old(fFlowRootActive) && live == old(live) && failedDestroys > old(failedDestroys)
    {
      hide Consistent, PairsHeld, InPairs, PagePairs;
      kr := Success;
      if fFlowRootActive {
        kr := ExecDestroy(FlowRoot, 0);
        if kr.Success? {
          fFlowRootActive := false;
        }
      }
    }

    method DeleteFlowEntry() returns (kr: Kr)
      requires Valid()
      modifies this`fFlowEntryValid, this`live, this`failedDestroys, oracle
      ensures Valid() && Answer(kr) && oracle.Told(kr, old(oracle.asked))
      ensures kr.Success? ==> !fFlowEntryValid && failedDestroys == old(failedDestroys)
      ensures !kr.Success? ==> fFlowEntryValid == old(fFlowEntryValid) && live == old(live) && failedDestroys > old(failedDestroys)
    {
      hide Consistent, PairsHeld, InPairs, PagePairs;
      kr := Success;
      if fFlowEntryValid {
        kr := ExecDestroy(FlowEntry, 0);
        if kr.Success? {
          fFlowEntryValid := false;
        }
      }
    }

    method DestroyFlowGroup() returns (kr: Kr)
      requires Valid() && !fFlowEntryValid
      modifies this`fFlowGroupId, this`live, this`failedDestroys, oracle
      ensures Valid() && Answer(kr) && oracle.Told(kr, old(oracle.asked))
      ensures kr.Success? ==> fFlowGroupId == INVALID && failedDestroys == old(failedDestroys)
      ensures !kr.Success? ==> fFlowGroupId == old(fFlowGroupId) && live == old(live) && failedDestroys > old(failedDestroys)
    {
      hide Consistent, PairsHeld, InPairs, PagePairs;
      kr := Success;
      if fFlowGroupId != INVALID {
        kr := ExecDestroy(FlowGroup, fFlowGroupId);
        if kr.Success? {
          fFlowGroupId := INVALID;
        }
      }
    }

    method DestroyFlowTable() returns (kr: Kr)
      requires Valid() && !fFlowEntryValid && !fFlowRootActive && fFlowGroupId == INVALID
      modifies this`fFlowTableId, this`live, this`failedDestroys, oracle
      ensures Valid() && Answer(kr) && oracle.Told(kr, old(oracle.asked))
      ensures kr.Success? ==> fFlowTableId == INVALID && failedDestroys == old(failedDestroys)
      ensures !kr.Success? ==> fFlowTableId == old(fFlowTableId) && live == old(live) && failedDestroys > old(failedDestroys)
    {
      hide Consistent, PairsHeld, InPairs, PagePairs;
      kr := Success;
      if fFlowTableId != INVALID {
        kr := ExecDestroy(FlowTable, fFlowTableId);
        if kr.Success? {
          fFlowTableId := INVALID;
        }
      }
    }

    /** The root is connected last and disconnected first. */
    method CreateRxFlowSteering() returns (kr: Kr)
      requires Valid() && GlobalsLive() && fTirn != INVALID && FlowGone()
      modifies this`fFlowTableId, this`fFlowGroupId, this`fFlowEntryValid, this`fFlowRootActive
      modifies this`live, this`failedDestroys, oracle
      ensures Valid() && Answer(kr) && oracle.Told(kr, old(oracle.asked))
      ensures kr.Success? ==> FlowLive()
      ensures failedDestroys >= old(failedDestroys)
    {
      hide Valid, PagePairs, PairsOf;
      kr := CreateFlowTable();
      if !kr.Success? {
        return;
      }
      kr := CreateFlowGroup();
      if kr.Success? { kr := SetFlowEntry(); }
      if kr.Success? { kr := SetFlowRoot(); }
      if !kr.Success? {
        var _ := DestroyRxFlowSteering();
      }
    }

    method DestroyRxFlowSteering() returns (kr: Kr)
      requires Valid()
      modifies this`fFlowTableId, this`fFlowGroupId, this`fFlowEntryValid, this`fFlowRootActive
      modifies this`live, this`failedDestroys, oracle
      ensures Valid() && Answer(kr) && oracle.Told(kr, old(oracle.asked))
      ensures kr.Success? ==> FlowGone() && failedDestroys == old(failedDestroys)
      ensures !kr.Success? ==> failedDestroys > old(failedDestroys)
    {
      hide Valid, PagePairs, PairsOf;
      kr := ClearFlowRoot();
      if !kr.Success? {
        return;
      }
      kr := DeleteFlowEntry();
      if !kr.Success? {
        return;
      }
      kr := DestroyFlowGroup();
      if !kr.Success? {
        return;
      }
      kr := DestroyFlowTable();
    }

    // The calls the network stack makes

    /** Notifier off, steering off, then the receive side if steering went, and the transmit side
        in any case. */
    method TearDown() returns (kr: Kr)
      requires Valid() && (fNotifierRegistered ==> coreHasEq) && (fEnabling || fDisabling)
      modifies this`fNotifierRegistered
      modifies this`fFlowTableId, this`fFlowGroupId, this`fFlowEntryValid, this`fFlowRootActive
      modifies this`fRxCqn, this`fRqn, this`fTirn, this`fRxBuf, this`fRxCqDesc
      modifies this`fRxDbOffset, this`fRxCqDbOffset
      modifies this`fTisn, this`fTxCqn, this`fSqn, this`fTxBuf, this`fTxCqDesc
      modifies this`fTxDbOffset, this`fTxCqDbOffset, this`fTxBf, this`fTxBfValid
      modifies this`live, this`failedDestroys, uar.fDbBitmap, uar`fUarBitmap, oracle
      ensures Valid() && !fNotifierRegistered && Answer(kr) && OtherPairs() == old(OtherPairs())
      ensures oracle.Told(kr, old(oracle.asked))
      ensures kr.Success? ==> FlowGone() && RxGone() && TxGone() && failedDestroys == old(failedDestroys)
      ensures !kr.Success? ==> failedDestroys > old(failedDestroys)
    {
      hide Valid, PagePairs, PairsOf;
      var rxKr := TearDownReceive();
      var txKr := DestroyTxResources();
      kr := if rxKr.Success? then txKr else rxKr;
    }

    method TearDownReceive() returns (kr: Kr)
      requires Valid() && (fNotifierRegistered ==> coreHasEq)
      modifies this`fNotifierRegistered
      modifies this`fFlowTableId, this`fFlowGroupId, this`fFlowEntryValid, this`fFlowRootActive
      modifies this`fRxCqn, this`fRqn, this`fTirn, this`fRxBuf, this`fRxCqDesc
      modifies this`fRxDbOffset, this`fRxCqDbOffset
      modifies this`live, this`failedDestroys, uar.fDbBitmap, oracle
      ensures Valid() && !fNotifierRegistered && Answer(kr) && OtherPairs() == old(OtherPairs())
      ensures oracle.Told(kr, old(oracle.asked))
      ensures kr.Success? ==> FlowGone() && RxGone() && failedDestroys == old(failedDestroys)
      ensures !kr.Success? ==> failedDestroys > old(failedDestroys)
    {
      hide Valid, PagePairs, PairsOf;
      if fNotifierRegistered && coreHasEq {
        UnregisterNotifier();
      }
      kr := DestroyRxFlowSteering();
      if kr.Success? {
        kr := DestroyRxResources();
      }
    }

    method UnregisterNotifier()
      requires Valid()
      modifies this`fNotifierRegistered
      ensures Valid() && !fNotifierRegistered
    {
      hide Consistent, PairsHeld, InPairs, PagePairs;
      fNotifierRegistered := false;
    }

    /** Queues, then the notifier, then steering. */
    method BringUpQueues() returns (kr: Kr)
      requires Valid() && GlobalsLive() && TxGone() && RxGone() && FlowGone() && !fNotifierRegistered
      modifies this`fNotifierRegistered
      modifies this`fFlowTableId, this`fFlowGroupId, this`fFlowEntryValid, this`fFlowRootActive
      modifies this`fRxCqn, this`fRqn, this`fTirn, this`fRxBuf, this`fRxCqDesc
      modifies this`fRxDbOffset, this`fRxCqDbOffset
      modifies this`fTisn, this`fTxCqn, this`fSqn, this`fTxBuf, this`fTxCqDesc
      modifies this`fTxDbOffset, this`fTxCqDbOffset, this`fTxBf, this`fTxBfValid
      modifies this`sqReady, this`rqReady, this`fRxPc, this`live, this`failedDestroys, uar.fDbBitmap, uar.Record(), uar`fUarBitmap, oracle
      ensures Valid() && Answer(kr) && OtherPairs() == old(OtherPairs())
      ensures old(oracle.asked) <= oracle.asked
      ensures kr.Success? <==> old(Room()) && AllGranted(oracle.answer, old(oracle.asked), oracle.asked)
      ensures kr.Success? ==> TxLive() && RxLive() && FlowLive() && fNotifierRegistered
      ensures fNotifierRegistered ==> coreHasEq
      ensures failedDestroys >= old(failedDestroys)
    {
      hide Valid, PagePairs, PairsOf;
      kr := CreateTxResources();
      if !kr.Success? {
        return;
      }
      kr := CreateRxResources();
      if !kr.Success? {
        return;
      }
      if !coreHasEq {
        return NotReady;
      }
      RegisterNotifier();
      kr := CreateRxFlowSteering();
    }

    method RegisterNotifier()
      requires Valid()
      modifies this`fNotifierRegistered
      ensures Valid() && fNotifierRegistered
    {
      hide Consistent, PairsHeld, InPairs, PagePairs;
      fNotifierRegistered := true;
    }

    /** From nothing to everything; on failure back to nothing, unless firmware refuses to
        destroy something. */
    method BringUp() returns (kr: Kr)
      requires Valid() && Nothing() && fEnabling && !fNotifierRegistered
      modifies this`fPd, this`fTd, this`fMkeyIndex, this`fNotifierRegistered
      modifies this`fFlowTableId, this`fFlowGroupId, this`fFlowEntryValid, this`fFlowRootActive
      modifies this`fRxCqn, this`fRqn, this`fTirn, this`fRxBuf, this`fRxCqDesc
      modifies this`fRxDbOffset, this`fRxCqDbOffset
      modifies this`fTisn, this`fTxCqn, this`fSqn, this`fTxBuf, this`fTxCqDesc
      modifies this`fTxDbOffset, this`fTxCqDbOffset, this`fTxBf, this`fTxBfValid
      modifies this`sqReady, this`rqReady, this`fRxPc, this`live, this`failedDestroys, uar.fDbBitmap, uar.Record(), uar`fUarBitmap, oracle
      ensures Valid() && Answer(kr) && OtherPairs() == old(OtherPairs())
      ensures old(oracle.asked) <= oracle.asked
      ensures kr.Success? <==> old(Room()) && AllGranted(oracle.answer, old(oracle.asked), oracle.asked)
      ensures kr.Success? ==> GlobalsLive() && TxLive() && RxLive() && FlowLive()
      ensures fNotifierRegistered <==> kr.Success?
      ensures !kr.Success? && failedDestroys == old(failedDestroys) ==> Nothing()
    {
      hide Valid, PagePairs, PairsOf;
      NothingIsGone();
      kr := AllocGlobalResources();
      if !kr.Success? {
        return;
      }
      kr := BringUpQueues();
      if !kr.Success? {
        var down := TearDown();
        if down.Success? {
          var _ := DeallocGlobalResources();
        }
      }
    }

    /** The guard tells: no handle it looks at is left exactly when nothing at all is left. */
    lemma NothingIsGone()
      requires Valid()
      ensures Nothing() <==> !Leftover()
      ensures Nothing() ==> fTd == fMkeyIndex == INVALID && TxGone() && RxGone() && FlowGone()
    {
      hide PairsHeld, InPairs, LivePairs, Sound;
      NothingWithoutPd(live, HostMemory(), OwnDoorbells());
    }

    /** Another call under way makes this one fail at once, and so does anything left over from
        a failed teardown: past its guard, enable starts from nothing. */
    method Enable() returns (kr: Kr)
      requires Settled()
      modifies this`fPd, this`fTd, this`fMkeyIndex, this`fNotifierRegistered
      modifies this`fFlowTableId, this`fFlowGroupId, this`fFlowEntryValid, this`fFlowRootActive
      modifies this`fRxCqn, this`fRqn, this`fTirn, this`fRxBuf, this`fRxCqDesc
      modifies this`fRxDbOffset, this`fRxCqDbOffset
      modifies this`fTisn, this`fTxCqn, this`fSqn, this`fTxBuf, this`fTxCqDesc
      modifies this`fTxDbOffset, this`fTxCqDbOffset, this`fTxBf, this`fTxBfValid
      modifies this`fEnabled, this`fEnabling
      modifies this`sqReady, this`rqReady, this`fRxPc, this`live, this`failedDestroys, uar.fDbBitmap, uar.Record(), uar`fUarBitmap, oracle
      ensures Settled() && Answer(kr) && OtherPairs() == old(OtherPairs())
      ensures kr.Success? <==> fEnabled
      ensures !old(fEnabled) && !fEnabling && !fDisabling && old(Nothing()) ==>
                (kr.Success? <==> old(Room()) && AllGranted(oracle.answer, old(oracle.asked), oracle.asked))
      ensures fEnabling == old(fEnabling)
      ensures old(fEnabled) ==> live == old(live)
      ensures !old(fEnabled) && (fEnabling || fDisabling) ==> kr.Busy? && live == old(live)
      ensures !old(fEnabled) && !fEnabling && !fDisabling && !old(Nothing()) ==>
                kr.NotReady? && live == old(live)
      ensures old(Nothing()) && !kr.Success? && failedDestroys == old(failedDestroys) ==> Nothing()
    {
      hide Valid, PagePairs, PairsOf, Leftover;
      if fEnabled {
        return Success;
      }
      if fEnabling || fDisabling {
        return Busy;
      }
      NothingIsGone();
      if Leftover() {
        return NotReady;
      }
      kr := EnableFromNothing();
    }

    method EnableFromNothing() returns (kr: Kr)
      requires Valid() && Nothing() && !fEnabling && !fNotifierRegistered
      modifies this`fPd, this`fTd, this`fMkeyIndex, this`fNotifierRegistered
      modifies this`fFlowTableId, this`fFlowGroupId, this`fFlowEntryValid, this`fFlowRootActive
      modifies this`fRxCqn, this`fRqn, this`fTirn, this`fRxBuf, this`fRxCqDesc
      modifies this`fRxDbOffset, this`fRxCqDbOffset
      modifies this`fTisn, this`fTxCqn, this`fSqn, this`fTxBuf, this`fTxCqDesc
      modifies this`fTxDbOffset, this`fTxCqDbOffset, this`fTxBf, this`fTxBfValid
      modifies this`fEnabled, this`fEnabling
      modifies this`sqReady, this`rqReady, this`fRxPc, this`live, this`failedDestroys, uar.fDbBitmap, uar.Record(), uar`fUarBitmap, oracle
      ensures Settled() && Answer(kr) && OtherPairs() == old(OtherPairs())
      ensures (kr.Success? <==> fEnabled) && !fEnabling
      ensures kr.Success? <==> old(Room()) && AllGranted(oracle.answer, old(oracle.asked), oracle.asked)
      ensures !kr.Success? && failedDestroys == old(failedDestroys) ==> Nothing()
    {
      hide Valid, PagePairs, PairsOf;
      SetEnabling(true);
      kr := BringUp();
      SetEnabling(false);
      SetEnabled(kr.Success?);
    }

    /** The guard's test, on seven of the thirteen handles. */
    predicate Leftover()
      reads this
    {
      || fPd != INVALID || fTd != INVALID || fTisn != INVALID || fSqn != INVALID
      || fRqn != INVALID || fTirn != INVALID || fFlowTableId != INVALID
    }

    method SetEnabling(value: bool)
      requires Valid()
      modifies this`fEnabling
      ensures Valid() && fEnabling == value
    {
      hide Consistent, PairsHeld, InPairs, PagePairs;
      fEnabling := value;
    }

    method SetEnabled(value: bool)
      requires Valid()
      modifies this`fEnabled
      ensures Valid() && fEnabled == value
    {
      hide Consistent, PairsHeld, InPairs, PagePairs;
      fEnabled := value;
    }

    method SetDisabling(value: bool)
      requires Valid()
      modifies this`fDisabling
      ensures Valid() && fDisabling == value
    {
      hide Consistent, PairsHeld, InPairs, PagePairs;
      fDisabling := value;
    }

    /** Success means that every object, doorbell record, register and buffer is back, and only a
        refused command can keep it from succeeding. Whatever is left can be disabled again. */
    method Disable() returns (kr: Kr)
      requires Settled()
      modifies this`fPd, this`fTd, this`fMkeyIndex, this`fNotifierRegistered
      modifies this`fFlowTableId, this`fFlowGroupId, this`fFlowEntryValid, this`fFlowRootActive
      modifies this`fRxCqn, this`fRqn, this`fTirn, this`fRxBuf, this`fRxCqDesc
      modifies this`fRxDbOffset, this`fRxCqDbOffset
      modifies this`fTisn, this`fTxCqn, this`fSqn, this`fTxBuf, this`fTxCqDesc
      modifies this`fTxDbOffset, this`fTxCqDbOffset, this`fTxBf, this`fTxBfValid
      modifies this`fEnabled, this`fDisabling
      modifies this`live, this`failedDestroys, uar.fDbBitmap, uar`fUarBitmap, oracle
      ensures Settled() && Answer(kr) && OtherPairs() == old(OtherPairs())
      ensures fDisabling == old(fDisabling)
      ensures fEnabling || fDisabling ==> kr.Busy? && live == old(live) && fEnabled == old(fEnabled)
      ensures !fEnabling && !fDisabling ==> !fEnabled
      ensures !fEnabling && !fDisabling ==> oracle.Told(kr, old(oracle.asked))
      ensures kr.Success? ==> Nothing() && PagePairs() == OtherPairs()
      ensures !fEnabling && !fDisabling ==> (kr.Success? <==> failedDestroys == old(failedDestroys))
    {
      hide Valid, PagePairs, PairsOf;
      if fEnabling || fDisabling {
        return Busy;
      }
      SetDisabling(true);
      SetEnabled(false);
      kr := TearDown();
      if kr.Success? {
        kr := DeallocGlobalResources();
      }
      SetDisabling(false);
      if kr.Success? {
        OnlyOthers();
      }
    }

    lemma OnlyOthers()
      requires Nothing()
      ensures PagePairs() == OtherPairs()
    {
    }

    /** The work-queue rings go only when no queue that could still read them is left. */
    method ReleaseResources()
      requires Valid()
      modifies this`fNotifierRegistered, this`fTxRing, this`fRxRing
      ensures Valid() && (coreHasEq ==> !fNotifierRegistered)
      ensures old(fTxRing) && !fTxRing ==> fSqn == INVALID
      ensures old(fRxRing) && !fRxRing ==> fRqn == INVALID
      ensures FlowGone() && RxGone() && TxGone() ==> !fTxRing && !fRxRing
    {
      hide Valid;
      if fNotifierRegistered && coreHasEq {
        UnregisterNotifier();
      }
      if fSqn != INVALID || fRqn != INVALID || fTxCqn != INVALID || fRxCqn != INVALID
         || fTirn != INVALID || fFlowRootActive
      {
        return;
      }
      ReleaseTxRing();
      ReleaseRxRing();
    }

    method ReleaseTxRing()
      requires Valid() && fSqn == INVALID
      modifies this`fTxRing
      ensures Valid() && !fTxRing
    {
      hide Consistent, PairsHeld, InPairs, PagePairs;
      RingKeepsConsistent(live, HostMemory(), OwnDoorbells(), TxRing);
      fTxRing := false;
    }

    method ReleaseRxRing()
      requires Valid() && fRqn == INVALID
      modifies this`fRxRing
      ensures Valid() && !fRxRing
    {
      hide Consistent, PairsHeld, InPairs, PagePairs;
      RingKeepsConsistent(live, HostMemory(), OwnDoorbells(), RxRing);
      fRxRing := false;
    }
  }
}
