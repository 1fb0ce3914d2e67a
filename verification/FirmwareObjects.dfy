/** The firmware objects behind one Ethernet interface and what each of them needs. */
module FirmwareObjects {
  import opened Status

  const INVALID: nat := 0xffff_ffff

  datatype Kind =
    | Pd | Td | Mkey
    | Tis | TxCq | Sq
    | RxCq | Rq | Tir
    | FlowTable | FlowGroup | FlowEntry | FlowRoot

  /** One object of each kind, by the number firmware gave it; INVALID if there is none. Flow
      entry and root have no number of their own. */
  datatype Objects = Objects(
    pd: nat, td: nat, mkey: nat,
    tis: nat, txCq: nat, sq: nat,
    rxCq: nat, rq: nat, tir: nat,
    flowTable: nat, flowGroup: nat, flowEntry: nat, flowRoot: nat)

  const NO_OBJECTS: Objects :=
    Objects(INVALID, INVALID, INVALID, INVALID, INVALID, INVALID, INVALID,
            INVALID, INVALID, INVALID, INVALID, INVALID, INVALID)

  function Id(o: Objects, k: Kind): nat {
    match k
    case Pd => o.pd
    case Td => o.td
    case Mkey => o.mkey
    case Tis => o.tis
    case TxCq => o.txCq
    case Sq => o.sq
    case RxCq => o.rxCq
    case Rq => o.rq
    case Tir => o.tir
    case FlowTable => o.flowTable
    case FlowGroup => o.flowGroup
    case FlowEntry => o.flowEntry
    case FlowRoot => o.flowRoot
  }

  function With(o: Objects, k: Kind, id: nat): Objects {
    match k
    case Pd => o.(pd := id)
    case Td => o.(td := id)
    case Mkey => o.(mkey := id)
    case Tis => o.(tis := id)
    case TxCq => o.(txCq := id)
    case Sq => o.(sq := id)
    case RxCq => o.(rxCq := id)
    case Rq => o.(rq := id)
    case Tir => o.(tir := id)
    case FlowTable => o.(flowTable := id)
    case FlowGroup => o.(flowGroup := id)
    case FlowEntry => o.(flowEntry := id)
    case FlowRoot => o.(flowRoot := id)
  }

  predicate IsLive(o: Objects, k: Kind) {
    Id(o, k) != INVALID
  }

  lemma IdOfWith(o: Objects, k: Kind, id: nat, other: Kind)
    ensures Id(With(o, k, id), other) == if other == k then id else Id(o, other)
  {
  }

  /** An object may not be destroyed while another one that names it is live. */
  predicate Needs(k: Kind, on: Kind) {
    match k
    case Pd => false
    case Td => false
    case Mkey => on.Pd?
    case Tis => on.Td? || on.Pd?
    case TxCq => false
    case Sq => on.TxCq? || on.Tis? || on.Pd? || on.Mkey?
    case RxCq => false
    case Rq => on.RxCq? || on.Pd? || on.Mkey?
    case Tir => on.Rq? || on.Td?
    case FlowTable => false
    case FlowGroup => on.FlowTable?
    case FlowEntry => on.FlowTable? || on.FlowGroup? || on.Tir?
    case FlowRoot => on.FlowTable?
  }

  /** Host memory that the device reads or writes on behalf of a live object. */
  datatype Memory = TxPool | TxRing | TxCqBuffer | RxPool | RxRing | RxCqBuffer

  /** A pool of packet buffers: the device can use it only once it is mapped. */
  datatype Pool = Absent | Unmapped | Mapped

  /** The rings are mapped whenever they are there. */
  datatype Buffers = Buffers(txPool: Pool, txRing: bool, txCq: bool, rxPool: Pool, rxRing: bool, rxCq: bool)

  /** The device can use the memory. */
  predicate Allocated(b: Buffers, m: Memory) {
    match m
    case TxPool => b.txPool.Mapped?
    case TxRing => b.txRing
    case TxCqBuffer => b.txCq
    case RxPool => b.rxPool.Mapped?
    case RxRing => b.rxRing
    case RxCqBuffer => b.rxCq
  }

  function WithMemory(b: Buffers, m: Memory, present: bool): Buffers {
    match m
    case TxPool => b.(txPool := if present then Mapped else Absent)
    case TxRing => b.(txRing := present)
    case TxCqBuffer => b.(txCq := present)
    case RxPool => b.(rxPool := if present then Mapped else Absent)
    case RxRing => b.(rxRing := present)
    case RxCqBuffer => b.(rxCq := present)
  }

  predicate Uses(k: Kind, m: Memory) {
    match k
    case Sq => m.TxPool? || m.TxRing?
    case TxCq => m.TxCqBuffer?
    case Rq => m.RxPool? || m.RxRing?
    case RxCq => m.RxCqBuffer?
    case _ => false
  }

  ghost predicate MayCreate(o: Objects, b: Buffers, k: Kind) {
    && !IsLive(o, k)
    && (forall on :: Needs(k, on) ==> IsLive(o, on))
    && (forall m :: Uses(k, m) ==> Allocated(b, m))
  }

  ghost predicate MayDestroy(o: Objects, k: Kind, id: nat) {
    && id != INVALID && Id(o, k) == id
    && forall other :: Needs(other, k) ==> !IsLive(o, other)
  }

  ghost predicate MayFree(o: Objects, m: Memory) {
    forall k :: Uses(k, m) ==> !IsLive(o, k)
  }

  /** Nothing live lacks an object or memory that it needs. */
  ghost predicate Sound(o: Objects, b: Buffers) {
    && (forall k, on :: Needs(k, on) && IsLive(o, k) ==> IsLive(o, on))
    && (forall k, m :: Uses(k, m) && IsLive(o, k) ==> Allocated(b, m))
  }

  /** The three permissions are exactly those that keep the device sound. */
  lemma PermissionsAreExact(o: Objects, b: Buffers, k: Kind, id: nat, m: Memory)
    requires Sound(o, b) && id != INVALID
    ensures !IsLive(o, k) ==> (MayCreate(o, b, k) <==> Sound(With(o, k, id), b))
    ensures Id(o, k) == id ==> (MayDestroy(o, k, id) <==> Sound(With(o, k, INVALID), b))
    ensures MayFree(o, m) <==> Sound(o, WithMemory(b, m, false))
  {
    hide Needs, Uses, Id, With, Allocated, WithMemory;
    forall other ensures Id(With(o, k, id), other) == if other == k then id else Id(o, other) {
      IdOfWith(o, k, id, other);
    }
    forall other ensures Id(With(o, k, INVALID), other) == if other == k then INVALID else Id(o, other) {
      IdOfWith(o, k, INVALID, other);
    }
    forall n ensures Allocated(WithMemory(b, m, false), n) <==> n != m && Allocated(b, n) {
      AllocatedWith(b, m, false, n);
    }
    NeedsNotItself(k);
    if !IsLive(o, k) {
      assert IsLive(With(o, k, id), k);
    }
  }

  lemma AllocatedWith(b: Buffers, m: Memory, present: bool, n: Memory)
    ensures Allocated(WithMemory(b, m, present), n) <==> if n == m then present else Allocated(b, n)
  {
  }

  lemma NeedsNotItself(k: Kind)
    ensures !Needs(k, k)
  {
  }

  /** The doorbell records an interface has been given, and its blue-flame register. */
  datatype Doorbells = Doorbells(tx: nat, txCq: nat, rx: nat, rxCq: nat, bf: Option<nat>)

  const NO_DOORBELLS: Doorbells := Doorbells(INVALID, INVALID, INVALID, INVALID, None)

  predicate NoBuffers(b: Buffers) {
    b.txPool.Absent? && !b.txCq && b.rxPool.Absent? && !b.rxCq
  }

  predicate HasDoorbell(k: Kind, db: Doorbells) {
    match k
    case Sq => db.tx != INVALID
    case TxCq => db.txCq != INVALID
    case Rq => db.rx != INVALID
    case RxCq => db.rxCq != INVALID
    case _ => true
  }

  /** What holds between any two steps of bringing an interface up or down: nothing live lacks
      an object, memory or doorbell record that it needs, and without a protection domain nothing
      is left but the work-queue rings, which live as long as the interface. */
  ghost predicate Consistent(o: Objects, b: Buffers, db: Doorbells) {
    && Sound(o, b)
    && (forall k :: IsLive(o, k) ==> HasDoorbell(k, db))
    && (!IsLive(o, Pd) ==> o == NO_OBJECTS && NoBuffers(b) && db == NO_DOORBELLS)
  }

  lemma NothingWithoutPd(o: Objects, b: Buffers, db: Doorbells)
    requires Consistent(o, b, db)
    ensures IsLive(o, Pd) <==> !(o == NO_OBJECTS && NoBuffers(b) && db == NO_DOORBELLS)
  {
  }

  /** Freeing a work-queue ring, which outlives the protection domain. */
  lemma RingKeepsConsistent(o: Objects, b: Buffers, db: Doorbells, m: Memory)
    requires Consistent(o, b, db) && MayFree(o, m) && (m.TxRing? || m.RxRing?)
    ensures Consistent(o, WithMemory(b, m, false), db)
  {
    PermissionsAreExact(o, b, Pd, 0, m);
  }

  lemma CreateKeepsConsistent(o: Objects, b: Buffers, db: Doorbells, k: Kind, id: nat)
    requires Consistent(o, b, db) && MayCreate(o, b, k) && HasDoorbell(k, db)
    requires id != INVALID && (k.Pd? || IsLive(o, Pd))
    ensures Consistent(With(o, k, id), b, db)
  {
    hide Sound, Needs, Uses;
    PermissionsAreExact(o, b, k, id, TxPool);
  }

  lemma DestroyKeepsConsistent(o: Objects, b: Buffers, db: Doorbells, k: Kind, id: nat)
    requires Consistent(o, b, db) && MayDestroy(o, k, id)
    requires k.Pd? ==> o == NO_OBJECTS.(pd := id) && NoBuffers(b) && db == NO_DOORBELLS
    ensures Consistent(With(o, k, INVALID), b, db)
  {
    hide Sound, Needs, Uses;
    PermissionsAreExact(o, b, k, id, TxPool);
  }

  lemma MemoryKeepsConsistent(o: Objects, b: Buffers, db: Doorbells, m: Memory)
    requires Consistent(o, b, db) && IsLive(o, Pd)
    ensures Consistent(o, WithMemory(b, m, true), db)
    ensures MayFree(o, m) ==> Consistent(o, WithMemory(b, m, false), db)
  {
    forall n ensures Allocated(WithMemory(b, m, true), n) <==> n == m || Allocated(b, n) {
      AllocatedWith(b, m, true, n);
    }
    PermissionsAreExact(o, b, Pd, 0, m);
  }

  /** A pool that is there and not mapped, before its queue is. */
  lemma PoolKeepsConsistent(o: Objects, b: Buffers, db: Doorbells, m: Memory)
    requires Consistent(o, b, db) && IsLive(o, Pd)
    ensures m.TxPool? && !IsLive(o, Sq) ==> Consistent(o, b.(txPool := Unmapped), db)
    ensures m.RxPool? && !IsLive(o, Rq) ==> Consistent(o, b.(rxPool := Unmapped), db)
  {
  }

  /** What the device reads and writes on behalf of a live queue is mapped. */
  lemma LiveQueuesAreMapped(o: Objects, b: Buffers, db: Doorbells)
    requires Consistent(o, b, db)
    ensures IsLive(o, Sq) ==> b.txPool == Mapped && b.txRing && db.tx != INVALID
    ensures IsLive(o, Rq) ==> b.rxPool == Mapped && b.rxRing && db.rx != INVALID
    ensures IsLive(o, TxCq) ==> b.txCq && db.txCq != INVALID
    ensures IsLive(o, RxCq) ==> b.rxCq && db.rxCq != INVALID
  {
    hide Needs;
    assert forall k :: IsLive(o, k) ==> HasDoorbell(k, db);
    assert Allocated(b, TxPool) <==> b.txPool.Mapped?;
    assert Allocated(b, RxPool) <==> b.rxPool.Mapped?;
    assert Uses(Sq, TxPool) && Uses(Sq, TxRing) && Uses(Rq, RxPool) && Uses(Rq, RxRing);
    assert Uses(TxCq, TxCqBuffer) && Uses(RxCq, RxCqBuffer);
  }

  /** What a live object names is live: a queue its completion queue, domain and key, the steering
      what it steers by and to. */
  lemma LiveObjectsHaveTheirs(o: Objects, b: Buffers, db: Doorbells)
    requires Consistent(o, b, db)
    ensures o.sq != INVALID ==> o.txCq != INVALID && o.tis != INVALID && o.pd != INVALID && o.mkey != INVALID
    ensures o.rq != INVALID ==> o.rxCq != INVALID && o.pd != INVALID && o.mkey != INVALID
    ensures o.tis != INVALID ==> o.td != INVALID && o.pd != INVALID
    ensures o.tir != INVALID ==> o.rq != INVALID && o.td != INVALID
    ensures o.mkey != INVALID ==> o.pd != INVALID
    ensures o.flowEntry != INVALID ==> o.flowTable != INVALID && o.flowGroup != INVALID && o.tir != INVALID
    ensures o.flowGroup != INVALID || o.flowRoot != INVALID ==> o.flowTable != INVALID
  {
    hide Uses;
    assert forall k, on :: Needs(k, on) && IsLive(o, k) ==> IsLive(o, on);
    assert Needs(Sq, TxCq) && Needs(Sq, Tis) && Needs(Sq, Pd) && Needs(Sq, Mkey);
    assert Needs(Rq, RxCq) && Needs(Rq, Pd) && Needs(Rq, Mkey) && Needs(Mkey, Pd);
    assert Needs(Tis, Td) && Needs(Tis, Pd) && Needs(Tir, Rq) && Needs(Tir, Td);
    assert Needs(FlowEntry, FlowTable) && Needs(FlowEntry, FlowGroup) && Needs(FlowEntry, Tir);
    assert Needs(FlowGroup, FlowTable) && Needs(FlowRoot, FlowTable);
  }

  /** The record of one queue. */
  function RecordOf(db: Doorbells, k: Kind): nat
    requires k.Sq? || k.TxCq? || k.Rq? || k.RxCq?
  {
    match k
    case Sq => db.tx
    case TxCq => db.txCq
    case Rq => db.rx
    case RxCq => db.rxCq
  }

  function WithRecord(db: Doorbells, k: Kind, offset: nat): Doorbells
    requires k.Sq? || k.TxCq? || k.Rq? || k.RxCq?
  {
    match k
    case Sq => db.(tx := offset)
    case TxCq => db.(txCq := offset)
    case Rq => db.(rx := offset)
    case RxCq => db.(rxCq := offset)
  }

  /** A record may be given back once its queue is gone, and one may be taken at any time; the
      blue-flame register belongs to no single object. */
  lemma RecordKeepsConsistent(o: Objects, b: Buffers, db: Doorbells, k: Kind, offset: nat)
    requires k.Sq? || k.TxCq? || k.Rq? || k.RxCq?
    requires Consistent(o, b, db) && IsLive(o, Pd) && (offset != INVALID || !IsLive(o, k))
    ensures Consistent(o, b, WithRecord(db, k, offset))
  {
    hide Sound;
    forall j | IsLive(o, j) ensures HasDoorbell(j, WithRecord(db, k, offset)) {
      assert HasDoorbell(j, db);
    }
  }

  lemma RegisterKeepsConsistent(o: Objects, b: Buffers, db: Doorbells, bf: Option<nat>)
    requires Consistent(o, b, db) && IsLive(o, Pd)
    ensures Consistent(o, b, db.(bf := bf))
  {
    hide Sound;
    forall j | IsLive(o, j) ensures HasDoorbell(j, db.(bf := bf)) {
      assert HasDoorbell(j, db);
    }
  }
}
