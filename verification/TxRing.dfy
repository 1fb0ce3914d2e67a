/** The send ring: 256 work-queue entries addressed by wrapping 16-bit counters, each keeping
    its packet until a completion names it. */
module TxRing {
  import opened Status

  const RING: nat := 256
  const COUNTER: nat := 0x1_0000
  const BUFFER_BYTES: nat := 2048

  type Packet = nat

  function Outstanding(pc: nat, cc: nat): nat {
    (pc - cc) % COUNTER
  }

  /** Slot i belongs to one of the n entries that start at counter cc. */
  predicate InUse(i: nat, cc: nat, n: nat) {
    (i - cc) % RING < n
  }

  /** At most 256 entries are outstanding and exactly their slots hold packets. */
  ghost predicate RingOk(pc: nat, cc: nat, slots: seq<Option<Packet>>) {
    && |slots| == RING && Outstanding(pc, cc) <= RING
    && forall i :: 0 <= i < RING ==> (slots[i].Some? <==> InUse(i, cc, Outstanding(pc, cc)))
  }

  /** How far one completion moves the consumer: to the entry it names or to the producer,
      whichever comes first, but always one step. */
  function Steps(pc: nat, cc: nat, target: nat): nat {
    var named := (target - cc) % COUNTER + 1;
    var all := if Outstanding(pc, cc) == 0 then COUNTER else Outstanding(pc, cc);
    if named <= all then named else all
  }

  /** The packets in a list of slots. */
  ghost function Held(slots: seq<Option<Packet>>): multiset<Packet> {
    if slots == [] then multiset{}
    else One(slots[0]) + Held(slots[1..])
  }

  ghost function One(slot: Option<Packet>): multiset<Packet> {
    if slot.Some? then multiset{slot.value} else multiset{}
  }

  lemma {:induction false} HeldUpdate(slots: seq<Option<Packet>>, i: nat, v: Option<Packet>)
    requires i < |slots|
    ensures Held(slots[i := v]) + One(slots[i]) == Held(slots) + One(v)
  {
    hide Held;
    var after := slots[i := v];
    HeldHead(after);
    HeldHead(slots);
    if i == 0 {
      assert after[1..] == slots[1..];
      Swap(One(v), One(slots[0]), Held(slots[1..]));
    } else {
      assert after[0] == slots[0] && after[1..] == slots[1..][i - 1 := v];
      HeldUpdate(slots[1..], i - 1, v);
      var head := One(slots[0]);
      assert (head + Held(after[1..])) + One(slots[i]) == head + (Held(after[1..]) + One(slots[i]));
      assert (head + Held(slots[1..])) + One(v) == head + (Held(slots[1..]) + One(v));
    }
  }

  lemma HeldHead(slots: seq<Option<Packet>>)
    requires slots != []
    ensures Held(slots) == One(slots[0]) + Held(slots[1..])
  {
  }

  lemma Swap(a: multiset<Packet>, b: multiset<Packet>, c: multiset<Packet>)
    ensures (a + c) + b == (b + c) + a
  {
  }

  lemma HeldFill(slots: seq<Option<Packet>>, i: nat, p: Packet)
    requires i < |slots|
    ensures slots[i].None? ==> Held(slots[i := Some(p)]) == Held(slots) + multiset{p}
    ensures slots[i].Some? ==> Held(slots) == Held(slots[i := None]) + multiset{slots[i].value}
  {
    HeldUpdate(slots, i, Some(p));
    HeldUpdate(slots, i, None);
  }

  /** accepted and freed record, for every packet the driver took over, that it did and that it
      gave the memory back. */
  class Ring {
    const fWqeMbuf: array<Option<Packet>>
    var fTxPc: nat
    var fTxCc: nat
    ghost var accepted: multiset<Packet>
    ghost var freed: multiset<Packet>

    /** Every packet taken over has been freed or is held in a slot, once. */
    ghost predicate Conserving()
      reads this, fWqeMbuf
    {
      && fWqeMbuf.Length == RING && fTxPc < COUNTER && fTxCc < COUNTER
      && accepted == freed + Held(fWqeMbuf[..])
    }

    ghost predicate Valid()
      reads this, fWqeMbuf
    {
      Conserving() && RingOk(fTxPc, fTxCc, fWqeMbuf[..])
    }

    constructor ()
      ensures Valid() && fTxPc == fTxCc == 0 && accepted == freed == multiset{} && fresh(fWqeMbuf)
    {
      fWqeMbuf := new Option<Packet>[RING](_ => None);
      fTxPc, fTxCc, accepted, freed := 0, 0, multiset{}, multiset{};
      new;
      NothingHeld(fWqeMbuf[..]);
    }

    /** A packet is handed back to the caller only with an error, and then nothing changed; a
        packet that will never be sent is freed at once and counts as taken over. */
    method XmitPacket(packet: Packet, resources: bool, length: nat, ready: bool, copied: bool, inlineBytes: nat)
      returns (kr: Kr, posted: bool)
      requires Valid()
      modifies this`fTxPc, this`accepted, this`freed, fWqeMbuf
      ensures Valid()
      ensures kr.Invalid? <==> !resources
      ensures kr.Success? <==>
                resources && (length == 0 || length > BUFFER_BYTES
                              || (ready && old(Outstanding(fTxPc, fTxCc)) < RING))
      ensures posted <==> kr.Success? && 0 < length <= BUFFER_BYTES && copied && length >= inlineBytes
      ensures accepted == old(accepted) + (if kr.Success? then multiset{packet} else multiset{})
      ensures freed == old(freed) + (if kr.Success? && !posted then multiset{packet} else multiset{})
      ensures posted ==> Posted(old(fTxPc), fTxPc, old(fWqeMbuf[..]), fWqeMbuf[..], packet)
      ensures !posted ==> fTxPc == old(fTxPc) && fWqeMbuf[..] == old(fWqeMbuf[..])
    {
      hide RingOk;
      posted := false;
      if !resources {
        return Invalid, posted;
      }
      if length == 0 || length > BUFFER_BYTES {
        FreeAtOnce(packet);
        return Success, posted;
      }
      if !ready {
        return NotReady, posted;
      }
      if (fTxPc - fTxCc) % COUNTER >= RING {
        return Busy, posted;
      }
      if !copied || length < inlineBytes {
        FreeAtOnce(packet);
        return Success, posted;
      }
      Post(packet);
      return Success, true;
    }

    method FreeAtOnce(packet: Packet)
      requires Valid()
      modifies this`accepted, this`freed
      ensures Valid()
      ensures accepted == old(accepted) + multiset{packet} && freed == old(freed) + multiset{packet}
    {
      hide RingOk;
      accepted, freed := accepted + multiset{packet}, freed + multiset{packet};
    }

    /** The producer's slot is free, so no packet is lost by taking it. */
    method Post(packet: Packet)
      requires Valid() && Outstanding(fTxPc, fTxCc) < RING
      modifies this`fTxPc, this`accepted, fWqeMbuf
      ensures Valid() && accepted == old(accepted) + multiset{packet}
      ensures Posted(old(fTxPc), fTxPc, old(fWqeMbuf[..]), fWqeMbuf[..], packet)
    {
      hide RingOk, Held, Outstanding;
      var pi := fTxPc % RING;
      ghost var slots := fWqeMbuf[..];
      PostKeepsRing(fTxPc, fTxCc, slots, packet);
      HeldFill(slots, pi, packet);
      fWqeMbuf[pi] := Some(packet);
      fTxPc := (fTxPc + 1) % COUNTER;
      accepted := accepted + multiset{packet};
      assert fWqeMbuf[..] == slots[pi := Some(packet)];
    }

    method FreeSlot(i: nat)
      requires Conserving() && i < RING
      modifies fWqeMbuf, this`freed
      ensures Conserving()
      ensures fWqeMbuf[..] == old(fWqeMbuf[..])[i := None]
    {
      hide Held;
      var m := fWqeMbuf[i];
      ghost var slots := fWqeMbuf[..];
      if m.Some? {
        HeldFill(slots, i, m.value);
        fWqeMbuf[i] := None;
        freed := freed + multiset{m.value};
      }
      assert fWqeMbuf[..] == slots[i := None];
    }

    /** One completion. On a ring in order it leaves the ring in order exactly if something was
        outstanding or it names the entry just behind the producer. */
    method Complete(target: nat)
      requires Conserving() && target < COUNTER
      modifies this`fTxCc, this`freed, fWqeMbuf
      ensures Conserving()
      ensures fTxCc == (old(fTxCc) + Steps(fTxPc, old(fTxCc), target)) % COUNTER
      ensures Cleared(old(fWqeMbuf[..]), fWqeMbuf[..], old(fTxCc), Steps(fTxPc, old(fTxCc), target))
      ensures old(Valid()) ==>
                (Valid() <==> old(Outstanding(fTxPc, fTxCc)) > 0 || (target + 1) % COUNTER == fTxPc)
    {
      hide Held, Steps, Cleared, RingOk, Outstanding;
      ghost var cc, slots := fTxCc, fWqeMbuf[..];
      FreeUpTo(target);
      if RingOk(fTxPc, cc, slots) {
        CompletionKeepsRing(fTxPc, cc, slots, target, fWqeMbuf[..]);
      }
    }

    /** Every completion the adapter has written since the last poll. If each names an
        outstanding entry, in order, the ring stays in order. */
    method PollTxCq(targets: seq<nat>)
      requires Valid() && NamesOutstanding(fTxPc, fTxCc, targets)
      modifies this`fTxCc, this`freed, fWqeMbuf
      ensures Valid()
      ensures fTxCc == if targets == [] then old(fTxCc) else (targets[|targets| - 1] + 1) % COUNTER
    {
      hide Held, Steps, Cleared, RingOk, Outstanding;
      assert targets[0..] == targets;
      for i := 0 to |targets|
        invariant Valid() && NamesOutstanding(fTxPc, fTxCc, targets[i..])
        invariant fTxCc == if i == 0 then old(fTxCc) else (targets[i - 1] + 1) % COUNTER
      {
        assert targets[i..][1..] == targets[i + 1..];
        OutstandingIsNamed(fTxPc, fTxCc, targets[i]);
        Complete(targets[i]);
      }
    }

    /** Frees slot by slot until it has freed the entry named or caught up with the producer,
        testing only after the first. */
    method FreeUpTo(target: nat)
      requires Conserving() && target < COUNTER
      modifies this`fTxCc, this`freed, fWqeMbuf
      ensures Conserving()
      ensures fTxCc == (old(fTxCc) + Steps(fTxPc, old(fTxCc), target)) % COUNTER
      ensures Cleared(old(fWqeMbuf[..]), fWqeMbuf[..], old(fTxCc), Steps(fTxPc, old(fTxCc), target))
    {
      hide Held, Steps, Cleared;
      ghost var cc0, slots := fTxCc, fWqeMbuf[..];
      ghost var done := 0;
      var last := false;
      Starts(fTxPc, cc0, slots, target);
      while !last
        invariant Conserving() && done <= Steps(fTxPc, cc0, target)
        invariant fTxCc == (cc0 + done) % COUNTER
        invariant Cleared(slots, fWqeMbuf[..], cc0, done)
        invariant last <==> done == Steps(fTxPc, cc0, target)
        decreases Steps(fTxPc, cc0, target) - done
      {
        last := CompleteOne(target, cc0, slots, done);
        done := done + 1;
      }
    }

    method CompleteOne(target: nat, ghost cc0: nat, ghost slots: seq<Option<Packet>>, ghost done: nat)
      returns (last: bool)
      requires Conserving() && target < COUNTER && cc0 < COUNTER && done < Steps(fTxPc, cc0, target)
      requires fTxCc == (cc0 + done) % COUNTER && Cleared(slots, fWqeMbuf[..], cc0, done)
      modifies this`fTxCc, this`freed, fWqeMbuf
      ensures Conserving() && fTxCc == (cc0 + done + 1) % COUNTER
      ensures Cleared(slots, fWqeMbuf[..], cc0, done + 1)
      ensures last <==> done + 1 == Steps(fTxPc, cc0, target)
    {
      hide Held, Steps, Cleared;
      ghost var before := fWqeMbuf[..];
      FreeSlot(fTxCc % RING);
      ClearedNext(slots, before, cc0, done);
      last := fTxCc == target;
      NextCounter(cc0 + done);
      fTxCc := (fTxCc + 1) % COUNTER;
      last := last || fTxCc == fTxPc;
      StopsAtStep(fTxPc, cc0, target, done);
    }

    /** Teardown, after the queue is gone, frees whatever is left. */
    method FreeAll()
      requires Conserving()
      modifies this`fTxPc, this`fTxCc, this`freed, fWqeMbuf
      ensures Valid() && fTxPc == fTxCc == 0 && accepted == freed
    {
      for i := 0 to RING
        invariant Conserving() && forall k :: 0 <= k < i ==> fWqeMbuf[k].None?
      {
        FreeSlot(i);
      }
      NothingHeld(fWqeMbuf[..]);
      fTxPc, fTxCc := 0, 0;
    }
  }

  /** Each completion names an entry that is outstanding once the earlier ones are done. */
  predicate NamesOutstanding(pc: nat, cc: nat, targets: seq<nat>)
    decreases |targets|
  {
    targets == []
    || (targets[0] < COUNTER && (targets[0] - cc) % COUNTER < Outstanding(pc, cc)
        && NamesOutstanding(pc, (targets[0] + 1) % COUNTER, targets[1..]))
  }

  lemma OutstandingIsNamed(pc: nat, cc: nat, target: nat)
    requires pc < COUNTER && cc < COUNTER && target < COUNTER && (target - cc) % COUNTER < Outstanding(pc, cc)
    ensures Outstanding(pc, cc) > 0
    ensures (cc + Steps(pc, cc, target)) % COUNTER == (target + 1) % COUNTER
  {
    if target < cc { assert (target - cc) % COUNTER == target - cc + COUNTER; } else { assert (target - cc) % COUNTER == target - cc; }
  }

  /** The new entry took its slot from nobody. */
  ghost predicate Posted(pc: nat, pc': nat, slots: seq<Option<Packet>>, slots': seq<Option<Packet>>, packet: Packet) {
    && pc' == (pc + 1) % COUNTER && |slots| == RING && slots[pc % RING].None?
    && slots' == slots[pc % RING := Some(packet)]
  }

  lemma NextCounter(n: nat)
    ensures (n % COUNTER + 1) % COUNTER == (n + 1) % COUNTER
  {
  }

  lemma Starts(pc: nat, cc: nat, slots: seq<Option<Packet>>, target: nat)
    requires |slots| == RING && pc < COUNTER && cc < COUNTER
    ensures Cleared(slots, slots, cc, 0) && Steps(pc, cc, target) > 0
  {
  }

  /** The n slots from counter cc on are empty; the others are as before. */
  ghost predicate Cleared(slots: seq<Option<Packet>>, after: seq<Option<Packet>>, cc: nat, n: nat) {
    && |slots| == |after| == RING
    && forall i :: 0 <= i < RING ==> after[i] == if InUse(i, cc, n) then None else slots[i]
  }

  lemma ClearedNext(slots: seq<Option<Packet>>, before: seq<Option<Packet>>, cc: nat, n: nat)
    requires Cleared(slots, before, cc, n)
    ensures Cleared(slots, before[(cc + n) % COUNTER % RING := None], cc, n + 1)
  {
    var at := (cc + n) % COUNTER % RING;
    forall i | 0 <= i < RING
      ensures InUse(i, cc, n + 1) <==> i == at || InUse(i, cc, n)
    {
      NextSlot(i, cc, n);
    }
  }

  lemma NextSlot(i: nat, cc: nat, n: nat)
    requires i < RING
    ensures InUse(i, cc, n + 1) <==> i == (cc + n) % COUNTER % RING || InUse(i, cc, n)
  {
    ShortCounter(cc + n);
    if n < RING { SlotAt(i, cc, n); }
  }

  lemma ShortCounter(n: nat)
    ensures n % COUNTER % RING == n % RING
  {
  }

  lemma SlotAt(i: nat, cc: nat, d: nat)
    requires i < RING && d < RING
    ensures (i - cc) % RING == d <==> i == (cc + d) % RING
  {
  }

  lemma {:induction false} NothingHeld(slots: seq<Option<Packet>>)
    requires forall i :: 0 <= i < |slots| ==> slots[i].None?
    ensures Held(slots) == multiset{}
  {
    if slots != [] { NothingHeld(slots[1..]); }
  }

  lemma StopsAtStep(pc: nat, cc: nat, target: nat, done: nat)
    requires pc < COUNTER && cc < COUNTER && target < COUNTER && done < Steps(pc, cc, target)
    ensures (cc + done) % COUNTER == target || (cc + done + 1) % COUNTER == pc
            <==> done + 1 == Steps(pc, cc, target)
  {
  }

  lemma PostKeepsRing(pc: nat, cc: nat, slots: seq<Option<Packet>>, packet: Packet)
    requires pc < COUNTER && cc < COUNTER && RingOk(pc, cc, slots) && Outstanding(pc, cc) < RING
    ensures slots[pc % RING].None?
    ensures RingOk((pc + 1) % COUNTER, cc, slots[pc % RING := Some(packet)])
  {
    hide Outstanding, InUse;
    var n := Outstanding(pc, cc);
    OneMore(pc, cc);
    forall i | 0 <= i < RING ensures InUse(i, cc, n + 1) <==> i == pc % RING || InUse(i, cc, n) {
      NextSlot(i, cc, n);
    }
  }

  lemma OneMore(pc: nat, cc: nat)
    requires pc < COUNTER && cc < COUNTER && Outstanding(pc, cc) < RING
    ensures Outstanding((pc + 1) % COUNTER, cc) == Outstanding(pc, cc) + 1
    ensures (cc + Outstanding(pc, cc)) % COUNTER == pc
    ensures !InUse(pc % RING, cc, Outstanding(pc, cc))
  {
    var n := Outstanding(pc, cc);
    ProducerAt(pc, cc);
    ShortCounter(cc + n);
    SlotAt(pc % RING, cc, n);
  }

  lemma ProducerAt(pc: nat, cc: nat)
    requires pc < COUNTER && cc < COUNTER
    ensures (cc + Outstanding(pc, cc)) % COUNTER == pc
    ensures Outstanding(pc, cc) < RING ==> Outstanding((pc + 1) % COUNTER, cc) == Outstanding(pc, cc) + 1
  {
    if pc < cc { assert Outstanding(pc, cc) == pc - cc + COUNTER; } else { assert Outstanding(pc, cc) == pc - cc; }
  }

  /** A completion keeps the ring in order exactly when something is outstanding or it names the
      entry just behind the producer. On an empty ring any other completion walks the consumer
      past the producer. */
  lemma CompletionKeepsRing(pc: nat, cc: nat, slots: seq<Option<Packet>>, target: nat, after: seq<Option<Packet>>)
    requires pc < COUNTER && cc < COUNTER && target < COUNTER && RingOk(pc, cc, slots)
    requires Cleared(slots, after, cc, Steps(pc, cc, target))
    ensures RingOk(pc, (cc + Steps(pc, cc, target)) % COUNTER, after) <==>
            Outstanding(pc, cc) > 0 || (target + 1) % COUNTER == pc
  {
    hide Steps, Outstanding, InUse;
    var k := Steps(pc, cc, target);
    if Outstanding(pc, cc) > 0 {
      SomeOutstanding(pc, cc, target);
      PartCleared(pc, cc, slots, after, k);
    } else {
      SamePlace(pc, cc);
      EmptyRing(pc, target);
      NoneInUse(pc);
      StillEmpty(pc, (target + 1) % COUNTER, after);
    }
  }

  /** One such case: nothing was ever posted, and a completion names entry 5. The consumer ends
      six entries past the producer, and the ring counts 65530 entries as outstanding. */
  lemma SpuriousCompletion(slots: seq<Option<Packet>>)
    requires |slots| == RING && forall i :: 0 <= i < RING ==> slots[i].None?
    ensures RingOk(0, 0, slots)
    ensures Steps(0, 0, 5) == 6 && Cleared(slots, slots, 0, 6)
    ensures Outstanding(0, 6) == 65530 && !RingOk(0, 6, slots)
  {
    assert Outstanding(0, 0) == 0;
  }

  lemma PartCleared(pc: nat, cc: nat, slots: seq<Option<Packet>>, after: seq<Option<Packet>>, k: nat)
    requires pc < COUNTER && cc < COUNTER && RingOk(pc, cc, slots)
    requires k <= Outstanding(pc, cc) && Cleared(slots, after, cc, k)
    ensures RingOk(pc, (cc + k) % COUNTER, after)
  {
    hide InUse, Outstanding;
    var n := Outstanding(pc, cc);
    Shrinks(pc, cc, k);
    forall i | 0 <= i < RING ensures after[i].Some? <==> InUse(i, (cc + k) % COUNTER, n - k) {
      Remaining(i, cc, n, k);
    }
  }

  lemma StillEmpty(pc: nat, cc': nat, after: seq<Option<Packet>>)
    requires pc < COUNTER && cc' < COUNTER && |after| == RING
    requires forall i :: 0 <= i < RING ==> after[i].None?
    ensures RingOk(pc, cc', after) <==> cc' == pc
  {
    assert Outstanding(pc, cc') > 0 ==> InUse(cc' % RING, cc', Outstanding(pc, cc'));
  }

  lemma SomeOutstanding(pc: nat, cc: nat, target: nat)
    requires Outstanding(pc, cc) > 0
    ensures Steps(pc, cc, target) <= Outstanding(pc, cc)
  {
  }

  lemma Shrinks(pc: nat, cc: nat, k: nat)
    requires pc < COUNTER && cc < COUNTER && k <= Outstanding(pc, cc)
    ensures Outstanding(pc, (cc + k) % COUNTER) == Outstanding(pc, cc) - k
  {
  }

  lemma SamePlace(pc: nat, cc: nat)
    requires pc < COUNTER && cc < COUNTER
    ensures Outstanding(pc, cc) == 0 <==> pc == cc
  {
  }

  lemma NoneInUse(cc: nat)
    ensures forall i :: 0 <= i < RING ==> !InUse(i, cc, 0)
  {
  }

  lemma EmptyRing(pc: nat, target: nat)
    requires pc < COUNTER && target < COUNTER
    ensures (pc + Steps(pc, pc, target)) % COUNTER == (target + 1) % COUNTER
  {
  }

  lemma Remaining(i: nat, cc: nat, n: nat, k: nat)
    requires i < RING && k <= n <= RING
    ensures InUse(i, (cc + k) % COUNTER, n - k) <==> InUse(i, cc, n) && !InUse(i, cc, k)
  {
    ShortCounter(cc + k);
    SameSlot(i, (cc + k) % COUNTER, cc + k);
    Further(i, cc, k);
    Window((i - cc) % RING, n, k);
  }

  lemma Window(d: nat, n: nat, k: nat)
    requires d < RING && k <= n <= RING
    ensures (d - k) % RING < n - k <==> k <= d < n
  {
    if d < k { assert (d - k) % RING == d - k + RING; } else { assert (d - k) % RING == d - k; }
  }

  lemma SameSlot(i: nat, a: nat, b: nat)
    requires a % RING == b % RING
    ensures (i - a) % RING == (i - b) % RING
  {
  }

  lemma Further(i: nat, cc: nat, k: nat)
    requires k <= RING
    ensures (i - (cc + k)) % RING == ((i - cc) % RING - k) % RING
  {
  }

  /** In terms of unbounded counts: a completion that names an outstanding entry frees exactly
      the entries up to and including that one. */
  lemma CompletionOfOutstanding(posted: nat, freed: nat, t: nat)
    requires freed <= t < posted <= freed + RING
    ensures Steps(posted % COUNTER, freed % COUNTER, t % COUNTER) == t + 1 - freed
  {
    CounterGap(posted, freed);
    CounterGap(t, freed);
  }

  lemma CounterGap(a: nat, b: nat)
    requires b <= a < b + COUNTER
    ensures (a % COUNTER - b % COUNTER) % COUNTER == a - b
  {
  }
}
