/** The receive ring: 256 buffers that the adapter fills in cyclic order. */
module RxRing {
  import opened Status
  import opened TxRing
  import PhaseRing

  datatype Completion = Completion(isResponse: bool, bytes: seq<bv8>)

  /** arrived is everything the adapter has received; the driver has handled the first handled
      of it. A slot is posted while its descriptor belongs to the adapter. */
  class Ring {
    const fRxBuf: array<seq<bv8>>
    const posted: array<bool>
    var fRxPc: nat
    var fRxCc: nat
    var arrived: seq<Completion>
    ghost var handled: nat
    /** For each handled completion, whether an mbuf was to be had; and the packets handed up. */
    ghost var lucky: seq<bool>
    ghost var stack: seq<seq<bv8>>

    /** Exactly the slots of the completions not yet handled belong to the driver, and each
        still holds what arrived there. */
    ghost predicate InOrder()
      reads this`fRxPc, this`fRxCc, this`arrived, this`handled, fRxBuf, posted
    {
      && fRxBuf.Length == posted.Length == RING && fRxBuf as object != posted as object
      && handled <= |arrived| <= handled + RING
      && fRxPc == (handled + RING) % COUNTER && fRxCc == handled % COUNTER
      && (forall i :: 0 <= i < RING ==> (posted[i] <==> !InUse(i, handled, |arrived| - handled)))
      && (forall k :: handled <= k < |arrived| ==> Holds(fRxBuf[..], k, arrived[k].bytes))
    }

    /** And the stack has been given exactly the good packets among those handled, in order. */
    ghost predicate Valid()
      reads this, fRxBuf, posted
    {
      InOrder() && |lucky| == handled && stack == GoodPackets(arrived[..handled], lucky)
    }

    /** All 256 slots are posted before the queue is made ready. */
    constructor ()
      ensures Valid() && arrived == [] && handled == 0 && stack == [] && fresh(fRxBuf) && fresh(posted)
    {
      fRxBuf := new seq<bv8>[RING](_ => []);
      posted := new bool[RING](_ => false);
      fRxPc, fRxCc, arrived, handled, lucky, stack := 0, 0, [], 0, [], [];
      new;
      for i := 0 to RING
        modifies posted, this`fRxPc
        invariant fRxPc == i && forall k :: 0 <= k < i ==> posted[k]
      {
        posted[i] := true;
        fRxPc := (fRxPc + 1) % COUNTER;
      }
    }

    /** The adapter takes the next descriptor, if one is posted, and fills its buffer. */
    method DeviceReceives(c: Completion) returns (taken: bool)
      requires Valid()
      modifies this`arrived, fRxBuf, posted
      ensures Valid() && taken == (|old(arrived)| < handled + RING)
      ensures taken == old(posted[|arrived| % RING])
      ensures arrived == if taken then old(arrived) + [c] else old(arrived)
    {
      ghost var n := |arrived| - handled;
      var at := |arrived| % RING;
      ArrivalSlot(handled, n);
      taken := posted[at];
      if taken {
        ghost var buffers := fRxBuf[..];
        assert arrived[..handled] == (arrived + [c])[..handled];
        posted[at], fRxBuf[at] := false, c.bytes;
        arrived := arrived + [c];
        forall i | 0 <= i < RING ensures posted[i] <==> !InUse(i, handled, n + 1) {
          NextInUse(i, handled, n);
        }
        forall k | handled <= k < |arrived| ensures Holds(fRxBuf[..], k, arrived[k].bytes) {
          if k < |arrived| - 1 {
            assert Holds(buffers, k, arrived[k].bytes);
            PhaseRing.SlotsApart(k, |arrived| - 1, RING);
          }
        }
      }
    }

    /** One completion, for the oldest arrival: the payload of a good packet is copied out before
        its slot, and no other, goes back to the adapter. Error completions, packets of no or too
        many bytes and packets that find no mbuf go back the same way, so 256 descriptors are
        outstanding again. */
    method HandleRxCqe(wqeCounter: nat, isResponse: bool, byteCount: nat, mbufAvailable: bool)
      returns (delivered: Option<seq<bv8>>)
      requires Valid() && handled < |arrived|
      requires wqeCounter == handled % COUNTER
      requires isResponse == arrived[handled].isResponse && byteCount == |arrived[handled].bytes|
      modifies this`fRxPc, this`fRxCc, this`handled, this`lucky, this`stack, posted
      ensures Valid() && handled == old(handled) + 1
      ensures delivered.Some? <==> isResponse && 0 < |arrived[old(handled)].bytes| <= 2048 && mbufAvailable
      ensures delivered.Some? ==> delivered.value == arrived[old(handled)].bytes
      ensures lucky == old(lucky) + [mbufAvailable]
      ensures stack == old(stack) + if delivered.Some? then [delivered.value] else []
      ensures !old(posted[wqeCounter % RING]) && posted[..] == old(posted[..])[wqeCounter % RING := true]
      ensures Outstanding(fRxPc, fRxCc) == RING
    {
      hide GoodPackets, Outstanding, Ring.InOrder;
      delivered := CopyOut(wqeCounter, isResponse, byteCount, mbufAvailable);
      GoodNext(arrived, handled, lucky, mbufAvailable);
      Repost(wqeCounter);
      lucky := lucky + [mbufAvailable];
      stack := stack + if delivered.Some? then [delivered.value] else [];
    }

    /** The copy made of a good packet, if an mbuf is to be had for it. */
    method CopyOut(wqeCounter: nat, isResponse: bool, byteCount: nat, mbufAvailable: bool)
      returns (delivered: Option<seq<bv8>>)
      requires InOrder() && handled < |arrived| && wqeCounter == handled % COUNTER
      requires isResponse == arrived[handled].isResponse && byteCount == |arrived[handled].bytes|
      ensures delivered.Some? <==> isResponse && 0 < |arrived[handled].bytes| <= 2048 && mbufAvailable
      ensures delivered.Some? ==> delivered.value == arrived[handled].bytes
    {
      Counters(handled);
      assert Holds(fRxBuf[..], handled, arrived[handled].bytes);
      delivered := None;
      if isResponse && 0 < byteCount <= BUFFER_BYTES && mbufAvailable {
        delivered := Some(fRxBuf[wqeCounter % RING]);
      }
    }

    /** The slot of the oldest completion goes back to the adapter. */
    method Repost(wqeCounter: nat)
      requires InOrder() && handled < |arrived| && wqeCounter == handled % COUNTER
      modifies this`fRxPc, this`fRxCc, this`handled, posted
      ensures InOrder() && handled == old(handled) + 1
      ensures !old(posted[wqeCounter % RING]) && posted[..] == old(posted[..])[wqeCounter % RING := true]
      ensures Outstanding(fRxPc, fRxCc) == RING
    {
      ghost var h, n := handled, |arrived| - handled;
      Counters(h);
      HandledSlot(h, n);
      posted[fRxPc % RING] := true;
      fRxPc := (fRxPc + 1) % COUNTER;
      fRxCc := (wqeCounter + 1) % COUNTER;
      handled := handled + 1;
      forall i | 0 <= i < RING ensures InUse(i, h + 1, n - 1) <==> InUse(i, h, n) && i != h % RING {
        FirstOut(i, h, n);
      }
    }
  }

  /** A completion that reports a packet which fits a buffer. */
  predicate Good(c: Completion) {
    c.isResponse && 0 < |c.bytes| <= BUFFER_BYTES
  }

  /** Of the completions handled, the packets that were good and found an mbuf, in order. */
  ghost function GoodPackets(handled: seq<Completion>, lucky: seq<bool>): seq<seq<bv8>>
    requires |handled| == |lucky|
  {
    if handled == [] then []
    else
      var n := |handled| - 1;
      GoodPackets(handled[..n], lucky[..n]) + if Good(handled[n]) && lucky[n] then [handled[n].bytes] else []
  }

  lemma GoodNext(arrived: seq<Completion>, h: nat, lucky: seq<bool>, next: bool)
    requires h < |arrived| && |lucky| == h
    ensures GoodPackets(arrived[..h + 1], lucky + [next]) ==
            GoodPackets(arrived[..h], lucky) + if Good(arrived[h]) && next then [arrived[h].bytes] else []
  {
    assert arrived[..h + 1][..h] == arrived[..h] && (lucky + [next])[..h] == lucky;
  }

  /** The positions of those completions. */
  ghost function Origins(handled: seq<Completion>, lucky: seq<bool>): seq<nat>
    requires |handled| == |lucky|
  {
    if handled == [] then []
    else
      var n := |handled| - 1;
      Origins(handled[..n], lucky[..n]) + if Good(handled[n]) && lucky[n] then [n] else []
  }

  /** What goes up the stack over a whole run: the payloads, in the order of arrival, of exactly
      the responses of 1 to 2048 bytes that found an mbuf; errors never get there. */
  lemma {:induction false} OnlyGoodPackets(handled: seq<Completion>, lucky: seq<bool>, k: nat)
    requires |handled| == |lucky|
    ensures k in Origins(handled, lucky) <==>
            k < |handled| && handled[k].isResponse && 0 < |handled[k].bytes| <= 2048 && lucky[k]
  {
    if handled != [] {
      var n := |handled| - 1;
      OnlyGoodPackets(handled[..n], lucky[..n], k);
    }
  }

  lemma {:induction false} GoodPacketsInOrder(handled: seq<Completion>, lucky: seq<bool>, i: nat, j: nat)
    requires |handled| == |lucky| && i <= j < |Origins(handled, lucky)|
    ensures |GoodPackets(handled, lucky)| == |Origins(handled, lucky)|
    ensures var from := Origins(handled, lucky);
            && from[j] < |handled| && GoodPackets(handled, lucky)[j] == handled[from[j]].bytes
            && (i < j ==> from[i] < from[j])
  {
    var n := |handled| - 1;
    var init := Origins(handled[..n], lucky[..n]);
    SameCount(handled, lucky);
    SameCount(handled[..n], lucky[..n]);
    if j < |init| {
      GoodPacketsInOrder(handled[..n], lucky[..n], i, j);
    } else if i < |init| {
      GoodPacketsInOrder(handled[..n], lucky[..n], i, i);
    }
  }

  lemma {:induction false} SameCount(handled: seq<Completion>, lucky: seq<bool>)
    requires |handled| == |lucky|
    ensures |GoodPackets(handled, lucky)| == |Origins(handled, lucky)|
  {
    if handled != [] {
      SameCount(handled[..|handled| - 1], lucky[..|handled| - 1]);
    }
  }

  ghost predicate Holds(buffers: seq<seq<bv8>>, k: nat, bytes: seq<bv8>) {
    |buffers| == RING && buffers[k % RING] == bytes
  }

  lemma ArrivalSlot(h: nat, n: nat)
    ensures InUse((h + n) % RING, h, n) <==> n >= RING
  {
    if n < RING { SlotAt((h + n) % RING, h, n); }
  }

  lemma HandledSlot(h: nat, n: nat)
    requires n > 0
    ensures InUse(h % RING, h, n)
  {
    SlotAt(h % RING, h, 0);
  }

  lemma NextInUse(i: nat, h: nat, n: nat)
    requires i < RING
    ensures InUse(i, h, n + 1) <==> i == (h + n) % RING || InUse(i, h, n)
  {
    if n < RING { SlotAt(i, h, n); }
  }

  lemma FirstOut(i: nat, h: nat, n: nat)
    requires i < RING && 0 < n <= RING
    ensures InUse(i, h + 1, n - 1) <==> InUse(i, h, n) && i != h % RING
  {
    SlotAt(i, h, 0);
    Further(i, h, 1);
    Window((i - h) % RING, n, 1);
  }

  lemma Counters(h: nat)
    ensures h % COUNTER % RING == h % RING && (h + RING) % COUNTER % RING == h % RING
    ensures (h % COUNTER + 1) % COUNTER == (h + 1) % COUNTER
    ensures ((h + RING) % COUNTER + 1) % COUNTER == (h + 1 + RING) % COUNTER
    ensures ((h + 1 + RING) % COUNTER - (h + 1) % COUNTER) % COUNTER == RING
  {
    ShortCounter(h);
    ShortCounter(h + RING);
    NextLap(h);
    NextCounter(h);
    NextCounter(h + RING);
    CounterGap(h + 1 + RING, h + 1);
  }

  /** What the cyclic order is needed for: a completion for counter c makes the driver post the
      slot just consumed, and leaves 256 descriptors outstanding, exactly when the slots agree
      and when c is the oldest of 256, respectively. */
  lemma CyclicOrderIsNeeded(pc: nat, c: nat)
    requires pc < COUNTER && c < COUNTER
    ensures Outstanding((pc + 1) % COUNTER, (c + 1) % COUNTER) == RING <==> (c + RING) % COUNTER == pc
    ensures (c + RING) % COUNTER == pc ==> c % RING == pc % RING
  {
    BothStep(pc, c);
    ShortCounter(c + RING);
    NextLap(c);
    if pc < c { assert (pc - c) % COUNTER == pc - c + COUNTER; } else { assert (pc - c) % COUNTER == pc - c; }
  }

  lemma BothStep(pc: nat, c: nat)
    requires pc < COUNTER && c < COUNTER
    ensures Outstanding((pc + 1) % COUNTER, (c + 1) % COUNTER) == Outstanding(pc, c)
  {
    if pc < c { assert (pc - c) % COUNTER == pc - c + COUNTER; } else { assert (pc - c) % COUNTER == pc - c; }
  }

  lemma NextLap(h: nat)
    ensures (h + RING) % RING == h % RING
  {
  }
}
