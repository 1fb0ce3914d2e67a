/** The send ring's slots as a function of the packets posted and the number freed. */
module TxWindow {
  import opened Status
  import opened TxRing
  import PhaseRing

  /** The count of the entry that slot i holds, or will hold next, once the first f are freed. */
  function EntryAt(i: nat, f: nat): nat {
    f + (i - f) % RING
  }

  /** The slots when packets have been posted and the first f of them freed. */
  function SlotsOf(packets: seq<Packet>, f: nat): (r: seq<Option<Packet>>)
    ensures |r| == RING
  {
    seq(RING, i requires 0 <= i < RING =>
      if EntryAt(i, f) < |packets| then Some(packets[EntryAt(i, f)]) else None)
  }

  /** n slots from counter cc on emptied. */
  function Clear(slots: seq<Option<Packet>>, cc: nat, n: nat): (r: seq<Option<Packet>>)
    requires |slots| == RING
    ensures |r| == RING && Cleared(slots, r, cc, n)
  {
    seq(RING, i requires 0 <= i < RING => if InUse(i, cc, n) then None else slots[i])
  }

  lemma EntryStep(i: nat, f: nat)
    requires i < RING
    ensures i == f % RING ==> EntryAt(i, f) == f && EntryAt(i, f + 1) == f + RING
    ensures i != f % RING ==> EntryAt(i, f + 1) == EntryAt(i, f)
  {
    var d := (i - f) % RING;
    Further(i, f, 1);
    SlotAt(i, f, 0);
    if d == 0 { assert (d - 1) % RING == RING - 1; } else { assert (d - 1) % RING == d - 1; }
  }

  /** Freeing the oldest entry empties its slot. */
  lemma FreeOldest(packets: seq<Packet>, f: nat)
    requires f < |packets| <= f + RING
    ensures SlotsOf(packets, f)[f % RING] == Some(packets[f])
    ensures SlotsOf(packets, f + 1) == SlotsOf(packets, f)[f % RING := None]
  {
    hide EntryAt;
    forall i | 0 <= i < RING
      ensures SlotsOf(packets, f + 1)[i] == SlotsOf(packets, f)[f % RING := None][i]
      ensures i == f % RING ==> SlotsOf(packets, f)[i] == Some(packets[f])
    {
      EntryStep(i, f);
    }
  }

  /** Posting fills the slot behind the newest entry. */
  lemma PostNewest(packets: seq<Packet>, f: nat, packet: Packet)
    requires f <= |packets| < f + RING
    ensures SlotsOf(packets + [packet], f) == SlotsOf(packets, f)[|packets| % RING := Some(packet)]
  {
    var after := SlotsOf(packets, f)[|packets| % RING := Some(packet)];
    forall i | 0 <= i < RING ensures SlotsOf(packets + [packet], f)[i] == after[i] {
      SlotAt(i, f, |packets| - f);
    }
  }

  /** Freeing k entries in a row. */
  lemma {:induction false} FreeMany(packets: seq<Packet>, f: nat, k: nat)
    requires f + k <= |packets| <= f + RING
    ensures Clear(SlotsOf(packets, f), f % COUNTER, k) == SlotsOf(packets, f + k)
  {
    hide SlotsOf;
    var slots, cc := SlotsOf(packets, f), f % COUNTER;
    if k == 0 {
      assert Clear(slots, cc, 0) == slots;
    } else {
      FreeMany(packets, f, k - 1);
      FreeOldest(packets, f + k - 1);
      SameCounter(f, k - 1);
      ClearedNext(slots, Clear(slots, cc, k - 1), cc, k - 1);
      assert Clear(slots, cc, k) == Clear(slots, cc, k - 1)[(f + k - 1) % RING := None];
    }
  }

  lemma SameCounter(f: nat, n: nat)
    ensures (f % COUNTER + n) % COUNTER % RING == (f + n) % RING
  {
    PhaseRing.SkipLaps(f / COUNTER, COUNTER, f % COUNTER + n);
    assert f + n == f / COUNTER * COUNTER + (f % COUNTER + n);
    ShortCounter(f + n);
  }

  /** The packets held are exactly those posted and not freed. */
  lemma {:induction false} HeldInWindow(packets: seq<Packet>, f: nat)
    requires f <= |packets| <= f + RING
    ensures Held(SlotsOf(packets, f)) == multiset(packets[f..])
    decreases |packets| - f
  {
    hide Held;
    if f == |packets| {
      NothingHeld(SlotsOf(packets, f));
    } else {
      FreeOldest(packets, f);
      HeldFill(SlotsOf(packets, f), f % RING, packets[f]);
      HeldInWindow(packets, f + 1);
      assert packets[f..] == [packets[f]] + packets[f + 1..];
    }
  }

  /** In this shape the ring is in order: at most 256 entries, and their slots exactly. */
  lemma WindowIsInOrder(packets: seq<Packet>, f: nat)
    requires f <= |packets| <= f + RING
    ensures RingOk(|packets| % COUNTER, f % COUNTER, SlotsOf(packets, f))
    ensures Outstanding(|packets| % COUNTER, f % COUNTER) == |packets| - f
  {
    CounterGap(|packets|, f);
    ShortCounter(f);
    forall i | 0 <= i < RING
      ensures SlotsOf(packets, f)[i].Some? <==> InUse(i, f % COUNTER, |packets| - f)
    {
      SameSlot(i, f % COUNTER, f);
    }
  }
}
