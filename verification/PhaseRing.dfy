/** The ownership law of every ring the adapter fills: each slot carries a bit that flips
    with every lap of the ring, so that a reader tells a new slot from an old one without
    seeing the producer's counter. */
module PhaseRing {
  datatype Slot<E> = Slot(owner: nat, contents: E)

  const WRAP: nat := 0x1_0000_0000
  const DOORBELL_RANGE: nat := 0x100_0000

  function Pow2(k: nat): (r: nat)
    ensures r > 0
  {
    if k == 0 then 1 else 2 * Pow2(k - 1)
  }

  /** The parity of the lap a counter is on: (counter >> log) & 1. */
  function Lap(counter: nat, size: nat): nat
    requires size > 0
  {
    counter / size % 2
  }

  /** The consumer's test on the slot its index points to. */
  predicate IsNew<E>(slot: Slot<E>, consIndex: nat, size: nat)
    requires size > 0
  {
    slot.owner % 2 == Lap(consIndex, size)
  }

  /** The ring shows the last lap of everything produced; slots not yet reached still hold
      the initial owner bit 1. */
  ghost predicate Shows<E>(slots: seq<Slot<E>>, produced: seq<E>)
    requires |slots| > 0
  {
    && (forall p :: 0 <= p < |produced| && |produced| - |slots| <= p ==>
          ShowsEvent(slots[p % |slots|], produced[p], Lap(p, |slots|)))
    && (forall i :: |produced| <= i < |slots| ==> slots[i].owner % 2 == 1)
  }

  ghost predicate ShowsEvent<E>(slot: Slot<E>, event: E, lap: nat) {
    slot.contents == event && slot.owner % 2 == lap
  }

  /** While the producer is at most one ring ahead, the owner bit is right: the slot is new
      exactly when an event is pending, and then it holds the oldest one. */
  lemma ReadingLaw<E>(slots: seq<Slot<E>>, produced: seq<E>, consumed: nat)
    requires |slots| > 0 && Shows(slots, produced)
    requires consumed <= |produced| <= consumed + |slots|
    ensures IsNew(slots[consumed % |slots|], consumed, |slots|) <==> consumed < |produced|
    ensures consumed < |produced| ==> slots[consumed % |slots|].contents == produced[consumed]
  {
    var size := |slots|;
    if consumed < |produced| {
      assert ShowsEvent(slots[consumed % size], produced[consumed], Lap(consumed, size));
    } else if consumed < size {
      SmallCounter(consumed, size);
    } else {
      OneLapBack(consumed, size);
      assert ShowsEvent(slots[(consumed - size) % size], produced[consumed - size],
                        Lap(consumed - size, size));
    }
  }

  /** One event further ahead than the ring is long breaks the law: the slot of the
      oldest event shows the owner bit of the next lap. */
  lemma OverrunHidesEvent<E>(slots: seq<Slot<E>>, produced: seq<E>, consumed: nat)
    requires |slots| > 0 && Shows(slots, produced)
    requires |produced| == consumed + |slots| + 1
    ensures !IsNew(slots[consumed % |slots|], consumed, |slots|)
  {
    var size := |slots|;
    OneLapBack(consumed + size, size);
    assert ShowsEvent(slots[(consumed + size) % size], produced[consumed + size],
                      Lap(consumed + size, size));
  }

  /** Writing the next event with its lap's bit keeps the picture. */
  lemma ShowsNext<E>(slots: seq<Slot<E>>, produced: seq<E>, slot: Slot<E>)
    requires |slots| > 0 && Shows(slots, produced)
    requires slot.owner % 2 == Lap(|produced|, |slots|)
    ensures Shows(slots[|produced| % |slots| := slot], produced + [slot.contents])
  {
    var size, n := |slots|, |produced|;
    var after := slots[n % size := slot];
    forall p | 0 <= p < n + 1 && n + 1 - size <= p
      ensures ShowsEvent(after[p % size], (produced + [slot.contents])[p], Lap(p, size))
    {
      if p < n {
        SlotsApart(p, n, size);
        assert ShowsEvent(slots[p % size], produced[p], Lap(p, size));
      }
    }
    forall i | n + 1 <= i < size ensures after[i].owner % 2 == 1 {
      SmallCounter(n, size);
    }
  }

  /** A 32-bit counter shows the same slot and the same lap as the unbounded count, as long
      as the ring has at most 2^31 slots. */
  lemma WrapInvisible(count: nat, log: nat)
    requires log <= 31
    ensures count % WRAP % Pow2(log) == count % Pow2(log)
    ensures Lap(count % WRAP, Pow2(log)) == Lap(count, Pow2(log))
  {
    PowersMultiply(log, 31 - log);
    PowersOfTwo();
    WrapByFactor(count, Pow2(log), Pow2(31 - log));
  }

  lemma WrapByFactor(count: nat, size: nat, half: nat)
    requires size > 0 && half * size == 0x8000_0000
    ensures count % WRAP % size == count % size
    ensures Lap(count % WRAP, size) == Lap(count, size)
  {
    var q, r := count / WRAP, count % WRAP;
    assert count == (2 * (q * half)) * size + r by {
      assert (2 * (q * half)) * size == q * (2 * (half * size));
    }
    SkipLaps(2 * (q * half), size, r);
    SkipLaps(q * half, 2, r / size);
  }

  /** The doorbell carries 24 bits of the consumer's count. They name it uniquely among the
      counts a producer at most one ring ahead can have been given, for rings below 2^24. */
  lemma DoorbellNamesCount(reported: nat, other: nat, produced: nat, size: nat)
    requires size < DOORBELL_RANGE
    requires reported <= produced <= reported + size && other <= produced <= other + size
    ensures other % DOORBELL_RANGE == reported % DOORBELL_RANGE <==> other == reported
  {
  }

  lemma SmallCounter(count: nat, size: nat)
    requires 0 < size
    ensures count < size ==> count % size == count && Lap(count, size) == 0
  {
    if count < size { SkipLaps(0, size, count); }
  }

  lemma OneLapBack(count: nat, size: nat)
    requires 0 < size <= count
    ensures (count - size) % size == count % size
    ensures Lap(count - size, size) != Lap(count, size)
  {
    var q, r := (count - size) / size, (count - size) % size;
    assert count == (q + 1) * size + r;
    SkipLaps(q + 1, size, r);
  }

  lemma SlotsApart(p: nat, n: nat, size: nat)
    requires 0 < size && p < n < p + size
    ensures p % size != n % size
  {
    if p % size == n % size {
      var q, q' := p / size, n / size;
      assert n - p == (q' - q) * size by { assert n == q' * size + n % size; assert p == q * size + p % size; }
      MultipleGap(q' - q, size);
    }
  }

  lemma MultipleGap(k: int, size: int)
    requires size >= 0
    ensures k >= 1 ==> k * size >= size
    ensures k <= 0 ==> k * size <= 0
    ensures k <= -1 ==> k * size <= -size
  {
  }

  lemma SkipLaps(laps: int, size: nat, r: nat)
    requires size > 0
    ensures (laps * size + r) / size == laps + r / size
    ensures (laps * size + r) % size == r % size
  {
    var total := laps * size + r;
    var q, q' := total / size, r / size;
    assert total == q * size + total % size && r == q' * size + r % size;
    assert (q - laps - q') * size == r % size - total % size;
    MultipleGap(q - laps - q', size);
  }

  lemma {:induction false} PowersMultiply(a: nat, b: nat)
    ensures Pow2(b) * Pow2(a) == Pow2(a + b)
  {
    if b > 0 {
      PowersMultiply(a, b - 1);
      assert Pow2(b) * Pow2(a) == 2 * (Pow2(b - 1) * Pow2(a));
      assert Pow2(a + b) == 2 * Pow2(a + b - 1);
    }
  }

  lemma PowersOfTwo()
    ensures Pow2(8) == 0x100 && Pow2(16) == 0x1_0000 && Pow2(31) == 0x8000_0000
  {
    assert Pow2(8) == 256;
    PowersMultiply(8, 8);
    PowersMultiply(8, 7);
    PowersMultiply(16, 15);
    assert Pow2(7) == 128;
  }
}
