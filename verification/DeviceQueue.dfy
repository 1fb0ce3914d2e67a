/** Queues that the adapter fills and the host polls: the driver's event queues, the kernel's
    completion queues and the user-mode library's. */
module DeviceQueue {
  import opened PhaseRing

  /** How many events pass between two reports of an event queue's consumer index. */
  const REPORT_INTERVAL: nat := 64

  const EINVAL: int := 22

  /** The host's side is the ring and consIndex. The other fields record the history around
      them: produced is everything the adapter has written to the queue, delivered everything
      the host has taken, reported the count the adapter last took from the doorbell and armed
      whether that doorbell asked for an interrupt. On a completion queue the slots start with
      an opcode that no completion carries, which invalid recognises; an event queue has none. */
  class Queue<E> {
    const ringBuf: array<Slot<E>>
    const logSize: nat
    const uarMapped: bool
    const invalid: E -> bool
    var consIndex: nat
    var produced: seq<E>
    var delivered: seq<E>
    var reported: nat
    var armed: bool

    /** The queue is a FIFO: what the host has taken is a prefix of what was produced, and the
        adapter is never more than one ring ahead of the report. */
    ghost predicate Refines()
      reads this, ringBuf
    {
      && logSize <= 31 && ringBuf.Length == Pow2(logSize)
      && delivered <= produced && consIndex == |delivered| % WRAP
      && reported <= |delivered| && |produced| <= reported + ringBuf.Length
      && Shows(ringBuf[..], produced)
      && (forall p :: 0 <= p < |produced| ==> !invalid(produced[p]))
    }

    /** Between two interrupts the adapter also knows the exact count. */
    ghost predicate Valid()
      reads this, ringBuf
    {
      Refines() && (uarMapped ==> reported == |delivered|)
    }

    /** At the head of the event handler's loop the report lags by less than the interval. */
    ghost predicate LagIsSmall()
      reads this
    {
      uarMapped ==> |delivered| - reported <= |delivered| % REPORT_INTERVAL < REPORT_INTERVAL
    }

    /** A user-mode completion queue: the kernel takes no report above twice the depth. */
    ghost predicate UserQueue()
      reads this, ringBuf
    {
      Refines() && logSize <= 11 && reported <= 2 * ringBuf.Length
    }

    /** A new queue: every owner bit is set over whatever the memory held. */
    constructor (log: nat, mapped: bool, blank: E, isInvalid: E -> bool)
      requires log <= 31
      ensures Valid() && produced == [] && delivered == [] && fresh(ringBuf)
      ensures logSize == log && uarMapped == mapped && invalid == isInvalid
      ensures log <= 11 ==> UserQueue()
    {
      logSize, uarMapped, invalid, consIndex := log, mapped, isInvalid, 0;
      produced, delivered, reported, armed := [], [], 0, false;
      ringBuf := new Slot<E>[Pow2(log)](_ => Slot(0, blank));
      new;
      for i := 0 to ringBuf.Length
        modifies ringBuf
        invariant forall k :: 0 <= k < i ==> ringBuf[k].owner == 1
      {
        ringBuf[i] := Slot(1, ringBuf[i].contents);
      }
    }

    /** The adapter writes one event, unless the ring is full as far as it knows. */
    method DeviceWrites(event: E)
      requires Refines() && !invalid(event)
      modifies ringBuf, this`produced
      ensures Refines()
      ensures produced == if |old(produced)| < reported + ringBuf.Length
                          then old(produced) + [event] else old(produced)
    {
      if |produced| < reported + ringBuf.Length {
        ghost var before := ringBuf[..];
        var slot := Slot(Lap(|produced|, ringBuf.Length), event);
        ShowsNext(before, produced, slot);
        ringBuf[|produced| % ringBuf.Length] := slot;
        assert ringBuf[..] == before[|produced| % ringBuf.Length := slot];
        produced := produced + [event];
      }
    }

    /** A burst of writes between two looks of the host; what is no event is never written. */
    method DeviceWritesAll(events: seq<E>)
      requires Refines()
      modifies ringBuf, this`produced
      ensures Refines() && old(produced) <= produced
    {
      for k := 0 to |events|
        invariant Refines() && reported == old(reported) && old(produced) <= produced
      {
        if !invalid(events[k]) {
          DeviceWrites(events[k]);
        }
      }
    }

    /** Only a mapped UAR page takes the doorbell. */
    method UpdateCi(arm: bool)
      requires Refines()
      modifies this`reported, this`armed
      ensures Refines()
      ensures uarMapped ==> reported == |delivered| && armed == arm
      ensures !uarMapped ==> reported == old(reported) && armed == old(armed)
    {
      if uarMapped {
        reported := |delivered|;
        armed := arm;
      }
    }

    /** The look at one slot: exactly when the queue holds an untaken event is it new, and
        then it holds the oldest one. The opcode test agrees with the owner bit. */
    method Peek() returns (isNew: bool, event: E)
      requires Refines()
      ensures isNew <==> |delivered| < |produced|
      ensures isNew ==> event == produced[|delivered|]
    {
      WrapInvisible(|delivered|, logSize);
      ReadingLaw(ringBuf[..], produced, |delivered|);
      var slot := ringBuf[consIndex % ringBuf.Length];
      event := slot.contents;
      isNew := !invalid(event) && IsNew(slot, consIndex, ringBuf.Length);
    }

    method Take(event: E)
      requires Refines()
      requires |delivered| < |produced| && event == produced[|delivered|]
      modifies this`consIndex, this`delivered
      ensures Refines() && delivered == old(delivered) + [event]
    {
      NextIndex(|delivered|);
      delivered := delivered + [event];
      consIndex := (consIndex + 1) % WRAP;
    }

    method Dispatch(event: E)
      requires Refines() && LagIsSmall()
      requires |delivered| < |produced| && event == produced[|delivered|]
      modifies this`consIndex, this`delivered, this`reported, this`armed
      ensures Refines() && LagIsSmall()
      ensures delivered == old(delivered) + [event]
    {
      NextIndex(|delivered|);
      Take(event);
      if consIndex % REPORT_INTERVAL == 0 {
        UpdateCi(false);
      }
    }

    /** One interrupt of an event queue. Before each look the adapter may write whatever it
        likes. The handler gives out pending events in order, once each, until it finds none
        or has gone round once, and leaves the queue armed with nothing unreported. */
    method HandleEqes(arrivals: seq<seq<E>>)
      requires Valid()
      modifies ringBuf, this
      ensures Valid() && (uarMapped ==> armed)
      ensures old(produced) <= produced && old(delivered) <= delivered
      ensures |old(produced)| <= |delivered| <= |old(delivered)| + ringBuf.Length
      ensures delivered == produced || |delivered| == |old(delivered)| + ringBuf.Length
    {
      var i := 0;
      while i < ringBuf.Length
        invariant i <= ringBuf.Length
        invariant Refines() && LagIsSmall()
        invariant old(produced) <= produced && old(delivered) <= delivered
        invariant |delivered| == |old(delivered)| + i
      {
        if i < |arrivals| {
          DeviceWritesAll(arrivals[i]);
        }
        var isNew, event := Peek();
        if !isNew {
          break;
        }
        Dispatch(event);
        i := i + 1;
      }
      UpdateCi(true);
    }

    /** The kernel's poll of a completion queue has no bound of its own. It ends because the
        adapter learns of nothing taken before the loop is over: whatever the adapter does
        meanwhile, at most one ring is taken, and nothing is left when it ends. */
    method PollKernel(arrivals: seq<seq<E>>)
      requires Valid()
      modifies ringBuf, this
      ensures Valid() && (uarMapped ==> armed)
      ensures old(produced) <= produced && old(delivered) <= delivered == produced
      ensures |delivered| <= old(reported) + ringBuf.Length
    {
      var isNew, event := Peek();
      var looks := 0;
      while isNew
        invariant Refines() && reported == old(reported)
        invariant old(produced) <= produced && old(delivered) <= delivered
        invariant isNew <==> |delivered| < |produced|
        invariant isNew ==> event == produced[|delivered|]
        decreases reported + ringBuf.Length - |delivered|
      {
        Take(event);
        if looks < |arrivals| {
          DeviceWritesAll(arrivals[looks]);
        }
        isNew, event := Peek();
        looks := looks + 1;
      }
      UpdateCi(true);
    }

    /** The adapter writes, then the oldest event, if there is one, is taken. */
    method Poll(arrivals: seq<E>) returns (isNew: bool, event: E)
      requires Refines()
      modifies ringBuf, this`produced, this`consIndex, this`delivered
      ensures Refines() && old(produced) <= produced
      ensures isNew ==> delivered == old(delivered) + [event]
      ensures !isNew ==> delivered == old(delivered) == produced
    {
      DeviceWritesAll(arrivals);
      isNew, event := Peek();
      if isNew {
        Take(event);
      }
    }

    /** mlx_poll_cq: up to num completions are copied out. The report goes through the kernel,
        which may refuse it and does refuse every index above twice the depth; the library
        ignores the answer. Hence such a queue yields at most three rings of completions in
        its life, and its index never wraps. */
    method PollUser(cqe: array<E>, num: int, arrivals: seq<seq<E>>, kernelAnswers: bool)
      returns (got: int)
      requires UserQueue() && num <= cqe.Length && cqe as object != ringBuf as object
      modifies ringBuf, cqe, this`produced, this`consIndex, this`delivered, this`reported
      ensures UserQueue() && |produced| <= 3 * ringBuf.Length && consIndex == |delivered|
      ensures num <= 0 ==> got == EINVAL && delivered == old(delivered) && cqe[..] == old(cqe[..])
      ensures num > 0 ==> 0 <= got <= num && |delivered| == |old(delivered)| + got
      ensures num > 0 ==> old(delivered) <= delivered
      ensures num > 0 ==> forall k :: 0 <= k < got ==> cqe[k] == delivered[|old(delivered)| + k]
      ensures num > 0 ==> got == num || delivered == produced
      ensures num > 0 ==> forall k :: got <= k < cqe.Length ==> cqe[k] == old(cqe[k])
      ensures old(produced) <= produced
      ensures reported == if num > 0 && got > 0 && kernelAnswers && consIndex <= 2 * ringBuf.Length
                          then |delivered| else old(reported)
    {
      if num <= 0 {
        UserRingIsSmall(logSize, |delivered|);
        return EINVAL;
      }
      got := 0;
      while got < num
        invariant 0 <= got <= num
        invariant UserQueue() && reported == old(reported)
        invariant old(produced) <= produced && old(delivered) <= delivered
        invariant |delivered| == |old(delivered)| + got
        invariant forall k :: 0 <= k < got ==> cqe[k] == delivered[|old(delivered)| + k]
        invariant forall k :: got <= k < cqe.Length ==> cqe[k] == old(cqe[k])
      {
        var isNew, event := Poll(if got < |arrivals| then arrivals[got] else []);
        if !isNew {
          break;
        }
        cqe[got] := event;
        got := got + 1;
      }
      UserRingIsSmall(logSize, |delivered|);
      if got > 0 && kernelAnswers && consIndex <= 2 * ringBuf.Length {
        reported := consIndex;
      }
    }
  }

  /** The 32-bit index steps with the count, and the interval divides its range. */
  lemma NextIndex(count: nat)
    ensures (count % WRAP + 1) % WRAP == (count + 1) % WRAP
    ensures (count + 1) % WRAP % REPORT_INTERVAL == (count + 1) % REPORT_INTERVAL
    ensures (count + 1) % REPORT_INTERVAL == 0
            || (count + 1) % REPORT_INTERVAL == count % REPORT_INTERVAL + 1
  {
    NextModulo(count, WRAP);
    NextModulo(count, REPORT_INTERVAL);
    IntervalDivides(count + 1);
  }

  lemma NextModulo(count: nat, m: nat)
    requires m > 1
    ensures (count % m + 1) % m == (count + 1) % m
    ensures (count + 1) % m == 0 || (count + 1) % m == count % m + 1
  {
    SkipLaps(count / m, m, count % m + 1);
    assert count + 1 == count / m * m + (count % m + 1);
    SmallCounter(count % m + 1, m);
    SkipLaps(1, m, 0);
  }

  lemma IntervalDivides(n: nat)
    ensures n % WRAP % REPORT_INTERVAL == n % REPORT_INTERVAL
  {
    SkipLaps(n / WRAP * 0x400_0000, REPORT_INTERVAL, n % WRAP);
  }

  /** Three of the longest user-mode rings do not reach the wrap. */
  lemma UserRingIsSmall(log: nat, count: nat)
    requires log <= 11 && count <= 3 * Pow2(log)
    ensures count % WRAP == count
  {
    hide Pow2;
    PowersMultiply(log, 11 - log);
    LongestUserRing();
    MultipleGap(Pow2(11 - log), Pow2(log));
    assert count < WRAP;
  }

  lemma LongestUserRing()
    ensures Pow2(11) == 2048
  {
    PowersMultiply(8, 3);
    PowersOfTwo();
    assert Pow2(3) == 8;
  }
}
