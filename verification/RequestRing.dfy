/** The 64-entry ring of page requests, updated in place under fRequestLock. */
module RequestRing {
  import opened PageRequests

  const QUEUE_SIZE: nat := 64

  class Ring {
    const fRequests: array<PageRequest>
    var fRequestHead: nat
    var fRequestTail: nat
    var fRequestCount: nat

    ghost predicate Valid()
      reads this
    {
      && fRequests.Length == QUEUE_SIZE
      && fRequestHead < QUEUE_SIZE && fRequestCount <= QUEUE_SIZE
      && fRequestTail == (fRequestHead + fRequestCount) % QUEUE_SIZE
    }

    /** The queued requests, oldest first. */
    ghost function Contents(): seq<PageRequest>
      reads this, fRequests
      requires Valid()
    {
      seq(fRequestCount, k requires 0 <= k < fRequestCount reads this, fRequests requires Valid() =>
        fRequests[(fRequestHead + k) % QUEUE_SIZE])
    }

    constructor ()
      ensures Valid() && Contents() == [] && fresh(fRequests)
    {
      fRequests := new PageRequest[QUEUE_SIZE];
      fRequestHead, fRequestTail, fRequestCount := 0, 0, 0;
    }

    /** Appends if there is room and requests are accepted; otherwise changes nothing. */
    method Enqueue(request: PageRequest, accepting: bool) returns (queued: bool)
      requires Valid()
      modifies this`fRequestTail, this`fRequestCount, fRequests
      ensures Valid()
      ensures queued <==> accepting && |old(Contents())| < QUEUE_SIZE
      ensures Contents() == if queued then old(Contents()) + [request] else old(Contents())
    {
      queued := false;
      if accepting && fRequestCount < QUEUE_SIZE {
        ghost var before := Contents();
        fRequests[fRequestTail] := request;
        fRequestTail := (fRequestTail + 1) % QUEUE_SIZE;
        fRequestCount := fRequestCount + 1;
        queued := true;
        forall k | 0 <= k < fRequestCount ensures Contents()[k] == (before + [request])[k] {
          SlotsDiffer(fRequestHead, k, fRequestCount - 1);
        }
      }
    }

    method Dequeue() returns (dequeued: bool, request: PageRequest)
      requires Valid()
      modifies this`fRequestHead, this`fRequestCount
      ensures Valid()
      ensures dequeued <==> old(Contents()) != []
      ensures dequeued ==> [request] + Contents() == old(Contents())
      ensures !dequeued ==> Contents() == []
    {
      dequeued, request := false, fRequests[0];
      if fRequestCount > 0 {
        ghost var before := Contents();
        request := fRequests[fRequestHead];
        fRequestHead := (fRequestHead + 1) % QUEUE_SIZE;
        fRequestCount := fRequestCount - 1;
        dequeued := true;
        assert before[0] == request;
        assert forall k :: 0 <= k < fRequestCount ==> Contents()[k] == before[k + 1];
      }
    }

    /** A failed request discards everything behind it. */
    method Discard()
      requires Valid()
      modifies this`fRequestHead, this`fRequestCount
      ensures Valid() && Contents() == []
    {
      fRequestHead := fRequestTail;
      fRequestCount := 0;
    }
  }

  /** Offsets below the capacity name different slots, wherever the ring starts. */
  lemma SlotsDiffer(head: nat, j: nat, k: nat)
    requires head < QUEUE_SIZE && j <= k < QUEUE_SIZE
    ensures (head + j) % QUEUE_SIZE == (head + k) % QUEUE_SIZE <==> j == k
  {
  }
}
