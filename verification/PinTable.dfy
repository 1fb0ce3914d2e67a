/** Pinned user memory: the table of records and the translation of addresses. */
module PinTable {
  import opened Status
  import opened DmaSegments

  const MAX_SEGS: nat := 64

  type Task = nat

  datatype Record = Record(ownerTask: Task, virtAddr: nat, length: nat, segments: seq<Segment>, memDesc: nat)

  /** The device address of every byte of a segment list, in order. */
  function Flat(segments: seq<Segment>): (r: seq<nat>)
    ensures |r| == Total(segments)
  {
    if segments == [] then []
    else seq(segments[0].length, k requires 0 <= k => segments[0].address + k) + Flat(segments[1..])
  }

  predicate Holds(r: Record, task: Task, v: nat) {
    r.ownerTask == task && r.virtAddr <= v < r.virtAddr + r.length
  }

  /** The first record of the owner that contains the address. */
  ghost predicate FirstHolding(records: seq<Record>, task: Task, v: nat, i: nat) {
    && i < |records| && records[i].ownerTask == task
    && records[i].virtAddr <= v < records[i].virtAddr + records[i].length
    && forall j :: 0 <= j < i && records[j].ownerTask == task ==>
         v < records[j].virtAddr || v >= records[j].virtAddr + records[j].length
  }

  /** A pin record is complete: its segments add up to its length. */
  ghost predicate Complete(r: Record) {
    Total(r.segments) == r.length > 0 && |r.segments| <= MAX_SEGS
  }

  function Without(records: seq<Record>, memDesc: nat): seq<Record> {
    if records == [] then []
    else if records[0].memDesc == memDesc then records[1..]
    else [records[0]] + Without(records[1..], memDesc)
  }

  /** A byte of segment s: its place in the concatenation is the lengths before it plus its
      offset within the segment. */
  lemma {:induction false} FlatAt(segments: seq<Segment>, s: nat, k: nat)
    requires s < |segments| && k < segments[s].length
    ensures Total(segments[..s]) + k < Total(segments)
    ensures Flat(segments)[Total(segments[..s]) + k] == segments[s].address + k
  {
    if s > 0 {
      assert segments[..s] == [segments[0]] + segments[1..][..s - 1];
      FlatAt(segments[1..], s - 1, k);
    }
  }

  /** The first record of a descriptor is the one dropped. */
  lemma {:induction false} WithoutAt(records: seq<Record>, i: nat, memDesc: nat)
    requires i <= |records| && forall j :: 0 <= j < i ==> records[j].memDesc != memDesc
    requires i < |records| ==> records[i].memDesc == memDesc
    ensures Without(records, memDesc) == records[..i] + (if i < |records| then records[i + 1..] else [])
  {
    if i > 0 {
      WithoutAt(records[1..], i - 1, memDesc);
      assert records[..i] == [records[0]] + records[1..][..i - 1];
      assert i < |records| ==> records[1..][i..] == records[i + 1..];
    }
  }

  /** Every record is complete, and the descriptors held are all different. */
  ghost predicate Sound(records: seq<Record>) {
    && (forall i :: 0 <= i < |records| ==> Complete(records[i]))
    && (forall i, j :: 0 <= i < j < |records| ==> records[i].memDesc != records[j].memDesc)
  }

  lemma DropKeepsSound(records: seq<Record>, i: nat)
    requires Sound(records) && i < |records|
    ensures Sound(records[..i] + records[i + 1..])
  {
    hide Complete;
    var left := records[..i] + records[i + 1..];
    forall k | 0 <= k < |left| ensures left[k] == records[if k < i then k else k + 1] {
    }
  }

  class Table {
    var fPendingReqs: seq<Record>

    ghost predicate Valid()
      reads this
    {
      Sound(fPendingReqs)
    }

    constructor ()
      ensures Valid() && fPendingReqs == []
    {
      fPendingReqs := [];
    }

    /** Pins a range that the mapper cuts into the given batches of segments; memDesc is the new
        descriptor. Anything but an exact cover of the range leaves the table alone. */
    method PinUserMemory(task: Task, virtAddr: nat, length: nat, memDesc: nat, batches: seq<seq<Segment>>, added: bool)
      returns (kr: Kr)
      requires Valid()
      requires forall i :: 0 <= i < |fPendingReqs| ==> fPendingReqs[i].memDesc != memDesc
      modifies this
      ensures Valid()
      ensures kr.BadArgument? <==> length == 0
      ensures kr.Success? ==>
                exists segments :: CutsExactly(segments, length, batches)
                  && fPendingReqs == old(fPendingReqs) + [Record(task, virtAddr, length, segments, memDesc)]
      ensures !kr.Success? ==> fPendingReqs == old(fPendingReqs)
      ensures length > 0 && Covers(batches, length) ==> kr == if added then Success else NoMemory
      ensures kr.NoMemory? ==> !added
      ensures kr.NoSpace? ==> |Concat(batches)| >= 64
      ensures kr.IOError? ==> StopsShort(batches, length)
      ensures kr.Success? || kr.BadArgument? || kr.NoMemory? || kr.NoSpace? || kr.IOError?
    {
      if length == 0 {
        return BadArgument;
      }
      var segments: seq<Segment> := [];
      var offset := 0;
      var b := 0;
      while offset < length && |segments| < MAX_SEGS && b < |batches| && batches[b] != []
        invariant b <= |batches| && |segments| <= MAX_SEGS && offset == Total(segments)
        invariant |segments| < MAX_SEGS ==> segments == Concat(batches[..b])
        invariant segments <= Concat(batches)
        invariant fPendingReqs == old(fPendingReqs)
        decreases |batches| - b
      {
        segments, offset := TakeBatch(segments, offset, batches, b);
        assert batches[..b + 1][..b] == batches[..b];
        b := b + 1;
      }
      CoverIsComplete(batches, b, segments, length);
      if segments == [] || offset != length {
        return if |segments| == MAX_SEGS then NoSpace else IOError;
      }
      if !added {
        return NoMemory;
      }
      assert CutsExactly(segments, length, batches);
      fPendingReqs := fPendingReqs + [Record(task, virtAddr, length, segments, memDesc)];
      kr := Success;
    }

    /** One batch, cut off when the list is full. */
    method TakeBatch(segments0: seq<Segment>, offset0: nat, batches: seq<seq<Segment>>, b: nat)
      returns (segments: seq<Segment>, offset: nat)
      requires b < |batches| && |segments0| < MAX_SEGS && segments0 == Concat(batches[..b])
      requires offset0 == Total(segments0)
      ensures |segments| <= MAX_SEGS && offset == Total(segments)
      ensures |segments| < MAX_SEGS ==> segments == Concat(batches[..b]) + batches[b]
      ensures segments <= Concat(batches)
    {
      hide Total, Concat;
      segments, offset := segments0, offset0;
      var batch := batches[b];
      var i := 0;
      while i < |batch| && |segments| < MAX_SEGS
        invariant i <= |batch| && |segments| <= MAX_SEGS && offset == Total(segments)
        invariant segments == segments0 + batch[..i]
      {
        assert segments0 + batch[..i + 1] == (segments0 + batch[..i]) + [batch[i]];
        TotalPush(segments, batch[i]);
        segments, offset := segments + [batch[i]], offset + batch[i].length;
        i := i + 1;
      }
      assert i == |batch| ==> batch[..i] == batch;
      ConcatPrefix(batches, b, i);
    }

    /** Drops the record of one descriptor; the others keep their order. */
    method UnpinMemory(memDesc: nat)
      requires Valid()
      modifies this
      ensures Valid() && fPendingReqs == Without(old(fPendingReqs), memDesc)
    {
      var i := 0;
      while i < |fPendingReqs| && fPendingReqs[i].memDesc != memDesc
        invariant i <= |fPendingReqs| && fPendingReqs == old(fPendingReqs)
        invariant forall j :: 0 <= j < i ==> fPendingReqs[j].memDesc != memDesc
      {
        i := i + 1;
      }
      hide Sound;
      WithoutAt(fPendingReqs, i, memDesc);
      if i < |fPendingReqs| {
        DropKeepsSound(fPendingReqs, i);
        fPendingReqs := fPendingReqs[..i] + fPendingReqs[i + 1..];
      } else {
        assert fPendingReqs[..i] + [] == fPendingReqs;
      }
    }

    /** The flat byte map of the first record that contains the address; 0 if none does. */
    method LookupPhys(task: Task, v: nat) returns (phys: nat)
      requires Valid()
      ensures (forall i :: 0 <= i < |fPendingReqs| ==>
                fPendingReqs[i].ownerTask != task || v < fPendingReqs[i].virtAddr
                || v >= fPendingReqs[i].virtAddr + fPendingReqs[i].length) ==> phys == 0
      ensures forall i :: 0 <= i && FirstHolding(fPendingReqs, task, v, i) ==>
                v - fPendingReqs[i].virtAddr < |Flat(fPendingReqs[i].segments)|
                && phys == Flat(fPendingReqs[i].segments)[v - fPendingReqs[i].virtAddr]
    {
      phys := 0;
      var i := 0;
      while i < |fPendingReqs| && !Holds(fPendingReqs[i], task, v)
        invariant i <= |fPendingReqs| && forall j :: 0 <= j < i ==> !Holds(fPendingReqs[j], task, v)
      {
        i := i + 1;
      }
      if i == |fPendingReqs| {
        return;
      }
      phys := Translate(fPendingReqs[i].segments, v - fPendingReqs[i].virtAddr);
    }

    method Translate(segments: seq<Segment>, offset: nat) returns (phys: nat)
      requires offset < Total(segments)
      ensures phys == Flat(segments)[offset]
    {
      var acc := 0;
      var s := 0;
      assert segments[..|segments|] == segments;
      while s < |segments| && offset >= acc + segments[s].length
        invariant s <= |segments| && acc == Total(segments[..s]) <= offset
      {
        assert segments[..s + 1] == segments[..s] + [segments[s]];
        TotalPush(segments[..s], segments[s]);
        acc := acc + segments[s].length;
        s := s + 1;
      }
      FlatAt(segments, s, offset - acc);
      phys := segments[s].address + (offset - acc);
    }
  }

  ghost function Concat(batches: seq<seq<Segment>>): seq<Segment> {
    if batches == [] then [] else Concat(batches[..|batches| - 1]) + batches[|batches| - 1]
  }

  /** The segments are what the mapper hands out first, in its order, and add up to the range. */
  ghost predicate CutsExactly(segments: seq<Segment>, length: nat, batches: seq<seq<Segment>>) {
    segments <= Concat(batches) && Total(segments) == length
  }

  /** The mapper stops, or overshoots, with fewer than 64 segments that do not make up the range. */
  ghost predicate StopsShort(batches: seq<seq<Segment>>, length: nat) {
    exists b :: 0 <= b <= |batches| && |Concat(batches[..b])| < 64 && Total(Concat(batches[..b])) != length
      && (b == |batches| || batches[b] == [] || Total(Concat(batches[..b])) > length)
  }

  /** The mapper cuts the whole range into at most 64 segments, some in every batch. */
  ghost predicate Covers(batches: seq<seq<Segment>>, length: nat) {
    && Total(Concat(batches)) == length && |Concat(batches)| <= MAX_SEGS
    && forall b :: 0 <= b < |batches| ==> batches[b] != []
  }

  lemma CoverIsComplete(batches: seq<seq<Segment>>, b: nat, segments: seq<Segment>, length: nat)
    requires b <= |batches| && segments <= Concat(batches)
    requires |segments| < MAX_SEGS ==> segments == Concat(batches[..b])
    requires Total(segments) >= length || |segments| >= MAX_SEGS || b == |batches| || batches[b] == []
    ensures Covers(batches, length) ==> Total(segments) == length
  {
    if Covers(batches, length) {
      PrefixTotal(segments, Concat(batches));
      assert batches[..|batches|] == batches;
      assert |segments| == |Concat(batches)| ==> segments == Concat(batches);
    }
  }

  lemma {:induction false} ConcatPrefix(batches: seq<seq<Segment>>, b: nat, i: nat)
    requires b < |batches| && i <= |batches[b]|
    ensures Concat(batches[..b]) + batches[b][..i] <= Concat(batches)
    decreases |batches|
  {
    var init := batches[..|batches| - 1];
    if b < |batches| - 1 {
      ConcatPrefix(init, b, i);
      assert init[..b] == batches[..b];
    }
  }

  /** Unpinning a descriptor removes its record and nothing else, so the addresses of every other
      record still translate as before. */
  lemma {:induction false} WithoutKeepsOthers(records: seq<Record>, memDesc: nat, r: Record)
    requires forall i, j :: 0 <= i < j < |records| ==> records[i].memDesc != records[j].memDesc
    ensures r in Without(records, memDesc) <==> r in records && r.memDesc != memDesc
  {
    if records != [] {
      assert records == [records[0]] + records[1..];
      if records[0].memDesc != memDesc {
        WithoutKeepsOthers(records[1..], memDesc, r);
      } else {
        assert forall i :: 0 < i < |records| ==> records[i].memDesc != memDesc;
      }
    }
  }
}
