/** Building the page list of a memory region from DMA segments handed out in batches. */
module MemoryRegion {
  import opened Status
  import opened DmaSegments
  import opened MttPages

  /** One answer of the DMA mapper: at most eight segments, the next of the range. */
  datatype Batch = Batch(kr: Kr, segments: seq<Segment>)

  const BATCH: nat := 8

  /** The segments map the range from virtual address v on, one after another. */
  ghost predicate MapsAll(f: nat -> nat, segments: seq<Segment>, v: nat)
    decreases |segments|
  {
    segments != [] ==> Maps(f, segments[0], v) && MapsAll(f, segments[1..], v + segments[0].length)
  }

  /** The mapper's answers agree with the table up to its first failure, and never leave the
      range. */
  ghost predicate Agrees(f: nat -> nat, batches: seq<Batch>, v: nat, left: nat)
    decreases |batches|
  {
    batches != [] && batches[0].kr.Success? && batches[0].segments != [] ==>
      && |batches[0].segments| <= BATCH && Total(batches[0].segments) <= left
      && MapsAll(f, batches[0].segments, v)
      && Agrees(f, batches[1..], v + Total(batches[0].segments), left - Total(batches[0].segments))
  }

  predicate GoodSegment(s: Segment) {
    s.length > 0 && s.address + s.length < UINT64
  }

  predicate AllGood(segments: seq<Segment>) {
    forall k :: 0 <= k < |segments| ==> GoodSegment(segments[k])
  }

  /** The mapper never fails, hands out no empty or wrapping segment, and covers the range. */
  ghost predicate Covers(batches: seq<Batch>, left: nat)
    decreases |batches|
  {
    left > 0 ==>
      && batches != [] && batches[0].kr.Success? && batches[0].segments != []
      && AllGood(batches[0].segments) && Total(batches[0].segments) <= left
      && Covers(batches[1..], left - Total(batches[0].segments))
  }

  /** The list so far: the de-duplicated pages of the first n bytes. */
  ghost function ListOf(f: nat -> nat, start: nat, n: nat): seq<nat> {
    Deduped(f, start / PAGE, PagesOf(start, n))
  }

  /** One batch. It stops early at a segment that does not fit, and silently when the list is
      full. */
  method ProcessBatch(ghost f: nat -> nat, start: nat, segments: seq<Segment>, paList: array<nat>, n0: nat, offset: nat)
    returns (kr: Kr, n: nat, ghost covered: nat)
    requires PageTable(f) && MapsAll(f, segments, start + offset)
    requires paList.Length == MAX_MR_SEGMENTS && n0 < MAX_MR_SEGMENTS
    requires forall k :: 0 <= k < |segments| ==> segments[k].address < UINT64 && segments[k].length < UINT64
    requires paList[..n0] == ListOf(f, start, offset)
    modifies paList
    ensures n <= MAX_MR_SEGMENTS
    ensures kr.Success? ==> paList[..n] == ListOf(f, start, covered)
    ensures offset <= covered <= offset + Total(segments)
    ensures kr.Success? && n < MAX_MR_SEGMENTS ==> covered == offset + Total(segments)
    ensures AllGood(segments) && |ListOf(f, start, offset + Total(segments))| <= MAX_MR_SEGMENTS ==> kr.Success?
  {
    hide ListOf, Maps, Append;
    n, kr := n0, Success;
    var batchOffset := offset;
    covered := batchOffset;
    var i := 0;
    TotalSplits(segments, 0);
    while i < |segments| && n < MAX_MR_SEGMENTS
      invariant i <= |segments| && n <= MAX_MR_SEGMENTS
      invariant MapsAll(f, segments[i..], start + covered)
      invariant batchOffset == covered && offset <= covered && covered + Total(segments[i..]) == offset + Total(segments)
      invariant paList[..n] == ListOf(f, start, covered)
    {
      var s := segments[i];
      assert segments[i..][1..] == segments[i + 1..];
      Aligned(f, s, start + covered);
      if s.address % PAGE != (start + batchOffset) % PAGE {
        return Unsupported, n, covered;
      }
      NextSegment(f, start, covered, s);
      FitsInTheEnd(f, start, covered + s.length, offset + Total(segments));
      var ok, count := AppendMttPages(s.address, s.length, paList, MAX_MR_SEGMENTS, n);
      if !ok {
        assert !GoodSegment(segments[i]) || |ListOf(f, start, covered + s.length)| > MAX_MR_SEGMENTS;
        return NoSpace, count, covered;
      }
      n, batchOffset, covered := count, batchOffset + s.length, covered + s.length;
      i := i + 1;
    }
    TotalSplits(segments, i);
  }

  lemma TotalSplits(segments: seq<Segment>, i: nat)
    requires i <= |segments|
    ensures Total(segments[i..]) <= Total(segments) && (i == |segments| ==> Total(segments[i..]) == 0)
    ensures segments[0..] == segments
  {
    assert segments == segments[..i] + segments[i..];
    TotalAppend(segments[..i], segments[i..]);
  }

  /** The driver's alignment test never rejects a segment that agrees with the table. */
  lemma Aligned(f: nat -> nat, s: Segment, v: nat)
    requires PageTable(f) && Maps(f, s, v)
    ensures s.length > 0 ==> s.address % PAGE == v % PAGE
  {
    if s.length > 0 {
      assert ByteMapped(f, s.address, v, 0);
      AlignedSum(f(v / PAGE), v % PAGE);
    }
  }

  lemma NextSegment(f: nat -> nat, start: nat, covered: nat, s: Segment)
    requires PageTable(f) && Maps(f, s, start + covered)
    ensures Append(ListOf(f, start, covered), s.address, s.length) == ListOf(f, start, covered + s.length)
  {
    AppendSegment(f, start, covered, s);
  }

  lemma FitsInTheEnd(f: nat -> nat, start: nat, m: nat, n: nat)
    ensures m <= n ==> |ListOf(f, start, m)| <= |ListOf(f, start, n)|
  {
    if m <= n {
      MorePages(start, m, n);
      DedupedGrows(f, start / PAGE, PagesOf(start, m), PagesOf(start, n));
    }
  }

  lemma MorePages(start: nat, m: nat, n: nat)
    requires m <= n
    ensures PagesOf(start, m) <= PagesOf(start, n)
  {
  }

  ghost predicate Wide(batches: seq<Batch>) {
    forall b :: 0 <= b < |batches| ==> WideSegments(batches[b].segments)
  }

  /** Addresses and lengths are 64-bit. */
  ghost predicate WideSegments(segments: seq<Segment>) {
    forall k :: 0 <= k < |segments| ==> segments[k].address < UINT64 && segments[k].length < UINT64
  }

  /** The mapper covers the range and the range has at most 480 pages. */
  ghost predicate Favourable(batches: seq<Batch>, start: nat, length: nat) {
    0 < length && start + length < UINT64 && MttPageCount(start, length) <= MAX_MR_SEGMENTS
    && Covers(batches, length)
  }

  /** No batch but the last reaches the 480th page: the loop asks for no further batch once the
      list is full. */
  ghost predicate NeverFullEarly(batches: seq<Batch>, start: nat, offset: nat, length: nat)
    decreases |batches|
  {
    offset < length && batches != [] ==>
      && PagesOf(start, offset) < MAX_MR_SEGMENTS
      && NeverFullEarly(batches[1..], start, offset + Total(batches[0].segments), length)
  }

  /** Below the cap that cannot happen. */
  lemma {:induction false} BelowCapIsNeverFull(batches: seq<Batch>, start: nat, offset: nat, length: nat)
    requires PagesOf(start, length) < MAX_MR_SEGMENTS
    ensures NeverFullEarly(batches, start, offset, length)
    decreases |batches|
  {
    if offset < length && batches != [] {
      MorePages(start, offset, length);
      BelowCapIsNeverFull(batches[1..], start, offset + Total(batches[0].segments), length);
    }
  }

  /** The range can be translated at all: no two neighbouring virtual pages share a device page,
      and the last page does not wait for a batch of its own after the list is full. */
  ghost predicate Translatable(f: nat -> nat, batches: seq<Batch>, start: nat, length: nat) {
    && NoAdjacentEqual(f, start / PAGE, MttPageCount(start, length))
    && NeverFullEarly(batches, start, 0, length)
  }

  /** buildPBL, for a mapper that hands out the given batches. Success means the list is exactly
      the table applied to each virtual page in order. For every range of at most 480 pages that
      the mapper covers, it succeeds exactly when the range is translatable, and the error tells
      which of the two conditions failed. */
  method BuildPbl(ghost f: nat -> nat, startAddr: nat, length: nat, batches: seq<Batch>, paList: array<nat>)
    returns (kr: Kr, numSegs: nat)
    requires startAddr < UINT64 && length < UINT64 && paList.Length == MAX_MR_SEGMENTS
    requires PageTable(f) && Agrees(f, batches, startAddr, length) && Wide(batches)
    modifies paList
    ensures kr.BadArgument? <==> length == 0
    ensures kr.Success? ==> numSegs == MttPageCount(startAddr, length) <= MAX_MR_SEGMENTS
    ensures kr.Success? ==> forall k :: 0 <= k < numSegs ==> paList[k] == f(startAddr / PAGE + k)
    ensures Favourable(batches, startAddr, length) ==> (kr.Success? <==> Translatable(f, batches, startAddr, length))
    ensures Favourable(batches, startAddr, length) && !kr.Success? ==>
              (kr.NoSpace? <==> NoAdjacentEqual(f, startAddr / PAGE, MttPageCount(startAddr, length)))
    ensures MttPageCount(startAddr, length) > MAX_MR_SEGMENTS ==> kr.NoSpace?
    ensures kr.Success? || kr.BadArgument? || kr.NoSpace? || kr.IOError?
  {
    hide Favourable, ListOf, NoAdjacentEqual, PagesOf;
    FavourableStart(batches, startAddr, length);
    if length == 0 {
      return BadArgument, 0;
    }
    numSegs := 0;
    var offset: nat, n: nat := 0, 0;
    ghost var covered: nat := 0;
    kr := Success;
    var b := 0;
    NothingListed(f, startAddr);
    FavourableEnd(f, batches, startAddr, length);
    assert batches[0..] == batches;
    while offset < length && n < MAX_MR_SEGMENTS && kr.Success?
      invariant b <= |batches| && offset <= length && n <= MAX_MR_SEGMENTS
      invariant kr.Success? ==> paList[..n] == ListOf(f, startAddr, covered)
      invariant covered <= offset && (kr.Success? && n < MAX_MR_SEGMENTS ==> covered == offset)
      invariant kr.Success? ==> Agrees(f, batches[b..], startAddr + offset, length - offset)
      invariant Favourable(batches, startAddr, length) ==> kr.Success? && Covers(batches[b..], length - offset)
      invariant Favourable(batches, startAddr, length) && Plain(f, startAddr, length) ==>
                  (NeverFullEarly(batches, startAddr, 0, length)
                   <==> NeverFullEarly(batches[b..], startAddr, offset, length))
      decreases |batches| - b
    {
      if b == |batches| || !batches[b].kr.Success? || batches[b].segments == [] {
        FavourableHasMore(batches[b..], length - offset);
        kr := if b < |batches| then batches[b].kr else Success;
        break;
      }
      var segments := batches[b].segments;
      assert batches[b..][1..] == batches[b + 1..];
      assert WideSegments(segments);
      WithinCap(f, batches, startAddr, length, offset + Total(segments));
      PlainLength(f, startAddr, length, covered);
      kr, n, covered := ProcessBatch(f, startAddr, segments, paList, n, offset);
      offset := offset + Total(segments);
      b := b + 1;
    }
    var expectedPages := MttPageCount(startAddr, length);
    PlainLength(f, startAddr, length, covered);
    FitsInTheEnd(f, startAddr, covered, length);
    PagesToTheEnd(startAddr, covered, offset, length);
    if offset < length && b < |batches| {
      FullStops(batches[b..], startAddr, offset, length);
    }
    if !kr.Success? || offset != length || n != expectedPages {
      return if n >= MAX_MR_SEGMENTS || expectedPages > MAX_MR_SEGMENTS then NoSpace else IOError, 0;
    }
    numSegs := n;
    if n == 0 {
      return IOError, 0;
    }
    WholeList(f, startAddr, length, covered, paList[..n]);
  }

  lemma NothingListed(f: nat -> nat, start: nat)
    ensures ListOf(f, start, 0) == []
  {
  }

  lemma FavourableStart(batches: seq<Batch>, start: nat, length: nat)
    ensures Favourable(batches, start, length) ==> length > 0 && Covers(batches, length)
  {
  }

  lemma FavourableHasMore(batches: seq<Batch>, left: nat)
    requires left > 0
    ensures Covers(batches, left) ==> batches != [] && batches[0].kr.Success? && batches[0].segments != []
  {
  }

  lemma ExpectedIsPages(start: nat, length: nat)
    requires 0 < length && start < UINT64
    ensures MttPageCount(start, length) > 0 <==> start + length < UINT64
    ensures start + length < UINT64 ==> MttPageCount(start, length) == PagesOf(start, length)
  {
    if start + length < UINT64 { ClosedForm(start, length); }
  }

  lemma WithinCap(f: nat -> nat, batches: seq<Batch>, start: nat, length: nat, n: nat)
    requires 0 < length && start < UINT64
    ensures Favourable(batches, start, length) && n <= length ==> |ListOf(f, start, n)| <= MAX_MR_SEGMENTS
  {
    ExpectedIsPages(start, length);
    FitsInTheEnd(f, start, n, length);
    DedupedLength(f, start / PAGE, PagesOf(start, length));
  }

  /** No neighbouring pages of the range coincide. */
  ghost predicate Plain(f: nat -> nat, start: nat, length: nat) {
    NoAdjacentEqual(f, start / PAGE, MttPageCount(start, length))
  }

  /** Then the list is as long as the pages covered. */
  lemma PlainLength(f: nat -> nat, start: nat, length: nat, n: nat)
    requires 0 < length && start < UINT64 && n <= length
    ensures start + length < UINT64 && Plain(f, start, length) ==> |ListOf(f, start, n)| == PagesOf(start, n)
  {
    ExpectedIsPages(start, length);
    MorePages(start, n, length);
    DedupedLength(f, start / PAGE, PagesOf(start, n));
  }

  lemma PagesToTheEnd(start: nat, covered: nat, offset: nat, length: nat)
    requires covered <= offset <= length
    ensures PagesOf(start, covered) <= PagesOf(start, offset) <= PagesOf(start, length)
  {
    MorePages(start, covered, offset);
    MorePages(start, offset, length);
  }

  lemma FullStops(batches: seq<Batch>, start: nat, offset: nat, length: nat)
    requires offset < length && batches != []
    ensures PagesOf(start, offset) >= MAX_MR_SEGMENTS ==> !NeverFullEarly(batches, start, offset, length)
  {
  }

  lemma FavourableEnd(f: nat -> nat, batches: seq<Batch>, start: nat, length: nat)
    requires 0 < length && start < UINT64
    ensures Favourable(batches, start, length) ==>
              0 < MttPageCount(start, length) <= MAX_MR_SEGMENTS && start + length < UINT64
              && MttPageCount(start, length) == PagesOf(start, length)
    ensures Favourable(batches, start, length) ==>
              (|ListOf(f, start, length)| == MttPageCount(start, length) <==> Plain(f, start, length))
              && |ListOf(f, start, length)| <= MttPageCount(start, length)
  {
    ExpectedIsPages(start, length);
    DedupedLength(f, start / PAGE, PagesOf(start, length));
  }

  /** A list of the expected length is the whole translation, even if the loop stopped early
      because it was full. */
  lemma WholeList(f: nat -> nat, start: nat, length: nat, covered: nat, list: seq<nat>)
    requires 0 < length && start < UINT64 && covered <= length
    requires list == ListOf(f, start, covered) && |list| == MttPageCount(start, length) > 0
    ensures forall k :: 0 <= k < |list| ==> list[k] == f(start / PAGE + k)
    ensures NoAdjacentEqual(f, start / PAGE, |list|)
  {
    ExpectedIsPages(start, length);
    MorePages(start, covered, length);
    DedupedLength(f, start / PAGE, PagesOf(start, covered));
  }

  // Ranges that the mapper covers and buildPBL rejects

  const HALF: nat := 2048

  /** 480 pages mapped one to one, the second half of the last page in a batch of its own. */
  function LateHalf(): seq<Batch> {
    [Batch(Success, [Segment(0, 480 * PAGE - HALF)]), Batch(Success, [Segment(480 * PAGE - HALF, HALF)])]
  }

  /** Two virtual pages on the device page at address 0. */
  function SamePageTwice(): seq<Batch> {
    [Batch(Success, [Segment(0, PAGE)]), Batch(Success, [Segment(0, PAGE)])]
  }

  /** A mapper that hands out two segments in two batches. */
  lemma TwoBatches(f: nat -> nat, a: Segment, b: Segment)
    requires Maps(f, a, 0) && Maps(f, b, a.length) && GoodSegment(a) && GoodSegment(b)
    requires 0 < a.length + b.length < UINT64 && MttPageCount(0, a.length + b.length) <= MAX_MR_SEGMENTS
    ensures var batches := [Batch(Success, [a]), Batch(Success, [b])];
            && Agrees(f, batches, 0, a.length + b.length) && Wide(batches)
            && Favourable(batches, 0, a.length + b.length)
            && (NeverFullEarly(batches, 0, 0, a.length + b.length) <==> PagesOf(0, a.length) < MAX_MR_SEGMENTS)
  {
    hide Maps, MttPageCount, PagesOf;
    var batches := [Batch(Success, [a]), Batch(Success, [b])];
    var length := a.length + b.length;
    assert batches[1..] == [Batch(Success, [b])] && batches[1..][1..] == [];
    assert [a][1..] == [] && [b][1..] == [];
    assert Total([a]) == a.length && Total([b]) == b.length;
    assert MapsAll(f, [a], 0) && MapsAll(f, [b], a.length);
    assert Agrees(f, batches[1..], a.length, b.length);
    assert Covers(batches[1..], b.length);
    NothingTouched();
    assert NeverFullEarly(batches[1..], 0, a.length, length) <==> PagesOf(0, a.length) < MAX_MR_SEGMENTS;
  }

  lemma NothingTouched()
    ensures PagesOf(0, 0) == 0
  {
  }

  /** Both causes, each on a range that the mapper covers. */
  method RejectedRanges() returns (late: Kr, repeated: Kr)
    ensures late.NoSpace? && repeated.IOError?
  {
    var paList := new nat[MAX_MR_SEGMENTS];
    ghost var identity := (p: nat) => p * PAGE;
    LateHalfMaps(identity);
    TwoBatches(identity, Segment(0, 480 * PAGE - HALF), Segment(480 * PAGE - HALF, HALF));
    var n;
    late, n := BuildPbl(identity, 0, 480 * PAGE, LateHalf(), paList);
    ghost var zero := (p: nat) => 0;
    SamePageMaps(zero);
    TwoBatches(zero, Segment(0, PAGE), Segment(0, PAGE));
    repeated, n := BuildPbl(zero, 0, 2 * PAGE, SamePageTwice(), paList);
  }

  lemma LateHalfMaps(f: nat -> nat)
    requires forall p: nat :: f(p) == p * PAGE
    ensures PageTable(f) && Maps(f, Segment(0, 480 * PAGE - HALF), 0)
    ensures Maps(f, Segment(480 * PAGE - HALF, HALF), 480 * PAGE - HALF)
    ensures MttPageCount(0, 480 * PAGE) == MAX_MR_SEGMENTS == PagesOf(0, 480 * PAGE - HALF)
    ensures NoAdjacentEqual(f, 0, MAX_MR_SEGMENTS)
  {
  }

  lemma SamePageMaps(f: nat -> nat)
    requires forall p: nat :: f(p) == 0
    ensures PageTable(f) && Maps(f, Segment(0, PAGE), 0) && Maps(f, Segment(0, PAGE), PAGE)
    ensures MttPageCount(0, 2 * PAGE) == 2 && !NoAdjacentEqual(f, 0, 2)
  {
    assert Repeats(f, 0, 1);
  }
}
