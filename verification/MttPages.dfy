/** Translating a virtually contiguous range, cut into DMA segments, to its list of 4 KiB pages. */
module MttPages {
  import opened DmaSegments

  const PAGE: nat := 4096
  const UINT64: nat := 0x1_0000_0000_0000_0000
  const MAX_MR_SEGMENTS: nat := 480

  function PageOf(address: nat): nat {
    address / PAGE * PAGE
  }

  /** mlxMttPageCount on 64-bit arithmetic; 0 when the range is empty or would wrap. */
  function MttPageCount(start: nat, length: nat): nat {
    var pageOffset := start % PAGE;
    if length == 0 || length > UINT64 - 1 - start || length > UINT64 - 1 - pageOffset then 0
    else
      var span := pageOffset + length;
      span / PAGE + (if span % PAGE != 0 then 1 else 0)
  }

  /** The ascending run of n pages that starts with the page of an address. */
  function PageRun(start: nat, n: nat): seq<nat> {
    seq(n, k => PageOf(start) + k * PAGE)
  }

  /** How many pages a range touches. */
  function Touched(start: nat, length: nat): nat
    requires length > 0
  {
    (start + length - 1) / PAGE - start / PAGE + 1
  }

  /** Adding a page unless it is the one added last. */
  function Push(pages: seq<nat>, page: nat): seq<nat> {
    if pages != [] && pages[|pages| - 1] == page then pages else pages + [page]
  }

  /** The pages of one segment, pushed in order. */
  function Append(pages: seq<nat>, start: nat, length: nat): seq<nat>
    decreases length
  {
    if length == 0 then pages
    else
      var step := if PAGE - start % PAGE < length then PAGE - start % PAGE else length;
      Append(Push(pages, PageOf(start)), start + step, length - step)
  }

  /** mlxAppendMttPages: the list grows by the segment's pages, or until it is full. */
  method AppendMttPages(dmaAddress: nat, segLength: nat, pages: array<nat>, capacity: nat, pageCount: nat)
    returns (ok: bool, count: nat)
    requires dmaAddress < UINT64 && segLength < UINT64
    requires pageCount <= capacity <= pages.Length
    modifies pages
    ensures pageCount <= count <= capacity && pages[..pageCount] == old(pages[..pageCount])
    ensures ok <==> segLength > 0 && segLength <= UINT64 - 1 - dmaAddress
                    && |Append(old(pages[..pageCount]), dmaAddress, segLength)| <= capacity
    ensures ok ==> pages[..count] == Append(old(pages[..pageCount]), dmaAddress, segLength)
    ensures !ok ==> pages[..count] <= Append(old(pages[..pageCount]), dmaAddress, segLength)
    ensures !ok && segLength > 0 && segLength <= UINT64 - 1 - dmaAddress ==> count == capacity
  {
    count := pageCount;
    if segLength == 0 || segLength > UINT64 - 1 - dmaAddress {
      AppendExtends(pages[..count], dmaAddress, segLength);
      return false, count;
    }
    var address: nat, length: nat := dmaAddress, segLength;
    ghost var all := Append(pages[..pageCount], dmaAddress, segLength);
    while length > 0
      invariant pageCount <= count <= capacity && pages[..pageCount] == old(pages[..pageCount])
      invariant Append(pages[..count], address, length) == all
      decreases length
    {
      var step := Step(address, length);
      AppendExtends(Push(pages[..count], PageOf(address)), address + step, length - step);
      ok, count := PushPage(pages, capacity, count, PageOf(address), pageCount);
      if !ok {
        return false, count;
      }
      address, length := address + step, length - step;
    }
    ok := true;
  }

  /** Adds a page that is not the last one already; fails only if there is no room for it. */
  method PushPage(pages: array<nat>, capacity: nat, count: nat, page: nat, ghost kept: nat) returns (ok: bool, n: nat)
    requires kept <= count <= capacity <= pages.Length
    modifies pages
    ensures pages[..kept] == old(pages[..kept])
    ensures ok ==> count <= n <= capacity && pages[..n] == Push(old(pages[..count]), page)
    ensures !ok ==> n == count == capacity && pages[..n] == old(pages[..count])
                    && Push(pages[..n], page) == pages[..n] + [page]
  {
    n := count;
    if n == 0 || pages[n - 1] != page {
      if n >= capacity {
        return false, n;
      }
      pages[n] := page;
      n := n + 1;
      assert pages[..n] == old(pages[..count]) + [page];
    }
    ok := true;
  }

  function Step(start: nat, length: nat): nat {
    if PAGE - start % PAGE < length then PAGE - start % PAGE else length
  }

  lemma {:induction false} AppendExtends(pages: seq<nat>, start: nat, length: nat)
    ensures pages <= Append(pages, start, length)
    decreases length
  {
    if length > 0 {
      var step := Step(start, length);
      AppendExtends(Push(pages, PageOf(start)), start + step, length - step);
    }
  }

  /** One segment, whatever its alignment: each page it touches once, ascending; only the first
      may coincide with the last page already listed. */
  lemma {:induction false} AppendIsRun(pages: seq<nat>, start: nat, length: nat)
    requires length > 0
    ensures Append(pages, start, length) ==
            Push(pages, PageOf(start)) + PageRun(start, Touched(start, length))[1..]
    decreases length
  {
    var step := Step(start, length);
    var pushed := Push(pages, PageOf(start));
    if step < length {
      NextPage(start, length);
      AppendIsRun(pushed, start + step, length - step);
      assert Push(pushed, PageOf(start + step)) == pushed + [PageOf(start) + PAGE];
      var rest := PageRun(start + step, Touched(start + step, length - step));
      assert PageRun(start, Touched(start, length))[1..] == rest;
      assert rest == [PageOf(start) + PAGE] + rest[1..];
      assert (pushed + [PageOf(start) + PAGE]) + rest[1..] == pushed + ([PageOf(start) + PAGE] + rest[1..]);
    } else {
      WithinPage(start, length);
      assert Append(pushed, start + step, 0) == pushed;
    }
  }

  lemma NextPage(start: nat, length: nat)
    requires Step(start, length) < length
    ensures PageOf(start + Step(start, length)) == PageOf(start) + PAGE
    ensures Touched(start, length) == Touched(start + Step(start, length), length - Step(start, length)) + 1
  {
  }

  lemma WithinPage(start: nat, length: nat)
    requires length > 0 && Step(start, length) == length
    ensures Touched(start, length) == 1
  {
  }

  /** On an empty list: exactly the ascending run of pages that cover the segment, as many as the
      closed form says. */
  lemma AppendToEmpty(start: nat, length: nat)
    requires 0 < length && start + length < UINT64
    ensures Append([], start, length) == PageRun(start, MttPageCount(start, length))
    ensures MttPageCount(start, length) == Touched(start, length)
    ensures forall a :: start <= a < start + length ==>
              PageOf(a) in PageRun(start, MttPageCount(start, length))
  {
    AppendIsRun([], start, length);
    ClosedForm(start, length);
    var run := PageRun(start, Touched(start, length));
    assert [PageOf(start)] + run[1..] == run;
    forall a | start <= a < start + length ensures PageOf(a) in run {
      var k := a / PAGE - start / PAGE;
      SamePage(start, a, length);
      assert run[k] == PageOf(a);
    }
  }

  lemma SamePage(start: nat, a: nat, length: nat)
    requires start <= a < start + length
    ensures start / PAGE <= a / PAGE && a / PAGE - start / PAGE < Touched(start, length)
  {
  }

  lemma ClosedForm(start: nat, length: nat)
    requires 0 < length && start + length < UINT64
    ensures MttPageCount(start, length) == Touched(start, length) == (start + length - 1) / 4096 - start / 4096 + 1
  {
  }

  // Page tables

  /** The device address of a virtual address, for a table of page addresses. */
  function Phys(f: nat -> nat, v: nat): nat {
    f(v / PAGE) + v % PAGE
  }

  ghost predicate PageTable(f: nat -> nat) {
    forall p :: f(p) % PAGE == 0
  }

  /** A segment maps length bytes from virtual address v on as the table says. */
  ghost predicate Maps(f: nat -> nat, s: Segment, v: nat) {
    forall k :: 0 <= k < s.length ==> ByteMapped(f, s.address, v, k)
  }

  ghost predicate ByteMapped(f: nat -> nat, address: nat, v: nat, k: nat) {
    address + k == Phys(f, v + k)
  }

  /** The pages of the first n virtual pages from p on, without adjacent repetitions. */
  ghost function Deduped(f: nat -> nat, p: nat, n: nat): seq<nat> {
    if n == 0 then [] else Push(Deduped(f, p, n - 1), f(p + n - 1))
  }

  ghost predicate NoAdjacentEqual(f: nat -> nat, p: nat, n: nat) {
    forall k :: 0 < k < n ==> !Repeats(f, p, k)
  }

  /** Two neighbouring virtual pages on one device page. */
  predicate Repeats(f: nat -> nat, p: nat, k: nat)
    requires k > 0
  {
    f(p + k - 1) == f(p + k)
  }

  /** De-duplication can only shorten the list, and it does exactly when neighbouring virtual
      pages share a device page. */
  lemma {:induction false} DedupedLength(f: nat -> nat, p: nat, n: nat)
    ensures |Deduped(f, p, n)| <= n && (n > 0 ==> Deduped(f, p, n) != [])
    ensures n > 0 ==> Deduped(f, p, n)[|Deduped(f, p, n)| - 1] == f(p + n - 1)
    ensures |Deduped(f, p, n)| == n <==> NoAdjacentEqual(f, p, n)
    ensures |Deduped(f, p, n)| == n ==> Deduped(f, p, n) == seq(n, k requires 0 <= k => f(p + k))
  {
    if n > 0 {
      DedupedLength(f, p, n - 1);
      if n > 1 { assert !Repeats(f, p, n - 1) <==> f(p + n - 2) != f(p + n - 1); }
      assert NoAdjacentEqual(f, p, n) <==> NoAdjacentEqual(f, p, n - 1) && (n > 1 ==> !Repeats(f, p, n - 1));
    }
  }

  lemma {:induction false} DedupedGrows(f: nat -> nat, p: nat, m: nat, n: nat)
    requires m <= n
    ensures |Deduped(f, p, m)| <= |Deduped(f, p, n)|
  {
    if m < n { DedupedGrows(f, p, m, n - 1); }
  }

  /** How many virtual pages the first n bytes of a range touch. */
  function PagesOf(start: nat, n: nat): nat {
    if n == 0 then 0 else Touched(start, n)
  }

  lemma OneStep(f: nat -> nat, start: nat, n: nat, address: nat, step: nat)
    requires PageTable(f) && 0 < step <= PAGE - (start + n) % PAGE && address == Phys(f, start + n)
    ensures PageOf(address) == f((start + n) / PAGE) && address % PAGE == (start + n) % PAGE
    ensures Push(Deduped(f, start / PAGE, PagesOf(start, n)), PageOf(address)) ==
            Deduped(f, start / PAGE, PagesOf(start, n + step))
  {
    hide Touched;
    var v := start + n;
    AlignedSum(f(v / PAGE), v % PAGE);
    PageCountStep(start, n, step);
    if PagesOf(start, n + step) == PagesOf(start, n) {
      DedupedLength(f, start / PAGE, PagesOf(start, n));
    }
  }

  lemma AlignedSum(page: nat, rest: nat)
    requires page % PAGE == 0 && rest < PAGE
    ensures PageOf(page + rest) == page && (page + rest) % PAGE == rest
  {
  }

  lemma PageCountStep(start: nat, n: nat, step: nat)
    requires 0 < step <= PAGE - (start + n) % PAGE
    ensures start / PAGE + PagesOf(start, n + step) - 1 == (start + n) / PAGE
    ensures PagesOf(start, n + step) == PagesOf(start, n) + 1
            || (n > 0 && PagesOf(start, n + step) == PagesOf(start, n))
  {
    var v := start + n;
    assert (v + step - 1) / PAGE == v / PAGE;
    if n > 0 {
      if v % PAGE == 0 { assert (v - 1) / PAGE == v / PAGE - 1; } else { assert (v - 1) / PAGE == v / PAGE; }
    }
  }

  /** Appending a segment that agrees with the table extends the list to the virtual pages it
      covers. */
  lemma {:induction false} AppendSegment(f: nat -> nat, start: nat, n: nat, s: Segment)
    requires PageTable(f) && Maps(f, s, start + n)
    ensures Append(Deduped(f, start / PAGE, PagesOf(start, n)), s.address, s.length) ==
            Deduped(f, start / PAGE, PagesOf(start, n + s.length))
    decreases s.length
  {
    hide PagesOf, Deduped, Phys;
    if s.length > 0 {
      var step := Step(s.address, s.length);
      assert ByteMapped(f, s.address, start + n, 0);
      OneStep(f, start, n, s.address, 1);
      OneStep(f, start, n, s.address, step);
      var rest := Segment(s.address + step, s.length - step);
      var address, v := rest.address, start + (n + step);
      forall k | 0 <= k < rest.length ensures ByteMapped(f, address, v, k) {
        assert ByteMapped(f, s.address, start + n, step + k);
      }
      assert Maps(f, rest, v);
      AppendSegment(f, start, n + step, rest);
    }
  }
}
