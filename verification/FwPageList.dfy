/** The list of pages lent to firmware, as a value, and the laws of the edits made to it. */
module FwPageList {
  import opened PageRequests

  const PAGE_SIZE := 4096

  datatype Ownership = HostPrepared | GivePending | FirmwareOwned | Returned | Ambiguous

  datatype Phase = Boot | Init | Runtime

  /** A tracked page. Its DMA address stands for the pointer that identifies it in the driver. */
  datatype FwPage = FwPage(dmaAddress: nat, owner: Function, phase: Phase, ownership: Ownership)

  /** No two mapped pages share a DMA address. */
  ghost predicate Distinct(pages: seq<FwPage>) {
    forall i, j :: 0 <= i < j < |pages| ==> pages[i].dmaAddress != pages[j].dmaAddress
  }

  ghost function Addresses(pages: seq<FwPage>): set<nat> {
    set p | p in pages :: p.dmaAddress
  }

  predicate PageAligned(a: nat) {
    a != 0 && a % PAGE_SIZE == 0
  }

  ghost predicate Aligned(pages: seq<FwPage>) {
    forall a :: a in Addresses(pages) ==> PageAligned(a)
  }

  lemma AddressesAppend(a: seq<FwPage>, b: seq<FwPage>)
    ensures Addresses(a + b) == Addresses(a) + Addresses(b)
  {
    forall x ensures x in Addresses(a + b) <==> x in Addresses(a) + Addresses(b) {
      if x in Addresses(a) {
        var p :| p in a && p.dmaAddress == x;
        assert p in a + b;
      }
      if x in Addresses(b) {
        var p :| p in b && p.dmaAddress == x;
        assert p in a + b;
      }
    }
  }

  /** The pages whose addresses are outside s, in their order. */
  ghost function Drop(pages: seq<FwPage>, s: set<nat>): seq<FwPage> {
    if pages == [] then []
    else if pages[0].dmaAddress in s then Drop(pages[1..], s)
    else [pages[0]] + Drop(pages[1..], s)
  }

  /** The pages with every address in s moved to ownership o. */
  function WithOwnership(pages: seq<FwPage>, s: set<nat>, o: Ownership): (r: seq<FwPage>) {
    seq(|pages|, i requires 0 <= i < |pages| =>
      if pages[i].dmaAddress in s then pages[i].(ownership := o) else pages[i])
  }

  predicate OwnedBy(p: FwPage, f: Function) {
    p.owner == f && p.ownership.FirmwareOwned?
  }

  /** The pages after every page that firmware owns for f became ambiguous. */
  ghost function Doubted(pages: seq<FwPage>, f: Function): seq<FwPage> {
    seq(|pages|, i requires 0 <= i < |pages| =>
      if OwnedBy(pages[i], f) then pages[i].(ownership := Ambiguous) else pages[i])
  }

  /** The pages that are not owned by firmware for f, in their order. */
  ghost function WithoutOwned(pages: seq<FwPage>, f: Function): seq<FwPage> {
    if pages == [] then []
    else if OwnedBy(pages[0], f) then WithoutOwned(pages[1..], f)
    else [pages[0]] + WithoutOwned(pages[1..], f)
  }

  /** How many pages firmware owns for f. */
  ghost function OwnedCount(pages: seq<FwPage>, f: Function): nat {
    if pages == [] then 0
    else (if OwnedBy(pages[0], f) then 1 else 0) + OwnedCount(pages[1..], f)
  }

  lemma {:induction false} DropNone(pages: seq<FwPage>, s: set<nat>)
    requires forall p :: p in pages ==> p.dmaAddress !in s
    ensures Drop(pages, s) == pages
  {
    if pages != [] {
      DropNone(pages[1..], s);
    }
  }

  lemma {:induction false} DropMember(pages: seq<FwPage>, s: set<nat>, p: FwPage)
    ensures p in Drop(pages, s) <==> p in pages && p.dmaAddress !in s
  {
    if pages != [] {
      DropMember(pages[1..], s, p);
    }
  }

  lemma AddressesDrop(pages: seq<FwPage>, s: set<nat>)
    ensures Addresses(Drop(pages, s)) == Addresses(pages) - s
  {
    forall x ensures x in Addresses(Drop(pages, s)) <==> x in Addresses(pages) - s {
      if x in Addresses(Drop(pages, s)) {
        var p :| p in Drop(pages, s) && p.dmaAddress == x;
        DropMember(pages, s, p);
      }
      if x in Addresses(pages) - s {
        var p :| p in pages && p.dmaAddress == x;
        DropMember(pages, s, p);
      }
    }
  }

  /** Dropping one listed page removes exactly its position. */
  lemma {:induction false} DropOne(pages: seq<FwPage>, i: nat)
    requires Distinct(pages) && i < |pages|
    ensures Drop(pages, {pages[i].dmaAddress}) == pages[..i] + pages[i + 1..]
  {
    if i == 0 {
      DropNone(pages[1..], {pages[0].dmaAddress});
    } else {
      DropOne(pages[1..], i - 1);
      assert pages[..i] == [pages[0]] + pages[1..][..i - 1];
      assert pages[i + 1..] == pages[1..][i..];
    }
  }

  lemma {:induction false} DropDrop(pages: seq<FwPage>, s: set<nat>, t: set<nat>)
    ensures Drop(Drop(pages, s), t) == Drop(pages, s + t)
  {
    if pages != [] {
      DropDrop(pages[1..], s, t);
    }
  }

  lemma {:induction false} DropKeepsDistinct(pages: seq<FwPage>, s: set<nat>)
    requires Distinct(pages)
    ensures Distinct(Drop(pages, s))
  {
    if pages != [] {
      DropKeepsDistinct(pages[1..], s);
      forall p | p in Drop(pages[1..], s) ensures p.dmaAddress != pages[0].dmaAddress {
        DropMember(pages[1..], s, p);
      }
    }
  }

  lemma {:induction false} CountAppend(a: seq<FwPage>, b: seq<FwPage>, f: Function)
    ensures OwnedCount(a + b, f) == OwnedCount(a, f) + OwnedCount(b, f)
  {
    if a == [] {
      assert a + b == b;
    } else {
      assert (a + b)[1..] == a[1..] + b;
      CountAppend(a[1..], b, f);
    }
  }

  /** A run of pages that all belong to f counts fully for f and not at all for others. */
  lemma {:induction false} CountUniform(pages: seq<FwPage>, f: Function, g: Function)
    requires forall p :: p in pages ==> OwnedBy(p, f)
    ensures OwnedCount(pages, g) == if g == f then |pages| else 0
  {
    if pages != [] {
      assert pages[0] in pages;
      CountUniform(pages[1..], f, g);
    }
  }

  lemma {:induction false} CountNone(pages: seq<FwPage>, f: Function)
    requires forall i :: 0 <= i < |pages| ==> !OwnedBy(pages[i], f)
    ensures OwnedCount(pages, f) == 0
  {
    if pages != [] {
      CountNone(pages[1..], f);
    }
  }

  lemma {:induction false} CountDoubted(pages: seq<FwPage>, f: Function, g: Function)
    ensures OwnedCount(Doubted(pages, f), g) == if g == f then 0 else OwnedCount(pages, g)
  {
    if pages != [] {
      assert Doubted(pages, f)[1..] == Doubted(pages[1..], f);
      CountDoubted(pages[1..], f, g);
    }
  }

  lemma {:induction false} CountWithoutOwned(pages: seq<FwPage>, f: Function, g: Function)
    ensures OwnedCount(WithoutOwned(pages, f), g) == if g == f then 0 else OwnedCount(pages, g)
  {
    if pages != [] {
      CountWithoutOwned(pages[1..], f, g);
    }
  }

  lemma {:induction false} WithoutOwnedAppend(a: seq<FwPage>, b: seq<FwPage>, f: Function)
    ensures WithoutOwned(a + b, f) == WithoutOwned(a, f) + WithoutOwned(b, f)
  {
    if a == [] {
      assert a + b == b;
    } else {
      assert (a + b)[1..] == a[1..] + b;
      WithoutOwnedAppend(a[1..], b, f);
    }
  }

  lemma CountDropOne(pages: seq<FwPage>, i: nat, f: Function)
    requires Distinct(pages) && i < |pages|
    ensures |Drop(pages, {pages[i].dmaAddress})| == |pages| - 1
    ensures OwnedCount(Drop(pages, {pages[i].dmaAddress}), f) ==
            OwnedCount(pages, f) - (if OwnedBy(pages[i], f) then 1 else 0)
  {
    DropOne(pages, i);
    assert pages == pages[..i] + ([pages[i]] + pages[i + 1..]);
    CountAppend(pages[..i], [pages[i]] + pages[i + 1..], f);
    CountAppend(pages[..i], pages[i + 1..], f);
    assert ([pages[i]] + pages[i + 1..])[1..] == pages[i + 1..];
  }

  /** One step of a scan that removes the pages owned for f: the part before i is done. */
  lemma WithoutOwnedStep(before: seq<FwPage>, k: nat, f: Function, pages: seq<FwPage>, i: nat)
    requires k < |before| && i == |WithoutOwned(before[..k], f)|
    requires pages == WithoutOwned(before[..k], f) + before[k..]
    ensures i < |pages| && pages[i] == before[k]
    ensures OwnedBy(before[k], f) ==>
              && pages[..i] + pages[i + 1..] == WithoutOwned(before[..k + 1], f) + before[k + 1..]
              && |WithoutOwned(before[..k + 1], f)| == i
    ensures !OwnedBy(before[k], f) ==>
              && pages == WithoutOwned(before[..k + 1], f) + before[k + 1..]
              && |WithoutOwned(before[..k + 1], f)| == i + 1
  {
    assert before[..k + 1] == before[..k] + [before[k]];
    WithoutOwnedAppend(before[..k], [before[k]], f);
    assert before[k..] == [before[k]] + before[k + 1..];
  }

  predicate InFirmwareHands(p: FwPage) {
    p.ownership.FirmwareOwned? || p.ownership.Ambiguous?
  }

  /** Every page is firmware's or in doubt; a page in doubt is admitted only after a fault. */
  ghost predicate Lent(pages: seq<FwPage>, fatal: bool) {
    && (forall i :: 0 <= i < |pages| ==> InFirmwareHands(pages[i]))
    && (!fatal ==> forall i :: 0 <= i < |pages| ==> pages[i].ownership.FirmwareOwned?)
  }

  lemma {:induction false} LentAfterDrop(pages: seq<FwPage>, s: set<nat>, fatal: bool)
    requires Lent(pages, fatal)
    ensures Lent(Drop(pages, s), fatal) && |Drop(pages, s)| <= |pages|
  {
    if pages != [] {
      LentAfterDrop(pages[1..], s, fatal);
    }
  }

  lemma {:induction false} LentWithoutOwned(pages: seq<FwPage>, f: Function, fatal: bool)
    requires Lent(pages, fatal)
    ensures Lent(WithoutOwned(pages, f), fatal) && |WithoutOwned(pages, f)| <= |pages|
  {
    if pages != [] {
      LentWithoutOwned(pages[1..], f, fatal);
    }
  }

  ghost predicate NamesOne(pages: seq<FwPage>, a: nat, f: Function) {
    exists k :: 0 <= k < |pages| && pages[k].dmaAddress == a && OwnedBy(pages[k], f)
  }

  /** given names, once each, aligned pages that firmware owns for f. */
  ghost predicate NamesOwned(pages: seq<FwPage>, given: seq<nat>, f: Function) {
    && (forall i, j :: 0 <= i < j < |given| ==> given[i] != given[j])
    && (forall i :: 0 <= i < |given| ==> PageAligned(given[i]) && NamesOne(pages, given[i], f))
  }

  /** The i-th page of a valid reply is still listed, at position m, when its turn comes. */
  lemma GivenStep(before: seq<FwPage>, given: seq<nat>, f: Function, i: nat) returns (m: nat)
    requires NamesOwned(before, given, f) && i < |given|
    ensures var pages := Drop(before, Named(given[..i]));
            && m < |pages| && pages[m].dmaAddress == given[i] && OwnedBy(pages[m], f)
            && Drop(pages, {given[i]}) == Drop(before, Named(given[..i + 1]))
  {
    assert NamesOne(before, given[i], f);
    var k :| 0 <= k < |before| && before[k].dmaAddress == given[i] && OwnedBy(before[k], f);
    DropMember(before, Named(given[..i]), before[k]);
    var pages := Drop(before, Named(given[..i]));
    m :| 0 <= m < |pages| && pages[m] == before[k];
    DropDrop(before, Named(given[..i]), {given[i]});
    assert Named(given[..i + 1]) == Named(given[..i]) + {given[i]};
  }

  /**
   * Conservation: dropping the |given| pages that a reply names takes exactly that many pages
   * off the list and off the count of f, and none off the count of any other function.
   */
  lemma {:induction false} CountDropNamed(pages: seq<FwPage>, given: seq<nat>, f: Function, g: Function)
    requires Distinct(pages) && NamesOwned(pages, given, f)
    ensures |Drop(pages, Named(given))| == |pages| - |given|
    ensures OwnedCount(Drop(pages, Named(given)), g) ==
            OwnedCount(pages, g) - (if g == f then |given| else 0)
    decreases |given|
  {
    hide Distinct, Named, NamesOne, Drop, OwnedCount;
    if given == [] {
      NoneNamed(pages);
    } else {
      var n := |given| - 1;
      CountDropNamed(pages, given[..n], f, g);
      DropKeepsDistinct(pages, Named(given[..n]));
      var m := GivenStep(pages, given, f, n);
      CountDropOne(Drop(pages, Named(given[..n])), m, g);
      assert given[..n + 1] == given;
    }
  }

  lemma NoneNamed(pages: seq<FwPage>)
    ensures Drop(pages, Named([])) == pages
  {
    DropNone(pages, {});
    assert Named([]) == {};
  }

  /** Every page that firmware may hold is tracked, on the right account, and not free to unmap. */
  ghost predicate Covered(pages: seq<FwPage>, held: map<nat, Function>) {
    && held.Keys <= Addresses(pages)
    && (forall i :: 0 <= i < |pages| && pages[i].dmaAddress in held ==>
         held[pages[i].dmaAddress] == pages[i].owner && !pages[i].ownership.HostPrepared?)
  }

  /** Every page that the driver takes to be firmware's for a function other than f is so. */
  ghost predicate BackedBut(pages: seq<FwPage>, held: map<nat, Function>, f: Function) {
    forall i :: 0 <= i < |pages| && pages[i].ownership.FirmwareOwned? && pages[i].owner != f ==>
      pages[i].dmaAddress in held && held[pages[i].dmaAddress] == pages[i].owner
  }

  /** Every page that the driver takes to be firmware's is so. */
  ghost predicate Backed(pages: seq<FwPage>, held: map<nat, Function>) {
    forall i :: 0 <= i < |pages| && pages[i].ownership.FirmwareOwned? ==>
      pages[i].dmaAddress in held && held[pages[i].dmaAddress] == pages[i].owner
  }

  lemma BackedAfterDrop(pages: seq<FwPage>, held: map<nat, Function>, s: set<nat>)
    requires Backed(pages, held)
    ensures Backed(Drop(pages, s), held - s)
  {
    var after := Drop(pages, s);
    forall i | 0 <= i < |after| && after[i].ownership.FirmwareOwned?
      ensures after[i].dmaAddress in held - s && (held - s)[after[i].dmaAddress] == after[i].owner
    {
      DropMember(pages, s, after[i]);
    }
  }

  /** When pages of f may have come back unseen, the rest of the account still stands. */
  lemma LessHeld(pages: seq<FwPage>, held: map<nat, Function>, back: set<nat>, f: Function)
    requires Covered(pages, held) && Backed(pages, held) && back <= HeldFor(held, f)
    ensures Covered(pages, held - back) && BackedBut(pages, held - back, f)
  {
  }

  lemma {:induction false} WithoutOwnedMember(pages: seq<FwPage>, f: Function, p: FwPage)
    ensures p in WithoutOwned(pages, f) <==> p in pages && !OwnedBy(p, f)
  {
    if pages != [] {
      WithoutOwnedMember(pages[1..], f, p);
    }
  }

  lemma BackedWithoutOwned(pages: seq<FwPage>, held: map<nat, Function>, f: Function)
    requires BackedBut(pages, held, f)
    ensures Backed(WithoutOwned(pages, f), held)
  {
    var after := WithoutOwned(pages, f);
    forall i | 0 <= i < |after| && after[i].ownership.FirmwareOwned?
      ensures after[i].dmaAddress in held && held[after[i].dmaAddress] == after[i].owner
    {
      WithoutOwnedMember(pages, f, after[i]);
    }
  }

  /** Changing only ownership keeps the addresses and their distinctness. */
  lemma SameAddresses(pages: seq<FwPage>, after: seq<FwPage>)
    requires |pages| == |after|
    requires forall i :: 0 <= i < |pages| ==> pages[i].dmaAddress == after[i].dmaAddress
    ensures Addresses(pages) == Addresses(after)
    ensures Distinct(pages) ==> Distinct(after)
  {
    forall x ensures x in Addresses(pages) <==> x in Addresses(after) {
      if x in Addresses(pages) {
        var i :| 0 <= i < |pages| && pages[i].dmaAddress == x;
        assert after[i] in after;
      }
      if x in Addresses(after) {
        var i :| 0 <= i < |after| && after[i].dmaAddress == x;
        assert pages[i] in pages;
      }
    }
  }

  /** Handing the named pages to firmware, or doubting who has them, keeps the account. */
  lemma CoveredWhenGiven(pages: seq<FwPage>, held: map<nat, Function>, s: set<nat>, f: Function, o: Ownership)
    requires Covered(pages, held) && s <= Addresses(pages) && !o.HostPrepared?
    requires forall i :: 0 <= i < |pages| && pages[i].dmaAddress in s ==> pages[i].owner == f
    ensures Covered(WithOwnership(pages, s, o), Lending(held, s, f))
  {
    var after := WithOwnership(pages, s, o);
    SameAddresses(pages, after);
    forall i | 0 <= i < |after| && after[i].dmaAddress in Lending(held, s, f)
      ensures Lending(held, s, f)[after[i].dmaAddress] == after[i].owner && !after[i].ownership.HostPrepared?
    {
      if pages[i].dmaAddress !in s {
        assert pages[i].dmaAddress in held;
      }
    }
  }

  lemma BackedWhenGiven(pages: seq<FwPage>, held: map<nat, Function>, s: set<nat>, f: Function, o: Ownership)
    requires Backed(pages, held)
    requires forall i :: 0 <= i < |pages| && pages[i].dmaAddress in s ==> pages[i].owner == f
    ensures Backed(WithOwnership(pages, s, o), Lending(held, s, f))
  {
    var after := WithOwnership(pages, s, o);
    forall i | 0 <= i < |after| && after[i].ownership.FirmwareOwned?
      ensures after[i].dmaAddress in Lending(held, s, f) && Lending(held, s, f)[after[i].dmaAddress] == after[i].owner
    {
    }
  }

  /** A GIVE that ends with the named pages in state o, by way of GivePending. */
  lemma GiveOutcome(pages: seq<FwPage>, held: map<nat, Function>, s: set<nat>, f: Function, o: Ownership)
    requires Covered(pages, held) && Backed(pages, held) && s <= Addresses(pages) && Distinct(pages)
    requires forall i :: 0 <= i < |pages| && pages[i].dmaAddress in s ==>
               pages[i].owner == f && pages[i].ownership.HostPrepared?
    ensures WithOwnership(WithOwnership(pages, s, GivePending), s, o) == WithOwnership(pages, s, o)
    ensures Distinct(WithOwnership(pages, s, o)) && Addresses(WithOwnership(pages, s, o)) == Addresses(pages)
    ensures |WithOwnership(pages, s, o)| == |pages|
    ensures o.HostPrepared? ==> WithOwnership(pages, s, o) == pages
    ensures !o.HostPrepared? ==> Covered(WithOwnership(pages, s, o), Lending(held, s, f))
    ensures !o.HostPrepared? ==> Backed(WithOwnership(pages, s, o), Lending(held, s, f))
  {
    hide Covered, Backed, Lending;
    SameAddresses(pages, WithOwnership(pages, s, o));
    if !o.HostPrepared? {
      CoveredWhenGiven(pages, held, s, f, o);
      BackedWhenGiven(pages, held, s, f, o);
    }
  }

  /** Pages that firmware cannot hold may leave the list. */
  lemma CoveredAfterDrop(pages: seq<FwPage>, held: map<nat, Function>, s: set<nat>)
    requires Covered(pages, held) && s !! held.Keys
    ensures Covered(Drop(pages, s), held)
  {
    var after := Drop(pages, s);
    forall a | a in held ensures a in Addresses(after) {
      var p :| p in pages && p.dmaAddress == a;
      DropMember(pages, s, p);
    }
    forall i | 0 <= i < |after| && after[i].dmaAddress in held
      ensures held[after[i].dmaAddress] == after[i].owner && !after[i].ownership.HostPrepared?
    {
      DropMember(pages, s, after[i]);
      var k :| 0 <= k < |pages| && pages[k] == after[i];
    }
  }

  lemma {:induction false} DropRewritten(pages: seq<FwPage>, s: set<nat>, o: Ownership)
    ensures Drop(WithOwnership(pages, s, o), s) == Drop(pages, s)
  {
    if pages != [] {
      assert WithOwnership(pages, s, o)[1..] == WithOwnership(pages[1..], s, o);
      DropRewritten(pages[1..], s, o);
    }
  }

  lemma CoveredWhenDoubted(pages: seq<FwPage>, held: map<nat, Function>, f: Function)
    requires Covered(pages, held) && BackedBut(pages, held, f)
    ensures Covered(Doubted(pages, f), held) && Backed(Doubted(pages, f), held)
    ensures Distinct(pages) ==> Distinct(Doubted(pages, f))
    ensures Addresses(Doubted(pages, f)) == Addresses(pages)
  {
    SameAddresses(pages, Doubted(pages, f));
  }
}
