/** The CREATE_MKEY command: its checks, its field table and its page list. */
module MkeyEncoding {
  import opened IfcBits
  import opened PhaseRing
  import MttPages

  const FIXED_BYTES: nat := 272
  const MKC: nat := 0x80
  const ACTUAL_XLT: nat := 0x300
  const PAS: nat := 0x880
  const MAX_PAGES: nat := 480
  const MAX_COMMAND: nat := 4112

  /** The four access rights in the order of their flag bits. */
  datatype Access = Access(localWrite: bool, remoteWrite: bool, remoteRead: bool, remoteAtomic: bool)

  /** What the caller asks for; flags above the four supported bits are given as one number. */
  datatype Request = Request(pages: seq<nat>, startAddress: nat, length: nat, access: Access,
                             unsupportedFlags: nat, pd: nat, keyVariant: nat)

  function OctwordCount(pageCount: nat): nat {
    (pageCount + 1) / 2
  }

  function InputSize(pageCount: nat): nat {
    FIXED_BYTES + OctwordCount(pageCount) * 16
  }

  /** The checks, none of which has touched the buffer yet. */
  predicate Accepts(r: Request, capacity: nat) {
    && 0 < |r.pages| <= MAX_PAGES
    && r.length > 0 && r.keyVariant > 0 && r.unsupportedFlags == 0 && r.pd <= 0xff_ffff
    && MttPages.MttPageCount(r.startAddress, r.length) == |r.pages|
    && InputSize(|r.pages|) <= capacity
    && forall i :: 0 <= i < |r.pages| ==> r.pages[i] % MttPages.PAGE == 0
  }

  /** Arguments in the widths of their C types. */
  ghost predicate InRange(r: Request) {
    && r.startAddress < Pow2(64) && r.length < Pow2(64) && r.keyVariant < Pow2(8)
    && forall i :: 0 <= i < |r.pages| ==> r.pages[i] < Pow2(64)
  }

  function Flag(on: bool): nat {
    if on then 1 else 0
  }

  /** The fixed fields, in the order they are written. */
  function FixedFields(r: Request): (fields: seq<Spec>)
    ensures |fields| == 16
  {
    [Spec(MKC + 0x11, 1, Flag(r.access.remoteAtomic)),
     Spec(MKC + 0x12, 1, Flag(r.access.remoteWrite)),
     Spec(MKC + 0x13, 1, Flag(r.access.remoteRead)),
     Spec(MKC + 0x14, 1, Flag(r.access.localWrite)),
     Spec(MKC + 0x15, 1, 1),
     Spec(MKC + 0x16, 2, 1),
     Spec(MKC + 0x10, 1, 1),
     Spec(MKC + 0x20, 24, 0xff_ffff),
     Spec(MKC + 0x38, 8, r.keyVariant),
     Spec(MKC + 0x60, 1, 1),
     Spec(MKC + 0x68, 24, r.pd),
     Spec(MKC + 0x80, 64, r.startAddress),
     Spec(MKC + 0xc0, 64, r.length),
     Spec(MKC + 0x1a0, 32, OctwordCount(|r.pages|)),
     Spec(MKC + 0x1db, 5, 12),
     Spec(ACTUAL_XLT, 32, OctwordCount(|r.pages|))]
  }

  function PageFields(pages: seq<nat>): seq<Spec> {
    seq(|pages|, i requires 0 <= i < |pages| => Spec(PAS + i * 64, 64, pages[i]))
  }

  function Fields(r: Request): seq<Spec> {
    FixedFields(r) + PageFields(r.pages)
  }

  /** All fixed fields lie before the page list and no two of them overlap. */
  lemma FixedFieldsApart(r: Request)
    ensures PairwiseApart(FixedFields(r)) && Within(FixedFields(r), PAS)
    ensures forall i :: 0 <= i < 16 ==> MKC + 0x10 <= FixedFields(r)[i].offset
  {
  }

  lemma FieldsApart(r: Request)
    requires |r.pages| <= MAX_PAGES
    ensures PairwiseApart(Fields(r)) && Within(Fields(r), 8 * InputSize(|r.pages|))
  {
    hide FixedFields;
    FixedFieldsApart(r);
    var fields, fixed := Fields(r), FixedFields(r);
    forall i, j | 0 <= i < j < |fields| ensures Apart(fields[i], fields[j]) {
      if j < 16 {
        assert fields[i] == fixed[i] && fields[j] == fixed[j];
      } else if i < 16 {
        assert fields[i] == fixed[i];
      }
    }
    forall i | 0 <= i < |fields| ensures fields[i].offset + fields[i].width <= 8 * InputSize(|r.pages|) {
      if i < 16 { assert fields[i] == fixed[i]; }
    }
  }

  /** The command never exceeds what a mailbox chain carries. */
  lemma InputFits(pageCount: nat)
    requires pageCount <= MAX_PAGES
    ensures PAS / 8 + 8 * pageCount <= InputSize(pageCount) <= MAX_COMMAND
  {
  }

  /** Every value fits the width of its field. */
  lemma ValuesFit(r: Request, capacity: nat, i: nat)
    requires Accepts(r, capacity) && InRange(r) && i < |Fields(r)|
    ensures Fields(r)[i].value < Pow2(Fields(r)[i].width)
  {
    hide Pow2, FixedFields;
    if i < 16 {
      FixedValuesFit(r, capacity, i);
    } else {
      assert Fields(r)[i] == PageFields(r.pages)[i - 16];
    }
  }

  lemma FixedValuesFit(r: Request, capacity: nat, i: nat)
    requires Accepts(r, capacity) && InRange(r) && i < 16
    ensures FixedFields(r)[i].value < Pow2(FixedFields(r)[i].width)
  {
    hide Pow2;
    Widths();
  }

  lemma Widths()
    ensures Pow2(1) == 2 && Pow2(2) == 4 && Pow2(5) == 32 && Pow2(24) == 0x100_0000 && Pow2(32) == 0x1_0000_0000
  {
    PowersOfTwo();
    PowersMultiply(16, 8);
    PowersMultiply(16, 16);
    assert Pow2(5) == 32;
  }

  /** Everything an accepted request asks for can be read back from the buffer. */
  lemma EncodingDecodes(before: seq<Byte>, r: Request, i: nat)
    requires Accepts(r, |before|) && InRange(r) && i < |Fields(r)|
    ensures Within(Fields(r), 8 * |before|)
    ensures Field(WithFields(before, Fields(r)), Fields(r)[i].offset, Fields(r)[i].width) == Fields(r)[i].value
  {
    hide Fields, Field, WithFields;
    FieldsApart(r);
    InputFits(|r.pages|);
    EveryFieldDecodes(before, Fields(r), i);
    ValuesFit(r, |before|, i);
    Small(Fields(r)[i].value, Pow2(Fields(r)[i].width));
  }

  /** In particular the page list, address by address. */
  lemma PagesDecode(before: seq<Byte>, r: Request, i: nat)
    requires Accepts(r, |before|) && InRange(r) && i < |r.pages|
    ensures Within(Fields(r), 8 * |before|)
    ensures Field(WithFields(before, Fields(r)), PAS + i * 64, 64) == r.pages[i]
  {
    hide Field, WithFields, FixedFields;
    EncodingDecodes(before, r, 16 + i);
    assert Fields(r)[16 + i] == PageFields(r.pages)[i];
  }

  /** What firmware reads from a command that lists n pages, by the layout of the mkey context. */
  function Decode(bytes: seq<Byte>, n: nat): Request
    requires PAS + 64 * n <= 8 * |bytes|
  {
    Request(
      seq(n, i requires 0 <= i < n => Field(bytes, PAS + i * 64, 64)),
      Field(bytes, MKC + 0x80, 64),
      Field(bytes, MKC + 0xc0, 64),
      Access(Field(bytes, MKC + 0x14, 1) == 1, Field(bytes, MKC + 0x12, 1) == 1,
             Field(bytes, MKC + 0x13, 1) == 1, Field(bytes, MKC + 0x11, 1) == 1),
      0,
      Field(bytes, MKC + 0x68, 24),
      Field(bytes, MKC + 0x38, 8))
  }

  /** Decoding an accepted command gives back the request. */
  lemma DecodeEncode(before: seq<Byte>, r: Request)
    requires Accepts(r, |before|) && InRange(r)
    ensures Within(Fields(r), 8 * |before|) && PAS + 64 * |r.pages| <= 8 * |before|
    ensures Decode(WithFields(before, Fields(r)), |r.pages|) == r
  {
    hide Field, WithFields, FixedFields;
    var after := WithFieldsOf(before, r);
    FlagsDecode(before, r);
    NumbersDecode(before, r);
    forall i | 0 <= i < |r.pages| ensures Field(after, PAS + i * 64, 64) == r.pages[i] {
      PagesDecode(before, r, i);
    }
  }

  ghost function WithFieldsOf(before: seq<Byte>, r: Request): (after: seq<Byte>)
    requires Accepts(r, |before|) && InRange(r)
    ensures |after| == |before| && Within(Fields(r), 8 * |before|) && after == WithFields(before, Fields(r))
  {
    FieldsApart(r);
    InputFits(|r.pages|);
    WithFields(before, Fields(r))
  }

  /** The access bits, and the constants the driver sets. */
  lemma FlagsDecode(before: seq<Byte>, r: Request)
    requires Accepts(r, |before|) && InRange(r)
    ensures var after := WithFieldsOf(before, r);
            && Field(after, MKC + 0x11, 1) == Flag(r.access.remoteAtomic)
            && Field(after, MKC + 0x12, 1) == Flag(r.access.remoteWrite)
            && Field(after, MKC + 0x13, 1) == Flag(r.access.remoteRead)
            && Field(after, MKC + 0x14, 1) == Flag(r.access.localWrite)
            && Field(after, MKC + 0x15, 1) == 1 && Field(after, MKC + 0x16, 2) == 1
            && Field(after, MKC + 0x10, 1) == 1 && Field(after, MKC + 0x60, 1) == 1
  {
    hide Field, WithFields, Within;
    forall i | 0 <= i < 16 ensures DecodesAt(before, r, i) {
      DecodesFixed(before, r, i);
    }
    assert DecodesAt(before, r, 0) && DecodesAt(before, r, 1) && DecodesAt(before, r, 2) && DecodesAt(before, r, 3);
    assert DecodesAt(before, r, 4) && DecodesAt(before, r, 5) && DecodesAt(before, r, 6) && DecodesAt(before, r, 9);
  }

  lemma NumbersDecode(before: seq<Byte>, r: Request)
    requires Accepts(r, |before|) && InRange(r)
    ensures var after := WithFieldsOf(before, r);
            && Field(after, MKC + 0x38, 8) == r.keyVariant && Field(after, MKC + 0x68, 24) == r.pd
            && Field(after, MKC + 0x80, 64) == r.startAddress && Field(after, MKC + 0xc0, 64) == r.length
            && Field(after, MKC + 0x20, 24) == 0xff_ffff && Field(after, MKC + 0x1db, 5) == 12
            && Field(after, MKC + 0x1a0, 32) == Field(after, ACTUAL_XLT, 32) == OctwordCount(|r.pages|)
  {
    hide Field, WithFields, Within;
    forall i | 0 <= i < 16 ensures DecodesAt(before, r, i) {
      DecodesFixed(before, r, i);
    }
    assert DecodesAt(before, r, 7) && DecodesAt(before, r, 8) && DecodesAt(before, r, 10) && DecodesAt(before, r, 11);
    assert DecodesAt(before, r, 12) && DecodesAt(before, r, 13) && DecodesAt(before, r, 14) && DecodesAt(before, r, 15);
  }

  ghost predicate DecodesAt(before: seq<Byte>, r: Request, i: nat)
    requires Accepts(r, |before|) && InRange(r) && i < 16
  {
    var f := FixedFields(r)[i];
    f.offset + f.width <= 8 * |before| && Field(WithFieldsOf(before, r), f.offset, f.width) == f.value
  }

  lemma DecodesFixed(before: seq<Byte>, r: Request, i: nat)
    requires Accepts(r, |before|) && InRange(r) && i < 16
    ensures DecodesAt(before, r, i)
  {
    hide Field, WithFields, FixedFields;
    EncodingDecodes(before, r, i);
    assert Fields(r)[i] == FixedFields(r)[i];
  }

  /** Nothing beyond the command's size is written. */
  lemma RestIsKept(before: seq<Byte>, r: Request, k: nat)
    requires Accepts(r, |before|) && 8 * InputSize(|r.pages|) <= k < 8 * |before|
    ensures Within(Fields(r), 8 * |before|)
    ensures Bit(WithFields(before, Fields(r)), k) == Bit(before, k)
  {
    hide Fields, WithFields, Bit;
    FieldsApart(r);
    OutsideFieldsKept(before, Fields(r), k);
  }

  /** mlxEncodeCreateMkey: a rejected request changes nothing. */
  method EncodeCreateMkey(buffer: array<Byte>, r: Request) returns (ok: bool, size: nat)
    modifies buffer
    ensures ok <==> Accepts(r, buffer.Length)
    ensures !ok ==> buffer[..] == old(buffer[..])
    ensures ok ==> size == InputSize(|r.pages|) <= MAX_COMMAND && Within(Fields(r), 8 * buffer.Length)
    ensures ok ==> buffer[..] == WithFields(old(buffer[..]), Fields(r))
  {
    size := 0;
    ok := false;
    if |r.pages| > MAX_PAGES {
      return;
    }
    var expectedPages := MttPages.MttPageCount(r.startAddress, r.length);
    if |r.pages| == 0 || r.length == 0 || r.keyVariant == 0 || r.unsupportedFlags != 0
       || r.pd > 0xff_ffff || expectedPages != |r.pages| || InputSize(|r.pages|) > buffer.Length
    {
      return;
    }
    for i := 0 to |r.pages|
      invariant forall k :: 0 <= k < i ==> r.pages[k] % MttPages.PAGE == 0
    {
      if r.pages[i] % MttPages.PAGE != 0 {
        return;
      }
    }
    FieldsApart(r);
    InputFits(|r.pages|);
    SetAll(buffer, Fields(r));
    ok, size := true, InputSize(|r.pages|);
  }

  // Keys

  /** (index << 8) | variant on 32 bits */
  function ComposeMkey(index: nat, variant: nat): nat
    requires variant < 256
  {
    index * 256 % WRAP + variant
  }

  function MkeyIndex(key: nat): nat {
    key / 256
  }

  /** A key leads back to its index exactly for the 24-bit indices firmware hands out. */
  lemma KeyRoundTrip(index: nat, variant: nat)
    requires variant < 256
    ensures MkeyIndex(ComposeMkey(index, variant)) == index <==> index < 0x100_0000
  {
  }
}
