/** The MANAGE_PAGES command as bytes. */
module ManagePagesEncoding {
  import opened IfcBits
  import opened PhaseRing

  const MAX_MANAGE_PAGES: nat := 512
  const ALLOCATION_FAIL: nat := 0
  const GIVE: nat := 1
  const TAKE: nat := 2
  const PAS: nat := 0x80

  datatype Request = Request(opMod: nat, functionId: nat, embedded: bool, pages: seq<nat>, count: nat)

  /** The bytes a command needs: the page list travels only with GIVE. */
  function Needed(r: Request): nat {
    if r.opMod == GIVE then (if r.count <= MAX_MANAGE_PAGES then 16 + r.count * 8 else 0) else 16
  }

  predicate Accepts(r: Request, length: nat) {
    && 0 < Needed(r) <= length && r.count <= MAX_MANAGE_PAGES && r.opMod <= TAKE
    && (r.opMod == GIVE ==> 0 < r.count)
  }

  /** 16-bit function ids, 64-bit addresses, and a page list as long as a GIVE announces. */
  ghost predicate InRange(r: Request) {
    && r.functionId < Pow2(16)
    && (r.opMod == GIVE ==> |r.pages| == r.count)
    && forall i :: 0 <= i < |r.pages| ==> r.pages[i] < Pow2(64)
  }

  function FixedFields(r: Request): (fields: seq<Spec>)
    ensures |fields| == 5
  {
    [Spec(0x00, 16, 0x108),
     Spec(0x30, 16, r.opMod),
     Spec(0x40, 1, if r.embedded then 1 else 0),
     Spec(0x50, 16, r.functionId),
     Spec(0x60, 32, r.count)]
  }

  function Fields(r: Request): seq<Spec> {
    FixedFields(r)
    + if r.opMod == GIVE then seq(|r.pages|, i requires 0 <= i < |r.pages| => Spec(PAS + i * 64, 64, r.pages[i]))
      else []
  }

  function ZeroByte(): Byte {
    [false, false, false, false, false, false, false, false]
  }

  /** The buffer with its first n bytes cleared. */
  function Cleared(bytes: seq<Byte>, n: nat): seq<Byte>
    requires n <= |bytes|
  {
    seq(n, _ => ZeroByte()) + bytes[n..]
  }

  lemma FieldsApart(r: Request, length: nat)
    requires Accepts(r, length) && InRange(r)
    ensures PairwiseApart(Fields(r)) && Within(Fields(r), 8 * Needed(r))
  {
    var fields, fixed := Fields(r), FixedFields(r);
    assert PairwiseApart(fixed) && Within(fixed, PAS);
    forall i, j | 0 <= i < j < |fields| ensures Apart(fields[i], fields[j]) {
      if j < 5 {
        assert fields[i] == fixed[i] && fields[j] == fixed[j];
      } else if i < 5 {
        assert fields[i] == fixed[i];
      }
    }
    forall i | 0 <= i < |fields| ensures fields[i].offset + fields[i].width <= 8 * Needed(r) {
      if i < 5 { assert fields[i] == fixed[i]; }
    }
  }

  /** Every field of an accepted command, each page address included, reads back as given. */
  lemma EncodingDecodes(before: seq<Byte>, r: Request, i: nat)
    requires Accepts(r, |before|) && InRange(r) && i < |Fields(r)|
    ensures Within(Fields(r), 8 * |before|)
    ensures Field(WithFields(before, Fields(r)), Fields(r)[i].offset, Fields(r)[i].width) == Fields(r)[i].value
  {
    hide Field, WithFields, Pow2;
    FieldsApart(r, |before|);
    EveryFieldDecodes(before, Fields(r), i);
    ValuesFit(r, |before|, i);
    Small(Fields(r)[i].value, Pow2(Fields(r)[i].width));
  }

  /** What firmware reads from the command. */
  function Decode(bytes: seq<Byte>): Request
    requires 16 <= |bytes| && PAS + 64 * Field(bytes, 0x60, 32) <= 8 * |bytes|
  {
    var opMod, count := Field(bytes, 0x30, 16), Field(bytes, 0x60, 32);
    Request(opMod, Field(bytes, 0x50, 16), Field(bytes, 0x40, 1) == 1,
            if opMod == GIVE then seq(count, i requires 0 <= i < count => Field(bytes, PAS + i * 64, 64)) else [],
            count)
  }

  /** A GIVE decodes to the request, opcode included: the same function, count and pages. */
  lemma DecodeEncode(before: seq<Byte>, r: Request)
    requires Accepts(r, |before|) && InRange(r) && r.opMod == GIVE
    ensures Within(Fields(r), 8 * |before|)
    ensures var after := WithFields(before, Fields(r));
            && Field(after, 0x60, 32) == r.count && PAS + 64 * r.count <= 8 * |before|
            && Field(after, 0x00, 16) == 0x108 && Decode(after) == r
  {
    hide Field, WithFields, FixedFields, Within;
    FieldsApart(r, |before|);
    FixedDecode(before, r);
    var after := WithFields(before, Fields(r));
    forall i | 0 <= i < |r.pages| ensures Field(after, PAS + i * 64, 64) == r.pages[i] {
      EncodingDecodes(before, r, 5 + i);
      assert Fields(r)[5 + i] == Spec(PAS + i * 64, 64, r.pages[i]);
    }
  }

  lemma FixedDecode(before: seq<Byte>, r: Request)
    requires Accepts(r, |before|) && InRange(r) && 16 <= |before|
    ensures Within(Fields(r), 8 * |before|)
    ensures var after := WithFields(before, Fields(r));
            && Field(after, 0x00, 16) == 0x108 && Field(after, 0x30, 16) == r.opMod
            && Field(after, 0x40, 1) == (if r.embedded then 1 else 0)
            && Field(after, 0x50, 16) == r.functionId && Field(after, 0x60, 32) == r.count
  {
    hide Field, WithFields;
    forall i | 0 <= i < 5 ensures Within(Fields(r), 8 * |before|) && DecodesAt(before, r, FixedFields(r)[i]) {
      EncodingDecodes(before, r, i);
      assert Fields(r)[i] == FixedFields(r)[i];
    }
    assert DecodesAt(before, r, FixedFields(r)[0]) && DecodesAt(before, r, FixedFields(r)[1]);
    assert DecodesAt(before, r, FixedFields(r)[2]) && DecodesAt(before, r, FixedFields(r)[3]);
    assert DecodesAt(before, r, FixedFields(r)[4]);
  }

  ghost predicate DecodesAt(before: seq<Byte>, r: Request, f: Spec)
    requires Within(Fields(r), 8 * |before|)
  {
    f.offset + f.width <= 8 * |before| && Field(WithFields(before, Fields(r)), f.offset, f.width) == f.value
  }

  lemma ValuesFit(r: Request, length: nat, i: nat)
    requires Accepts(r, length) && InRange(r) && i < |Fields(r)|
    ensures Fields(r)[i].value < Pow2(Fields(r)[i].width)
  {
    hide Pow2;
    assert Pow2(1) == 2 && Pow2(16) == 0x1_0000 && Pow2(32) == 0x1_0000_0000 by {
      PowersOfTwo();
      PowersMultiply(16, 16);
      OneBit();
    }
    if i < 5 { assert Fields(r)[i] == FixedFields(r)[i]; }
  }

  lemma OneBit()
    ensures Pow2(1) == 2
  {
  }

  /** mlxP1EncodeManagePages: a rejected command changes nothing. */
  method EncodeManagePages(buffer: array<Byte>, r: Request) returns (ok: bool)
    requires InRange(r)
    modifies buffer
    ensures ok <==> Accepts(r, buffer.Length)
    ensures !ok ==> buffer[..] == old(buffer[..])
    ensures ok ==> Within(Fields(r), 8 * buffer.Length)
    ensures ok ==> buffer[..] == WithFields(Cleared(old(buffer[..]), Needed(r)), Fields(r))
  {
    hide Fields, WithFields;
    var needed := Needed(r);
    if needed == 0 || buffer.Length < needed || r.count > MAX_MANAGE_PAGES || r.opMod > TAKE
       || (r.opMod == GIVE && r.count == 0)
    {
      return false;
    }
    FieldsApart(r, buffer.Length);
    Clear(buffer, needed);
    SetAll(buffer, Fields(r));
    ok := true;
  }

  method Clear(buffer: array<Byte>, n: nat)
    requires n <= buffer.Length
    modifies buffer
    ensures buffer[..] == Cleared(old(buffer[..]), n)
  {
    for i := 0 to n
      invariant forall k :: 0 <= k < i ==> buffer[k] == ZeroByte()
      invariant forall k :: i <= k < buffer.Length ==> buffer[k] == old(buffer[k])
    {
      buffer[i] := ZeroByte();
    }
  }
}
