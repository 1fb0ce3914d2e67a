/** Bitfields in a byte buffer, counted from the most significant bit of byte zero. A byte is
    given by its bits, most significant first. */
module IfcBits {
  import opened PhaseRing

  type Byte = b: seq<bool> | |b| == 8 witness [false, false, false, false, false, false, false, false]

  predicate Bit(bytes: seq<Byte>, k: nat)
    requires k / 8 < |bytes|
  {
    bytes[k / 8][k % 8]
  }

  /** value & (1 << j) */
  predicate ValueBit(value: nat, j: nat) {
    value / Pow2(j) % 2 == 1
  }

  function WithBit(bytes: seq<Byte>, k: nat, on: bool): seq<Byte>
    requires k / 8 < |bytes|
  {
    bytes[k / 8 := bytes[k / 8][k % 8 := on]]
  }

  /** The first i of a field's bits written, from its top. */
  function Written(bytes: seq<Byte>, offset: nat, width: nat, value: nat, i: nat): (r: seq<Byte>)
    requires i <= width && offset + width <= 8 * |bytes|
    ensures |r| == |bytes|
  {
    if i == 0 then bytes
    else WithBit(Written(bytes, offset, width, value, i - 1), offset + i - 1, ValueBit(value, width - i))
  }

  /** A buffer with one field overwritten. */
  function WithField(bytes: seq<Byte>, offset: nat, width: nat, value: nat): (r: seq<Byte>)
    requires offset + width <= 8 * |bytes|
    ensures |r| == |bytes|
  {
    Written(bytes, offset, width, value, width)
  }

  /** The number a field denotes. */
  function Field(bytes: seq<Byte>, offset: nat, width: nat): nat
    requires offset + width <= 8 * |bytes|
  {
    if width == 0 then 0
    else 2 * Field(bytes, offset, width - 1) + (if Bit(bytes, offset + width - 1) then 1 else 0)
  }

  lemma BitOfWithBit(bytes: seq<Byte>, k: nat, on: bool, j: nat)
    requires k < 8 * |bytes| && j < 8 * |bytes|
    ensures Bit(WithBit(bytes, k, on), j) == if j == k then on else Bit(bytes, j)
  {
  }

  lemma {:induction false} BitOfWritten(bytes: seq<Byte>, offset: nat, width: nat, value: nat, i: nat, j: nat)
    requires i <= width && offset + width <= 8 * |bytes| && j < 8 * |bytes|
    ensures Bit(Written(bytes, offset, width, value, i), j) ==
            if offset <= j < offset + i then ValueBit(value, width - 1 - (j - offset)) else Bit(bytes, j)
  {
    hide ValueBit, WithBit, Bit;
    if i > 0 {
      BitOfWritten(bytes, offset, width, value, i - 1, j);
      BitOfWithBit(Written(bytes, offset, width, value, i - 1), offset + i - 1, ValueBit(value, width - i), j);
    }
  }

  /** Writing a field changes no other bit. */
  lemma OtherBitsKept(bytes: seq<Byte>, offset: nat, width: nat, value: nat, j: nat)
    requires offset + width <= 8 * |bytes| && j < 8 * |bytes|
    ensures Bit(WithField(bytes, offset, width, value), j) ==
            if offset <= j < offset + width then ValueBit(value, width - 1 - (j - offset)) else Bit(bytes, j)
  {
    BitOfWritten(bytes, offset, width, value, width, j);
  }

  /** Fields that share no bit do not disturb each other. */
  lemma {:induction false} OtherFieldsKept(bytes: seq<Byte>, offset: nat, width: nat, value: nat, o: nat, w: nat)
    requires offset + width <= 8 * |bytes| && o + w <= 8 * |bytes|
    requires o + w <= offset || offset + width <= o
    ensures Field(WithField(bytes, offset, width, value), o, w) == Field(bytes, o, w)
  {
    hide WithField, Bit;
    if w > 0 {
      OtherFieldsKept(bytes, offset, width, value, o, w - 1);
      OtherBitsKept(bytes, offset, width, value, o + w - 1);
    }
  }

  /** Reading back the field just written gives the value modulo 2^width. */
  lemma FieldRoundTrip(bytes: seq<Byte>, offset: nat, width: nat, value: nat)
    requires offset + width <= 8 * |bytes|
    ensures Field(WithField(bytes, offset, width, value), offset, width) == value % Pow2(width)
  {
    TopBits(bytes, offset, width, value, width);
    assert Pow2(0) == 1;
  }

  lemma {:induction false} TopBits(bytes: seq<Byte>, offset: nat, width: nat, value: nat, i: nat)
    requires offset + width <= 8 * |bytes| && i <= width
    ensures Field(WithField(bytes, offset, width, value), offset, i) ==
            value / Pow2(width - i) % Pow2(i)
  {
    hide WithField, Bit;
    if i > 0 {
      TopBits(bytes, offset, width, value, i - 1);
      OtherBitsKept(bytes, offset, width, value, offset + i - 1);
      OneMoreBit(value, width - i, i - 1);
    }
  }

  /** Dividing by half as much and keeping one bit more. */
  lemma OneMoreBit(value: nat, j: nat, i: nat)
    ensures value / Pow2(j) % Pow2(i + 1) ==
            2 * (value / Pow2(j + 1) % Pow2(i)) + value / Pow2(j) % 2
  {
    var x := value / Pow2(j);
    HalveQuotient(value, Pow2(j));
    ModDouble(x, Pow2(i));
  }

  lemma HalveQuotient(value: nat, m: nat)
    requires m > 0
    ensures value / m / 2 == value / (2 * m)
  {
    var q, r := value / (2 * m), value % (2 * m);
    assert value == 2 * q * m + r;
    SkipLaps(2 * q, m, r);
    MultipleGap(r / m - 1, m);
    assert r == (r / m - 1) * m + m + r % m;
  }

  lemma ModDouble(x: nat, m: nat)
    requires m > 0
    ensures x % (2 * m) == 2 * (x / 2 % m) + x % 2
  {
    var q, r := x / 2 / m, x / 2 % m;
    assert x == q * (2 * m) + (2 * r + x % 2) by { assert x / 2 == q * m + r; }
    SkipLaps(q, 2 * m, 2 * r + x % 2);
    Small(2 * r + x % 2, 2 * m);
  }

  lemma Small(r: nat, m: nat)
    requires r < m
    ensures r % m == r
  {
  }

  lemma {:induction false} FieldIsBelow(bytes: seq<Byte>, offset: nat, width: nat)
    requires offset + width <= 8 * |bytes|
    ensures Field(bytes, offset, width) < Pow2(width)
  {
    if width > 0 { FieldIsBelow(bytes, offset, width - 1); }
  }

  /** mlxSetBits */
  method SetBits(buffer: array<Byte>, offset: nat, width: nat, value: nat)
    requires width <= 64 && offset + width <= 8 * buffer.Length
    modifies buffer
    ensures buffer[..] == WithField(old(buffer[..]), offset, width, value)
  {
    for i := 0 to width
      invariant buffer[..] == Written(old(buffer[..]), offset, width, value, i)
    {
      ghost var before := buffer[..];
      var dst := offset + i;
      buffer[dst / 8] := buffer[dst / 8][dst % 8 := ValueBit(value, width - i - 1)];
      assert buffer[..] == WithBit(before, dst, ValueBit(value, width - i - 1));
    }
  }

  /** mlxGetBits; the accumulator stays below 2^64. */
  method GetBits(buffer: array<Byte>, offset: nat, width: nat) returns (value: nat)
    requires width <= 64 && offset + width <= 8 * buffer.Length
    ensures value == Field(buffer[..], offset, width) < Pow2(width)
  {
    value := 0;
    for i := 0 to width
      invariant value == Field(buffer[..], offset, i)
    {
      var src := offset + i;
      value := 2 * value + if buffer[src / 8][src % 8] then 1 else 0;
    }
    FieldIsBelow(buffer[..], offset, width);
  }

  // Tables of fields

  datatype Spec = Spec(offset: nat, width: nat, value: nat)

  predicate Apart(f: Spec, g: Spec) {
    f.offset + f.width <= g.offset || g.offset + g.width <= f.offset
  }

  ghost predicate PairwiseApart(fields: seq<Spec>) {
    forall i, j :: 0 <= i < j < |fields| ==> Apart(fields[i], fields[j])
  }

  ghost predicate Within(fields: seq<Spec>, bits: nat) {
    forall i :: 0 <= i < |fields| ==> fields[i].offset + fields[i].width <= bits && fields[i].width <= 64
  }

  /** The fields written one after another. */
  ghost function WithFields(bytes: seq<Byte>, fields: seq<Spec>): (r: seq<Byte>)
    requires Within(fields, 8 * |bytes|)
    ensures |r| == |bytes|
    decreases |fields|
  {
    if fields == [] then bytes
    else
      var init, last := fields[..|fields| - 1], fields[|fields| - 1];
      WithField(WithFields(bytes, init), last.offset, last.width, last.value)
  }

  /** If no two fields overlap, each decodes to what was encoded. */
  lemma {:induction false} EveryFieldDecodes(bytes: seq<Byte>, fields: seq<Spec>, i: nat)
    requires Within(fields, 8 * |bytes|) && PairwiseApart(fields) && i < |fields|
    ensures Field(WithFields(bytes, fields), fields[i].offset, fields[i].width) ==
            fields[i].value % Pow2(fields[i].width)
    decreases |fields|
  {
    hide WithField, Field, Pow2;
    var init, last := fields[..|fields| - 1], fields[|fields| - 1];
    var before := WithFields(bytes, init);
    if i == |fields| - 1 {
      FieldRoundTrip(before, last.offset, last.width, last.value);
    } else {
      EveryFieldDecodes(bytes, init, i);
      assert Apart(fields[i], last);
      OtherFieldsKept(before, last.offset, last.width, last.value, fields[i].offset, fields[i].width);
    }
  }

  /** Bits outside every field are as before. */
  lemma {:induction false} OutsideFieldsKept(bytes: seq<Byte>, fields: seq<Spec>, k: nat)
    requires Within(fields, 8 * |bytes|) && k < 8 * |bytes|
    requires forall i :: 0 <= i < |fields| ==> !(fields[i].offset <= k < fields[i].offset + fields[i].width)
    ensures Bit(WithFields(bytes, fields), k) == Bit(bytes, k)
    decreases |fields|
  {
    hide WithField, Bit;
    if fields != [] {
      var init, last := fields[..|fields| - 1], fields[|fields| - 1];
      OutsideFieldsKept(bytes, init, k);
      OtherBitsKept(WithFields(bytes, init), last.offset, last.width, last.value, k);
    }
  }

  method SetAll(buffer: array<Byte>, fields: seq<Spec>)
    requires Within(fields, 8 * buffer.Length)
    modifies buffer
    ensures buffer[..] == WithFields(old(buffer[..]), fields)
  {
    hide WithField;
    for i := 0 to |fields|
      invariant buffer[..] == WithFields(old(buffer[..]), fields[..i])
    {
      assert fields[..i + 1][..i] == fields[..i];
      SetBits(buffer, fields[i].offset, fields[i].width, fields[i].value);
    }
    assert fields[..|fields|] == fields;
  }
}
