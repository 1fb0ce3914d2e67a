/** The XOR checksums of command descriptors and mailbox blocks. */
module Checksum {
  type Byte = x: nat | x < 256

  const BLOCK_BYTES: nat := 576
  const DATA_BYTES: nat := 512
  const CTRL_SIG: nat := 574
  const SIG: nat := 575
  const DESCRIPTOR_BYTES: nat := 64
  const DESCRIPTOR_SIG: nat := 61

  /** Exclusive or of two n-bit numbers, bit by bit. */
  function JoinBits(a: nat, b: nat, n: nat): (r: nat)
    ensures r <= Full(n)
  {
    if n == 0 then 0 else 2 * JoinBits(a / 2, b / 2, n - 1) + (a + b) % 2
  }

  /** The n-bit number with every bit set. */
  function Full(n: nat): nat {
    if n == 0 then 0 else 2 * Full(n - 1) + 1
  }

  function Join(a: Byte, b: Byte): Byte {
    FullByte();
    JoinBits(a, b, 8)
  }

  function Flip(a: Byte): Byte {
    255 - a
  }

  lemma FullByte()
    ensures Full(8) == 255
  {
    assert Full(4) == 15;
    assert Full(8) == 2 * (2 * (2 * (2 * Full(4) + 1) + 1) + 1) + 1;
  }

  function Xor(s: seq<Byte>): Byte {
    if s == [] then 0 else Join(Xor(s[..|s| - 1]), s[|s| - 1])
  }

  /** A region that carries its own checksum XORs to this. */
  const SIGNED: Byte := 255

  /** setMailboxSignature: first the control part, then everything up to the last byte. */
  function SignBlock(b: seq<Byte>): (r: seq<Byte>)
    requires |b| == BLOCK_BYTES
  {
    var c := b[CTRL_SIG := Flip(Xor(b[DATA_BYTES..CTRL_SIG]))];
    c[SIG := Flip(Xor(c[..SIG]))]
  }

  /** setSignature: over the whole descriptor, its signature byte counting as zero. */
  function SignDescriptor(d: seq<Byte>): (r: seq<Byte>)
    requires |d| == DESCRIPTOR_BYTES
  {
    var c := d[DESCRIPTOR_SIG := 0];
    c[DESCRIPTOR_SIG := Flip(Xor(c))]
  }

  // Bytes

  lemma JoinLaws(a: Byte, b: Byte, c: Byte)
    ensures Join(Join(a, b), c) == Join(a, Join(b, c)) && Join(a, b) == Join(b, a)
    ensures Join(a, 0) == a
  {
    hide JoinBits, Full;
    FullByte();
    JoinAssociates(a, b, c, 8);
    JoinCommutes(a, b, 8);
    JoinZero(a, 8);
  }

  lemma FlipCompletes(a: Byte, b: Byte)
    ensures Join(a, Flip(a)) == SIGNED
    ensures Flip(Join(a, Join(b, Flip(b)))) == a
  {
    hide JoinBits, Full;
    FullByte();
    JoinComplement(a, 8);
    JoinComplement(b, 8);
    JoinFull(a, 8);
  }

  lemma JoinHead(a: nat, b: nat, n: nat)
    requires n > 0
    ensures JoinBits(a, b, n) / 2 == JoinBits(a / 2, b / 2, n - 1)
    ensures JoinBits(a, b, n) % 2 == (a + b) % 2
  {
  }

  lemma {:induction false} JoinAssociates(a: nat, b: nat, c: nat, n: nat)
    ensures JoinBits(JoinBits(a, b, n), c, n) == JoinBits(a, JoinBits(b, c, n), n)
  {
    if n > 0 {
      var ab, bc := JoinBits(a, b, n), JoinBits(b, c, n);
      JoinHead(a, b, n);
      JoinHead(b, c, n);
      JoinHead(ab, c, n);
      JoinHead(a, bc, n);
      JoinAssociates(a / 2, b / 2, c / 2, n - 1);
      Parities(a, b, c, ab, bc);
    }
  }

  lemma Parities(a: nat, b: nat, c: nat, ab: nat, bc: nat)
    requires ab % 2 == (a + b) % 2 && bc % 2 == (b + c) % 2
    ensures (ab + c) % 2 == (a + bc) % 2
  {
  }

  lemma {:induction false} JoinCommutes(a: nat, b: nat, n: nat)
    ensures JoinBits(a, b, n) == JoinBits(b, a, n)
  {
    if n > 0 { JoinCommutes(a / 2, b / 2, n - 1); }
  }

  lemma {:induction false} JoinZero(a: nat, n: nat)
    requires a <= Full(n)
    ensures JoinBits(a, 0, n) == a
  {
    if n > 0 { JoinZero(a / 2, n - 1); }
  }

  lemma {:induction false} JoinComplement(a: nat, n: nat)
    requires a <= Full(n)
    ensures JoinBits(a, Full(n) - a, n) == Full(n)
  {
    if n > 0 {
      Halves(a, Full(n - 1));
      JoinHead(a, Full(n) - a, n);
      JoinComplement(a / 2, n - 1);
    }
  }

  lemma {:induction false} JoinFull(a: nat, n: nat)
    requires a <= Full(n)
    ensures JoinBits(a, Full(n), n) == Full(n) - a
  {
    if n > 0 {
      Halves(a, Full(n - 1));
      JoinHead(a, Full(n), n);
      JoinFull(a / 2, n - 1);
    }
  }

  lemma Halves(a: nat, half: nat)
    requires a <= 2 * half + 1
    ensures a / 2 <= half && (2 * half + 1) / 2 == half && (2 * half + 1 - a) / 2 == half - a / 2
    ensures (a + (2 * half + 1)) % 2 == (2 * half + 1 - a) % 2
  {
  }

  // Regions

  lemma {:induction false} XorConcat(a: seq<Byte>, b: seq<Byte>)
    ensures Xor(a + b) == Join(Xor(a), Xor(b))
  {
    hide Join;
    if b == [] {
      assert a + b == a;
      JoinLaws(Xor(a), 0, 0);
    } else {
      var init, last := b[..|b| - 1], b[|b| - 1];
      assert (a + b)[..|a + b| - 1] == a + init;
      XorConcat(a, init);
      JoinLaws(Xor(a), Xor(init), last);
    }
  }

  lemma XorOne(x: Byte)
    ensures Xor([x]) == x
  {
    hide Join;
    assert [x][..0] == [];
    JoinLaws(0, x, 0);
    JoinLaws(x, 0, 0);
  }

  /** A region followed by the complement of its checksum is signed. */
  lemma CompletedRegion(s: seq<Byte>)
    ensures Xor(s + [Flip(Xor(s))]) == SIGNED
  {
    hide Join, Flip;
    XorConcat(s, [Flip(Xor(s))]);
    XorOne(Flip(Xor(s)));
    FlipCompletes(Xor(s), 0);
  }

  /** A signed block checks out as a whole and in its control part, and the last signature is
      just the XOR of the 512 data bytes. Nothing but the two signatures has changed. */
  lemma SignedBlock(b: seq<Byte>)
    requires |b| == BLOCK_BYTES
    ensures |SignBlock(b)| == BLOCK_BYTES
    ensures Xor(SignBlock(b)) == SIGNED
    ensures Xor(SignBlock(b)[DATA_BYTES..SIG]) == SIGNED
    ensures SignBlock(b)[SIG] == Xor(b[..DATA_BYTES])
    ensures SignBlock(b)[..CTRL_SIG] == b[..CTRL_SIG]
  {
    hide Join, Flip, Xor;
    var data, control := b[..DATA_BYTES], b[DATA_BYTES..CTRL_SIG];
    var r := SignBlock(b);
    var ctrlSig := Flip(Xor(control));
    assert r[..SIG] == data + (control + [ctrlSig]);
    CompletedRegion(control);
    assert r[DATA_BYTES..SIG] == control + [ctrlSig];
    CompletedRegion(r[..SIG]);
    assert r == r[..SIG] + [Flip(Xor(r[..SIG]))];
    XorConcat(data, control + [ctrlSig]);
    XorConcat(control, [ctrlSig]);
    XorOne(ctrlSig);
    FlipCompletes(Xor(data), Xor(control));
  }

  lemma SignedDescriptor(d: seq<Byte>)
    requires |d| == DESCRIPTOR_BYTES
    ensures |SignDescriptor(d)| == DESCRIPTOR_BYTES
    ensures Xor(SignDescriptor(d)) == SIGNED
    ensures forall i :: 0 <= i < DESCRIPTOR_BYTES && i != DESCRIPTOR_SIG ==> SignDescriptor(d)[i] == d[i]
  {
    hide Join, Flip, Xor;
    var c, r := d[DESCRIPTOR_SIG := 0], SignDescriptor(d);
    var left, right := d[..DESCRIPTOR_SIG], d[DESCRIPTOR_SIG + 1..];
    assert c == left + ([0] + right);
    assert r == left + ([Flip(Xor(c))] + right);
    var sum := Join(Xor(left), Xor(right));
    MiddleByte(left, 0, right);
    MiddleByte(left, Flip(Xor(c)), right);
    JoinLaws(sum, 0, 0);
    FlipCompletes(sum, 0);
  }

  lemma MiddleByte(left: seq<Byte>, x: Byte, right: seq<Byte>)
    ensures Xor(left + ([x] + right)) == Join(Join(Xor(left), Xor(right)), x)
  {
    hide Join, Xor;
    XorConcat(left, [x] + right);
    XorConcat([x], right);
    XorOne(x);
    JoinLaws(x, Xor(right), 0);
    JoinLaws(Xor(left), Xor(right), x);
  }

  // The loops

  method Xor8Buf(buf: array<Byte>, off: nat, len: nat) returns (acc: Byte)
    requires off + len <= buf.Length
    ensures acc == Xor(buf[off..off + len])
  {
    acc := 0;
    for i := 0 to len
      invariant acc == Xor(buf[off..off + i])
    {
      assert buf[off..off + i + 1][..i] == buf[off..off + i];
      acc := Join(acc, buf[off + i]);
    }
  }

  method SetMailboxSignature(mb: array<Byte>)
    requires mb.Length == BLOCK_BYTES
    modifies mb
    ensures mb[..] == SignBlock(old(mb[..]))
  {
    hide Xor, Join, Flip;
    ghost var b := mb[..];
    var control := Xor8Buf(mb, DATA_BYTES, CTRL_SIG - DATA_BYTES);
    assert mb[DATA_BYTES..CTRL_SIG] == b[DATA_BYTES..CTRL_SIG];
    mb[CTRL_SIG] := Flip(control);
    assert mb[..] == b[CTRL_SIG := Flip(control)];
    var all := Xor8Buf(mb, 0, SIG);
    assert mb[0..SIG] == b[CTRL_SIG := Flip(control)][..SIG];
    mb[SIG] := Flip(all);
  }

  method SetSignature(lay: array<Byte>)
    requires lay.Length == DESCRIPTOR_BYTES
    modifies lay
    ensures lay[..] == SignDescriptor(old(lay[..]))
  {
    hide Xor, Join, Flip;
    ghost var d := lay[..];
    lay[DESCRIPTOR_SIG] := 0;
    assert lay[..] == d[DESCRIPTOR_SIG := 0];
    var all := Xor8Buf(lay, 0, DESCRIPTOR_BYTES);
    assert lay[0..DESCRIPTOR_BYTES] == lay[..];
    lay[DESCRIPTOR_SIG] := Flip(all);
  }
}
