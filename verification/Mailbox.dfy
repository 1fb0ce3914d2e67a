/** One command in flight: its descriptor and its mailboxes, filled and read in place. */
module Mailbox {
  import opened Status
  import opened Checksum
  import opened MailboxFormat

  function Splice(s: seq<Byte>, off: nat, bytes: seq<Byte>): (r: seq<Byte>)
    requires off + |bytes| <= |s|
    ensures |r| == |s|
  {
    s[..off] + bytes + s[off + |bytes|..]
  }

  /** Copies bytes into a buffer at an offset. */
  method Write(buf: array<Byte>, off: nat, bytes: seq<Byte>)
    requires off + |bytes| <= buf.Length
    modifies buf
    ensures buf[..] == Splice(old(buf[..]), off, bytes)
  {
    for k := 0 to |bytes|
      invariant buf[..] == old(buf[..off]) + bytes[..k] + old(buf[off + k..])
    {
      ghost var before := buf[..];
      buf[off + k] := bytes[k];
      assert buf[..] == before[off + k := bytes[k]];
      assert bytes[..k + 1] == bytes[..k] + [bytes[k]];
    }
  }

  lemma SpliceAt(a: seq<Byte>, b: seq<Byte>, c: seq<Byte>, bytes: seq<Byte>)
    requires |bytes| == |b|
    ensures Splice(a + b + c, |a|, bytes) == a + bytes + c
  {
  }

  lemma SplicedBlock(data: seq<Byte>, next: Address, number: nat, token: Byte)
    requires |data| <= DATA_BYTES && number < MAX_BLOCKS
    ensures Splice(Splice(Splice(Zeros(BLOCK_BYTES), 0, data), NEXT, next), 568, Be32(number))[573 := token]
            == RawBlock(data, next, number, token)
  {
    hide Be32, Splice;
    SpliceAt([], Zeros(|data|), Zeros(BLOCK_BYTES - |data|), data);
    assert Zeros(BLOCK_BYTES) == [] + Zeros(|data|) + Zeros(BLOCK_BYTES - |data|);
    var front := Pad(data, DATA_BYTES) + Zeros(48);
    SpliceAt(front, Zeros(8), Zeros(8), next);
    assert [] + data + Zeros(BLOCK_BYTES - |data|) == front + Zeros(8) + Zeros(8);
    SpliceAt(front + next, Zeros(4), Zeros(4), Be32(number));
    assert front + next + Zeros(8) == (front + next) + Zeros(4) + Zeros(4);
  }

  /** Type, token and ownership, the single bytes of a descriptor. */
  function Finished(s: seq<Byte>, token: Byte): seq<Byte>
    requires |s| == Checksum.DESCRIPTOR_BYTES
  {
    var typed: seq<Byte> := s[0 := PCI_CMD_XPORT];
    var tokened: seq<Byte> := typed[60 := token];
    tokened[63 := OWNER_HW]
  }

  lemma SplicedDescriptor(s: seq<Byte>, message: seq<Byte>, inPtr: Address, outPtr: Address, outSize: nat, token: Byte)
    requires |s| == Checksum.DESCRIPTOR_BYTES && |message| <= MAX_SIZE && outSize <= MAX_SIZE
    ensures var cleared := Splice(s, 0, Zeros(Checksum.DESCRIPTOR_BYTES));
            var input := Splice(Splice(Splice(cleared, 16, Inline(message)), 8, inPtr), 4, Be32(|message|));
            var output := Splice(Splice(input, 48, outPtr), 56, Be32(outSize));
            Finished(output, token) == RawDescriptor(message, inPtr, outPtr, outSize, token)
  {
    hide Be32, Splice;
    var z4, z8, z16 := Zeros(4), Zeros(8), Zeros(16);
    var head, len, outLen := Inline(message), Be32(|message|), Be32(outSize);
    SpliceAt([], s, [], Zeros(Checksum.DESCRIPTOR_BYTES));
    assert s == [] + s + [] && Zeros(Checksum.DESCRIPTOR_BYTES) == [] + Zeros(Checksum.DESCRIPTOR_BYTES) + [];
    SpliceAt(z16, Zeros(|head|), Zeros(48 - |head|), head);
    assert Zeros(Checksum.DESCRIPTOR_BYTES) == z16 + Zeros(|head|) + Zeros(48 - |head|);
    var rest := Pad(head, INLINE_BYTES) + z16;
    SpliceAt(z8, z8, rest + z16, inPtr);
    assert z16 + head + Zeros(48 - |head|) == z8 + z8 + (rest + z16);
    SpliceAt(z4, z4, inPtr + (rest + z16), len);
    assert z8 + inPtr + (rest + z16) == z4 + z4 + (inPtr + (rest + z16));
    var front := z4 + len + inPtr + rest;
    SpliceAt(front, z8, z8, outPtr);
    assert z4 + len + (inPtr + (rest + z16)) == front + z8 + z8;
    SpliceAt(front + outPtr, z4, z4, outLen);
    assert front + outPtr + z8 == (front + outPtr) + z4 + z4;
  }

  /** Fills one zeroed block and signs it. */
  method FillBlock(mb: array<Byte>, data: seq<Byte>, next: Address, number: nat, token: Byte)
    requires mb[..] == Zeros(BLOCK_BYTES) && |data| <= DATA_BYTES && number < MAX_BLOCKS
    modifies mb
    ensures mb[..] == Block(data, next, number, token)
  {
    hide SignBlock, Be32, Splice, RawBlock;
    SplicedBlock(data, next, number, token);
    assert mb.Length == |mb[..]|;
    Write(mb, 0, data);
    Write(mb, NEXT, next);
    Write(mb, 568, Be32(number));
    ghost var filled := mb[..];
    mb[573] := token;
    assert mb[..] == filled[573 := token];
    SetMailboxSignature(mb);
  }

  class Entry {
    const lay: array<Byte>
    var inMailbox: seq<array<Byte>>
    var inMailboxDMA: seq<Address>
    var outMailbox: seq<array<Byte>>
    var outMailboxDMA: seq<Address>
    const token: Byte

    ghost predicate Distinct()
      reads this
    {
      && (forall i, j :: 0 <= i < j < |inMailbox| ==> inMailbox[i] != inMailbox[j])
      && (forall i, j :: 0 <= i < j < |outMailbox| ==> outMailbox[i] != outMailbox[j])
      && (forall i, j :: 0 <= i < |inMailbox| && 0 <= j < |outMailbox| ==> inMailbox[i] != outMailbox[j])
      && lay !in inMailbox && lay !in outMailbox
    }

    ghost predicate Valid()
      reads this
    {
      && lay.Length == Checksum.DESCRIPTOR_BYTES && Distinct()
      && |inMailbox| == |inMailboxDMA| <= MAX_BLOCKS && |outMailbox| == |outMailboxDMA| <= MAX_BLOCKS
    }

    ghost predicate Zeroed(boxes: seq<array<Byte>>)
      reads boxes
    {
      forall i :: 0 <= i < |boxes| ==> boxes[i][..] == Zeros(BLOCK_BYTES)
    }

    constructor (lay: array<Byte>, token: Byte)
      requires lay.Length == Checksum.DESCRIPTOR_BYTES
      ensures Valid() && this.lay == lay && this.token == token
      ensures inMailbox == outMailbox == []
    {
      this.lay, this.token := lay, token;
      inMailbox, inMailboxDMA, outMailbox, outMailboxDMA := [], [], [], [];
    }

    /** Zeroed mailboxes for both directions; the addresses are those DMA mapping returns. A
        command too large for eight blocks, or memory running out, leaves no mailbox behind. */
    method AllocMailbox(inSize: nat, outSize: nat, inDMA: seq<Address>, outDMA: seq<Address>, memoryLeft: bool)
      returns (kr: Kr)
      requires Valid() && |inDMA| == NumBlocks(inSize) && |outDMA| == NumBlocks(outSize)
      modifies this`inMailbox, this`inMailboxDMA, this`outMailbox, this`outMailboxDMA
      ensures Valid()
      ensures kr == if inSize > MAX_SIZE || outSize > MAX_SIZE then NoSpace
                    else if memoryLeft then Success else NoMemory
      ensures kr.Success? ==> inMailboxDMA == inDMA && outMailboxDMA == outDMA
                              && Zeroed(inMailbox) && Zeroed(outMailbox)
      ensures kr.Success? ==> (forall i :: 0 <= i < |inMailbox| ==> fresh(inMailbox[i]))
                              && forall i :: 0 <= i < |outMailbox| ==> fresh(outMailbox[i])
      ensures !kr.Success? ==> inMailbox == outMailbox == []
    {
      inMailbox, inMailboxDMA, outMailbox, outMailboxDMA := [], [], [], [];
      if NumBlocks(inSize) > MAX_BLOCKS || NumBlocks(outSize) > MAX_BLOCKS {
        return NoSpace;
      }
      if !memoryLeft {
        return NoMemory;
      }
      var inBoxes := NewBoxes(|inDMA|);
      var outBoxes := NewBoxes(|outDMA|);
      inMailbox, inMailboxDMA, outMailbox, outMailboxDMA := inBoxes, inDMA, outBoxes, outDMA;
      kr := Success;
    }

    method NewBoxes(n: nat) returns (boxes: seq<array<Byte>>)
      ensures |boxes| == n && (forall j :: 0 <= j < |boxes| ==> fresh(boxes[j]))
      ensures Zeroed(boxes) && forall i, j :: 0 <= i < j < n ==> boxes[i] != boxes[j]
    {
      boxes := [];
      while |boxes| < n
        invariant |boxes| <= n && (forall j :: 0 <= j < |boxes| ==> fresh(boxes[j]))
        invariant Zeroed(boxes) && forall i, j :: 0 <= i < j < |boxes| ==> boxes[i] != boxes[j]
      {
        var box := new Byte[BLOCK_BYTES](_ => 0);
        assert box[..] == Zeros(BLOCK_BYTES);
        boxes := boxes + [box];
      }
    }

    method FillChain(boxes: seq<array<Byte>>, dma: seq<Address>, message: seq<Byte>)
      requires |boxes| == |dma| <= MAX_BLOCKS && Zeroed(boxes)
      requires forall i, j :: 0 <= i < j < |boxes| ==> boxes[i] != boxes[j]
      modifies set b | b in boxes
      ensures forall i :: 0 <= i < |boxes| ==> boxes[i][..] == MessageBlock(message, dma, token, i)
    {
      hide MessageBlock, Zeros;
      for i := 0 to |boxes|
        invariant forall k :: 0 <= k < i ==> boxes[k][..] == MessageBlock(message, dma, token, k)
        invariant forall k :: i <= k < |boxes| ==> boxes[k][..] == Zeros(BLOCK_BYTES)
      {
        FillMessageBlock(boxes[i], dma, message, i);
      }
    }

    method FillMessageBlock(mb: array<Byte>, dma: seq<Address>, message: seq<Byte>, i: nat)
      requires mb[..] == Zeros(BLOCK_BYTES) && i < MAX_BLOCKS
      modifies mb
      ensures mb[..] == MessageBlock(message, dma, token, i)
    {
      hide Block, Chunk;
      ChunkSizes(message, i);
      FillBlock(mb, Chunk(message, i), NextAddress(dma, i), i, token);
    }

    /** Everything firmware will read, just before the doorbell. */
    method Submit(message: seq<Byte>, outSize: nat)
      requires Valid() && Zeroed(inMailbox) && Zeroed(outMailbox)
      requires |message| <= MAX_SIZE && outSize <= MAX_SIZE
      modifies lay, set b | b in inMailbox, set b | b in outMailbox
      ensures forall i :: 0 <= i < |inMailbox| ==>
                inMailbox[i][..] == MessageBlock(message, inMailboxDMA, token, i)
      ensures forall i :: 0 <= i < |outMailbox| ==>
                outMailbox[i][..] == MessageBlock([], outMailboxDMA, token, i)
      ensures lay[..] == Descriptor(message, First(inMailboxDMA), First(outMailboxDMA), outSize, token)
    {
      hide MessageBlock, Descriptor, Zeros;
      FillChain(inMailbox, inMailboxDMA, message);
      FillChain(outMailbox, outMailboxDMA, []);
      FillDescriptor(message, outSize);
    }

    method FillDescriptor(message: seq<Byte>, outSize: nat)
      requires Valid() && |message| <= MAX_SIZE && outSize <= MAX_SIZE
      modifies lay
      ensures lay[..] == Descriptor(message, First(inMailboxDMA), First(outMailboxDMA), outSize, token)
    {
      hide SignDescriptor, Be32, Splice, RawDescriptor;
      SplicedDescriptor(lay[..], message, First(inMailboxDMA), First(outMailboxDMA), outSize, token);
      Write(lay, 0, Zeros(Checksum.DESCRIPTOR_BYTES));
      Write(lay, 16, Inline(message));
      Write(lay, 8, First(inMailboxDMA));
      Write(lay, 4, Be32(|message|));
      Write(lay, 48, First(outMailboxDMA));
      Write(lay, 56, Be32(outSize));
      ghost var filled: seq<Byte> := lay[..];
      lay[0], lay[60], lay[63] := PCI_CMD_XPORT, token, OWNER_HW;
      assert lay[..] == Finished(filled, token);
      SetSignature(lay);
    }

    ghost function Blocks(boxes: seq<array<Byte>>): seq<seq<Byte>>
      reads boxes
    {
      seq(|boxes|, i requires 0 <= i < |boxes| reads boxes => boxes[i][..])
    }

    /** Copies the response out of the descriptor and the mailboxes. */
    method CopyResponse(output: array<Byte>)
      requires Valid() && |outMailbox| == NumBlocks(output.Length)
      requires forall i :: 0 <= i < |outMailbox| ==> outMailbox[i].Length == BLOCK_BYTES
      requires output != lay && output !in outMailbox
      modifies output
      ensures output[..] == Response(lay[..], Blocks(outMailbox), output.Length)
    {
      hide Collected, NumBlocks;
      var size := output.Length;
      var copied := Min(size, INLINE_BYTES);
      Write(output, 0, lay[32..32 + copied]);
      ghost var blocks := Blocks(outMailbox);
      ghost var head := lay[32..48][..copied];
      CollectNone(blocks, size);
      for i := 0 to |outMailbox|
        invariant copied == Min(size, INLINE_BYTES + i * DATA_BYTES)
        invariant Blocks(outMailbox) == blocks && output[..copied] == head + Collected(blocks, size, i)
      {
        BlockBegins(size, i);
        var length := Min(size - copied, DATA_BYTES);
        ghost var before := output[..];
        Write(output, copied, outMailbox[i][..length]);
        CollectOne(blocks, size, i, head, before, output[..]);
        copied := copied + length;
      }
      EnoughCopied(size);
    }
  }

  lemma CollectNone(blocks: seq<seq<Byte>>, size: nat)
    requires forall k :: 0 <= k < |blocks| ==> |blocks[k]| == BLOCK_BYTES
    ensures Collected(blocks, size, 0) == []
  {
  }

  lemma CollectOne(blocks: seq<seq<Byte>>, size: nat, i: nat, head: seq<Byte>, before: seq<Byte>, after: seq<Byte>)
    requires i < |blocks| == NumBlocks(size) && |before| == size
    requires forall k :: 0 <= k < |blocks| ==> |blocks[k]| == BLOCK_BYTES
    requires INLINE_BYTES + i * DATA_BYTES < size
    requires before[..INLINE_BYTES + i * DATA_BYTES] == head + Collected(blocks, size, i)
    requires after == Splice(before, INLINE_BYTES + i * DATA_BYTES,
                             blocks[i][..Min(size - INLINE_BYTES - i * DATA_BYTES, DATA_BYTES)])
    ensures after[..Min(size, INLINE_BYTES + (i + 1) * DATA_BYTES)] == head + Collected(blocks, size, i + 1)
  {
    var from := INLINE_BYTES + i * DATA_BYTES;
    var part := blocks[i][..Min(size - from, DATA_BYTES)];
    assert part == Data(blocks[i])[..Min(size - from, DATA_BYTES)];
    assert after[..from + |part|] == before[..from] + part;
    assert (head + Collected(blocks, size, i)) + part == head + (Collected(blocks, size, i) + part);
  }

  lemma BlockBegins(size: nat, i: nat)
    requires i < NumBlocks(size)
    ensures INLINE_BYTES + i * DATA_BYTES < size
    ensures Min(size, INLINE_BYTES + i * DATA_BYTES) == INLINE_BYTES + i * DATA_BYTES
  {
  }

  lemma EnoughCopied(size: nat)
    ensures Min(size, INLINE_BYTES + NumBlocks(size) * DATA_BYTES) == size
  {
  }
}
