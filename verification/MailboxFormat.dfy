/** The wire format of a firmware command: sixteen bytes inside the descriptor and the rest in a
    chain of mailbox blocks, as values. */
module MailboxFormat {
  import opened Checksum

  const INLINE_BYTES: nat := 16
  const MAX_BLOCKS: nat := 8
  const MAX_SIZE: nat := INLINE_BYTES + MAX_BLOCKS * DATA_BYTES
  const NEXT: nat := 560
  const OWNER_HW: Byte := 1
  const PCI_CMD_XPORT: Byte := 7

  /** A DMA address as its eight big-endian bytes. */
  type Address = a: seq<Byte> | |a| == 8 witness Zeros(8)

  type Memory = map<Address, seq<Byte>>

  function Zeros(n: nat): seq<Byte> {
    seq(n, _ => 0)
  }

  function Pad(s: seq<Byte>, n: nat): seq<Byte>
    requires |s| <= n
  {
    s + Zeros(n - |s|)
  }

  const NOWHERE: Address := Zeros(8)

  /** Blocks needed for what does not fit the descriptor. */
  function NumBlocks(size: nat): nat {
    if size > INLINE_BYTES then (size - INLINE_BYTES + DATA_BYTES - 1) / DATA_BYTES else 0
  }

  function Min(a: nat, b: nat): nat {
    if a < b then a else b
  }

  /** The part of a message that travels in block i. */
  function Chunk(message: seq<Byte>, i: nat): seq<Byte> {
    var from := INLINE_BYTES + i * DATA_BYTES;
    if from <= |message| then message[from..Min(|message|, from + DATA_BYTES)] else []
  }

  function Inline(message: seq<Byte>): seq<Byte> {
    message[..Min(|message|, INLINE_BYTES)]
  }

  /** The last n base-256 digits, most significant first. */
  function BigEndian(value: nat, n: nat): (r: seq<Byte>)
    ensures |r| == n
  {
    if n == 0 then [] else BigEndian(value / 256, n - 1) + [value % 256]
  }

  function FromBigEndian(s: seq<Byte>): nat {
    if s == [] then 0
    else
      var last: nat := s[|s| - 1];
      FromBigEndian(s[..|s| - 1]) * 256 + last
  }

  function Range(n: nat): nat {
    if n == 0 then 1 else Range(n - 1) * 256
  }

  lemma {:induction false} BigEndianRoundTrip(value: nat, n: nat)
    requires value < Range(n)
    ensures FromBigEndian(BigEndian(value, n)) == value
  {
    if n > 0 {
      BigEndianRoundTrip(value / 256, n - 1);
      assert BigEndian(value, n)[..n - 1] == BigEndian(value / 256, n - 1);
    }
  }

  function Be32(n: nat): (r: seq<Byte>)
    ensures |r| == 4
  {
    BigEndian(n, 4)
  }

  function FromBe32(s: seq<Byte>): nat
    requires |s| == 4
  {
    FromBigEndian(s)
  }

  lemma Be32RoundTrip(n: nat)
    requires n <= MAX_SIZE
    ensures FromBe32(Be32(n)) == n
  {
    hide BigEndian, FromBigEndian;
    assert Range(4) == 256 * 256 * 256 * 256;
    BigEndianRoundTrip(n, 4);
  }

  /** One block before it is signed: data, reserved bytes, next pointer, number and token. */
  function RawBlock(data: seq<Byte>, next: Address, number: nat, token: Byte): (r: seq<Byte>)
    requires |data| <= DATA_BYTES && number < MAX_BLOCKS
    ensures |r| == BLOCK_BYTES
  {
    Pad(data, DATA_BYTES) + Zeros(48) + next + Be32(number) + [0, token, 0, 0]
  }

  function Block(data: seq<Byte>, next: Address, number: nat, token: Byte): (r: seq<Byte>)
    requires |data| <= DATA_BYTES && number < MAX_BLOCKS
    ensures |r| == BLOCK_BYTES
  {
    SignBlock(RawBlock(data, next, number, token))
  }

  function Data(block: seq<Byte>): seq<Byte>
    requires |block| == BLOCK_BYTES
  {
    block[..DATA_BYTES]
  }

  function Next(block: seq<Byte>): Address
    requires |block| == BLOCK_BYTES
  {
    block[NEXT..NEXT + 8]
  }

  lemma BlockFields(data: seq<Byte>, next: Address, number: nat, token: Byte)
    requires |data| <= DATA_BYTES && number < MAX_BLOCKS
    ensures Data(Block(data, next, number, token)) == Pad(data, DATA_BYTES)
    ensures Next(Block(data, next, number, token)) == next
    ensures Block(data, next, number, token)[568..572] == Be32(number)
    ensures Block(data, next, number, token)[573] == token
  {
    hide Xor, Be32;
    var raw := RawBlock(data, next, number, token);
    SignedBlock(raw);
    var b := Block(data, next, number, token);
    assert forall k :: 0 <= k < CTRL_SIG ==> b[k] == b[..CTRL_SIG][k] == raw[k];
  }

  /** Where block i sends the reader on. */
  function NextAddress(dma: seq<Address>, i: nat): Address {
    if i + 1 < |dma| then dma[i + 1] else NOWHERE
  }

  function MessageBlock(message: seq<Byte>, dma: seq<Address>, token: Byte, i: nat): (r: seq<Byte>)
    requires i < MAX_BLOCKS
    ensures |r| == BLOCK_BYTES
  {
    Block(Chunk(message, i), NextAddress(dma, i), i, token)
  }

  function First(dma: seq<Address>): Address {
    if dma == [] then NOWHERE else dma[0]
  }

  /** The descriptor: type, input length and pointer, inline input, inline output, output pointer
      and length, token, and ownership given to firmware. */
  function RawDescriptor(message: seq<Byte>, inPtr: Address, outPtr: Address, outSize: nat, token: Byte): (r: seq<Byte>)
    requires |message| <= MAX_SIZE && outSize <= MAX_SIZE
    ensures |r| == DESCRIPTOR_BYTES
  {
    [PCI_CMD_XPORT, 0, 0, 0] + Be32(|message|) + inPtr + Pad(Inline(message), INLINE_BYTES)
    + Zeros(INLINE_BYTES) + outPtr + Be32(outSize) + [token, 0, 0, OWNER_HW]
  }

  function Descriptor(message: seq<Byte>, inPtr: Address, outPtr: Address, outSize: nat, token: Byte): (r: seq<Byte>)
    requires |message| <= MAX_SIZE && outSize <= MAX_SIZE
    ensures |r| == DESCRIPTOR_BYTES
  {
    SignDescriptor(RawDescriptor(message, inPtr, outPtr, outSize, token))
  }

  lemma DescriptorFields(message: seq<Byte>, inPtr: Address, outPtr: Address, outSize: nat, token: Byte)
    requires |message| <= MAX_SIZE && outSize <= MAX_SIZE
    ensures var d := Descriptor(message, inPtr, outPtr, outSize, token);
            && FromBe32(d[4..8]) == |message| && d[8..16] == inPtr
            && d[16..32] == Pad(Inline(message), INLINE_BYTES)
            && d[48..56] == outPtr && FromBe32(d[56..60]) == outSize && d[60] == token
  {
    hide Xor, Be32, FromBe32;
    var raw := RawDescriptor(message, inPtr, outPtr, outSize, token);
    SignedDescriptor(raw);
    var d := Descriptor(message, inPtr, outPtr, outSize, token);
    Be32RoundTrip(|message|);
    Be32RoundTrip(outSize);
    assert d[4..8] == Be32(|message|);
    assert d[56..60] == Be32(outSize);
  }

  // The firmware's side

  /** Follows n next pointers and collects the data it finds. */
  function Gather(mem: Memory, ptr: Address, n: nat): seq<Byte>
    decreases n
  {
    if n == 0 || ptr !in mem || |mem[ptr]| != BLOCK_BYTES then []
    else Data(mem[ptr]) + Gather(mem, Next(mem[ptr]), n - 1)
  }

  /** The command a descriptor denotes. */
  function ReadCommand(d: seq<Byte>, mem: Memory): seq<Byte>
    requires |d| == DESCRIPTOR_BYTES
  {
    var size := FromBe32(d[4..8]);
    var all := d[16..32] + Gather(mem, d[8..16], NumBlocks(size));
    if size <= |all| then all[..size] else []
  }

  /** Writes chunk after chunk along the chain, leaving everything but the data alone. */
  function Scatter(mem: Memory, ptr: Address, message: seq<Byte>, i: nat, n: nat): Memory
    decreases n - i
  {
    if i >= n || ptr !in mem || |mem[ptr]| != BLOCK_BYTES then mem
    else
      var written := mem[ptr := Pad(Chunk(message, i), DATA_BYTES) + mem[ptr][DATA_BYTES..]];
      Scatter(written, Next(mem[ptr]), message, i + 1, n)
  }

  /** The blocks lie in memory at their addresses. */
  ghost predicate Lies(mem: Memory, dma: seq<Address>, blocks: seq<seq<Byte>>) {
    && |dma| == |blocks|
    && (forall i, j :: 0 <= i < j < |dma| ==> dma[i] != dma[j])
    && forall i :: 0 <= i < |dma| ==> dma[i] in mem && mem[dma[i]] == blocks[i] && |blocks[i]| == BLOCK_BYTES
  }

  /** Each block points to the next. */
  ghost predicate Chained(dma: seq<Address>, blocks: seq<seq<Byte>>) {
    && |dma| == |blocks|
    && forall i :: 0 <= i < |blocks| ==> |blocks[i]| == BLOCK_BYTES && Next(blocks[i]) == NextAddress(dma, i)
  }

  lemma ChunkSizes(message: seq<Byte>, i: nat)
    ensures |Chunk(message, i)| <= DATA_BYTES
    ensures i + 1 < NumBlocks(|message|) ==> |Chunk(message, i)| == DATA_BYTES
    ensures i < NumBlocks(|message|) ==> INLINE_BYTES + i * DATA_BYTES < |message|
    ensures NumBlocks(|message|) <= i ==> Chunk(message, i) == []
  {
  }

  predicate StartsWith(long: seq<Byte>, short: seq<Byte>) {
    |short| <= |long| && long[..|short|] == short
  }

  /** The chain from block i on holds the message from there on, padded to whole blocks. */
  lemma {:induction false} GatherFrom(mem: Memory, dma: seq<Address>, blocks: seq<seq<Byte>>, message: seq<Byte>, i: nat)
    requires |dma| == NumBlocks(|message|) && i < |dma|
    requires Lies(mem, dma, blocks) && Chained(dma, blocks)
    requires forall k :: 0 <= k < |dma| ==> Data(blocks[k]) == Pad(Chunk(message, k), DATA_BYTES)
    ensures INLINE_BYTES + i * DATA_BYTES <= |message|
    ensures StartsWith(Gather(mem, dma[i], |dma| - i), message[INLINE_BYTES + i * DATA_BYTES..])
    decreases |dma| - i
  {
    hide Chained, Chunk, NumBlocks, Gather, Lies, Pad, StartsWith;
    ChunkSizes(message, i);
    GatherStep(mem, dma, blocks, i);
    assert Data(blocks[i]) == Pad(Chunk(message, i), DATA_BYTES);
    if i + 1 < |dma| {
      ChainStep(dma, blocks, i);
      GatherFrom(mem, dma, blocks, message, i + 1);
      FullChunk(message, i);
      Prefixed(Chunk(message, i), Gather(mem, dma[i + 1], |dma| - i - 1),
               message[INLINE_BYTES + (i + 1) * DATA_BYTES..]);
    } else {
      LastChunk(message, i);
      PadStartsWith(Chunk(message, i), Gather(mem, Next(blocks[i]), 0));
    }
  }

  lemma FullChunk(message: seq<Byte>, i: nat)
    requires i + 1 < NumBlocks(|message|)
    ensures |Chunk(message, i)| == DATA_BYTES && INLINE_BYTES + (i + 1) * DATA_BYTES <= |message|
    ensures Pad(Chunk(message, i), DATA_BYTES) == Chunk(message, i)
    ensures message[INLINE_BYTES + i * DATA_BYTES..] ==
            Chunk(message, i) + message[INLINE_BYTES + (i + 1) * DATA_BYTES..]
  {
  }

  lemma Prefixed(head: seq<Byte>, long: seq<Byte>, short: seq<Byte>)
    requires StartsWith(long, short)
    ensures StartsWith(head + long, head + short)
  {
  }

  lemma GatherStep(mem: Memory, dma: seq<Address>, blocks: seq<seq<Byte>>, i: nat)
    requires Lies(mem, dma, blocks) && i < |dma|
    ensures |dma| == |blocks| && |blocks[i]| == BLOCK_BYTES
    ensures Gather(mem, dma[i], |dma| - i) == Data(blocks[i]) + Gather(mem, Next(blocks[i]), |dma| - i - 1)
  {
  }

  lemma PadStartsWith(chunk: seq<Byte>, more: seq<Byte>)
    requires |chunk| <= DATA_BYTES
    ensures StartsWith(Pad(chunk, DATA_BYTES) + more, chunk)
  {
  }

  lemma ChainStep(dma: seq<Address>, blocks: seq<seq<Byte>>, i: nat)
    requires Chained(dma, blocks) && i + 1 < |dma|
    ensures Next(blocks[i]) == dma[i + 1]
  {
  }

  lemma LastChunk(message: seq<Byte>, i: nat)
    requires i + 1 == NumBlocks(|message|)
    ensures INLINE_BYTES + i * DATA_BYTES <= |message|
    ensures Chunk(message, i) == message[INLINE_BYTES + i * DATA_BYTES..]
  {
  }

  /** What firmware reads from the descriptor and the chain is the command, for every size up to
      the maximum. */
  lemma CommandRoundTrip(message: seq<Byte>, dma: seq<Address>, outPtr: Address, outSize: nat, token: Byte,
                         mem: Memory, blocks: seq<seq<Byte>>)
    requires |message| <= MAX_SIZE && outSize <= MAX_SIZE && |dma| == NumBlocks(|message|) <= MAX_BLOCKS
    requires Lies(mem, dma, blocks) && |blocks| == |dma|
    requires forall i :: 0 <= i < |dma| ==> blocks[i] == MessageBlock(message, dma, token, i)
    ensures ReadCommand(Descriptor(message, First(dma), outPtr, outSize, token), mem) == message
  {
    hide Descriptor, Gather, MessageBlock, FromBe32, Pad, Inline, NumBlocks, Chunk, Lies, Chained;
    var d := Descriptor(message, First(dma), outPtr, outSize, token);
    DescriptorFields(message, First(dma), outPtr, outSize, token);
    PadInline(message);
    MessageBlocksAreChained(message, dma, token, blocks);
    var g := Gather(mem, d[8..16], |dma|);
    ChunkSizes(message, 0);
    if |dma| > 0 {
      GatherFrom(mem, dma, blocks, message, 0);
      assert message == message[..INLINE_BYTES] + message[INLINE_BYTES..];
      Prefixed(d[16..32], g, message[INLINE_BYTES..]);
    } else {
      InlineOnly(message);
      assert (d[16..32] + g)[..|message|] == d[16..32][..|message|];
    }
  }

  lemma InlineOnly(message: seq<Byte>)
    requires NumBlocks(|message|) == 0
    ensures |message| <= INLINE_BYTES
  {
  }

  lemma PadInline(message: seq<Byte>)
    ensures |Pad(Inline(message), INLINE_BYTES)| == INLINE_BYTES
    ensures |message| >= INLINE_BYTES ==> Pad(Inline(message), INLINE_BYTES) == message[..INLINE_BYTES]
    ensures |message| <= INLINE_BYTES ==> Pad(Inline(message), INLINE_BYTES)[..|message|] == message
  {
  }

  lemma MessageBlocksAreChained(message: seq<Byte>, dma: seq<Address>, token: Byte, blocks: seq<seq<Byte>>)
    requires |dma| == |blocks| <= MAX_BLOCKS
    requires forall i :: 0 <= i < |dma| ==> blocks[i] == MessageBlock(message, dma, token, i)
    ensures Chained(dma, blocks)
    ensures forall i :: 0 <= i < |dma| ==> Data(blocks[i]) == Pad(Chunk(message, i), DATA_BYTES)
  {
    hide Block, Pad;
    forall i | 0 <= i < |dma|
      ensures |blocks[i]| == BLOCK_BYTES && Next(blocks[i]) == NextAddress(dma, i)
      ensures Data(blocks[i]) == Pad(Chunk(message, i), DATA_BYTES)
    {
      BlockFields(Chunk(message, i), NextAddress(dma, i), i, token);
    }
  }

  // The response

  /** Firmware's answer: the first bytes in the descriptor, the rest along the output chain. */
  function AnswerInline(d: seq<Byte>, response: seq<Byte>): seq<Byte>
    requires |d| == DESCRIPTOR_BYTES
  {
    d[..32] + Pad(Inline(response), INLINE_BYTES) + d[48..]
  }

  function AnswerChain(d: seq<Byte>, mem: Memory, response: seq<Byte>): Memory
    requires |d| == DESCRIPTOR_BYTES
  {
    Scatter(mem, d[48..56], response, 0, NumBlocks(FromBe32(d[56..60])))
  }

  /** The blocks after firmware has written the first n of them. */
  function Written(blocks: seq<seq<Byte>>, response: seq<Byte>, n: nat): seq<seq<Byte>>
    requires forall i :: 0 <= i < |blocks| ==> |blocks[i]| == BLOCK_BYTES
  {
    seq(|blocks|, i requires 0 <= i < |blocks| =>
      if i < n then Pad(Chunk(response, i), DATA_BYTES) + blocks[i][DATA_BYTES..] else blocks[i])
  }

  /** What the host copies back, block by block, through its own list of mailboxes. */
  function Collected(blocks: seq<seq<Byte>>, outSize: nat, n: nat): seq<Byte>
    requires n <= |blocks| && forall i :: 0 <= i < |blocks| ==> |blocks[i]| == BLOCK_BYTES
  {
    if n == 0 then []
    else
      var from := INLINE_BYTES + (n - 1) * DATA_BYTES;
      Collected(blocks, outSize, n - 1)
      + Data(blocks[n - 1])[..if from <= outSize then Min(outSize - from, DATA_BYTES) else 0]
  }

  function Response(d: seq<Byte>, blocks: seq<seq<Byte>>, outSize: nat): seq<Byte>
    requires |d| == DESCRIPTOR_BYTES
    requires forall i :: 0 <= i < |blocks| ==> |blocks[i]| == BLOCK_BYTES
  {
    d[32..48][..Min(outSize, INLINE_BYTES)] + Collected(blocks, outSize, |blocks|)
  }

  lemma {:induction false} ScatterReachesAll(mem: Memory, dma: seq<Address>, blocks: seq<seq<Byte>>, response: seq<Byte>, i: nat)
    requires i <= |dma| && Chained(dma, blocks) && Lies(mem, dma, Written(blocks, response, i))
    ensures Lies(Scatter(mem, if i < |dma| then dma[i] else NOWHERE, response, i, |dma|), dma,
                 Written(blocks, response, |dma|))
    decreases |dma| - i
  {
    hide Chunk, Pad;
    if i < |dma| {
      ChunkSizes(response, i);
      PadSize(Chunk(response, i), DATA_BYTES);
      var block := Pad(Chunk(response, i), DATA_BYTES) + blocks[i][DATA_BYTES..];
      assert mem[dma[i]] == blocks[i];
      WrittenNext(blocks, response, i);
      ScatterReachesAll(mem[dma[i] := block], dma, blocks, response, i + 1);
    }
  }

  lemma PadSize(s: seq<Byte>, n: nat)
    requires |s| <= n
    ensures |Pad(s, n)| == n && Pad(s, n)[..|s|] == s
  {
  }

  lemma WrittenNext(blocks: seq<seq<Byte>>, response: seq<Byte>, i: nat)
    requires i < |blocks| && forall k :: 0 <= k < |blocks| ==> |blocks[k]| == BLOCK_BYTES
    ensures |Chunk(response, i)| <= DATA_BYTES
    ensures Written(blocks, response, i + 1) ==
            Written(blocks, response, i)[i := Pad(Chunk(response, i), DATA_BYTES) + blocks[i][DATA_BYTES..]]
  {
  }

  ghost predicate Carries(block: seq<Byte>, chunk: seq<Byte>) {
    |block| == BLOCK_BYTES && |chunk| <= DATA_BYTES && Data(block)[..|chunk|] == chunk
  }

  lemma {:induction false} CollectedSoFar(blocks: seq<seq<Byte>>, response: seq<Byte>, n: nat)
    requires n <= |blocks| == NumBlocks(|response|)
    requires forall i :: 0 <= i < |blocks| ==> |blocks[i]| == BLOCK_BYTES
    requires forall i :: 0 <= i < |blocks| ==> Carries(blocks[i], Chunk(response, i))
    ensures Inline(response) + Collected(blocks, |response|, n) ==
            response[..Min(|response|, INLINE_BYTES + n * DATA_BYTES)]
  {
    hide Chunk, NumBlocks;
    if n > 0 {
      CollectedSoFar(blocks, response, n - 1);
      ChunkEnd(response, n - 1);
      assert Carries(blocks[n - 1], Chunk(response, n - 1));
      var before, chunk := Collected(blocks, |response|, n - 1), Chunk(response, n - 1);
      assert Collected(blocks, |response|, n) == before + chunk;
      assert Inline(response) + (before + chunk) == (Inline(response) + before) + chunk;
    }
  }

  lemma ChunkEnd(response: seq<Byte>, i: nat)
    requires i < NumBlocks(|response|)
    ensures var from := INLINE_BYTES + i * DATA_BYTES;
            && from < |response| && |Chunk(response, i)| == Min(|response| - from, DATA_BYTES)
            && response[..from] + Chunk(response, i) == response[..Min(|response|, from + DATA_BYTES)]
  {
  }

  /** The host reads back exactly the response firmware wrote, for every size asked for. */
  lemma ResponseRoundTrip(message: seq<Byte>, inPtr: Address, dma: seq<Address>, token: Byte,
                          mem: Memory, blocks: seq<seq<Byte>>, response: seq<Byte>)
    requires |message| <= MAX_SIZE && |response| <= MAX_SIZE && |dma| == NumBlocks(|response|) <= MAX_BLOCKS
    requires Lies(mem, dma, blocks) && |blocks| == |dma|
    requires forall i :: 0 <= i < |dma| ==> blocks[i] == MessageBlock([], dma, token, i)
    ensures var d := Descriptor(message, inPtr, First(dma), |response|, token);
            var answered := Written(blocks, response, |dma|);
            && Lies(AnswerChain(d, mem, response), dma, answered)
            && |AnswerInline(d, response)| == DESCRIPTOR_BYTES
            && Response(AnswerInline(d, response), answered, |response|) == response
  {
    hide Descriptor, Scatter, MessageBlock, FromBe32, Pad, Chained, Chunk, NumBlocks, Lies, Collected;
    var d := Descriptor(message, inPtr, First(dma), |response|, token);
    var answered := Written(blocks, response, |dma|);
    DescriptorFields(message, inPtr, First(dma), |response|, token);
    EmptyBlocksAreChained(dma, token, blocks);
    assert Written(blocks, response, 0) == blocks;
    ScatterReachesAll(mem, dma, blocks, response, 0);
    PadSize(Inline(response), INLINE_BYTES);
    AnsweredData(blocks, response);
    CollectedSoFar(answered, response, |dma|);
    ChunkSizes(response, |dma|);
    EnoughBlocks(response);
    assert AnswerInline(d, response)[32..48] == Pad(Inline(response), INLINE_BYTES);
  }

  lemma EmptyBlocksAreChained(dma: seq<Address>, token: Byte, blocks: seq<seq<Byte>>)
    requires |dma| == |blocks| <= MAX_BLOCKS
    requires forall i :: 0 <= i < |dma| ==> blocks[i] == MessageBlock([], dma, token, i)
    ensures Chained(dma, blocks) && forall i :: 0 <= i < |blocks| ==> |blocks[i]| == BLOCK_BYTES
  {
    MessageBlocksAreChained([], dma, token, blocks);
  }

  lemma AnsweredData(blocks: seq<seq<Byte>>, response: seq<Byte>)
    requires forall i :: 0 <= i < |blocks| ==> |blocks[i]| == BLOCK_BYTES
    ensures forall i :: 0 <= i < |blocks| ==>
              Carries(Written(blocks, response, |blocks|)[i], Chunk(response, i))
  {
    hide Chunk, Pad;
    forall i | 0 <= i < |blocks|
      ensures Carries(Written(blocks, response, |blocks|)[i], Chunk(response, i))
    {
      ChunkSizes(response, i);
      PadSize(Chunk(response, i), DATA_BYTES);
    }
  }

  lemma EnoughBlocks(response: seq<Byte>)
    ensures response[..Min(|response|, INLINE_BYTES + NumBlocks(|response|) * DATA_BYTES)] == response
  {
  }
}
