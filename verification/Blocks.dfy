/** Block1 and Block2 option values (section 2.2 of RFC 7959), and the slicing of a
    payload into blocks. */
module Blocks {
  import opened CoapTypes
  import opened StableOrder
  import opened OptionList

  /** The block state of a message: number, whether more blocks follow, and block size. */
  datatype BlockState = BlockState(number: nat, more: bool, size: nat)

  const NO_BLOCK := BlockState(0, false, 0)

  predicate IsBlockSize(size: nat) {
    size in {16, 32, 64, 128, 256, 512, 1024}
  }

  function Pow2(n: nat): (p: nat)
    ensures p > 0
  {
    if n == 0 then 1 else 2 * Pow2(n - 1)
  }

  // Encoding

  /** The size exponent, computed with shifts and no logarithm. */
  function Szx(size: nat): (x: nat)
    ensures x <= 6
  {
    if size / 128 != 0 then (if size / 1024 != 0 then 6 else 3 + size / 256) else size / 32
  }

  function BlockData(number: nat, more: bool, size: nat): nat {
    number * 16 + (if more then 8 else 0) + Szx(size)
  }

  /** Big-endian, without leading zero bytes, in at least one byte. */
  function BlockBytes(data: nat): Bytes
    requires data < 0x100_0000
  {
    if data > 0xFFFF then [data / 0x1_0000, (data / 0x100) % 0x100, data % 0x100]
    else if data > 0xFF then [data / 0x100, data % 0x100]
    else [data]
  }

  /** Assembles the value the way the client does, byte by byte. */
  method BlockOptionValue(number: nat, more: bool, size: nat) returns (value: Bytes)
    requires number < 0x10_0000
    ensures value == BlockBytes(BlockData(number, more, size))
  {
    var optionData := number * 16;
    optionData := optionData
      + if size / 128 != 0 then (if size / 1024 != 0 then 6 else 3 + size / 256) else size / 32;
    if more {
      optionData := optionData + 8;
    }
    value := [];
    if optionData > 0xFFFF {
      value := value + [optionData / 0x1_0000];
    }
    if optionData > 0xFF {
      value := value + [(optionData / 0x100) % 0x100];
    }
    value := value + [optionData % 0x100];
  }

  // Decoding

  /** The leading bytes of a block value as a 32-bit big-endian number. */
  function LeadingNumber(bytes: Bytes): nat {
    if bytes == [] then 0
    else Wrap32(LeadingNumber(bytes[..|bytes| - 1]) * 0x100 + bytes[|bytes| - 1])
  }

  function DecodeBlock(value: Bytes): BlockState
    requires value != []
  {
    var last := value[|value| - 1];
    BlockState(Wrap32(LeadingNumber(value[..|value| - 1]) * 16 + last / 16),
               (last / 8) % 2 == 1,
               Pow2(last % 8 + 4))
  }

  /** The block-related fields of a message object. */
  class MessageBlock {
    var currentBlockNumber: nat
    var hasNextBlock: bool
    var blockSize: nat

    constructor ()
      ensures State() == NO_BLOCK
    {
      currentBlockNumber, hasNextBlock, blockSize := 0, false, 0;
    }

    function State(): BlockState
      reads this
    {
      BlockState(currentBlockNumber, hasNextBlock, blockSize)
    }

    method SetFromDescriptiveBlockOption(value: Bytes)
      requires value != []
      modifies this
      ensures State() == DecodeBlock(value)
    {
      var lastByte := value[|value| - 1];
      var blockNumber := 0;
      for i := 0 to |value| - 1
        invariant blockNumber == LeadingNumber(value[..i])
      {
        assert value[..i + 1][..i] == value[..i];
        blockNumber := Wrap32(blockNumber * 0x100 + value[i]);
      }
      blockNumber := Wrap32(blockNumber * 16 + lastByte / 16);
      currentBlockNumber := blockNumber;
      hasNextBlock := (lastByte / 8) % 2 == 1;
      blockSize := Pow2(lastByte % 8 + 4);
    }
  }

  /** The block the server wants next, from the Block1 option it echoes, or -1. An empty
      Block1 value, which the code must not be given, counts as absent here. */
  function NextBlockToSend(options: seq<CoapOption>): int {
    var block1 := Named(options, BLOCK1);
    if block1 == [] || block1[0].value == [] then -1
    else
      var b := DecodeBlock(block1[0].value);
      if b.more then ToInt32(b.number) + 1 else -1
  }

  method ComputeNextBlockToSend(message: MessageOptions) returns (next: int)
    requires forall o :: o in message.options && o.number == BLOCK1 ==> o.value != []
    ensures next == NextBlockToSend(message.options)
  {
    var found := message.FindOption(BLOCK1);
    if found.None? {
      return -1;
    }
    var value := found.value.value;
    assert value != [] by {
      WithKeyMember(Number, message.options, BLOCK1, found.value);
    }
    var lastByte := value[|value| - 1];
    var hasNextBlock := (lastByte / 8) % 2 == 1;
    if !hasNextBlock {
      return -1;
    }
    var blockNumber := 0;
    for i := 0 to |value| - 1
      invariant blockNumber == LeadingNumber(value[..i])
    {
      assert value[..i + 1][..i] == value[..i];
      blockNumber := Wrap32(blockNumber * 0x100 + value[i]);
    }
    blockNumber := Wrap32(blockNumber * 16 + lastByte / 16);
    next := ToInt32(blockNumber) + 1;
  }

  // Correctness of the value codec

  lemma SzxIsLogarithm(size: nat)
    requires IsBlockSize(size)
    ensures Pow2(Szx(size) + 4) == size
  {
    assert Pow2(4) == 16;
    assert Pow2(5) == 2 * Pow2(4) && Pow2(6) == 2 * Pow2(5) && Pow2(7) == 2 * Pow2(6);
    assert Pow2(8) == 2 * Pow2(7) && Pow2(9) == 2 * Pow2(8) && Pow2(10) == 2 * Pow2(9);
  }

  lemma LeadingNumberSmall(bytes: Bytes)
    requires |bytes| <= 2
    ensures |bytes| == 0 ==> LeadingNumber(bytes) == 0
    ensures |bytes| == 1 ==> LeadingNumber(bytes) == bytes[0]
    ensures |bytes| == 2 ==> LeadingNumber(bytes) == bytes[0] as int * 0x100 + bytes[1] as int
  {
    if |bytes| == 2 {
      assert bytes[..1][..0] == [];
    }
  }

  lemma BlockBytesParts(data: nat)
    requires data < 0x100_0000
    ensures var value := BlockBytes(data);
            && value != [] && value[|value| - 1] == data % 0x100
            && LeadingNumber(value[..|value| - 1]) == data / 0x100
            && DecodeBlock(value) == BlockState((data / 0x100) * 16 + (data % 0x100) / 16,
                                                ((data % 0x100) / 8) % 2 == 1,
                                                Pow2((data % 0x100) % 8 + 4))
  {
    BlockBytesLead(data);
    DecodeByParts(BlockBytes(data), data / 0x100, data % 0x100);
  }

  /** All bytes but the last carry everything but the low byte. */
  lemma BlockBytesLead(data: nat)
    requires data < 0x100_0000
    ensures var value := BlockBytes(data);
            && value != [] && value[|value| - 1] == data % 0x100
            && LeadingNumber(value[..|value| - 1]) == data / 0x100
  {
    var value := BlockBytes(data);
    var lead := value[..|value| - 1];
    LeadingNumberSmall(lead);
    if data <= 0xFF {
      assert lead == [];
    } else if data <= 0xFFFF {
      assert lead == [data / 0x100];
    } else {
      assert lead == [data / 0x1_0000, (data / 0x100) % 0x100];
      TwoLeadingBytes(data);
    }
  }

  lemma TwoLeadingBytes(data: nat)
    ensures (data / 0x1_0000) * 0x100 + (data / 0x100) % 0x100 == data / 0x100
  {
  }

  lemma DecodeByParts(value: Bytes, lead: nat, last: byte)
    requires value != [] && value[|value| - 1] == last && LeadingNumber(value[..|value| - 1]) == lead
    requires lead < 0x1_0000
    ensures DecodeBlock(value) == BlockState(lead * 16 + last / 16, (last / 8) % 2 == 1, Pow2(last % 8 + 4))
  {
  }

  lemma BlockFields(number: nat, m: nat, s: nat)
    requires m < 2 && s < 8
    ensures var d := number * 16 + m * 8 + s;
            && (d / 0x100) * 16 + (d % 0x100) / 16 == number
            && ((d % 0x100) / 8) % 2 == m
            && (d % 0x100) % 8 == s
  {
  }

  /** Both decoders recover number, M and size from what the encoder writes. */
  lemma BlockRoundTrip(number: nat, more: bool, size: nat)
    requires number < 0x10_0000 && IsBlockSize(size)
    ensures BlockData(number, more, size) < 0x100_0000
    ensures DecodeBlock(BlockBytes(BlockData(number, more, size))) == BlockState(number, more, size)
  {
    SzxIsLogarithm(size);
    BlockBytesParts(BlockData(number, more, size));
    BlockFields(number, if more then 1 else 0, Szx(size));
  }

  /** No value that means the same block is shorter. */
  lemma BlockBytesMinimal(number: nat, more: bool, size: nat, other: Bytes)
    requires number < 0x10_0000 && IsBlockSize(size)
    requires other != [] && DecodeBlock(other) == BlockState(number, more, size)
    ensures 1 <= |BlockBytes(BlockData(number, more, size))| <= |other|
  {
    SzxIsLogarithm(size);
    ShortValuesAreSmall(other);
  }

  lemma ShortValuesAreSmall(value: Bytes)
    requires value != []
    ensures |value| == 1 ==> DecodeBlock(value).number < 0x10
    ensures |value| == 2 ==> DecodeBlock(value).number < 0x1000
  {
    if |value| <= 2 {
      LeadingNumberSmall(value[..|value| - 1]);
    }
  }

  // Slices of a payload

  /** Block `n` of a payload cut into blocks of `size` bytes. */
  function Slice(payload: Bytes, size: nat, n: nat): Bytes {
    Mid(payload, n * size, size)
  }

  /** How many blocks of `size` bytes it takes to carry the payload; an empty one takes one. */
  function BlockCount(payload: Bytes, size: nat): (c: nat)
    requires size > 0
    ensures c >= 1
  {
    if payload == [] then 1 else (|payload| + size - 1) / size
  }

  /** Blocks `0` to `n - 1`, one after the other. */
  function Slices(payload: Bytes, size: nat, n: nat): Bytes {
    if n == 0 then [] else Slices(payload, size, n - 1) + Slice(payload, size, n - 1)
  }

  lemma {:induction false} SlicesArePrefix(payload: Bytes, size: nat, n: nat)
    requires n * size <= |payload|
    ensures Slices(payload, size, n) == payload[..n * size]
  {
    if n > 0 {
      assert (n - 1) * size + size == n * size;
      SlicesArePrefix(payload, size, n - 1);
      assert payload[..n * size] == payload[..(n - 1) * size] + payload[(n - 1) * size..n * size];
    }
  }

  lemma BlockCountBounds(payload: Bytes, size: nat)
    requires size > 0
    ensures (BlockCount(payload, size) - 1) * size <= |payload| <= BlockCount(payload, size) * size
    ensures payload != [] ==> (BlockCount(payload, size) - 1) * size < |payload|
  {
    var c := BlockCount(payload, size);
    if payload != [] {
      var q := |payload| + size - 1;
      assert q == c * size + q % size;
      assert (c - 1) * size == c * size - size;
    }
  }

  /** Exactly the blocks with a successor end before the payload does. */
  lemma HasSuccessor(payload: Bytes, size: nat, n: nat)
    requires size > 0
    ensures (n + 1) * size < |payload| <==> n + 1 < BlockCount(payload, size)
  {
    var c := BlockCount(payload, size);
    BlockCountBounds(payload, size);
    if n + 1 < c {
      MulMonotone(n + 1, c - 1, size);
    } else {
      MulMonotone(c, n + 1, size);
    }
  }

  lemma MulMonotone(a: nat, b: nat, m: nat)
    requires a <= b
    ensures a * m <= b * m
  {
    assert b * m == a * m + (b - a) * m;
  }

  /** The blocks of a payload, in order, are the payload. */
  lemma SlicesAreWhole(payload: Bytes, size: nat)
    requires size > 0
    ensures Slices(payload, size, BlockCount(payload, size)) == payload
  {
    var c := BlockCount(payload, size);
    var start := (c - 1) * size;
    BlockCountBounds(payload, size);
    SlicesArePrefix(payload, size, c - 1);
    assert start + size >= |payload| by {
      assert (c - 1) * size + size == c * size;
    }
    LastSlice(payload, size, start);
  }

  lemma LastSlice(payload: Bytes, size: nat, start: nat)
    requires start <= |payload| <= start + size
    ensures payload[..start] + Mid(payload, start, size) == payload
  {
  }
}
