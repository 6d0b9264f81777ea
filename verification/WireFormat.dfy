/** The bytes themselves: where header fields, block numbers and error codes stand, and whole frames as the
    standards print them. */
module WireFormat {
  import opened CoapTypes
  import opened StableOrder
  import opened OptionList
  import opened Blocks
  import opened Codec
  import opened CodecRoundTrip
  import opened Requests
  import opened Exchanges

  /** The header of section 3 of RFC 7252: version, type and token length in the first byte, then code,
      message id, most significant byte first, and token. */
  lemma HeaderLayout(m: Message, code: byte)
    requires m.version <= 3 && |m.token| <= 15
    ensures var f := Encode(m, code);
            && |f| >= 4 + |m.token|
            && f[0] == 0x40 * m.version + 0x10 * m.mtype.Code() + |m.token|
            && f[1] == code && f[2] as int * 0x100 + f[3] == m.id && f[4..4 + |m.token|] == m.token
  {
    HeaderBits(m.version, m.mtype.Code(), |m.token|);
  }

  lemma HeaderBits(version: nat, mtype: nat, length: nat)
    requires version <= 3 && mtype <= 3 && length <= 15
    ensures (version * 4 + mtype) * 16 + length == 0x40 * version + 0x10 * mtype + length
  {
  }

  /** The payload stands behind the marker of section 3 of RFC 7252, at the end of the frame. */
  lemma PayloadLayout(m: Message, code: byte)
    ensures var f, n := Encode(m, code), |m.payload|;
            m.payload != [] ==> |f| > n && f[|f| - n..] == m.payload && f[|f| - n - 1] == 0xFF
  {
  }

  // Block values

  function BigEndian(value: Bytes): nat {
    if value == [] then 0 else BigEndian(value[..|value| - 1]) * 0x100 + value[|value| - 1] as nat
  }

  lemma BigEndianOf(a: byte, b: byte, c: byte)
    ensures BigEndian([a]) == a && BigEndian([a, b]) == a as int * 0x100 + b
    ensures BigEndian([a, b, c]) == a as int * 0x1_0000 + b as int * 0x100 + c
  {
    assert [a][..0] == [] && [a, b][..1] == [a] && [a, b, c][..2] == [a, b];
  }

  lemma ThreeBytes(data: nat)
    ensures data == data / 0x1_0000 * 0x1_0000 + (data / 0x100) % 0x100 * 0x100 + data % 0x100
    ensures data / 0x100 * 0x100 + data % 0x100 == data
  {
    assert data / 0x100 / 0x100 == data / 0x1_0000;
  }

  lemma BigEndianBack(data: nat)
    requires data < 0x100_0000
    ensures BigEndian(BlockBytes(data)) == data
  {
    var low: byte := data % 0x100;
    ThreeBytes(data);
    if data > 0xFFFF {
      BigEndianOf(data / 0x1_0000, (data / 0x100) % 0x100, low);
    } else if data > 0xFF {
      BigEndianOf(data / 0x100, low, 0);
    } else {
      BigEndianOf(data, 0, 0);
    }
  }

  /** The value of section 2.2 of RFC 7959: the block number, then the bit that says whether more follow, then
      three bits for the size. */
  lemma BlockLayout(number: nat, more: bool, size: nat)
    requires number < 0x10_0000 && IsBlockSize(size)
    ensures var v := BigEndian(BlockBytes(BlockData(number, more, size)));
            v / 16 == number && (v / 8 % 2 == 1 <==> more) && Pow2(v % 8 + 4) == size
  {
    BigEndianBack(BlockData(number, more, size));
    SzxIsLogarithm(size);
    BlockBits(number, if more then 1 else 0, Szx(size));
  }

  lemma BlockBits(number: nat, more: nat, szx: nat)
    requires more <= 1 && szx <= 6
    ensures var v := number * 16 + more * 8 + szx;
            v / 16 == number && v / 8 % 2 == more && v % 8 == szx
  {
    var v := number * 16 + more * 8 + szx;
    LowBits(number, more * 8 + szx);
    LowThreeBits(number * 2 + more, szx);
    assert v == (number * 2 + more) * 8 + szx;
  }

  lemma LowBits(high: nat, low: nat)
    requires low < 16
    ensures (high * 16 + low) / 16 == high
  {
  }

  lemma LowThreeBits(high: nat, low: nat)
    requires low < 8
    ensures (high * 8 + low) / 8 == high && (high * 8 + low) % 8 == low
  {
  }

  // Error codes

  /** The error codes of section 12.1.2 of RFC 7252, as class and detail. */
  const STANDARD_ERRORS: set<(nat, nat)> :=
    {(4, 0), (4, 1), (4, 2), (4, 3), (4, 4), (4, 5), (4, 6), (4, 8), (4, 12), (4, 13), (4, 15),
     (5, 0), (5, 1), (5, 2), (5, 3), (5, 4), (5, 5)}

  /** Every error of the standard has a name of its own but 4.15, which the library knows under the code of
      4.14: a response 4.15 is an unknown error to it. */
  lemma NamedErrorsExactly(c: nat, detail: nat)
    requires 4 <= c <= 5 && detail < 32
    ensures var code := c * 32 + detail;
            && IsError(code) && ErrorForResponseCode(code) != Ok
            && (ErrorForResponseCode(code) == Response(code)
                <==> ((c, detail) in STANDARD_ERRORS && (c, detail) != (4, 15)) || (c, detail) == (4, 14))
  {
  }

  // Whole frames

  const TEMPERATURE: Bytes := [0x74, 0x65, 0x6D, 0x70, 0x65, 0x72, 0x61, 0x74, 0x75, 0x72, 0x65]

  lemma HeaderOf(m: Message, code: byte)
    requires m.version <= 3 && |m.token| <= 15
    ensures Header(m, code)
         == [0x40 * m.version + 0x10 * m.mtype.Code() + |m.token|, code, m.id / 0x100, m.id % 0x100]
  {
    HeaderBits(m.version, m.mtype.Code(), |m.token|);
    assert BitOr(m.version * 4 + m.mtype.Code(), 0) == m.version * 4 + m.mtype.Code();
  }

  /** Header and token. */
  function Head(m: Message, code: byte): seq<int> {
    [0x40 * m.version + 0x10 * m.mtype.Code() + |m.token|, code, m.id / 0x100, m.id % 0x100] + m.token
  }

  lemma FrameOf(m: Message, code: byte, options: Bytes)
    requires m.version <= 3 && |m.token| <= 15 && EncodeOptions(m.options, 0) == options
    ensures Encode(m, code) == Head(m, code) + (options + if m.payload == [] then [] else [0xFF] + m.payload)
  {
    HeaderOf(m, code);
  }

  /** An option whose delta and length need no extension. */
  lemma ShortOption(number: uint16, value: Bytes, last: byte)
    requires last <= number <= last + 12 && |value| <= 12
    ensures EncodeOption(CoapOption(number, value), last) == [(number - last) * 16 + |value|] + value
  {
    assert ([] + [] + value) == value;
  }

  /** One whose delta needs one byte more. */
  lemma FarOption(number: uint16, value: Bytes, last: byte)
    requires last + 13 <= number <= last + 268 && |value| <= 12
    ensures EncodeOption(CoapOption(number, value), last) == [0xD0 + |value|, number - last - 13] + value
  {
    assert [number - last - 13] + [] + value == [number - last - 13] + value;
  }

  lemma OneOption(o: CoapOption, last: byte)
    ensures EncodeOptions([o], last) == EncodeOption(o, last)
  {
    assert [o][1..] == [];
  }

  lemma TwoOptions(o: CoapOption, p: CoapOption, last: byte)
    ensures EncodeOptions([o, p], last) == EncodeOption(o, last) + EncodeOption(p, o.number % 0x100)
  {
    assert [o, p][1..] == [p];
    OneOption(p, o.number % 0x100);
  }

  /** The exchange of figure 16 of RFC 7252: a Confirmable GET for the temperature and its piggybacked response. */
  lemma TemperatureRequest()
    ensures var get := Message(1, Confirmable, 0x7D34, [], [CoapOption(11, TEMPERATURE)], []);
            Encode(get, 0x01) == [0x40, 0x01, 0x7D, 0x34, 0xBB] + TEMPERATURE
  {
    var get := Message(1, Confirmable, 0x7D34, [], [CoapOption(11, TEMPERATURE)], []);
    HeaderOf(get, 0x01);
    OneOption(CoapOption(11, TEMPERATURE), 0);
    ShortOption(11, TEMPERATURE, 0);
    assert [0x40, 0x01, 0x7D, 0x34] + [] + (([0xBB] + TEMPERATURE) + [])
        == [0x40, 0x01, 0x7D, 0x34, 0xBB] + TEMPERATURE;
  }

  const DEGREES: Bytes := [0x32, 0x32, 0x2E, 0x33, 0x20, 0x43]

  lemma EncodedBack(m: Message, code: byte, f: Bytes)
    requires Encode(m, code) == f && m.options == [] && m.version <= 3 && |m.token| <= 15
    ensures Decode(f) == Some(Reply(m, code, NO_BLOCK))
  {
    PlainRoundTrip(m, code);
  }

  lemma TemperatureResponse()
    ensures var content := Message(1, Acknowledgment, 0x7D34, [], [], DEGREES);
            Decode([0x60, 0x45, 0x7D, 0x34, 0xFF] + DEGREES) == Some(Reply(content, 0x45, NO_BLOCK))
  {
    var content := Message(1, Acknowledgment, 0x7D34, [], [], DEGREES);
    FrameOf(content, 0x45, []);
    assert [0x60, 0x45, 0x7D, 0x34] + [] + ([] + ([0xFF] + DEGREES)) == [0x60, 0x45, 0x7D, 0x34, 0xFF] + DEGREES;
    EncodedBack(content, 0x45, [0x60, 0x45, 0x7D, 0x34, 0xFF] + DEGREES);
  }

  // First requests, with the option numbers of RFC 7641 and RFC 7959

  predicate WithoutOptions(u: UserRequest, token: Token) {
    u.message.options == [] && u.message.version <= 3 && |token| <= 15
  }

  lemma BlockValues(size: nat)
    requires IsBlockSize(size)
    ensures BlockOption(BLOCK2, 0, false, size) == CoapOption(23, [Szx(size)])
    ensures BlockOption(BLOCK1, 0, true, size) == CoapOption(27, [8 + Szx(size)])
  {
  }

  lemma AskedOptions(r: Request, size: nat)
    requires r.message.options == [] && IsBlockSize(size)
    ensures SetToRequestBlock(r, 0, size) == r.(message := r.message.(options := [CoapOption(23, [Szx(size)])]))
  {
    BlockValues(size);
  }

  lemma InsertLast(o: CoapOption, p: CoapOption)
    requires o.number <= p.number
    ensures Insert([o], p) == [o, p]
  {
    assert [o][1..] == [];
    assert Insert([], p) == [p];
  }

  lemma SlicedOptions(r: Request, size: nat)
    requires r.message.options == [CoapOption(23, [Szx(size)])] && IsBlockSize(size) && |r.fullPayload| > size
    ensures SetToSendBlock(r, 0, size)
         == r.(message := r.message.(payload := r.fullPayload[..size],
                                     options := [CoapOption(23, [Szx(size)]), CoapOption(27, [8 + Szx(size)])]))
  {
    BlockValues(size);
    assert r.message.options[1..] == [];
    assert RemoveNamed(r.message.options, BLOCK1) == [CoapOption(23, [Szx(size)])];
    assert Slice(r.fullPayload, size, 0) == r.fullPayload[..size];
    InsertLast(CoapOption(23, [Szx(size)]), CoapOption(27, [8 + Szx(size)]));
  }

  lemma BlockOptionsEncoded(size: nat)
    requires IsBlockSize(size)
    ensures EncodeOptions([CoapOption(23, [Szx(size)])], 0) == [0xD1, 0x0A, Szx(size)]
    ensures EncodeOptions([CoapOption(23, [Szx(size)]), CoapOption(27, [8 + Szx(size)])], 0)
         == [0xD1, 0x0A, Szx(size), 0x41, 8 + Szx(size)]
  {
    var asked, sent := CoapOption(23, [Szx(size)]), CoapOption(27, [8 + Szx(size)]);
    FarOption(23, [Szx(size)], 0);
    ShortOption(27, [8 + Szx(size)], 23);
    OneOption(asked, 0);
    TwoOptions(asked, sent, 0);
  }

  lemma FirstMessage(s: Settings, u: UserRequest, token: Token, id: uint16, randomTimeout: nat)
    requires IsBlockSize(s.blockSize) && u.message.options == []
    ensures var r, m := InitialRequest(s, u, token, id, randomTimeout), u.message.(token := token, id := id);
            var asked, sent := CoapOption(23, [Szx(s.blockSize)]), CoapOption(27, [8 + Szx(s.blockSize)]);
            && r.methodCode == u.methodCode
            && r.message == if |m.payload| > s.blockSize
                            then m.(payload := m.payload[..s.blockSize], options := [asked, sent])
                            else m.(options := [asked])
  {
    var r := Request(u.message.(token := token, id := id), u.methodCode, u.message.payload, u.target,
                     0, 0, false, false, MaximumTransmitWait(s),
                     if u.target.Multicast? then MulticastTimeout(s) else 0, None, None, None);
    AskedOptions(r, s.blockSize);
    if |u.message.payload| > s.blockSize {
      SlicedOptions(SetToRequestBlock(r, 0, s.blockSize), s.blockSize);
    }
  }

  lemma SameHead(m: Message, m': Message, code: byte)
    requires m == m'.(options := m.options, payload := m.payload)
    ensures Head(m, code) == Head(m', code)
  {
  }

  /** The first frame of a request without options of its own, byte by byte, for every block size: a Block2 option
      for block 0 of that size (option 23 of RFC 7959), and in front of a larger payload, of which the first slice is
      sent, a Block1 option (option 27) with the bit that says that more follow. */
  lemma BlockwiseFirstFrame(s: Settings, u: UserRequest, token: Token, id: uint16, randomTimeout: nat)
    requires IsBlockSize(s.blockSize) && WithoutOptions(u, token)
    ensures var szx, payload := Szx(s.blockSize), u.message.payload;
            && Pow2(szx + 4) == s.blockSize
            && RequestFrame(InitialRequest(s, u, token, id, randomTimeout))
               == Head(u.message.(token := token, id := id), u.methodCode)
                  + if payload == [] then [0xD1, 0x0A, szx] + []
                    else if |payload| <= s.blockSize then [0xD1, 0x0A, szx] + ([0xFF] + payload)
                    else [0xD1, 0x0A, szx, 0x41, 8 + szx] + ([0xFF] + payload[..s.blockSize])
  {
    var m, szx := InitialRequest(s, u, token, id, randomTimeout).message, Szx(s.blockSize);
    SzxIsLogarithm(s.blockSize);
    FirstMessage(s, u, token, id, randomTimeout);
    BlockOptionsEncoded(s.blockSize);
    SameHead(m, u.message.(token := token, id := id), u.methodCode);
    if |u.message.payload| > s.blockSize {
      FrameOf(m, u.methodCode, [0xD1, 0x0A, szx, 0x41, 8 + szx]);
    } else {
      FrameOf(m, u.methodCode, [0xD1, 0x0A, szx]);
    }
  }

  /** The first frame of an observation without a block size: option 6 of RFC 7641. */
  lemma ObserveFirstFrame(s: Settings, u: UserRequest, token: Token, id: uint16, randomTimeout: nat)
    requires s.blockSize == 0 && u.message.version <= 3 && |token| <= 15 && u.message.payload == []
    requires u.message.options == [CoapOption(6, [])]
    ensures var r := InitialRequest(s, u, token, id, randomTimeout);
            r.IsObserve() && RequestFrame(r) == Head(u.message.(token := token, id := id), u.methodCode) + [0x60]
  {
    var m := InitialRequest(s, u, token, id, randomTimeout).message;
    HeaderOf(m, u.methodCode);
    OneOption(CoapOption(6, []), 0);
    ShortOption(6, [], 0);
    assert m.options[1..] == [] && [0x60] + [] == [0x60];
  }
}
