/** The wire format: the client's printer and parser for the message format of
    section 3 of RFC 7252. */
module Codec {
  import opened CoapTypes
  import opened StableOrder
  import opened OptionList
  import opened Blocks

  const PAYLOAD_MARKER: byte := 0xFF

  // Printer

  /** Bitwise or. */
  function BitOr(x: nat, y: nat): nat
    decreases x + y
  {
    if x == 0 then y
    else if y == 0 then x
    else 2 * BitOr(x / 2, y / 2) + (if x % 2 == 1 || y % 2 == 1 then 1 else 0)
  }

  /** Version, type and token length in one byte. The shifted version and type leave the low
      nibble free; a token of more than 15 bytes spills over into them. */
  function FirstByte(version: byte, t: nat, tokenLength: nat): byte {
    (16 * BitOr(version * 4 + t, tokenLength / 16) + tokenLength % 16) % 0x100
  }

  function Header(m: Message, code: byte): Bytes {
    [FirstByte(m.version, m.mtype.Code(), |m.token|), code, m.id / 0x100, m.id % 0x100]
  }

  /** A delta or a length: the nibble that goes into the head byte and the extension byte.
      Nibble 14 is followed by a single byte too. */
  function Nibble(v: uint16): (n: nat)
    ensures n <= 14
  {
    if v > 268 then 14 else if v > 12 then 13 else v
  }

  function Extension(v: uint16): Bytes {
    if v > 268 then [(v - 269) % 0x100] else if v > 12 then [(v - 13) % 0x100] else []
  }

  /** The 16-bit difference to an 8-bit running option number. */
  function Delta(o: CoapOption, last: byte): uint16 {
    (o.number + 0x1_0000 - last) % 0x1_0000
  }

  function Length16(o: CoapOption): uint16 {
    |o.value| % 0x1_0000
  }

  function EncodeOption(o: CoapOption, last: byte): (r: Bytes)
    ensures r != [] && r[0] != PAYLOAD_MARKER
  {
    [Nibble(Delta(o, last)) * 16 + Nibble(Length16(o))]
    + (Extension(Delta(o, last)) + Extension(Length16(o)) + o.value)
  }

  function EncodeOptions(options: seq<CoapOption>, last: byte): Bytes {
    if options == [] then []
    else EncodeOption(options[0], last) + EncodeOptions(options[1..], options[0].number % 0x100)
  }

  function EncodePayload(payload: Bytes): Bytes {
    if payload == [] then [] else [PAYLOAD_MARKER] + payload
  }

  function Encode(m: Message, code: byte): Bytes {
    Header(m, code) + m.token + (EncodeOptions(m.options, 0) + EncodePayload(m.payload))
  }

  /** Splits a delta or a length into its nibble and its extension byte. */
  method SplitValue(v: uint16) returns (nibble: nat, extension: Bytes)
    ensures nibble == Nibble(v) && extension == Extension(v)
  {
    nibble, extension := v, [];
    if v > 268 {
      extension := [(v - 269) % 0x100];
      nibble := 14;
    } else if v > 12 {
      extension := [(v - 13) % 0x100];
      nibble := 13;
    }
  }

  /** Appends one option: head byte, extension bytes, value. */
  method AppendOption(pdu: Bytes, o: CoapOption, lastOptionNumber: byte) returns (r: Bytes)
    ensures r == pdu + EncodeOption(o, lastOptionNumber)
  {
    var optionDelta, deltaExtension := SplitValue(Delta(o, lastOptionNumber));
    var optionLength, lengthExtension := SplitValue(Length16(o));
    r := pdu + [optionDelta * 16 + optionLength];
    r := r + deltaExtension;
    r := r + lengthExtension;
    r := r + o.value;
    assert r == pdu + ([optionDelta * 16 + optionLength] + (deltaExtension + lengthExtension + o.value));
  }

  /** The printer: a loop over the options carrying an 8-bit running option number. */
  method ToByteArray(m: Message, code: byte) returns (pdu: Bytes)
    requires Sorted(m.options)
    ensures pdu == Encode(m, code)
  {
    pdu := [FirstByte(m.version, m.mtype.Code(), |m.token|)];
    pdu := pdu + [code];
    pdu := pdu + [m.id / 0x100];
    pdu := pdu + [m.id % 0x100];
    pdu := pdu + m.token;
    ghost var front := Header(m, code) + m.token;
    assert pdu == front;
    var lastOptionNumber: byte := 0;
    for i := 0 to |m.options|
      invariant pdu + EncodeOptions(m.options[i..], lastOptionNumber)
             == front + EncodeOptions(m.options, 0)
    {
      ghost var before, rest := pdu, m.options[i..];
      assert rest[0] == m.options[i] && rest[1..] == m.options[i + 1..];
      pdu := AppendOption(pdu, m.options[i], lastOptionNumber);
      ConcatAssociates(before, EncodeOption(m.options[i], lastOptionNumber),
                       EncodeOptions(rest[1..], m.options[i].number % 0x100));
      lastOptionNumber := m.options[i].number % 0x100;
    }
    assert m.options[|m.options|..] == [];
    assert pdu == front + EncodeOptions(m.options, 0);
    if m.payload != [] {
      pdu := pdu + [PAYLOAD_MARKER];
      pdu := pdu + m.payload;
    }
    assert pdu == front + (EncodeOptions(m.options, 0) + EncodePayload(m.payload));
  }

  lemma ConcatAssociates(a: Bytes, b: Bytes, c: Bytes)
    ensures (a + b) + c == a + (b + c)
  {
  }

  // Parser

  /** A received message: response code and block state next to the message itself. */
  datatype Reply = Reply(message: Message, code: byte, block: BlockState)

  /** Reads a nibble's extension, if it has one, behind index `i`: the value and the index
      of the last byte used, or `None` when the byte is not there. */
  function ReadExtended(f: Bytes, i: nat, nibble: nat): Option<(nat, nat)> {
    if nibble == 13 then
      if i + 1 < |f| then Some((f[i + 1] as nat + 13, i + 1)) else None
    else if nibble == 14 then
      if i + 1 < |f| then Some((f[i + 1] as nat + 269, i + 1)) else None
    else Some((nibble, i))
  }

  /** Delta and length of the option at index `i`, given their nibbles, and the index of the
      first byte of its value. */
  function ParseFields(f: Bytes, i: nat, deltaNibble: nat, lengthNibble: nat): Option<(nat, nat, nat)> {
    match ReadExtended(f, i, deltaNibble)
    case None => None
    case Some((delta, j)) =>
      match ReadExtended(f, j, lengthNibble)
      case None => None
      case Some((length, k)) => Some((delta, length, k + 1))
  }

  /** The option at index `i`, and the index behind it. `None` stands for a read outside the
      frame, or outside an empty Block2 value. */
  function ParseOption(f: Bytes, i: nat, last: uint16): (r: Option<(CoapOption, nat)>)
    requires i < |f|
    ensures r.Some? ==> i < r.value.1 <= |f|
  {
    match ParseFields(f, i, f[i] / 16, f[i] % 16)
    case None => None
    case Some((delta, length, k)) =>
      var o := CoapOption((last + delta) % 0x1_0000, Mid(f, k, length));
      if k + length > |f| || (o.number == BLOCK2 && o.value == []) then None
      else Some((o, k + length))
  }

  /** All options from index `i` on, in the order they are found, and the index where they end. */
  function ParseOptions(f: Bytes, i: nat, last: uint16): (r: Option<(seq<CoapOption>, nat)>)
    requires i <= |f|
    ensures r.Some? ==> i <= r.value.1 <= |f|
    decreases |f| - i
  {
    if i == |f| || f[i] == PAYLOAD_MARKER then Some(([], i))
    else
      match ParseOption(f, i, last)
      case None => None
      case Some((o, j)) =>
        match ParseOptions(f, j, o.number)
        case None => None
        case Some((rest, end)) => Some(([o] + rest, end))
  }

  /** Adds options one at a time, as the parser does. */
  function InsertAll(options: seq<CoapOption>, added: seq<CoapOption>): seq<CoapOption>
    decreases |added|
  {
    if added == [] then options else InsertAll(Insert(options, added[0]), added[1..])
  }

  /** The block state a list of parsed options leaves: the last Block2 option decides. */
  function DescribedBlock(block: BlockState, added: seq<CoapOption>): BlockState
    decreases |added|
  {
    if added == [] then block
    else DescribedBlock(if added[0].number == BLOCK2 && added[0].value != []
                        then DecodeBlock(added[0].value) else block, added[1..])
  }

  // The fields of the header (section 3 of RFC 7252)

  function VersionOf(first: byte): byte {
    (first / 64) % 4
  }

  function TypeOf(first: byte): MessageType {
    TypeOfCode((first / 16) % 4)
  }

  function TokenLengthOf(first: byte): nat {
    first % 16
  }

  function IdOf(high: byte, low: byte): uint16 {
    high as int * 0x100 + low
  }

  /** What stands behind the token: options in the order they are found, and payload. */
  datatype Body = Body(parsed: seq<CoapOption>, payload: Bytes)

  function ParseBody(f: Bytes, i: nat): Option<Body>
    requires i <= |f|
  {
    match ParseOptions(f, i, 0)
    case None => None
    case Some((options, end)) => Some(Body(options, if end < |f| then f[end + 1..] else []))
  }

  /** The reply a frame stands for; `None` when reading it would leave the frame. */
  function Decode(f: Bytes): Option<Reply> {
    if |f| < 4 || 4 + TokenLengthOf(f[0]) > |f| then None
    else
      match ParseBody(f, 4 + TokenLengthOf(f[0]))
      case None => None
      case Some(body) =>
        Some(Reply(Message(VersionOf(f[0]), TypeOf(f[0]), IdOf(f[2], f[3]), Mid(f, 4, TokenLengthOf(f[0])),
                           InsertAll([], body.parsed), body.payload),
                   f[1], DescribedBlock(NO_BLOCK, body.parsed)))
  }

  method ReadValue(f: Bytes, i: nat, nibble: nat) returns (v: uint16, j: nat)
    requires nibble < 16 && ReadExtended(f, i, nibble).Some?
    ensures ReadExtended(f, i, nibble) == Some((v, j))
  {
    v, j := nibble, i;
    if nibble == 13 {
      j := j + 1;
      v := f[j] as int + 13;
    } else if nibble == 14 {
      j := j + 1;
      v := f[j] as int + 269;
    }
  }

  /** Reads the option at index `i`. Nothing is checked: all reads stay in the frame when
      the option can be parsed. */
  method ReadOption(f: Bytes, i: nat, lastOptionNumber: uint16) returns (o: CoapOption, next: nat)
    requires i < |f| && ParseOption(f, i, lastOptionNumber).Some?
    ensures ParseOption(f, i, lastOptionNumber) == Some((o, next))
  {
    var optionDelta, j := ReadValue(f, i, f[i] / 16);
    var optionLength, k := ReadValue(f, j, f[i] % 16);
    o := CoapOption((lastOptionNumber + optionDelta) % 0x1_0000, Mid(f, k + 1, optionLength));
    next := k + 1 + optionLength;
  }

  /** The parse loop at index `i`, with the options and the block state collected so far, is
      on its way to the list, the block state and the end index `goal`. */
  ghost predicate Parsing(f: Bytes, i: nat, last: uint16, list: seq<CoapOption>, block: BlockState,
                          goal: (seq<CoapOption>, BlockState, nat)) {
    i <= |f| && ParseOptions(f, i, last).Some?
    && InsertAll(list, ParseOptions(f, i, last).value.0) == goal.0
    && DescribedBlock(block, ParseOptions(f, i, last).value.0) == goal.1
    && ParseOptions(f, i, last).value.1 == goal.2
  }

  lemma ParsingStep(f: Bytes, i: nat, last: uint16, list: seq<CoapOption>, block: BlockState,
                    goal: (seq<CoapOption>, BlockState, nat))
    requires Parsing(f, i, last, list, block, goal) && i < |f| && f[i] != PAYLOAD_MARKER
    ensures ParseOption(f, i, last).Some?
    ensures var (o, j) := ParseOption(f, i, last).value;
            && i < j
            && (o.number == BLOCK2 ==> o.value != [])
            && Parsing(f, j, o.number, Insert(list, o),
                       if o.number == BLOCK2 then DecodeBlock(o.value) else block, goal)
  {
    var (o, j) := ParseOption(f, i, last).value;
    var rest := ParseOptions(f, j, o.number).value.0;
    assert ParseOptions(f, i, last).value.0 == [o] + rest;
    assert ([o] + rest)[1..] == rest;
  }

  lemma ParsingDone(f: Bytes, i: nat, last: uint16, list: seq<CoapOption>, block: BlockState,
                    goal: (seq<CoapOption>, BlockState, nat))
    requires Parsing(f, i, last, list, block, goal) && (i == |f| || f[i] == PAYLOAD_MARKER)
    ensures goal == (list, block, i)
  {
  }

  /** The parse loop: an index into the frame and a 16-bit running option number. */
  method ReadOptions(f: Bytes, start: nat) returns (options: seq<CoapOption>, described: BlockState, end: nat)
    requires start <= |f| && ParseOptions(f, start, 0).Some?
    ensures end <= |f|
    ensures var (parsed, behind) := ParseOptions(f, start, 0).value;
            options == InsertAll([], parsed) && described == DescribedBlock(NO_BLOCK, parsed) && end == behind
  {
    var list := new MessageOptions();
    var block := new MessageBlock();
    var i := start;
    var lastOptionNumber: uint16 := 0;
    ghost var all := ParseOptions(f, start, 0).value;
    ghost var goal := (InsertAll([], all.0), DescribedBlock(NO_BLOCK, all.0), all.1);
    while i != |f| && f[i] != PAYLOAD_MARKER
      invariant Sorted(list.options)
      invariant Parsing(f, i, lastOptionNumber, list.options, block.State(), goal)
      decreases |f| - i
    {
      ParsingStep(f, i, lastOptionNumber, list.options, block.State(), goal);
      var o, next := ReadOption(f, i, lastOptionNumber);
      if o.number == BLOCK2 {
        block.SetFromDescriptiveBlockOption(o.value);
      }
      list.AddOption(o);
      lastOptionNumber := o.number;
      i := next;
    }
    ParsingDone(f, i, lastOptionNumber, list.options, block.State(), goal);
    options, described, end := list.options, block.State(), i;
  }

  method ReadBody(f: Bytes, start: nat) returns (options: seq<CoapOption>, described: BlockState, payload: Bytes)
    requires start <= |f| && ParseBody(f, start).Some?
    ensures var body := ParseBody(f, start).value;
            options == InsertAll([], body.parsed) && described == DescribedBlock(NO_BLOCK, body.parsed)
            && payload == body.payload
  {
    var i;
    options, described, i := ReadOptions(f, start);
    payload := [];
    if i < |f| {
      payload := f[i + 1..];
    }
  }

  /** The parser: header, token, options, payload. */
  method CreateFromFrame(f: Bytes) returns (r: Reply)
    requires Decode(f).Some?
    ensures r == Decode(f).value
  {
    var tokenLength := TokenLengthOf(f[0]);
    var options, block, payload := ReadBody(f, 4 + tokenLength);
    r := Reply(Message(VersionOf(f[0]), TypeOf(f[0]), IdOf(f[2], f[3]), Mid(f, 4, tokenLength), options, payload),
               f[1], block);
  }
}
