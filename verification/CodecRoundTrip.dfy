/** When the parser gives back what the printer was given. The printer's running option
    number has 8 bits, nibble 14 is followed by one extension byte, and the token length
    shares its byte with version and type, so this does not hold for every message:
    `RoundTripExactly` says for which ones it does. */
module CodecRoundTrip {
  import opened CoapTypes
  import opened StableOrder
  import opened OptionList
  import opened Blocks
  import opened Codec

  /** The value a reader sees for a printed delta or length. */
  function Shown(v: uint16): nat {
    if v > 268 then 269 + (v - 269) % 0x100 else v
  }

  lemma HeadOf(f: Bytes, i: nat, h: byte, rest: Bytes)
    requires i <= |f| && f[i..] == [h] + rest
    ensures i < |f| && f[i] == h && f[i + 1..] == rest
  {
    assert f[i..][0] == h;
    assert f[i + 1..] == f[i..][1..];
  }

  lemma SkipPrefix(f: Bytes, i: nat, a: Bytes, rest: Bytes)
    requires i <= |f| && f[i..] == a + rest
    ensures i + |a| <= |f| && Mid(f, i, |a|) == a && f[i + |a|..] == rest
    ensures |f| == i + |a| + |rest|
  {
    assert f[i + |a|..] == f[i..][|a|..];
    assert f[i..][..|a|] == a;
    assert a != [] ==> f[i..i + |a|] == f[i..][..|a|];
  }

  lemma ReadBack(f: Bytes, i: nat, v: uint16, tail: Bytes)
    requires i < |f| && f[i + 1..] == Extension(v) + tail
    ensures ReadExtended(f, i, Nibble(v)) == Some((Shown(v), i + |Extension(v)|))
    ensures i + |Extension(v)| < |f|
    ensures f[i + |Extension(v)| + 1..] == tail
  {
    var e := Extension(v);
    if e != [] {
      HeadOf(f, i + 1, e[0], tail);
    }
  }

  lemma OptionLayout(o: CoapOption, last: byte, tail: Bytes)
    ensures EncodeOption(o, last) + tail
         == [Nibble(Delta(o, last)) * 16 + Nibble(Length16(o))]
            + (Extension(Delta(o, last)) + (Extension(Length16(o)) + (o.value + tail)))
  {
  }

  function Behind(i: nat, o: CoapOption, last: byte): nat {
    i + |Extension(Delta(o, last))| + |Extension(Length16(o))| + 1
  }

  lemma FieldsBack(f: Bytes, i: nat, delta: uint16, length: uint16, rest: Bytes)
    requires i < |f| && f[i + 1..] == Extension(delta) + (Extension(length) + rest)
    ensures var k := i + |Extension(delta)| + |Extension(length)| + 1;
            && k <= |f| && f[k..] == rest
            && ParseFields(f, i, Nibble(delta), Nibble(length)) == Some((Shown(delta), Shown(length), k))
  {
    var j := i + |Extension(delta)|;
    ReadBack(f, i, delta, Extension(length) + rest);
    ReadBack(f, j, length, rest);
    FieldsRead(f, i, Nibble(delta), Nibble(length), Shown(delta), j, Shown(length), j + |Extension(length)|);
  }

  lemma FieldsRead(f: Bytes, i: nat, deltaNibble: nat, lengthNibble: nat, delta: nat, j: nat, length: nat, k: nat)
    requires ReadExtended(f, i, deltaNibble) == Some((delta, j))
    requires ReadExtended(f, j, lengthNibble) == Some((length, k))
    ensures ParseFields(f, i, deltaNibble, lengthNibble) == Some((delta, length, k + 1))
  {
  }

  lemma HeadNibbles(a: nat, b: nat)
    requires a <= 14 && b <= 14
    ensures (a * 16 + b) / 16 == a && (a * 16 + b) % 16 == b && a * 16 + b < PAYLOAD_MARKER
  {
  }

  /** What the parser makes of one printed option. */
  lemma ParseBack(f: Bytes, i: nat, o: CoapOption, prev: uint16, tail: Bytes)
    requires i <= |f| && f[i..] == EncodeOption(o, prev % 0x100) + tail
    ensures i < |f| && f[i] != PAYLOAD_MARKER
    ensures
      var k := Behind(i, o, prev % 0x100);
      && k <= |f| && f[k..] == o.value + tail
      && ParseFields(f, i, f[i] / 16, f[i] % 16)
         == Some((Shown(Delta(o, prev % 0x100)), Shown(Length16(o)), k))
  {
    var last := prev % 0x100;
    var delta, length := Delta(o, last), Length16(o);
    var rest := o.value + tail;
    OptionLayout(o, last, tail);
    HeadNibbles(Nibble(delta), Nibble(length));
    HeadOf(f, i, Nibble(delta) * 16 + Nibble(length), Extension(delta) + (Extension(length) + rest));
    FieldsBack(f, i, delta, length, rest);
  }

  /** The option survives behind an option with number `prev`: its value is at most 524 bytes
      long, its number at most 524 away, and either the 8-bit running number is still exact or
      the distance is in the range where only the low byte of it matters. A Block2 option
      needs a value. */
  predicate Faithful(o: CoapOption, prev: uint16)
    requires prev <= o.number
  {
    && |o.value| <= 524
    && o.number - prev <= 524
    && (prev <= 255 || o.number - prev >= 269)
    && (o.number == BLOCK2 ==> o.value != [])
  }

  predicate AllFaithful(options: seq<CoapOption>, prev: uint16)
    requires SortedFrom(options, prev)
  {
    options == [] || (Faithful(options[0], prev) && AllFaithful(options[1..], options[0].number))
  }

  predicate SortedFrom(options: seq<CoapOption>, prev: int) {
    options == [] || (prev <= options[0].number && SortedFrom(options[1..], options[0].number))
  }

  lemma {:induction false} SortedIsSortedFrom(options: seq<CoapOption>, prev: int)
    requires Sorted(options) && (options == [] || prev <= options[0].number)
    ensures SortedFrom(options, prev)
  {
    if |options| > 1 {
      assert Number(options[0]) <= Number(options[1]);
    }
    if options != [] {
      SortedIsSortedFrom(options[1..], options[0].number);
    }
  }

  lemma NumberBack(number: uint16, prev: uint16)
    requires prev <= number
    ensures var delta := (number + 0x1_0000 - prev % 0x100) % 0x1_0000;
            (prev + Shown(delta)) % 0x1_0000 == number
            <==> number - prev <= 524 && (prev <= 255 || number - prev >= 269)
  {
    var d, k := number - prev, prev / 0x100;
    DistanceToLowByte(number, prev);
    ShownDistance(d, k);
    AddDistance(prev, Shown(d + 0x100 * k), d);
  }

  lemma DistanceToLowByte(number: uint16, prev: uint16)
    requires prev <= number
    ensures var d, k := number - prev, prev / 0x100;
            && d + 0x100 * k < 0x1_0000 && (k == 0 <==> prev <= 255)
            && (number + 0x1_0000 - prev % 0x100) % 0x1_0000 == d + 0x100 * k
  {
    var rest := number - prev % 0x100;
    assert rest == (number - prev) + 0x100 * (prev / 0x100);
    assert (rest + 0x1_0000) % 0x1_0000 == rest;
  }

  lemma ShownDistance(d: nat, k: nat)
    requires d + 0x100 * k < 0x1_0000
    ensures Shown(d + 0x100 * k) <= 524
    ensures Shown(d + 0x100 * k) == d <==> d <= 524 && (k == 0 || d >= 269)
  {
    if d + 0x100 * k > 268 {
      LowByte(d, k);
    }
  }

  lemma AddDistance(prev: nat, s: nat, d: nat)
    requires s <= 524 && prev + d < 0x1_0000
    ensures (prev + s) % 0x1_0000 == prev + d <==> s == d
  {
  }

  lemma LowByte(d: nat, k: nat)
    requires d + 0x100 * k > 268
    ensures d <= 524 && d >= 269 ==> (d + 0x100 * k - 269) % 0x100 == d - 269
    ensures k == 0 && d <= 524 ==> 269 + (d + 0x100 * k - 269) % 0x100 == d
  {
  }

  /** One option: it comes back, with the parser right behind it, or it does not come back. */
  lemma OptionBack(f: Bytes, i: nat, o: CoapOption, prev: uint16, tail: Bytes)
    requires prev <= o.number
    requires i <= |f| && f[i..] == EncodeOption(o, prev % 0x100) + tail
    ensures i < |f| && f[i] != PAYLOAD_MARKER
    ensures (ParseOption(f, i, prev).Some? && ParseOption(f, i, prev).value.0 == o) <==> Faithful(o, prev)
    ensures Faithful(o, prev) ==>
              ParseOption(f, i, prev).value.1 == |f| - |tail| && f[|f| - |tail|..] == tail
  {
    ParseBack(f, i, o, prev, tail);
    NumberBack(o.number, prev);
    var k := Behind(i, o, prev % 0x100);
    SkipPrefix(f, k, o.value, tail);
    LengthBack(o);
    CompareBack(f, i, o, prev, Shown(Delta(o, prev % 0x100)), Shown(Length16(o)), k, tail);
  }

  lemma LengthBack(o: CoapOption)
    ensures Shown(Length16(o)) <= 524
    ensures |o.value| <= 524 ==> Shown(Length16(o)) == |o.value|
  {
  }

  lemma CompareBack(f: Bytes, i: nat, o: CoapOption, prev: uint16, delta: nat, length: nat, k: nat, tail: Bytes)
    requires i < |f|
    requires ParseFields(f, i, f[i] / 16, f[i] % 16) == Some((delta, length, k))
    requires k + |o.value| + |tail| == |f| && Mid(f, k, |o.value|) == o.value
    requires length <= 524 && (|o.value| <= 524 ==> length == |o.value|)
    ensures (ParseOption(f, i, prev).Some? && ParseOption(f, i, prev).value.0 == o)
            <==> |o.value| <= 524 && (prev + delta) % 0x1_0000 == o.number && (o.number == BLOCK2 ==> o.value != [])
    ensures ParseOption(f, i, prev).Some? && ParseOption(f, i, prev).value.0 == o ==>
              ParseOption(f, i, prev).value.1 == |f| - |tail|
  {
    assert |Mid(f, k, length)| <= 524;
  }

  lemma OptionsLayout(options: seq<CoapOption>, last: byte, payload: Bytes)
    requires options != []
    ensures EncodeOptions(options, last) + EncodePayload(payload)
         == EncodeOption(options[0], last)
            + (EncodeOptions(options[1..], options[0].number % 0x100) + EncodePayload(payload))
  {
  }

  /** The option list: it comes back in order exactly when every option survives. */
  lemma {:induction false} OptionsBack(f: Bytes, i: nat, options: seq<CoapOption>, prev: uint16, payload: Bytes)
    requires SortedFrom(options, prev)
    requires i <= |f| && f[i..] == EncodeOptions(options, prev % 0x100) + EncodePayload(payload)
    ensures (ParseOptions(f, i, prev).Some? && ParseOptions(f, i, prev).value.0 == options)
            <==> AllFaithful(options, prev)
    ensures AllFaithful(options, prev) ==>
              var end := ParseOptions(f, i, prev).value.1;
              end == |f| - |EncodePayload(payload)| && f[end..] == EncodePayload(payload)
    decreases |options|
  {
    if options == [] {
      NoOptionsBack(f, i, prev, payload);
    } else {
      FirstBack(f, i, options, prev, payload);
      FirstAndRest(f, i, options, prev);
      if Faithful(options[0], prev) {
        OptionsBack(f, ParseOption(f, i, prev).value.1, options[1..], options[0].number, payload);
      }
    }
  }

  lemma FirstBack(f: Bytes, i: nat, options: seq<CoapOption>, prev: uint16, payload: Bytes)
    requires options != [] && prev <= options[0].number
    requires i <= |f| && f[i..] == EncodeOptions(options, prev % 0x100) + EncodePayload(payload)
    ensures i < |f| && f[i] != PAYLOAD_MARKER
    ensures var first := ParseOption(f, i, prev);
            && (first.Some? && first.value.0 == options[0] <==> Faithful(options[0], prev))
            && (Faithful(options[0], prev) ==>
                  f[first.value.1..] == EncodeOptions(options[1..], options[0].number % 0x100) + EncodePayload(payload))
  {
    OptionsLayout(options, prev % 0x100, payload);
    OptionBack(f, i, options[0], prev,
               EncodeOptions(options[1..], options[0].number % 0x100) + EncodePayload(payload));
  }

  lemma FirstAndRest(f: Bytes, i: nat, options: seq<CoapOption>, prev: uint16)
    requires options != [] && i < |f| && f[i] != PAYLOAD_MARKER
    ensures var o := options[0];
            var first := ParseOption(f, i, prev);
            var whole := ParseOptions(f, i, prev);
            && (whole.Some? && whole.value.0 == options
                <==> && first.Some? && first.value.0 == o
                     && var rest := ParseOptions(f, first.value.1, o.number);
                        rest.Some? && rest.value.0 == options[1..])
            && (whole.Some? && whole.value.0 == options ==>
                  whole.value.1 == ParseOptions(f, first.value.1, o.number).value.1)
  {
    OptionsStep(f, i, prev, options[0], options[1..]);
    assert options == [options[0]] + options[1..];
  }

  lemma NoOptionsBack(f: Bytes, i: nat, prev: uint16, payload: Bytes)
    requires i <= |f| && f[i..] == EncodePayload(payload)
    ensures ParseOptions(f, i, prev) == Some(([], i)) && i == |f| - |EncodePayload(payload)|
  {
    if payload != [] {
      HeadOf(f, i, PAYLOAD_MARKER, payload);
    }
  }

  lemma OptionsStep(f: Bytes, i: nat, prev: uint16, o: CoapOption, rest: seq<CoapOption>)
    requires i < |f| && f[i] != PAYLOAD_MARKER
    ensures ParseOptions(f, i, prev).Some? && ParseOptions(f, i, prev).value.0 == [o] + rest
            <==> && ParseOption(f, i, prev).Some? && ParseOption(f, i, prev).value.0 == o
                 && var j := ParseOption(f, i, prev).value.1;
                    ParseOptions(f, j, o.number).Some? && ParseOptions(f, j, o.number).value.0 == rest
    ensures ParseOptions(f, i, prev).Some? && ParseOptions(f, i, prev).value.0 == [o] + rest ==>
              ParseOptions(f, i, prev).value.1
              == ParseOptions(f, ParseOption(f, i, prev).value.1, o.number).value.1
  {
    var first := ParseOption(f, i, prev);
    if first.Some? {
      var others := ParseOptions(f, first.value.1, first.value.0.number);
      if others.Some? {
        assert ([first.value.0] + others.value.0)[0] == first.value.0;
        assert ([first.value.0] + others.value.0)[1..] == others.value.0;
        assert ([o] + rest)[0] == o && ([o] + rest)[1..] == rest;
      }
    }
  }

  // The header

  lemma HeaderBits(v: nat, t: nat, l: nat)
    requires v <= 3 && t <= 3 && l <= 15
    ensures var b := v * 64 + t * 16 + l; b < 0x100 && b / 64 == v && (b / 16) % 4 == t && b % 16 == l
  {
  }

  lemma LowNibble(high: nat, low: nat)
    requires low <= 15
    ensures ((16 * high + low) % 0x100) % 16 == low
    ensures high <= 15 ==> (16 * high + low) % 0x100 == 16 * high + low
  {
  }

  lemma FirstByteBack(version: byte, t: nat, length: nat)
    requires t <= 3
    ensures FirstByte(version, t, length) % 16 == length % 16
    ensures version <= 3 && length <= 15 ==> FirstByte(version, t, length) == version * 64 + t * 16 + length
  {
    var high := BitOr(version * 4 + t, length / 16);
    LowNibble(high, length % 16);
    if length <= 15 {
      assert high == version * 4 + t;
    }
  }

  /** What the parser reads out of the first byte. */
  lemma HeaderBack(m: Message, code: byte)
    ensures var b := Header(m, code)[0];
            && b % 16 == |m.token| % 16
            && (m.version <= 3 && |m.token| <= 15 ==>
                (b / 64) % 4 == m.version && TypeOfCode((b / 16) % 4) == m.mtype)
  {
    FirstByteBack(m.version, m.mtype.Code(), |m.token|);
    if m.version <= 3 && |m.token| <= 15 {
      HeaderBits(m.version, m.mtype.Code(), |m.token|);
    }
  }

  /** The options of a frame in the order in which the parser adds them. */
  function Arrived(f: Bytes): Option<seq<CoapOption>> {
    if |f| < 4 || 4 + TokenLengthOf(f[0]) > |f| then None
    else match ParseBody(f, 4 + TokenLengthOf(f[0]))
      case None => None
      case Some(body) => Some(body.parsed)
  }

  /** Everything the frame carries comes back. */
  predicate ComesBack(m: Message, code: byte) {
    var f := Encode(m, code);
    && Decode(f).Some? && Arrived(f) == Some(m.options)
    && var r := Decode(f).value;
       && r.message.version == m.version && r.message.mtype == m.mtype && r.message.id == m.id
       && r.message.token == m.token && r.message.payload == m.payload && r.code == code
  }

  predicate Encodable(m: Message)
    requires SortedFrom(m.options, 0)
  {
    m.version <= 3 && |m.token| <= 15 && AllFaithful(m.options, 0)
  }

  /** Parsing a printed message gives back version, type, code, id, token, options in order
      and payload if and only if the message is encodable. */
  lemma RoundTripExactly(m: Message, code: byte)
    requires SortedFrom(m.options, 0)
    ensures ComesBack(m, code) <==> Encodable(m)
  {
    var f := Encode(m, code);
    FrameLayout(m, code);
    HeaderBack(m, code);
    DecodeFields(f);
    if |m.token| <= 15 {
      BodyBack(m, code);
    } else {
      assert |Mid(f, 4, f[0] % 16)| <= 15;
    }
  }

  /** The reply's fields, read off the frame. */
  lemma DecodeFields(f: Bytes)
    requires |f| >= 4
    ensures Decode(f).Some? <==> Arrived(f).Some?
    ensures Decode(f).Some? ==>
              var r := Decode(f).value;
              && r.message.version == VersionOf(f[0]) && r.message.mtype == TypeOf(f[0])
              && r.message.id == IdOf(f[2], f[3]) && r.code == f[1]
              && r.message.token == Mid(f, 4, TokenLengthOf(f[0]))
              && r.message.options == InsertAll([], Arrived(f).value)
              && r.block == DescribedBlock(NO_BLOCK, Arrived(f).value)
  {
  }

  /** The payload behind options that end at `end`. */
  lemma PayloadBack(f: Bytes, end: nat, payload: Bytes)
    requires end <= |f| && f[end..] == EncodePayload(payload)
    ensures (if end < |f| then f[end + 1..] else []) == payload
  {
    if payload != [] {
      HeadOf(f, end, PAYLOAD_MARKER, payload);
    }
  }

  lemma OptionsOfFrame(f: Bytes, i: nat, options: seq<CoapOption>, payload: Bytes)
    requires SortedFrom(options, 0)
    requires i <= |f| && f[i..] == EncodeOptions(options, 0) + EncodePayload(payload)
    ensures (ParseBody(f, i).Some? && ParseBody(f, i).value.parsed == options) <==> AllFaithful(options, 0)
  {
    OptionsBack(f, i, options, 0, payload);
  }

  lemma PayloadOfFrame(f: Bytes, i: nat, options: seq<CoapOption>, payload: Bytes)
    requires SortedFrom(options, 0) && AllFaithful(options, 0)
    requires i <= |f| && f[i..] == EncodeOptions(options, 0) + EncodePayload(payload)
    ensures ParseBody(f, i).Some? && ParseBody(f, i).value.payload == payload
  {
    OptionsBack(f, i, options, 0, payload);
    PayloadAt(f, i, options, ParseOptions(f, i, 0).value.1, payload);
  }

  lemma PayloadAt(f: Bytes, i: nat, options: seq<CoapOption>, end: nat, payload: Bytes)
    requires i <= |f| && end <= |f| && ParseOptions(f, i, 0) == Some((options, end))
    requires f[end..] == EncodePayload(payload)
    ensures ParseBody(f, i) == Some(Body(options, payload))
  {
    PayloadBack(f, end, payload);
  }

  lemma BodyBack(m: Message, code: byte)
    requires SortedFrom(m.options, 0) && |m.token| <= 15
    requires TokenLengthOf(Header(m, code)[0]) == |m.token|
    ensures var f := Encode(m, code);
            && (Arrived(f) == Some(m.options) <==> AllFaithful(m.options, 0))
            && (AllFaithful(m.options, 0) ==> Decode(f).Some? && Decode(f).value.message.payload == m.payload)
  {
    FrameLayout(m, code);
    OptionsOfFrame(Encode(m, code), 4 + |m.token|, m.options, m.payload);
    if AllFaithful(m.options, 0) {
      PayloadOfFrame(Encode(m, code), 4 + |m.token|, m.options, m.payload);
    }
  }

  lemma FrameLayout(m: Message, code: byte)
    ensures var f, h := Encode(m, code), Header(m, code);
            && |f| >= 4 + |m.token|
            && f[0] == h[0] && f[1] == code && f[2] as int * 0x100 + f[3] == m.id
            && Mid(f, 4, |m.token|) == m.token
            && f[4 + |m.token|..] == EncodeOptions(m.options, 0) + EncodePayload(m.payload)
  {
    var rest := EncodeOptions(m.options, 0) + EncodePayload(m.payload);
    HeaderBytes(m, code);
    BehindHeader(Header(m, code), m.token, rest);
    SkipPrefix(Encode(m, code), 4, m.token, rest);
  }

  lemma HeaderBytes(m: Message, code: byte)
    ensures var h := Header(m, code); |h| == 4 && h[1] == code && h[2] as int * 0x100 + h[3] == m.id
  {
  }

  lemma BehindHeader(h: Bytes, token: Bytes, rest: Bytes)
    requires |h| == 4
    ensures var f := h + token + rest;
            |f| >= 4 && f[0] == h[0] && f[1] == h[1] && f[2] == h[2] && f[3] == h[3] && f[4..] == token + rest
  {
    var f := h + token + rest;
    assert f == h + (token + rest);
    assert f[4..] == (h + (token + rest))[|h|..];
  }

  lemma {:induction false} InsertAllSorted(list: seq<CoapOption>, added: seq<CoapOption>)
    requires Sorted(list + added)
    ensures InsertAll(list, added) == list + added
    decreases |added|
  {
    if added == [] {
      assert list + added == list;
    } else {
      var o := added[0];
      assert (list + added)[|list|] == o;
      forall j | 0 <= j < |list| ensures list[j].number <= o.number {
        assert Number((list + added)[j]) <= Number((list + added)[|list|]);
      }
      InsertAtUpperBound(list, o, |list|);
      assert list[..|list|] + [o] + list[|list|..] == list + [o];
      assert (list + [o]) + added[1..] == list + added;
      InsertAllSorted(list + [o], added[1..]);
    }
  }

  /** An encodable message is received as it was sent, with the block state of its Block2 option. */
  lemma RoundTrip(m: Message, code: byte)
    requires Sorted(m.options) && SortedFrom(m.options, 0) && Encodable(m)
    ensures Decode(Encode(m, code)) == Some(Reply(m, code, DescribedBlock(NO_BLOCK, m.options)))
  {
    RoundTripExactly(m, code);
    InsertAllSorted([], m.options);
    assert [] + m.options == m.options;
  }

  /** Options numbered below 256 with values of at most 524 bytes. */
  predicate Plain(options: seq<CoapOption>) {
    forall o :: o in options ==> o.number <= 255 && |o.value| <= 524 && (o.number == BLOCK2 ==> o.value != [])
  }

  lemma {:induction false} PlainIsFaithful(options: seq<CoapOption>, prev: uint16)
    requires SortedFrom(options, prev) && Plain(options) && prev <= 255
    ensures AllFaithful(options, prev)
  {
    if options != [] {
      assert options[0] in options;
      PlainIsFaithful(options[1..], options[0].number);
    }
  }

  /** Nothing else is needed for messages with such options: all that CoAP defines qualify. */
  lemma PlainRoundTrip(m: Message, code: byte)
    requires Sorted(m.options) && Plain(m.options) && m.version <= 3 && |m.token| <= 15
    ensures Decode(Encode(m, code)) == Some(Reply(m, code, DescribedBlock(NO_BLOCK, m.options)))
  {
    SortedIsSortedFrom(m.options, 0);
    PlainIsFaithful(m.options, 0);
    RoundTrip(m, code);
  }

  /** Two options numbered 256 and 300: the second is received as option 556. */
  lemma RunningNumberOverflows()
    ensures var m := Message(1, Confirmable, 1, [], [CoapOption(256, []), CoapOption(300, [])], []);
            && SortedFrom(m.options, 0)
            && !ComesBack(m, 1)
            && Arrived(Encode(m, 1)) == Some([CoapOption(256, []), CoapOption(556, [])])
  {
    var m := Message(1, Confirmable, 1, [], [CoapOption(256, []), CoapOption(300, [])], []);
    assert m.options[1..] == [CoapOption(300, [])];
    assert m.options[1..][1..] == [];
    OverflowFrame();
    OverflowArrives(Encode(m, 1));
    assert Arrived(Encode(m, 1)).value[1].number == 556;
  }

  lemma OverflowFrame()
    ensures Encode(Message(1, Confirmable, 1, [], [CoapOption(256, []), CoapOption(300, [])], []), 1)
         == [64, 1, 0, 1, 208, 243, 224, 31]
  {
    var a, b := CoapOption(256, []), CoapOption(300, []);
    assert [a, b][1..] == [b] && [b][1..] == [];
    FirstByteBack(1, 0, 0);
    assert BitOr(4, 0) == 4;
    assert EncodeOption(a, 0) == [208] + ([243] + [] + []);
    assert EncodeOption(b, 0) == [224] + ([31] + [] + []);
    assert EncodeOptions([b], 0) == EncodeOption(b, 0) + EncodeOptions([], 44);
    assert EncodeOptions([a, b], 0) == EncodeOption(a, 0) + EncodeOptions([b], 0);
  }

  lemma OverflowArrives(f: Bytes)
    requires f == [64, 1, 0, 1, 208, 243, 224, 31]
    ensures Arrived(f) == Some([CoapOption(256, []), CoapOption(556, [])])
  {
    OverflowOptions(f);
    OptionArrives(f, 6, 256, CoapOption(556, []), 8, [], 8);
    assert [CoapOption(556, [])] + [] == [CoapOption(556, [])];
    assert [CoapOption(256, [])] + [CoapOption(556, [])] == [CoapOption(256, []), CoapOption(556, [])];
    OptionArrives(f, 4, 0, CoapOption(256, []), 6, [CoapOption(556, [])], 8);
  }

  lemma OverflowOptions(f: Bytes)
    requires f == [64, 1, 0, 1, 208, 243, 224, 31]
    ensures ParseOption(f, 4, 0) == Some((CoapOption(256, []), 6))
    ensures ParseOption(f, 6, 256) == Some((CoapOption(556, []), 8))
  {
    FieldsRead(f, 4, 13, 0, 256, 5, 0, 5);
    FieldsRead(f, 6, 14, 0, 300, 7, 0, 7);
  }

  lemma OptionArrives(f: Bytes, i: nat, last: uint16, o: CoapOption, j: nat, rest: seq<CoapOption>, end: nat)
    requires i < |f| && f[i] != PAYLOAD_MARKER && ParseOption(f, i, last) == Some((o, j))
    requires j <= |f| && ParseOptions(f, j, o.number) == Some((rest, end))
    ensures ParseOptions(f, i, last) == Some(([o] + rest, end))
  {
  }
}
