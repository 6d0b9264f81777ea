/** What a server reads in the datagrams of an exchange. */
module WireRequests {
  import opened CoapTypes
  import opened StableOrder
  import opened OptionList
  import opened Blocks
  import opened Codec
  import opened CodecRoundTrip
  import opened Reassembly
  import opened Requests
  import opened Exchanges
  import opened FrameFacts

  /** The message survives the codec. */
  ghost predicate Fit(r: Request) {
    && Sorted(r.message.options) && Plain(r.message.options)
    && r.message.version <= 3 && |r.message.token| <= 15 && r.methodCode != 0
  }

  /** The request a server reads in a datagram; acknowledgments and resets carry none. */
  function Carried(d: Datagram): Option<Reply> {
    match Decode(d.frame)
    case None => None
    case Some(q) => if q.code == EMPTY_MESSAGE then None else Some(q)
  }

  /** The block of the response a request asks for. */
  function AskedBlock(r: Request): nat {
    DescribedBlock(NO_BLOCK, r.message.options).number
  }

  lemma CarriedRequest(r: Request, host: Address)
    requires Fit(r)
    ensures Carried(Datagram(RequestFrame(r), host))
         == Some(Reply(r.message, r.methodCode, DescribedBlock(NO_BLOCK, r.message.options)))
  {
    PlainRoundTrip(r.message, r.methodCode);
  }

  lemma EmptyCarriesNothing(r: Request, id: uint16, t: MessageType)
    ensures Carried(EmptyDatagram(r, id, t)) == None
  {
    PlainRoundTrip(EmptyMessage(id, t), 0);
  }

  /** Only the options of that name matter for the block state. */
  lemma {:induction false} DescribedByNamed(block: BlockState, options: seq<CoapOption>)
    ensures Named(options, BLOCK2) == [] ==> DescribedBlock(block, options) == block
    ensures |Named(options, BLOCK2)| == 1 && Named(options, BLOCK2)[0].value != [] ==>
              DescribedBlock(block, options) == DecodeBlock(Named(options, BLOCK2)[0].value)
    decreases |options|
  {
    if options != [] {
      var o := options[0];
      HeadWithKey(Number, options);
      DescribedByNamed(if o.number == BLOCK2 && o.value != [] then DecodeBlock(o.value) else block, options[1..]);
    }
  }

  lemma InsertKeepsPlain(options: seq<CoapOption>, o: CoapOption)
    requires Plain(options) && Plain([o])
    ensures Plain(Insert(options, o))
  {
    InsertMembers(Number, options, o);
    assert o in [o];
  }

  lemma RemoveKeepsPlain(options: seq<CoapOption>, name: int)
    requires Plain(options)
    ensures Plain(RemoveNamed(options, name))
  {
    RemoveNamedMembers(options, name);
  }

  lemma BlockOptionIsPlain(name: uint16, number: nat, more: bool, size: nat)
    requires CheckBlockNumber(number) && name <= 255
    ensures Plain([BlockOption(name, number, more, size)])
  {
  }

  /** Turned to a block of the response, the request asks for that block and no other. */
  lemma RequestBlockAsks(r: Request, number: nat, size: nat)
    requires Fit(r) && CheckBlockNumber(number) && IsBlockSize(size)
    ensures var r' := SetToRequestBlock(r, number, size);
            && Fit(r')
            && DescribedBlock(NO_BLOCK, r'.message.options) == BlockState(number, false, size)
            && Named(r'.message.options, BLOCK1) == []
            && Named(r'.message.options, BLOCK2) == [BlockOption(BLOCK2, number, false, size)]
  {
    var o1 := RemoveNamed(r.message.options, BLOCK1);
    var o2 := RemoveNamed(o1, BLOCK2);
    var o := BlockOption(BLOCK2, number, false, size);
    RequestBlockFits(r, number, size);
    RemoveNamedProjection(r.message.options, BLOCK1, BLOCK1);
    RemoveNamedProjection(o1, BLOCK2, BLOCK1);
    RemoveNamedProjection(o1, BLOCK2, BLOCK2);
    RemoveNamedKeepsSorted(r.message.options, BLOCK1);
    RemoveNamedKeepsSorted(o1, BLOCK2);
    InsertWithKey(Number, o2, o, BLOCK2);
    InsertWithKey(Number, o2, o, BLOCK1);
    DescribedByNamed(NO_BLOCK, Insert(o2, o));
    BlockRoundTrip(number, false, size);
  }

  lemma RequestBlockFits(r: Request, number: nat, size: nat)
    requires Fit(r)
    ensures Fit(SetToRequestBlock(r, number, size))
  {
    if CheckBlockNumber(number) {
      var o1 := RemoveNamed(r.message.options, BLOCK1);
      var o2 := RemoveNamed(o1, BLOCK2);
      RemoveKeepsPlain(r.message.options, BLOCK1);
      RemoveKeepsPlain(o1, BLOCK2);
      RemoveNamedKeepsSorted(r.message.options, BLOCK1);
      RemoveNamedKeepsSorted(o1, BLOCK2);
      BlockOptionIsPlain(BLOCK2, number, false, size);
      InsertKeepsPlain(o2, BlockOption(BLOCK2, number, false, size));
      InsertKeepsSorted(Number, o2, BlockOption(BLOCK2, number, false, size));
    }
  }

  lemma SendBlockFits(r: Request, number: nat, size: nat)
    requires Fit(r)
    ensures Fit(SetToSendBlock(r, number, size))
  {
    if CheckBlockNumber(number) {
      var o1 := RemoveNamed(r.message.options, BLOCK1);
      var o := BlockOption(BLOCK1, number, (number + 1) * size < |r.fullPayload|, size);
      RemoveKeepsPlain(r.message.options, BLOCK1);
      RemoveNamedKeepsSorted(r.message.options, BLOCK1);
      BlockOptionIsPlain(BLOCK1, number, (number + 1) * size < |r.fullPayload|, size);
      InsertKeepsPlain(o1, o);
      InsertKeepsSorted(Number, o1, o);
    }
  }

  /** Turned to a block of its payload, the request carries that slice, and its Block1 option says
      which one it is and whether more follow; the block it asks for stays the same. */
  lemma SendBlockCarries(r: Request, number: nat, size: nat)
    requires Fit(r) && CheckBlockNumber(number) && IsBlockSize(size)
    ensures var r' := SetToSendBlock(r, number, size);
            && Fit(r') && r'.message.payload == Slice(r.fullPayload, size, number)
            && |Named(r'.message.options, BLOCK1)| == 1
            && Named(r'.message.options, BLOCK1)[0].value != []
            && DecodeBlock(Named(r'.message.options, BLOCK1)[0].value)
               == BlockState(number, number + 1 < BlockCount(r.fullPayload, size), size)
            && Named(r'.message.options, BLOCK2) == Named(r.message.options, BLOCK2)
  {
    var more := (number + 1) * size < |r.fullPayload|;
    var o1 := RemoveNamed(r.message.options, BLOCK1);
    var o := BlockOption(BLOCK1, number, more, size);
    HasSuccessor(r.fullPayload, size, number);
    SendBlockFits(r, number, size);
    RemoveNamedProjection(r.message.options, BLOCK1, BLOCK1);
    RemoveNamedProjection(r.message.options, BLOCK1, BLOCK2);
    RemoveNamedKeepsSorted(r.message.options, BLOCK1);
    InsertWithKey(Number, o1, o, BLOCK1);
    InsertWithKey(Number, o1, o, BLOCK2);
    BlockRoundTrip(number, more, size);
  }

  lemma TransmittedKeepsMessage(r: Request, now: nat)
    ensures var r' := Transmitted(r, now);
            && r'.message == r.message && r'.methodCode == r.methodCode && r'.target == r.target
            && r'.fullPayload == r.fullPayload && r'.observeCancelled == r.observeCancelled
  {
  }

  /** No content but that of errors. */
  ghost predicate NoSuccess(posts: seq<Post>) {
    forall i :: 0 <= i < |posts| && posts[i].slot.SetContent? ==> IsError(posts[i].slot.code)
  }

  /** A Reset, or another empty message that is no acknowledgment: code 0.00 and nothing in it. The
      library takes it for the last block of a successful response. */
  predicate CutsShort(r: Received) {
    && r.reply.code == EMPTY_MESSAGE && !r.reply.message.mtype.Acknowledgment?
    && Complete(r) && Payload(r) == [] && BlockNumber(r) == 0
  }
}
