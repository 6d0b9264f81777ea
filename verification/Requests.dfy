/** The client's own request objects: block options, retransmission state and timers. */
module Requests {
  import opened CoapTypes
  import opened StableOrder
  import opened OptionList
  import opened Blocks
  import opened Codec

  /** A request being transmitted. Timers hold their deadline while they run. */
  datatype Request = Request(
    message: Message, methodCode: byte, fullPayload: Bytes, target: Address,
    timeout: nat, retransmissionCounter: nat, transmissionInProgress: bool, observeCancelled: bool,
    maxTransmitWait: nat, multicastTimeout: nat,
    timeoutTimer: Option<nat>, maxTransmitWaitTimer: Option<nat>, multicastExpireTimer: Option<nat>)
  {
    predicate IsObserve() {
      HasOption(message.options, OBSERVE)
    }

    predicate IsMulticast() {
      target.Multicast?
    }
  }

  predicate CheckBlockNumber(blockNumber: nat) {
    blockNumber < 0x10_0000
  }

  function BlockOption(name: uint16, number: nat, more: bool, size: nat): CoapOption
    requires CheckBlockNumber(number)
  {
    CoapOption(name, BlockBytes(BlockData(number, more, size)))
  }

  /** Asks for block `number` in the response; refused when the number does not fit. */
  function SetToRequestBlock(r: Request, number: nat, size: nat): Request {
    if !CheckBlockNumber(number) then r
    else
      var others := RemoveNamed(RemoveNamed(r.message.options, BLOCK1), BLOCK2);
      r.(message := r.message.(options := Insert(others, BlockOption(BLOCK2, number, false, size))))
  }

  /** Carries block `number` of the full payload; refused when the number does not fit. */
  function SetToSendBlock(r: Request, number: nat, size: nat): Request {
    if !CheckBlockNumber(number) then r
    else
      var more := (number + 1) * size < |r.fullPayload|;
      var others := RemoveNamed(r.message.options, BLOCK1);
      r.(message := r.message.(payload := Slice(r.fullPayload, size, number),
                               options := Insert(others, BlockOption(BLOCK1, number, more, size))))
  }

  /** The deadline of a timer started with this interval. Intervals are converted to `int` first, and
      a timer given a negative interval does not run. */
  function Armed(now: nat, interval: nat): (deadline: Option<nat>)
    ensures deadline == if Wrap32(interval) < 0x8000_0000 then Some(now + Wrap32(interval)) else None
  {
    if ToInt32(interval) >= 0 then Some(now + ToInt32(interval)) else None
  }

  /** Starts a transmission, or doubles the timeout of the one in progress. */
  function RestartTransmission(r: Request, now: nat): Request {
    var r' := if !r.transmissionInProgress
              then r.(transmissionInProgress := true, maxTransmitWaitTimer := Armed(now, r.maxTransmitWait))
              else r.(retransmissionCounter := r.retransmissionCounter + 1, timeout := Wrap32(r.timeout * 2));
    if r'.timeout > 0 then r'.(timeoutTimer := Armed(now, r'.timeout)) else r'
  }

  function StartMulticastTransmission(r: Request, now: nat): Request {
    r.(multicastExpireTimer := Armed(now, r.multicastTimeout))
  }

  /** Stops the timers and the retransmission counter. The timeout keeps its doubled value. */
  function StopTransmission(r: Request): Request {
    if r.IsMulticast() then r.(multicastExpireTimer := None)
    else r.(transmissionInProgress := false, retransmissionCounter := 0,
            maxTransmitWaitTimer := None, timeoutTimer := None)
  }

  /** The empty message that acknowledges or rejects the message with this id. */
  function EmptyMessage(id: uint16, t: MessageType): Message {
    Message(1, t, id, [], [], [])
  }

  lemma EmptyMessageIsFourBytes(id: uint16, t: MessageType)
    ensures Encode(EmptyMessage(id, t), 0) == [0x40 + 0x10 * t.Code(), 0, id / 0x100, id % 0x100]
  {
    assert BitOr(4 + t.Code(), 0) == 4 + t.Code();
  }

  /** A request object; every method changes it in place. */
  class InternalRequest {
    var message: Message
    var methodCode: byte
    const fullPayload: Bytes
    const target: Address
    var timeout: nat
    var retransmissionCounter: nat
    var transmissionInProgress: bool
    var observeCancelled: bool
    var maxTransmitWait: nat
    var multicastTimeout: nat
    var timeoutTimer: Option<nat>
    var maxTransmitWaitTimer: Option<nat>
    var multicastExpireTimer: Option<nat>

    constructor (m: Message, methodCode: byte, target: Address)
      ensures State() == Request(m, methodCode, m.payload, target, 0, 0, false, false, 0, 0, None, None, None)
    {
      message, this.methodCode, fullPayload, this.target := m, methodCode, m.payload, target;
      timeout, retransmissionCounter, transmissionInProgress, observeCancelled := 0, 0, false, false;
      maxTransmitWait, multicastTimeout := 0, 0;
      timeoutTimer, maxTransmitWaitTimer, multicastExpireTimer := None, None, None;
    }

    function State(): Request
      reads this
    {
      Request(message, methodCode, fullPayload, target, timeout, retransmissionCounter, transmissionInProgress,
              observeCancelled, maxTransmitWait, multicastTimeout, timeoutTimer, maxTransmitWaitTimer,
              multicastExpireTimer)
    }

    method SetRequestBlock(number: nat, size: nat)
      requires Sorted(message.options)
      modifies this
      ensures State() == SetToRequestBlock(old(State()), number, size)
    {
      if !CheckBlockNumber(number) {
        return;
      }
      message := message.(options := RemoveNamed(message.options, BLOCK1));
      message := message.(options := RemoveNamed(message.options, BLOCK2));
      var value := BlockOptionValue(number, false, size);
      message := message.(options := Insert(message.options, CoapOption(BLOCK2, value)));
    }

    method SetSendBlock(number: nat, size: nat)
      requires Sorted(message.options)
      modifies this
      ensures State() == SetToSendBlock(old(State()), number, size)
    {
      if !CheckBlockNumber(number) {
        return;
      }
      message := message.(payload := Mid(fullPayload, number * size, size));
      message := message.(options := RemoveNamed(message.options, BLOCK1));
      var value := BlockOptionValue(number, (number + 1) * size < |fullPayload|, size);
      message := message.(options := Insert(message.options, CoapOption(BLOCK1, value)));
    }

    method Restart(now: nat)
      modifies this
      ensures State() == RestartTransmission(old(State()), now)
    {
      if !transmissionInProgress {
        transmissionInProgress := true;
        maxTransmitWaitTimer := Armed(now, maxTransmitWait);
      } else {
        retransmissionCounter := retransmissionCounter + 1;
        timeout := Wrap32(timeout * 2);
      }
      if timeout > 0 {
        timeoutTimer := Armed(now, timeout);
      }
    }

    method StartMulticast(now: nat)
      modifies this
      ensures State() == StartMulticastTransmission(old(State()), now)
    {
      multicastExpireTimer := Armed(now, multicastTimeout);
    }

    method Stop()
      modifies this
      ensures State() == StopTransmission(old(State()))
    {
      if target.Multicast? {
        multicastExpireTimer := None;
      } else {
        transmissionInProgress := false;
        retransmissionCounter := 0;
        maxTransmitWaitTimer := None;
        timeoutTimer := None;
      }
    }
  }
}
