/** One exchange: what the engine does, on behalf of one request, with every event that
    concerns it. Everything the engine does to an exchange is an `Effect`: what becomes of
    the exchange, what is posted to the user's reply, what is sent, what is signalled. */
module Exchanges {
  import opened CoapTypes
  import opened StableOrder
  import opened OptionList
  import opened Blocks
  import opened Codec
  import opened Reassembly
  import opened Requests

  type ReplyId = nat

  /** The slots of the user's reply object that the engine invokes, always queued. */
  datatype Slot =
    | SetRunning(token: Token, id: uint16)
    | SetContent(sender: Address, message: Message, code: byte)
    | SetError(error: Error)
    | SetFinished(error: Error)
    | SetNotified
    | SetObserveCancelled

  datatype Post = Post(reply: ReplyId, slot: Slot)

  datatype Datagram = Datagram(frame: Bytes, host: Address)

  datatype Signal =
    | ErrorSignal(failed: Option<ReplyId>, error: Error)
    | MulticastResponse(user: ReplyId, message: Message, sender: Address)

  /** The user's reply is `None` once the object is gone. */
  datatype Exchange = Exchange(userReply: Option<ReplyId>, request: Request, replies: seq<Received>)

  datatype Effect = Effect(next: Option<Exchange>, posts: seq<Post>, sends: seq<Datagram>, signals: seq<Signal>)

  // Settings and the timing parameters of section 4.8 of RFC 7252

  datatype Settings = Settings(blockSize: nat, maximumRetransmitCount: nat, ackTimeout: nat,
                               ackRandomFactor: real, maximumServerResponseDelay: nat, minimumTokenSize: nat)

  /** What the setters keep true. */
  predicate ValidSettings(s: Settings) {
    && (s.blockSize == 0 || IsBlockSize(s.blockSize))
    && s.maximumRetransmitCount <= 25
    && s.ackTimeout < 0x1_0000_0000
    && s.ackRandomFactor >= 1.0
    && s.maximumServerResponseDelay < 0x1_0000_0000
    && 1 <= s.minimumTokenSize <= 8
  }

  function Scaled(x: nat, factor: real): nat {
    if factor >= 0.0 then (x as real * factor).Floor else 0
  }

  /** A scaled value converted to `uint`: out of range it wraps, as 64-bit targets do it. */
  function ScaledUInt(x: nat, factor: real): nat {
    Wrap32(Scaled(x, factor))
  }

  function MaximumTimeout(s: Settings): nat {
    ScaledUInt(s.ackTimeout, s.ackRandomFactor)
  }

  /** The product is computed in 32 bits before it is scaled, and converted to 32 bits again. */
  function MaximumTransmitSpan(s: Settings): nat {
    ScaledUInt(Wrap32(s.ackTimeout * (Pow2(s.maximumRetransmitCount) - 1)), s.ackRandomFactor)
  }

  function MaximumTransmitWait(s: Settings): nat {
    ScaledUInt(Wrap32(s.ackTimeout * (Pow2(s.maximumRetransmitCount + 1) - 1)), s.ackRandomFactor)
  }

  const MAXIMUM_LATENCY := 100_000

  function MulticastTimeout(s: Settings): nat {
    Wrap32(MaximumTransmitSpan(s) + MAXIMUM_LATENCY + MAXIMUM_LATENCY + s.maximumServerResponseDelay)
  }

  // Sending

  /** Transmits the request in its current form to `host`. */
  function Transmitted(r: Request, now: nat): Request {
    if r.IsMulticast() then StartMulticastTransmission(r, now) else RestartTransmission(r, now)
  }

  function RequestFrame(r: Request): Bytes {
    Encode(r.message, r.methodCode)
  }

  /** Acknowledgments and resets go to the request's own target. */
  function EmptyDatagram(r: Request, id: uint16, t: MessageType): Datagram {
    Datagram(Encode(EmptyMessage(id, t), 0), r.target)
  }

  /** A request as the user makes it. */
  datatype UserRequest = UserRequest(message: Message, methodCode: byte, target: Address)

  /** With a block size set, the first block of the response is asked for in that size, and a
      larger payload is sent in blocks. */
  function WithBlockOptions(s: Settings, r: Request): Request {
    if s.blockSize == 0 then r
    else if |r.message.payload| > s.blockSize then
      SetToSendBlock(SetToRequestBlock(r, 0, s.blockSize), 0, s.blockSize)
    else
      SetToRequestBlock(r, 0, s.blockSize)
  }

  function InitialTimeout(s: Settings, t: MessageType, randomTimeout: nat): nat {
    if !t.Confirmable? then MaximumTimeout(s)
    else if s.ackTimeout == MaximumTimeout(s) then s.ackTimeout
    else randomTimeout
  }

  /** The request object as it is first transmitted. */
  function InitialRequest(s: Settings, u: UserRequest, token: Token, id: uint16, randomTimeout: nat): Request {
    var r := Request(u.message.(token := token, id := id), u.methodCode, u.message.payload, u.target,
                     0, 0, false, false, MaximumTransmitWait(s),
                     if u.target.Multicast? then MulticastTimeout(s) else 0, None, None, None);
    WithBlockOptions(s, r).(timeout := InitialTimeout(s, u.message.mtype, randomTimeout))
  }

  function Begin(s: Settings, now: nat, u: UserRequest, reply: ReplyId, token: Token, id: uint16,
                 randomTimeout: nat): Effect {
    var r := Transmitted(InitialRequest(s, u, token, id, randomTimeout), now);
    Effect(Some(Exchange(Some(reply), r, [])), [Post(reply, SetRunning(token, id))],
           [Datagram(RequestFrame(r), r.target)], [])
  }

  // Events of one exchange

  datatype LocalEvent =
    | Frame(received: Received, freshId: uint16)
    | Timeout
    | WaitExpired
    | MulticastExpired
    | Cancel(caller: ReplyId)
    | Aborted
    | ReplyDestroyed(reply: ReplyId)

  function Unchanged(ex: Exchange): Effect {
    Effect(Some(ex), [], [], [])
  }

  function PostsTo(user: Option<ReplyId>, slots: seq<Slot>): seq<Post> {
    if user.None? then [] else seq(|slots|, i requires 0 <= i < |slots| => Post(user.value, slots[i]))
  }

  /** A failed request: its reply gets the error response, or the error, and is finished. */
  function OnError(ex: Exchange, error: Error, response: Option<Received>): Effect {
    var what := if response.Some?
                then SetContent(response.value.sender, response.value.reply.message, response.value.reply.code)
                else SetError(error);
    Effect(None, PostsTo(ex.userReply, [what, SetFinished(Ok)]), [], [ErrorSignal(ex.userReply, error)])
  }

  function OnTimeout(s: Settings, now: nat, ex: Exchange): Effect {
    if ex.request.message.mtype.Confirmable? && ex.request.retransmissionCounter < s.maximumRetransmitCount then
      var r := Transmitted(ex.request, now);
      Effect(Some(ex.(request := r)), [], [Datagram(RequestFrame(r), r.target)], [])
    else
      OnError(ex, TimeOut, None)
  }

  function FromSender(replies: seq<Received>, sender: Address): seq<Received> {
    if replies == [] then []
    else if replies[0].sender == sender then [replies[0]] + FromSender(replies[1..], sender)
    else FromSender(replies[1..], sender)
  }

  function WithPayload(r: Received, payload: Bytes): Received {
    r.(reply := r.reply.(message := r.reply.message.(payload := payload)))
  }

  predicate IsEmptyAck(r: Received) {
    r.reply.message.mtype.Acknowledgment? && r.reply.code == EMPTY_MESSAGE
  }

  /** The payload handed to the user with the last of `replies`. */
  function FinalPayload(multicast: bool, replies: seq<Received>): Bytes
    requires replies != []
  {
    var last := replies[|replies| - 1];
    if |replies| == 1 then Payload(last)
    else Merge(if multicast then FromSender(replies, last.sender) else replies)
  }

  /** The last block of a response is there. The merged payload replaces the payload of the
      stored last reply, which a multicast exchange keeps. */
  function OnLastMessage(ex: Exchange): Effect
    requires ex.replies != []
  {
    var n := |ex.replies| - 1;
    if ex.userReply.None? || (ex.request.IsObserve() && ex.request.observeCancelled) then
      Effect(None, [], [], [])
    else if IsEmptyAck(ex.replies[n]) then
      Unchanged(ex.(replies := ex.replies[..n]))
    else
      var last := WithPayload(ex.replies[n], FinalPayload(ex.request.IsMulticast(), ex.replies));
      var content := SetContent(last.sender, last.reply.message, last.reply.code);
      if ex.request.IsObserve() then
        Effect(Some(ex.(replies := [])), PostsTo(ex.userReply, [content, SetNotified]), [], [])
      else if ex.request.IsMulticast() then
        Effect(Some(ex.(replies := ex.replies[n := last])), PostsTo(ex.userReply, [content]), [],
               [MulticastResponse(ex.userReply.value, last.reply.message, last.sender)])
      else
        Effect(None, PostsTo(ex.userReply, [content, SetFinished(Ok)]), [], [])
  }

  /** The exchange with the frame accepted: transmission stopped, reply stored. */
  function Accept(ex: Exchange, received: Received): Exchange {
    ex.(request := if ex.request.IsMulticast() then ex.request else StopTransmission(ex.request),
        replies := ex.replies + [received])
  }

  predicate Accepts(ex: Exchange, received: Received) {
    ex.request.IsMulticast() || ex.request.target == received.sender
  }

  /** A cancelled observation is answered by a reset, and its Observe option goes. */
  function Answered(ex: Exchange): Exchange {
    if ex.request.observeCancelled
    then ex.(request := ex.request.(message := ex.request.message.(
                          options := RemoveNamed(ex.request.message.options, OBSERVE))))
    else ex
  }

  function Answers(ex: Exchange, received: Received): seq<Datagram> {
    var m := received.reply.message;
    if ex.request.observeCancelled then [EmptyDatagram(ex.request, m.id, Reset)]
    else if m.mtype.Confirmable? then [EmptyDatagram(ex.request, m.id, Acknowledgment)]
    else []
  }

  /** Sends the request, already turned to the next block, under a new message id. */
  function SendNext(now: nat, ex: Exchange, r: Request, freshId: uint16, host: Address,
                    answers: seq<Datagram>): Effect {
    var r' := Transmitted(r.(message := r.message.(id := freshId)), now);
    Effect(Some(ex.(request := r')), [], answers + [Datagram(RequestFrame(r'), host)], [])
  }

  /** What comes after a frame that is no error. */
  datatype Continuation =
    | SendBlock(number: nat, size: nat)
    | AskForBlock(number: nat, size: nat)
    | Finish

  /** An echoed Block1 option with M set asks for the next block; otherwise a Block2 option with
      M set announces one. */
  function Decide(s: Settings, reply: Reply): Continuation {
    var next := NextBlockToSend(reply.message.options);
    if next >= 0 then SendBlock(next, s.blockSize)
    else if reply.block.more then AskForBlock(Wrap32(reply.block.number + 1), reply.block.size)
    else Finish
  }

  /** The request turned to the next block. */
  function Turned(r: Request, c: Continuation): Request {
    match c
    case SendBlock(number, size) => SetToSendBlock(r, number, size)
    case AskForBlock(number, size) => SetToRequestBlock(r, number, size)
    case Finish => r
  }

  /** Sends the next block, asks the sender for the next block, or processes the final reply. */
  function Proceed(now: nat, ex: Exchange, sender: Address, c: Continuation, freshId: uint16,
                   answers: seq<Datagram>): Effect
    requires ex.replies != []
  {
    if c.Finish? then
      var e := OnLastMessage(ex);
      e.(sends := answers + e.sends)
    else
      SendNext(now, ex, Turned(ex.request, c), freshId,
               if c.AskForBlock? then sender else ex.request.target, answers)
  }

  function OnFrame(s: Settings, now: nat, ex: Exchange, received: Received, freshId: uint16): Effect {
    if !Accepts(ex, received) then Unchanged(ex)
    else
      var accepted := Accept(ex, received);
      if IsError(received.reply.code) then
        OnError(accepted, ErrorForResponseCode(received.reply.code), Some(received))
      else
        Proceed(now, Answered(accepted), received.sender, Decide(s, received.reply), freshId,
                Answers(accepted, received))
  }

  function OnCancel(ex: Exchange, caller: ReplyId): Effect {
    if !ex.request.IsObserve() || ex.request.observeCancelled then Unchanged(ex)
    else Effect(Some(ex.(request := ex.request.(observeCancelled := true))),
                [Post(caller, SetObserveCancelled)], [], [])
  }

  /** What the engine does to an exchange when an event for it arrives. */
  function Handle(s: Settings, now: nat, ex: Exchange, e: LocalEvent): Effect {
    match e
    case Frame(received, freshId) => OnFrame(s, now, ex, received, freshId)
    case Timeout => OnTimeout(s, now, ex)
    case WaitExpired => OnError(ex, TimeOut, None)
    case MulticastExpired => Effect(None, PostsTo(ex.userReply, [SetFinished(Ok)]), [], [])
    case Cancel(caller) => OnCancel(ex, caller)
    case Aborted => Effect(None, [], [], [])
    case ReplyDestroyed(reply) =>
      Unchanged(if ex.userReply == Some(reply) then ex.(userReply := None) else ex)
  }

  /** A timer with this deadline has run out. */
  predicate Expired(timer: Option<nat>, now: nat) {
    timer.Some? && timer.value <= now
  }

  /** A timer event needs its timer to have run out. */
  predicate TimersAllow(ex: Exchange, now: nat, e: LocalEvent) {
    && (e.Timeout? ==> Expired(ex.request.timeoutTimer, now))
    && (e.WaitExpired? ==> Expired(ex.request.maxTransmitWaitTimer, now))
    && (e.MulticastExpired? ==> Expired(ex.request.multicastExpireTimer, now))
  }

  // Runs of one exchange

  /** An event, when it happens, and the settings then in force. */
  datatype Timed = Timed(now: nat, settings: Settings, event: LocalEvent)

  /** An exchange with the record of everything done for it so far. */
  datatype History = History(exchange: Option<Exchange>, posts: seq<Post>, sends: seq<Datagram>)

  function Step(h: History, e: Timed): History {
    if h.exchange.None? then h
    else
      var effect := Handle(e.settings, e.now, h.exchange.value, e.event);
      History(effect.next, h.posts + effect.posts, h.sends + effect.sends)
  }

  function Run(h: History, events: seq<Timed>): History {
    if events == [] then h else Step(Run(h, events[..|events| - 1]), events[|events| - 1])
  }

  function Start(s: Settings, now: nat, u: UserRequest, reply: ReplyId, token: Token, id: uint16,
                 randomTimeout: nat): History {
    var effect := Begin(s, now, u, reply, token, id, randomTimeout);
    History(effect.next, effect.posts, effect.sends)
  }
}
