/** The requests an exchange puts on the wire, in terms of the request its user made: what the first one is,
    when there is another one, what that is and where it goes. */
module RequestFrames {
  import opened CoapTypes
  import opened StableOrder
  import opened OptionList
  import opened Blocks
  import opened Codec
  import opened CodecRoundTrip
  import opened Reassembly
  import opened Requests
  import opened Exchanges
  import opened FrameFacts
  import opened WireRequests
  import opened Engine
  import opened Isolation
  import opened EngineRuns

  /** A user's request that survives the codec. */
  ghost predicate FitsWire(u: UserRequest) {
    u.methodCode != 0 && Sorted(u.message.options) && Plain(u.message.options) && u.message.version <= 3
  }

  /** The options the library leaves alone; a cancellation costs the Observe option. */
  predicate Untouched(name: int, cancelled: bool) {
    name != BLOCK1 && name != BLOCK2 && (cancelled ==> name != OBSERVE)
  }

  ghost predicate SameOptions(a: seq<CoapOption>, b: seq<CoapOption>, cancelled: bool) {
    forall name: int :: Untouched(name, cancelled) ==> Named(a, name) == Named(b, name)
  }

  /** The user's request under its token: same method, version, type and options but for the two block
      options. */
  ghost predicate IsOf(u: UserRequest, token: Token, m: Message, code: byte, cancelled: bool) {
    && code == u.methodCode && m.version == u.message.version && m.mtype == u.message.mtype && m.token == token
    && SameOptions(m.options, u.message.options, cancelled)
  }

  // The first datagram

  /** It carries one option of that name, which says so. */
  predicate Says(options: seq<CoapOption>, name: int, block: BlockState) {
    |Named(options, name)| == 1 && Named(options, name)[0].value != []
    && DecodeBlock(Named(options, name)[0].value) == block
  }

  /** Without a block size the user's message; with one, a request for block 0 of that size, which carries the
      whole payload or, if that is larger than a block, its first slice. */
  ghost predicate FirstForm(size: nat, u: UserRequest, m: Message) {
    && (size == 0 ==> m.options == u.message.options && m.payload == u.message.payload)
    && (IsBlockSize(size) ==>
          && Says(m.options, BLOCK2, BlockState(0, false, size))
          && (|u.message.payload| <= size ==> m.payload == u.message.payload && Named(m.options, BLOCK1) == [])
          && (|u.message.payload| > size ==>
                m.payload == Slice(u.message.payload, size, 0)
                && Says(m.options, BLOCK1, BlockState(0, true, size))))
  }

  /** The request of an exchange is one of its user. */
  ghost predicate Keeps(u: UserRequest, token: Token, r: Request, cancelled: bool) {
    && Fit(r) && IsOf(u, token, r.message, r.methodCode, cancelled)
    && r.fullPayload == u.message.payload && r.target == u.target && (r.observeCancelled ==> cancelled)
  }

  lemma RequestBlockKeeps(u: UserRequest, token: Token, r: Request, number: nat, size: nat, cancelled: bool)
    requires Keeps(u, token, r, cancelled)
    ensures Keeps(u, token, SetToRequestBlock(r, number, size), cancelled)
  {
    RequestBlockFits(r, number, size);
    forall name | Untouched(name, cancelled)
      ensures Named(SetToRequestBlock(r, number, size).message.options, name) == Named(r.message.options, name) {
      RequestBlockKeepsNamed(r, number, size, name);
    }
  }

  lemma SendBlockKeeps(u: UserRequest, token: Token, r: Request, number: nat, size: nat, cancelled: bool)
    requires Keeps(u, token, r, cancelled)
    ensures Keeps(u, token, SetToSendBlock(r, number, size), cancelled)
  {
    SendBlockFits(r, number, size);
    forall name | Untouched(name, cancelled)
      ensures Named(SetToSendBlock(r, number, size).message.options, name) == Named(r.message.options, name) {
      SendBlockKeepsNamed(r, number, size, name);
    }
  }

  lemma WithBlocksKeeps(s: Settings, u: UserRequest, token: Token, r: Request)
    requires ValidSettings(s) && Keeps(u, token, r, false)
    ensures Keeps(u, token, WithBlockOptions(s, r), false)
    ensures WithBlockOptions(s, r).message.id == r.message.id
  {
    var asking := SetToRequestBlock(r, 0, s.blockSize);
    RequestBlockKeeps(u, token, r, 0, s.blockSize, false);
    SendBlockKeeps(u, token, asking, 0, s.blockSize, false);
    RequestBlockKeepsIdentity(r, 0, s.blockSize);
    SendBlockKeepsIdentity(asking, 0, s.blockSize);
  }

  lemma WithBlocksForm(s: Settings, u: UserRequest, r: Request)
    requires ValidSettings(s) && Fit(r) && r.message.options == u.message.options
    requires r.message.payload == u.message.payload == r.fullPayload
    ensures FirstForm(s.blockSize, u, WithBlockOptions(s, r).message)
  {
    if s.blockSize > 0 {
      var asking := SetToRequestBlock(r, 0, s.blockSize);
      RequestBlockAsks(r, 0, s.blockSize);
      BlockRoundTrip(0, false, s.blockSize);
      SendBlockCarries(asking, 0, s.blockSize);
      HasSuccessor(r.fullPayload, s.blockSize, 0);
    }
  }

  lemma InitialForm(s: Settings, u: UserRequest, token: Token, id: uint16, randomTimeout: nat)
    requires ValidSettings(s) && FitsWire(u) && |token| <= 15
    ensures var r := InitialRequest(s, u, token, id, randomTimeout);
            Keeps(u, token, r, false) && r.message.id == id && FirstForm(s.blockSize, u, r.message)
  {
    var r := Request(u.message.(token := token, id := id), u.methodCode, u.message.payload, u.target,
                     0, 0, false, false, MaximumTransmitWait(s),
                     if u.target.Multicast? then MulticastTimeout(s) else 0, None, None, None);
    WithBlocksKeeps(s, u, token, r);
    WithBlocksForm(s, u, r);
  }

  /** Every user request that fits the wire: one datagram goes out, to the user's target, and what it carries is
      the user's request under the given token and id, in its first form. */
  lemma FirstDatagram(s: Settings, now: nat, u: UserRequest, reply: ReplyId, token: Token, id: uint16,
                      randomTimeout: nat)
    requires ValidSettings(s) && FitsWire(u) && |token| <= 15
    ensures var sends := Start(s, now, u, reply, token, id, randomTimeout).sends;
            && |sends| == 1 && sends[0].host == u.target && Carried(sends[0]).Some?
            && (var q := Carried(sends[0]).value;
                && q.message.id == id && IsOf(u, token, q.message, q.code, false)
                && FirstForm(s.blockSize, u, q.message))
  {
    var r := InitialRequest(s, u, token, id, randomTimeout);
    InitialForm(s, u, token, id, randomTimeout);
    TransmittedKeepsMessage(r, now);
    StartSends(s, now, u, reply, token, id, randomTimeout);
    CarriedRequest(Transmitted(r, now), u.target);
  }

  // Every other datagram

  function RequestsIn(sends: seq<Datagram>): seq<Datagram> {
    if sends == [] then []
    else
      var last := sends[|sends| - 1];
      RequestsIn(sends[..|sends| - 1]) + if Carried(last).Some? then [last] else []
  }

  lemma {:induction false} RequestsInConcat(a: seq<Datagram>, b: seq<Datagram>)
    ensures RequestsIn(a + b) == RequestsIn(a) + RequestsIn(b)
    decreases |b|
  {
    if b == [] {
      assert a + b == a;
    } else {
      RequestsInConcat(a, b[..|b| - 1]);
      assert (a + b)[..|a + b| - 1] == a + b[..|b| - 1];
    }
  }

  lemma RequestsInOne(d: Datagram)
    ensures RequestsIn([d]) == if Carried(d).Some? then [d] else []
  {
    assert [d][..0] == [];
  }

  lemma AnswersAreNoRequests(ex: Exchange, r: Received)
    ensures RequestsIn(Answers(ex, r)) == []
  {
    EmptyCarriesNothing(ex.request, r.reply.message.id, Reset);
    EmptyCarriesNothing(ex.request, r.reply.message.id, Acknowledgment);
    RequestsInOne(EmptyDatagram(ex.request, r.reply.message.id, Reset));
    RequestsInOne(EmptyDatagram(ex.request, r.reply.message.id, Acknowledgment));
  }

  lemma OneRequest(answers: seq<Datagram>, r: Request, host: Address)
    requires RequestsIn(answers) == [] && Fit(r)
    ensures RequestsIn(answers + [Datagram(RequestFrame(r), host)]) == [Datagram(RequestFrame(r), host)]
  {
    var d := Datagram(RequestFrame(r), host);
    CarriedRequest(r, host);
    RequestsInConcat(answers, [d]);
    RequestsInOne(d);
  }

  /** A timeout with retransmissions left. */
  predicate Retries(s: Settings, ex: Exchange, e: LocalEvent) {
    e.Timeout? && ex.request.message.mtype.Confirmable? && ex.request.retransmissionCounter < s.maximumRetransmitCount
  }

  /** A request that goes on with the payload: to the target, with the slice that follows the one echoed. */
  ghost predicate SendsSlice(u: UserRequest, size: nat, next: int, host: Address, m: Message) {
    && host == u.target
    && (0 <= next < 0x10_0000 && IsBlockSize(size) ==>
          && m.payload == Slice(u.message.payload, size, next)
          && Says(m.options, BLOCK1, BlockState(next, next + 1 < BlockCount(u.message.payload, size), size)))
  }

  /** A request that goes on with the response: to the host of the frame, with the payload of the request before,
      for the next block in the size of the one received. */
  ghost predicate AsksNext(block: BlockState, sender: Address, payload: Bytes, host: Address, m: Message) {
    && host == sender && m.payload == payload
    && (block.number + 1 < 0x10_0000 && IsBlockSize(block.size) ==>
          Named(m.options, BLOCK1) == [] && Says(m.options, BLOCK2, BlockState(block.number + 1, false, block.size)))
  }

  /** The next request after a frame that asks for more, given the payload of the one before. */
  ghost predicate Continues(u: UserRequest, s: Settings, r: Received, payload: Bytes, host: Address, m: Message) {
    var next := NextBlockToSend(r.reply.message.options);
    if next >= 0 then SendsSlice(u, s.blockSize, next, host, m)
    else AsksNext(r.reply.block, r.sender, payload, host, m)
  }

  /** The requests sent are the user's, and the last one is the request the exchange holds; a cancellation may
      have taken the Observe option from it since. */
  ghost predicate Requesting(u: UserRequest, token: Token, h: History, cancelled: bool) {
    && AllGenuine(u, token, RequestsIn(h.sends), cancelled)
    && (h.exchange.Some? ==> Holds(u, token, RequestsIn(h.sends), h.exchange.value.request, cancelled))
  }

  ghost predicate AllGenuine(u: UserRequest, token: Token, requests: seq<Datagram>, cancelled: bool) {
    forall i :: 0 <= i < |requests| ==> Genuine(u, token, requests[i], cancelled)
  }

  ghost predicate Holds(u: UserRequest, token: Token, requests: seq<Datagram>, r: Request, cancelled: bool) {
    && Keeps(u, token, r, cancelled) && requests != []
    && Carried(requests[|requests| - 1]).Some?
    && Carried(requests[|requests| - 1]).value.message.payload == r.message.payload
    && (!cancelled ==> requests[|requests| - 1].frame == RequestFrame(r))
  }

  ghost predicate Genuine(u: UserRequest, token: Token, d: Datagram, cancelled: bool) {
    Carried(d).Some? && IsOf(u, token, Carried(d).value.message, Carried(d).value.code, cancelled)
  }

  /** What an event adds to the requests sent by an open exchange, the last of which is `last`. */
  ghost predicate AddsExactly(u: UserRequest, s: Settings, ex: Exchange, e: LocalEvent, last: Datagram,
                              added: seq<Datagram>, cancelled: bool) {
    if AsksForMore(ex, e) then
      && |added| == 1 && Carried(added[0]).Some? && Carried(last).Some?
      && Carried(added[0]).value.message.id == e.freshId
      && Continues(u, s, e.received, Carried(last).value.message.payload, added[0].host,
                   Carried(added[0]).value.message)
    else if Retries(s, ex, e) then
      |added| == 1 && added[0].host == u.target && (!cancelled ==> added[0].frame == last.frame)
    else added == []
  }

  lemma AnsweredKeeps(u: UserRequest, token: Token, ex: Exchange, r: Received, cancelled: bool)
    requires Keeps(u, token, ex.request, cancelled)
    ensures var answered := Answered(Accept(ex, r));
            && Keeps(u, token, answered.request, cancelled) && answered.userReply == ex.userReply
            && answered.request.message.payload == ex.request.message.payload
            && (!cancelled ==> answered.request.message == ex.request.message)
  {
    if ex.request.observeCancelled {
      var options := ex.request.message.options;
      RemoveKeepsPlain(options, OBSERVE);
      RemoveNamedKeepsSorted(options, OBSERVE);
      forall name | Untouched(name, cancelled)
        ensures Named(RemoveNamed(options, OBSERVE), name) == Named(options, name) {
        RemoveNamedProjection(options, OBSERVE, name);
      }
    }
  }

  lemma TurnedKeeps(u: UserRequest, token: Token, r: Request, c: Continuation, cancelled: bool)
    requires Keeps(u, token, r, cancelled)
    ensures Keeps(u, token, Turned(r, c), cancelled)
  {
    match c {
      case SendBlock(number, size) => SendBlockKeeps(u, token, r, number, size, cancelled);
      case AskForBlock(number, size) => RequestBlockKeeps(u, token, r, number, size, cancelled);
      case Finish =>
    }
  }

  lemma TurnedContinues(u: UserRequest, r: Request, s: Settings, received: Received)
    requires Fit(r) && r.fullPayload == u.message.payload && !Complete(received)
    ensures var c := Decide(s, received.reply);
            && !c.Finish?
            && Continues(u, s, received, r.message.payload, if c.AskForBlock? then received.sender else u.target,
                         Turned(r, c).message)
  {
    var next, block := NextBlockToSend(received.reply.message.options), received.reply.block;
    if next >= 0 {
      SliceContinues(u, r, s.blockSize, next);
    } else {
      BlockContinues(r, block, received.sender);
    }
  }

  lemma SliceContinues(u: UserRequest, r: Request, size: nat, next: nat)
    requires Fit(r) && r.fullPayload == u.message.payload
    ensures SendsSlice(u, size, next, u.target, SetToSendBlock(r, next, size).message)
  {
    SlicedOnce(r, next, size);
  }

  lemma BlockContinues(r: Request, block: BlockState, sender: Address)
    requires Fit(r)
    ensures AsksNext(block, sender, r.message.payload, sender,
                     SetToRequestBlock(r, Wrap32(block.number + 1), block.size).message)
  {
    PayloadKept(r, Wrap32(block.number + 1), block.size);
    if block.number + 1 < 0x10_0000 {
      assert Wrap32(block.number + 1) == block.number + 1;
      SaysNext(r, block.number + 1, block.size);
    }
  }

  lemma SaysNext(r: Request, number: nat, size: nat)
    requires Fit(r) && CheckBlockNumber(number)
    ensures var m := SetToRequestBlock(r, number, size).message;
            IsBlockSize(size) ==>
              Named(m.options, BLOCK1) == [] && Says(m.options, BLOCK2, BlockState(number, false, size))
  {
    AskedOnce(r, number, size);
  }

  lemma SlicedOnce(r: Request, number: nat, size: nat)
    requires Fit(r)
    ensures CheckBlockNumber(number) && IsBlockSize(size) ==>
              var m := SetToSendBlock(r, number, size).message;
              && m.payload == Slice(r.fullPayload, size, number)
              && Says(m.options, BLOCK1, BlockState(number, number + 1 < BlockCount(r.fullPayload, size), size))
  {
    if CheckBlockNumber(number) && IsBlockSize(size) {
      SendBlockCarries(r, number, size);
    }
  }

  lemma PayloadKept(r: Request, number: nat, size: nat)
    ensures SetToRequestBlock(r, number, size).message.payload == r.message.payload
  {
  }

  lemma AskedOnce(r: Request, number: nat, size: nat)
    requires Fit(r)
    ensures CheckBlockNumber(number) && IsBlockSize(size) ==>
              var m := SetToRequestBlock(r, number, size).message;
              Named(m.options, BLOCK1) == [] && Says(m.options, BLOCK2, BlockState(number, false, size))
  {
    if CheckBlockNumber(number) && IsBlockSize(size) {
      RequestBlockAsks(r, number, size);
      BlockRoundTrip(number, false, size);
    }
  }

  /** A frame that asks for more: one more request, as the frame asks for it. */
  lemma MoreAsked(u: UserRequest, token: Token, s: Settings, now: nat, ex: Exchange, r: Received, freshId: uint16,
                  cancelled: bool)
    requires Keeps(u, token, ex.request, cancelled) && AsksForMore(ex, Frame(r, freshId))
    ensures var effect := OnFrame(s, now, ex, r, freshId);
            && effect.next.Some? && Keeps(u, token, effect.next.value.request, cancelled)
            && |RequestsIn(effect.sends)| == 1
            && (var d := RequestsIn(effect.sends)[0];
                && d.frame == RequestFrame(effect.next.value.request)
                && effect.next.value.request.message.id == freshId
                && Continues(u, s, r, ex.request.message.payload, d.host, effect.next.value.request.message))
  {
    var accepted := Accept(ex, r);
    var answered, c := Answered(accepted), Decide(s, r.reply);
    AnsweredKeeps(u, token, ex, r, cancelled);
    TurnedKeeps(u, token, answered.request, c, cancelled);
    TurnedContinues(u, answered.request, s, r);
    AnswersAreNoRequests(accepted, r);
    RequestLeaves(u, token, now, answered, Turned(answered.request, c), freshId,
                  if c.AskForBlock? then r.sender else u.target, Answers(accepted, r), cancelled);
  }

  lemma RequestLeaves(u: UserRequest, token: Token, now: nat, ex: Exchange, r: Request, freshId: uint16,
                      host: Address, answers: seq<Datagram>, cancelled: bool)
    requires Keeps(u, token, r, cancelled) && RequestsIn(answers) == []
    ensures var effect := SendNext(now, ex, r, freshId, host, answers);
            && effect.next.Some? && Keeps(u, token, effect.next.value.request, cancelled)
            && effect.next.value.request.message == r.message.(id := freshId)
            && RequestsIn(effect.sends) == [Datagram(RequestFrame(effect.next.value.request), host)]
  {
    var renamed := r.(message := r.message.(id := freshId));
    TransmittedKeepsMessage(renamed, now);
    OneRequest(answers, Transmitted(renamed, now), host);
  }

  /** Any other frame: no request. */
  lemma NoneAsked(u: UserRequest, token: Token, s: Settings, now: nat, ex: Exchange, r: Received, freshId: uint16,
                  cancelled: bool)
    requires Keeps(u, token, ex.request, cancelled) && !AsksForMore(ex, Frame(r, freshId))
    ensures var effect := OnFrame(s, now, ex, r, freshId);
            && RequestsIn(effect.sends) == []
            && (effect.next.Some? ==>
                  && Keeps(u, token, effect.next.value.request, cancelled)
                  && effect.next.value.request.message.payload == ex.request.message.payload
                  && (!cancelled ==> effect.next.value.request.message == ex.request.message))
  {
    var accepted := Accept(ex, r);
    AnsweredKeeps(u, token, ex, r, cancelled);
    AnswersAreNoRequests(accepted, r);
    CompleteDecides(s, r);
    LastKeeps(Answered(accepted));
    assert Answers(accepted, r) + [] == Answers(accepted, r);
  }

  lemma LastKeeps(ex: Exchange)
    requires ex.replies != []
    ensures OnLastMessage(ex).sends == []
    ensures OnLastMessage(ex).next.Some? ==> OnLastMessage(ex).next.value.request == ex.request
  {
  }

  /** Events other than frames: the same request again, or none. */
  lemma OthersAsk(u: UserRequest, token: Token, s: Settings, now: nat, ex: Exchange, e: LocalEvent, cancelled: bool)
    requires Keeps(u, token, ex.request, cancelled) && !e.Frame? && (e.Cancel? ==> cancelled)
    ensures var effect := Handle(s, now, ex, e);
            && (effect.next.Some? ==>
                  && Keeps(u, token, effect.next.value.request, cancelled)
                  && effect.next.value.request.message == ex.request.message
                  && effect.next.value.request.methodCode == ex.request.methodCode)
            && RequestsIn(effect.sends)
               == if Retries(s, ex, e) then [Datagram(RequestFrame(ex.request), u.target)] else []
  {
    if e.Timeout? {
      TransmittedKeepsMessage(ex.request, now);
      OneRequest([], ex.request, u.target);
      assert [] + [Datagram(RequestFrame(ex.request), u.target)] == [Datagram(RequestFrame(ex.request), u.target)];
    }
  }

  // Runs

  /** What is sent anew, as far as it is a request. */
  ghost function Added(h: History, e: Timed): seq<Datagram> {
    if h.exchange.None? then [] else RequestsIn(Handle(e.settings, e.now, h.exchange.value, e.event).sends)
  }

  lemma StepAdds(h: History, e: Timed)
    ensures RequestsIn(Step(h, e).sends) == RequestsIn(h.sends) + Added(h, e)
  {
    if h.exchange.None? {
      assert RequestsIn(h.sends) + [] == RequestsIn(h.sends);
    } else {
      RequestsInConcat(h.sends, Handle(e.settings, e.now, h.exchange.value, e.event).sends);
    }
  }

  /** The request an exchange holds, put on the wire. */
  lemma HeldIsGenuine(u: UserRequest, token: Token, r: Request, host: Address, cancelled: bool)
    requires Keeps(u, token, r, cancelled)
    ensures var d := Datagram(RequestFrame(r), host);
            && Genuine(u, token, d, cancelled) && Carried(d).value.message == r.message
  {
    CarriedRequest(r, host);
  }

  lemma HoldsNext(u: UserRequest, token: Token, requests: seq<Datagram>, d: Datagram, r: Request, cancelled: bool)
    requires AllGenuine(u, token, requests, cancelled) && Keeps(u, token, r, cancelled) && d.frame == RequestFrame(r)
    ensures AllGenuine(u, token, requests + [d], cancelled) && Holds(u, token, requests + [d], r, cancelled)
    ensures Carried(d).Some? && Carried(d).value.message == r.message
  {
    HeldIsGenuine(u, token, r, d.host, cancelled);
  }

  lemma HoldsStill(u: UserRequest, token: Token, requests: seq<Datagram>, r: Request, r': Request, cancelled: bool)
    requires Holds(u, token, requests, r, cancelled) && Keeps(u, token, r', cancelled)
    requires r'.message.payload == r.message.payload && (!cancelled ==> r'.message == r.message)
    ensures Holds(u, token, requests, r', cancelled)
  {
  }

  /** What a frame does to the requests. */
  lemma FrameRequests(u: UserRequest, token: Token, requests: seq<Datagram>, s: Settings, now: nat, ex: Exchange,
                      r: Received, freshId: uint16, cancelled: bool)
    requires AllGenuine(u, token, requests, cancelled) && Holds(u, token, requests, ex.request, cancelled)
    ensures var effect := OnFrame(s, now, ex, r, freshId);
            HoldsAfter(u, token, requests + RequestsIn(effect.sends), effect.next, cancelled)
  {
    var effect := OnFrame(s, now, ex, r, freshId);
    if AsksForMore(ex, Frame(r, freshId)) {
      MoreAsked(u, token, s, now, ex, r, freshId, cancelled);
      OneMoreRequest(u, token, requests, RequestsIn(effect.sends), effect.next, cancelled);
    } else {
      NoneAsked(u, token, s, now, ex, r, freshId, cancelled);
      NoMoreRequests(u, token, requests, RequestsIn(effect.sends), ex.request, effect.next, cancelled);
    }
  }

  ghost predicate HoldsAfter(u: UserRequest, token: Token, requests: seq<Datagram>, next: Option<Exchange>,
                             cancelled: bool) {
    && AllGenuine(u, token, requests, cancelled)
    && (next.Some? ==> Holds(u, token, requests, next.value.request, cancelled))
  }

  lemma OneMoreRequest(u: UserRequest, token: Token, requests: seq<Datagram>, added: seq<Datagram>,
                       next: Option<Exchange>, cancelled: bool)
    requires AllGenuine(u, token, requests, cancelled) && |added| == 1
    requires next.Some? && Keeps(u, token, next.value.request, cancelled)
    requires added[0].frame == RequestFrame(next.value.request)
    ensures HoldsAfter(u, token, requests + added, next, cancelled)
  {
    HoldsNext(u, token, requests, added[0], next.value.request, cancelled);
    assert added == [added[0]];
  }

  lemma NoMoreRequests(u: UserRequest, token: Token, requests: seq<Datagram>, added: seq<Datagram>, r: Request,
                       next: Option<Exchange>, cancelled: bool)
    requires AllGenuine(u, token, requests, cancelled) && Holds(u, token, requests, r, cancelled) && added == []
    requires next.Some? ==>
               && Keeps(u, token, next.value.request, cancelled)
               && next.value.request.message.payload == r.message.payload
               && (!cancelled ==> next.value.request.message == r.message)
    ensures HoldsAfter(u, token, requests + added, next, cancelled)
  {
    assert requests + added == requests;
    if next.Some? {
      HoldsStill(u, token, requests, r, next.value.request, cancelled);
    }
  }

  lemma OtherRequests(u: UserRequest, token: Token, requests: seq<Datagram>, s: Settings, now: nat, ex: Exchange,
                      e: LocalEvent, cancelled: bool)
    requires AllGenuine(u, token, requests, cancelled) && Holds(u, token, requests, ex.request, cancelled)
    requires !e.Frame? && (e.Cancel? ==> cancelled)
    ensures var effect := Handle(s, now, ex, e);
            HoldsAfter(u, token, requests + RequestsIn(effect.sends), effect.next, cancelled)
  {
    var effect := Handle(s, now, ex, e);
    OthersAsk(u, token, s, now, ex, e, cancelled);
    if RequestsIn(effect.sends) == [] {
      NoMoreRequests(u, token, requests, [], ex.request, effect.next, cancelled);
    } else {
      var d := Datagram(RequestFrame(ex.request), u.target);
      HoldsNext(u, token, requests, d, ex.request, cancelled);
      if effect.next.Some? {
        HoldsStill(u, token, requests + [d], ex.request, effect.next.value.request, cancelled);
      }
    }
  }

  lemma KeepsRequesting(u: UserRequest, token: Token, h: History, e: Timed, cancelled: bool)
    requires Requesting(u, token, h, cancelled) && (e.event.Cancel? ==> cancelled)
    ensures Requesting(u, token, Step(h, e), cancelled)
  {
    StepAdds(h, e);
    if h.exchange.None? {
      assert RequestsIn(h.sends) + [] == RequestsIn(h.sends);
    } else if e.event.Frame? {
      FrameRequests(u, token, RequestsIn(h.sends), e.settings, e.now, h.exchange.value, e.event.received,
                    e.event.freshId, cancelled);
    } else {
      OtherRequests(u, token, RequestsIn(h.sends), e.settings, e.now, h.exchange.value, e.event, cancelled);
    }
  }

  lemma AddsDue(u: UserRequest, token: Token, requests: seq<Datagram>, s: Settings, now: nat, ex: Exchange,
                e: LocalEvent, cancelled: bool)
    requires Holds(u, token, requests, ex.request, cancelled) && (e.Cancel? ==> cancelled)
    ensures AddsExactly(u, s, ex, e, requests[|requests| - 1], RequestsIn(Handle(s, now, ex, e).sends), cancelled)
  {
    if AsksForMore(ex, e) {
      AddsContinuation(u, token, requests, s, now, ex, e.received, e.freshId, cancelled);
    } else if e.Frame? {
      NoneAsked(u, token, s, now, ex, e.received, e.freshId, cancelled);
    } else {
      OthersAsk(u, token, s, now, ex, e, cancelled);
    }
  }

  lemma AddsContinuation(u: UserRequest, token: Token, requests: seq<Datagram>, s: Settings, now: nat, ex: Exchange,
                         r: Received, freshId: uint16, cancelled: bool)
    requires Holds(u, token, requests, ex.request, cancelled) && AsksForMore(ex, Frame(r, freshId))
    ensures AddsExactly(u, s, ex, Frame(r, freshId), requests[|requests| - 1],
                        RequestsIn(OnFrame(s, now, ex, r, freshId).sends), cancelled)
  {
    var effect := OnFrame(s, now, ex, r, freshId);
    MoreAsked(u, token, s, now, ex, r, freshId, cancelled);
    HeldIsGenuine(u, token, effect.next.value.request, RequestsIn(effect.sends)[0].host, cancelled);
  }

  /** Over every run of an exchange from the user's request on, every request sent is the user's own, and each
      event adds exactly the requests it asks for: a frame that asks for more, one that continues the transfer;
      a timeout with retransmissions left, the last one again; any other event, none. */
  ghost predicate RequestsDue(u: UserRequest, token: Token, h: History, events: seq<Timed>) {
    events == []
    || (var front := events[..|events| - 1];
        && RequestsDue(u, token, h, front)
        && StepDue(u, token, Run(h, front), Run(h, events), events[|events| - 1], AnyCancel(events)))
  }

  ghost predicate StepDue(u: UserRequest, token: Token, h: History, h': History, e: Timed, cancelled: bool) {
    var before, after := RequestsIn(h.sends), RequestsIn(h'.sends);
    && before <= after && AllGenuine(u, token, after, cancelled)
    && (h.exchange.None? ==> after == before)
    && (h.exchange.Some? ==>
          && before != []
          && AddsExactly(u, e.settings, h.exchange.value, e.event, before[|before| - 1], after[|before|..], cancelled))
  }

  lemma StepIsDue(u: UserRequest, token: Token, h: History, e: Timed, cancelled: bool)
    requires Requesting(u, token, h, cancelled) && (e.event.Cancel? ==> cancelled)
    ensures StepDue(u, token, h, Step(h, e), e, cancelled) && Requesting(u, token, Step(h, e), cancelled)
  {
    var before, added := RequestsIn(h.sends), Added(h, e);
    StepAdds(h, e);
    KeepsRequesting(u, token, h, e, cancelled);
    assert (before + added)[|before|..] == added;
    if h.exchange.Some? {
      AddsDue(u, token, before, e.settings, e.now, h.exchange.value, e.event, cancelled);
    }
  }

  lemma CancelledMore(u: UserRequest, token: Token, h: History, more: bool)
    requires Requesting(u, token, h, false)
    ensures Requesting(u, token, h, more)
  {
  }

  lemma StartRequests(s: Settings, now: nat, u: UserRequest, reply: ReplyId, token: Token, id: uint16,
                      randomTimeout: nat)
    requires ValidSettings(s) && FitsWire(u) && |token| <= 15
    ensures Requesting(u, token, Start(s, now, u, reply, token, id, randomTimeout), false)
  {
    var r := InitialRequest(s, u, token, id, randomTimeout);
    InitialForm(s, u, token, id, randomTimeout);
    TransmittedKeepsMessage(r, now);
    StartSends(s, now, u, reply, token, id, randomTimeout);
    HeldIsGenuine(u, token, Transmitted(r, now), u.target, false);
    RequestsInOne(Datagram(RequestFrame(Transmitted(r, now)), u.target));
  }

  lemma {:induction false} RequestsExactly(u: UserRequest, token: Token, h: History, events: seq<Timed>)
    requires Requesting(u, token, h, false)
    ensures RequestsDue(u, token, h, events) && Requesting(u, token, Run(h, events), AnyCancel(events))
  {
    if events != [] {
      var front, last := events[..|events| - 1], events[|events| - 1];
      RequestsExactly(u, token, h, front);
      if !AnyCancel(front) {
        CancelledMore(u, token, Run(h, front), AnyCancel(events));
      } else {
        assert AnyCancel(events);
      }
      StepIsDue(u, token, Run(h, front), last, AnyCancel(events));
    }
  }

  /** In an engine with any other exchanges: from the submission on, every request sent under the token is the
      user's own, and the requests are exactly those that are due. */
  lemma RequestsInEngine(s: EngineState, open: Happening, events: seq<Happening>, t: Token)
    requires Opens(s, open, t) && NotReopened(events, t) && FitsWire(open.event.request)
    ensures var s' := Next(s, open.now, open.event);
            var h, local := Opened(s, open, t), ConcernsAll(s', events, t);
            && RequestsDue(open.event.request, t, h, local)
            && Of(t, RunEngine(s', events).sent) == Run(h, local).sends
            && forall i :: 0 <= i < |RequestsIn(Run(h, local).sends)| ==>
                 Genuine(open.event.request, t, RequestsIn(Run(h, local).sends)[i], AnyCancel(local))
  {
    var e := open.event;
    OpenedRun(s, open, events, t);
    StartRequests(s.settings, open.now, e.request, e.reply, t, e.freshId, e.randomTimeout);
    RequestsExactly(e.request, t, Opened(s, open, t), ConcernsAll(Next(s, open.now, e), events, t));
  }
}
