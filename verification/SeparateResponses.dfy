/** Piggybacked and separate responses (sections 5.2.1 and 5.2.2 of RFC 7252): an empty
    acknowledgment ahead of a response makes no difference to what follows, and empty
    messages are sent exactly as answers. */
module SeparateResponses {
  import opened CoapTypes
  import opened Codec
  import opened Reassembly
  import opened Requests
  import opened Exchanges
  import opened FrameFacts
  import opened Engine

  /** A unicast exchange of a live user reply, not cancelled. */
  predicate Waiting(ex: Exchange) {
    ex.userReply.Some? && !ex.request.IsMulticast() && !ex.request.observeCancelled
  }

  /** An acknowledgment without a response in it. */
  predicate PureAck(r: Received) {
    IsEmptyAck(r) && Complete(r)
  }

  predicate Stopped(r: Request) {
    !r.transmissionInProgress && r.retransmissionCounter == 0
    && r.timeoutTimer.None? && r.maxTransmitWaitTimer.None?
  }

  lemma AckIsNoError(r: Received)
    requires IsEmptyAck(r)
    ensures !IsError(r.reply.code) && !r.reply.message.mtype.Confirmable?
  {
  }

  /** An empty acknowledgment stops the retransmission and leaves everything else as it was:
      nothing is stored, posted or sent. */
  lemma AckOnlyStops(s: Settings, now: nat, ex: Exchange, ack: Received, freshId: uint16)
    requires Waiting(ex) && Accepts(ex, ack) && PureAck(ack)
    ensures var effect := OnFrame(s, now, ex, ack, freshId);
            && effect == Unchanged(ex.(request := effect.next.value.request))
            && Stopped(effect.next.value.request)
            && effect.next.value.request.message == ex.request.message
            && effect.next.value.request.timeout == ex.request.timeout
            && effect.next.value == ex.(request := StopTransmission(ex.request))
  {
    AckIsNoError(ack);
    CompleteDecides(s, ack);
    FinalFrame(s, now, ex, ack, freshId);
    assert (ex.replies + [ack])[..|ex.replies|] == ex.replies;
  }

  /** Afterwards none of the exchange's timers is running: only another frame, a cancellation or
      an abort can move the exchange. */
  lemma AckLeavesNoTimer(s: EngineState, now: nat, later: nat, t: Token, ack: Received, freshId: uint16)
    requires t in s.exchanges && Waiting(s.exchanges[t]) && Accepts(s.exchanges[t], ack) && PureAck(ack)
    requires s.exchanges[t].request.multicastExpireTimer.None?
    ensures var s' := Commit(s, t, OnFrame(s.settings, now, s.exchanges[t], ack, freshId));
            && t in s'.exchanges
            && !Enabled(s', later, RequestTimeout(t))
            && !Enabled(s', later, TransmitWaitExpired(t))
            && !Enabled(s', later, MulticastRequestExpired(t))
  {
    AckOnlyStops(s.settings, now, s.exchanges[t], ack, freshId);
  }

  lemma AcceptForgetsStopping(ex: Exchange, r: Received)
    requires !ex.request.IsMulticast()
    ensures Accept(ex.(request := StopTransmission(ex.request)), r) == Accept(ex, r)
  {
  }

  /** Whatever response is accepted next, error or not: it has the same effect as without the
      acknowledgment ahead of it. */
  lemma SeparateIsPiggybacked(s: Settings, now: nat, ex: Exchange, r: Received, freshId: uint16)
    requires Waiting(ex) && Accepts(ex, r)
    ensures OnFrame(s, now, ex.(request := StopTransmission(ex.request)), r, freshId) == OnFrame(s, now, ex, r, freshId)
  {
    AcceptForgetsStopping(ex, r);
  }

  /** Acknowledgments only, from the target. */
  predicate OnlyAcks(target: Address, events: seq<Timed>) {
    forall e :: e in events ==>
      e.event.Frame? && e.event.received.sender == target && PureAck(e.event.received)
  }

  lemma {:induction false} AcksOnlyStop(h: History, acks: seq<Timed>)
    requires h.exchange.Some? && Waiting(h.exchange.value) && OnlyAcks(h.exchange.value.request.target, acks)
    ensures var ex := h.exchange.value;
            acks != [] ==> Run(h, acks) == h.(exchange := Some(ex.(request := StopTransmission(ex.request))))
  {
    if acks != [] {
      var front, last := acks[..|acks| - 1], acks[|acks| - 1];
      assert last in acks && forall e :: e in front ==> e in acks;
      AcksOnlyStop(h, front);
      var before := Run(h, front);
      AckOnlyStops(last.settings, last.now, before.exchange.value, last.event.received, last.event.freshId);
      assert h.posts + [] == h.posts && h.sends + [] == h.sends;
    }
  }

  /** Any number of acknowledgments ahead of the response, at any times: the user sees, and the
      network carries, exactly what the response alone would have caused. */
  lemma SeparateResponsesAgree(h: History, acks: seq<Timed>, response: Timed)
    requires h.exchange.Some? && Waiting(h.exchange.value) && OnlyAcks(h.exchange.value.request.target, acks)
    requires response.event.Frame? && Accepts(h.exchange.value, response.event.received)
    ensures Run(h, acks + [response]) == Run(h, [response])
  {
    AcksOnlyStop(h, acks);
    assert (acks + [response])[..|acks|] == acks;
    assert [response][..0] == [];
    if acks != [] {
      SeparateIsPiggybacked(response.settings, response.now, h.exchange.value, response.event.received,
                            response.event.freshId);
    } else {
      assert acks + [response] == [response];
    }
  }

  // Empty messages

  /** The datagrams of code 0.00: acknowledgments and resets. */
  function Empties(sends: seq<Datagram>): seq<Datagram> {
    if sends == [] then []
    else
      var d := sends[|sends| - 1];
      Empties(sends[..|sends| - 1]) + if |d.frame| > 1 && d.frame[1] == 0 then [d] else []
  }

  lemma {:induction false} EmptiesConcat(a: seq<Datagram>, b: seq<Datagram>)
    ensures Empties(a + b) == Empties(a) + Empties(b)
    decreases |b|
  {
    if b == [] {
      assert a + b == a;
    } else {
      EmptiesConcat(a, b[..|b| - 1]);
      assert (a + b)[..|a + b| - 1] == a + b[..|b| - 1];
    }
  }

  lemma EmptiesOne(d: Datagram)
    ensures Empties([d]) == if |d.frame| > 1 && d.frame[1] == 0 then [d] else []
  {
    assert [d][..0] == [];
  }

  /** The four bytes of an empty message (section 4.1 of RFC 7252): version 1, the type, no token,
      code 0.00 and the message id. */
  function FourBytes(t: MessageType, id: uint16): Bytes {
    [0x40 + 0x10 * t.Code(), 0, id / 0x100, id % 0x100]
  }

  /** The answer an exchange owes to a frame. Error responses are never answered. */
  function Owed(ex: Exchange, e: LocalEvent): seq<Datagram> {
    if !e.Frame? || !Accepts(ex, e.received) || IsError(e.received.reply.code) then []
    else if ex.request.observeCancelled then
      [Datagram(FourBytes(Reset, e.received.reply.message.id), ex.request.target)]
    else if e.received.reply.message.mtype.Confirmable? then
      [Datagram(FourBytes(Acknowledgment, e.received.reply.message.id), ex.request.target)]
    else []
  }

  function OwedAll(h: History, events: seq<Timed>): seq<Datagram> {
    if events == [] then []
    else
      OwedAll(h, events[..|events| - 1]) + OwedBy(Run(h, events[..|events| - 1]), events[|events| - 1])
  }

  function OwedBy(h: History, e: Timed): seq<Datagram> {
    if h.exchange.Some? then Owed(h.exchange.value, e.event) else []
  }

  lemma RequestFrameCode(r: Request)
    ensures |RequestFrame(r)| >= 4 && RequestFrame(r)[1] == r.methodCode
  {
  }

  lemma AnswersAreOwed(ex: Exchange, received: Received, freshId: uint16)
    requires Accepts(ex, received) && !IsError(received.reply.code)
    ensures Answers(Accept(ex, received), received) == Owed(ex, Frame(received, freshId))
    ensures Empties(Owed(ex, Frame(received, freshId))) == Owed(ex, Frame(received, freshId))
  {
    EmptyMessageIsFourBytes(received.reply.message.id, Reset);
    EmptyMessageIsFourBytes(received.reply.message.id, Acknowledgment);
    var owed := Owed(ex, Frame(received, freshId));
    if owed != [] {
      assert owed == [owed[0]];
      EmptiesOne(owed[0]);
    }
  }

  lemma ProceedSends(now: nat, ex: Exchange, sender: Address, c: Continuation, freshId: uint16, answers: seq<Datagram>)
    requires ex.replies != [] && ex.request.methodCode != 0
    ensures var effect := Proceed(now, ex, sender, c, freshId, answers);
            && Empties(effect.sends) == Empties(answers)
            && (effect.next.Some? ==> effect.next.value.request.methodCode == ex.request.methodCode)
  {
    var effect := Proceed(now, ex, sender, c, freshId, answers);
    if c.Finish? {
      assert answers + [] == answers;
    } else {
      assert Turned(ex.request, c).methodCode == ex.request.methodCode;
      RequestSent(now, ex, Turned(ex.request, c), freshId, if c.AskForBlock? then sender else ex.request.target,
                  answers);
    }
  }

  lemma RequestSent(now: nat, ex: Exchange, r: Request, freshId: uint16, host: Address, answers: seq<Datagram>)
    requires r.methodCode != 0
    ensures var effect := SendNext(now, ex, r, freshId, host, answers);
            && Empties(effect.sends) == Empties(answers)
            && effect.next.Some? && effect.next.value.request.methodCode == r.methodCode
  {
    var r' := Transmitted(r.(message := r.message.(id := freshId)), now);
    RequestFrameCode(r');
    EmptiesConcat(answers, [Datagram(RequestFrame(r'), host)]);
    EmptiesOne(Datagram(RequestFrame(r'), host));
  }

  lemma FrameSends(s: Settings, now: nat, ex: Exchange, received: Received, freshId: uint16)
    requires ex.request.methodCode != 0
    ensures var effect := OnFrame(s, now, ex, received, freshId);
            && Empties(effect.sends) == Owed(ex, Frame(received, freshId))
            && (effect.next.Some? ==> effect.next.value.request.methodCode == ex.request.methodCode)
  {
    if Accepts(ex, received) && !IsError(received.reply.code) {
      AnswersAreOwed(ex, received, freshId);
      ProceedSends(now, Answered(Accept(ex, received)), received.sender, Decide(s, received.reply), freshId,
                   Answers(Accept(ex, received), received));
    }
  }

  lemma TimeoutSends(s: Settings, now: nat, ex: Exchange)
    requires ex.request.methodCode != 0
    ensures Empties(OnTimeout(s, now, ex).sends) == []
    ensures OnTimeout(s, now, ex).next.Some? ==>
              OnTimeout(s, now, ex).next.value.request.methodCode == ex.request.methodCode
  {
    var r := Transmitted(ex.request, now);
    RequestFrameCode(r);
    EmptiesOne(Datagram(RequestFrame(r), r.target));
  }

  lemma HandleSends(s: Settings, now: nat, ex: Exchange, e: LocalEvent)
    requires ex.request.methodCode != 0
    ensures var effect := Handle(s, now, ex, e);
            && Empties(effect.sends) == Owed(ex, e)
            && (effect.next.Some? ==> effect.next.value.request.methodCode == ex.request.methodCode)
  {
    if e.Frame? {
      FrameSends(s, now, ex, e.received, e.freshId);
    } else if e.Timeout? {
      TimeoutSends(s, now, ex);
    }
  }

  lemma StepSends(h: History, e: Timed)
    requires h.exchange.Some? ==> h.exchange.value.request.methodCode != 0
    ensures Empties(Step(h, e).sends) == Empties(h.sends) + OwedBy(h, e)
    ensures Step(h, e).exchange.Some? ==> Step(h, e).exchange.value.request.methodCode != 0
  {
    if h.exchange.Some? {
      HandleSends(e.settings, e.now, h.exchange.value, e.event);
      EmptiesConcat(h.sends, Handle(e.settings, e.now, h.exchange.value, e.event).sends);
    }
  }

  /** Over every run: every accepted Confirmable frame that is no error gets exactly one empty
      acknowledgment with its id, every accepted frame of a cancelled observation a reset, in the
      order of arrival, and no other empty message is ever sent. */
  lemma {:induction false} AnswersExactly(h: History, events: seq<Timed>)
    requires h.exchange.Some? ==> h.exchange.value.request.methodCode != 0
    ensures Empties(Run(h, events).sends) == Empties(h.sends) + OwedAll(h, events)
    ensures Run(h, events).exchange.Some? ==> Run(h, events).exchange.value.request.methodCode != 0
  {
    if events == [] {
      assert Empties(h.sends) + [] == Empties(h.sends);
    } else {
      var front, e := events[..|events| - 1], events[|events| - 1];
      AnswersExactly(h, front);
      StepSends(Run(h, front), e);
      Regroup(Empties(h.sends), OwedAll(h, front), OwedBy(Run(h, front), e));
    }
  }

  lemma Regroup<T>(a: seq<T>, b: seq<T>, c: seq<T>)
    ensures (a + b) + c == a + (b + c)
  {
  }
}
