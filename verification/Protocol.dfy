/** The engine in place: the exchange table holds request objects that the handlers change. Every
    handler is one transition of the state machine in module Engine. */
module Protocol {
  import opened CoapTypes
  import opened StableOrder
  import opened OptionList
  import opened Blocks
  import opened Codec
  import opened Reassembly
  import opened Requests
  import opened Exchanges
  import opened Engine

  /** The table's entry: the user's reply, the request object and the replies received so far. */
  datatype ExchangeData = ExchangeData(userReply: Option<ReplyId>, request: InternalRequest, replies: seq<Received>)

  function Put(s: EngineState, t: Token, ex: Exchange): EngineState {
    s.(exchanges := s.exchanges[t := ex])
  }

  function Told(s: EngineState, t: Token, post: Post): EngineState {
    s.(posted := s.posted + [(t, post)])
  }

  function Sent(s: EngineState, t: Token, d: Datagram): EngineState {
    s.(sent := s.sent + [(t, d)])
  }

  class CoapProtocol {
    var settings: Settings
    var exchangeMap: map<Token, ExchangeData>
    var posted: seq<(Token, Post)>
    var sent: seq<(Token, Datagram)>
    var signals: seq<(Token, Signal)>

    ghost function Objects(): set<InternalRequest>
      reads this`exchangeMap
    {
      set t | t in exchangeMap :: exchangeMap[t].request
    }

    /** No two exchanges share a request object. */
    ghost predicate Distinct()
      reads this`exchangeMap
    {
      forall t, u :: t in exchangeMap && u in exchangeMap && exchangeMap[t].request == exchangeMap[u].request ==> t == u
    }

    ghost function Entry(t: Token): Exchange
      requires t in exchangeMap
      reads this`exchangeMap, exchangeMap[t].request
    {
      Exchange(exchangeMap[t].userReply, exchangeMap[t].request.State(), exchangeMap[t].replies)
    }

    ghost function Table(): Table
      reads this`exchangeMap, Objects()
    {
      map t | t in exchangeMap :: Entry(t)
    }

    ghost function State(): EngineState
      reads this, Objects()
    {
      EngineState(settings, Table(), posted, sent, signals)
    }

    ghost predicate Valid()
      reads this, Objects()
    {
      Distinct() && TableInvariant(State())
    }

    constructor ()
      ensures Valid()
      ensures State() == Initial(Settings(0, 4, 2000, 1.5, 250_000, 4))
    {
      settings := Settings(0, 4, 2000, 1.5, 250_000, 4);
      exchangeMap := map[];
      posted, sent, signals := [], [], [];
    }

    // Changes to one exchange

    /** Only the request object of exchange `t` has changed. */
    twostate predicate OnlyRequest(t: Token)
      reads this, Objects()
    {
      && exchangeMap == old(exchangeMap) && settings == old(settings)
      && posted == old(posted) && sent == old(sent) && signals == old(signals)
      && forall u :: u in exchangeMap && u != t ==>
           exchangeMap[u].request.State() == old(exchangeMap[u].request.State())
    }

    twostate lemma RequestChanged(t: Token)
      requires t in exchangeMap && OnlyRequest(t)
      ensures Entry(t) == old(Entry(t)).(request := exchangeMap[t].request.State())
      ensures State() == Put(old(State()), t, Entry(t))
    {
      assert Table() == old(Table())[t := Entry(t)];
    }

    /** Creating objects changes nothing. */
    twostate lemma Undisturbed()
      requires unchanged(this) && forall t :: t in exchangeMap ==> unchanged(exchangeMap[t].request)
      ensures State() == old(State())
      ensures forall t :: t in exchangeMap ==> Entry(t) == old(Entry(t))
    {
      assert Table() == old(Table());
    }

    method StopTransmission(t: Token)
      requires t in exchangeMap && Distinct()
      modifies exchangeMap[t].request
      ensures Entry(t) == old(Entry(t)).(request := Requests.StopTransmission(old(Entry(t)).request))
      ensures State() == Put(old(State()), t, Entry(t))
    {
      exchangeMap[t].request.Stop();
      RequestChanged(t);
    }

    method RemoveObserve(t: Token)
      requires t in exchangeMap && Distinct()
      modifies exchangeMap[t].request
      ensures Entry(t) == WithOptions(old(Entry(t)), RemoveNamed(old(Entry(t)).request.message.options, OBSERVE))
      ensures State() == Put(old(State()), t, Entry(t))
    {
      var request := exchangeMap[t].request;
      var list := new MessageOptions();
      list.options := request.message.options;
      list.RemoveOption(OBSERVE);
      request.message := request.message.(options := list.options);
      RequestChanged(t);
    }

    /** Turns the request to the next block, under the fresh id. */
    method TurnRequest(t: Token, c: Continuation, freshId: uint16)
      requires t in exchangeMap && Distinct() && Sorted(exchangeMap[t].request.message.options) && !c.Finish?
      modifies exchangeMap[t].request
      ensures Entry(t) == Renamed(old(Entry(t)), Turned(old(Entry(t)).request, c), freshId)
      ensures State() == Put(old(State()), t, Entry(t))
    {
      var request := exchangeMap[t].request;
      match c {
        case SendBlock(number, size) => request.SetSendBlock(number, size);
        case AskForBlock(number, size) => request.SetRequestBlock(number, size);
      }
      request.message := request.message.(id := freshId);
      RequestChanged(t);
    }

    method SetObserveCancelled(t: Token)
      requires t in exchangeMap && Distinct()
      modifies exchangeMap[t].request
      ensures Entry(t) == old(Entry(t)).(request := old(Entry(t)).request.(observeCancelled := true))
      ensures State() == Put(old(State()), t, Entry(t))
    {
      exchangeMap[t].request.observeCancelled := true;
      RequestChanged(t);
    }

    /** The request objects are where they were. */
    twostate predicate SameObjects()
      reads this
    {
      && exchangeMap.Keys == old(exchangeMap.Keys)
      && forall u :: u in exchangeMap ==> exchangeMap[u].request == old(exchangeMap)[u].request
    }

    method SetReplies(t: Token, replies: seq<Received>)
      requires t in exchangeMap && Distinct()
      modifies this`exchangeMap
      ensures SameObjects() && Distinct() && Entry(t) == old(Entry(t)).(replies := replies)
      ensures State() == Put(old(State()), t, Entry(t))
    {
      exchangeMap := exchangeMap[t := exchangeMap[t].(replies := replies)];
      assert Table() == old(Table())[t := Entry(t)];
    }

    method ForgetExchange(t: Token)
      requires Distinct()
      modifies this`exchangeMap
      ensures State() == old(State()).(exchanges := old(State()).exchanges - {t})
      ensures Distinct()
    {
      exchangeMap := exchangeMap - {t};
      assert Table() == old(Table()) - {t};
    }

    /** Invokes slots of the user's reply, if it is still there. */
    method Invoke(t: Token, user: Option<ReplyId>, slots: seq<Slot>)
      modifies this`posted
      ensures State() == old(State()).(posted := old(posted) + Tagged(t, PostsTo(user, slots)))
    {
      if user.Some? {
        posted := posted + Tagged(t, PostsTo(user, slots));
      } else {
        assert old(posted) + Tagged(t, PostsTo(user, slots)) == old(posted);
      }
    }

    method Tell(t: Token, post: Post)
      modifies this`posted
      ensures State() == Told(old(State()), t, post)
    {
      posted := posted + [(t, post)];
    }

    method Emit(t: Token, signal: Signal)
      modifies this`signals
      ensures State() == Signalling(old(State()), t, signal)
    {
      signals := signals + [(t, signal)];
    }

    // Sending

    /** Hands a datagram to the connection. */
    method Hand(t: Token, d: Datagram)
      modifies this`sent
      ensures State() == Sent(old(State()), t, d)
    {
      sent := sent + [(t, d)];
    }

    method Transmit(now: nat, t: Token)
      requires t in exchangeMap && Distinct()
      modifies exchangeMap[t].request
      ensures Entry(t) == old(Entry(t)).(request := Transmitted(old(Entry(t)).request, now))
      ensures State() == Put(old(State()), t, Entry(t))
    {
      if exchangeMap[t].request.target.Multicast? {
        exchangeMap[t].request.StartMulticast(now);
      } else {
        exchangeMap[t].request.Restart(now);
      }
      RequestChanged(t);
    }

    /** Starts or restarts the transmission and hands the frame to the connection. */
    method SendTo(now: nat, t: Token, host: Address)
      requires t in exchangeMap && Distinct() && Sorted(exchangeMap[t].request.message.options)
      modifies exchangeMap[t].request, this`sent
      ensures var ex := old(Entry(t));
              var r := Transmitted(ex.request, now);
              State() == Sent(Put(old(State()), t, ex.(request := r)), t, Datagram(RequestFrame(r), host))
    {
      Transmit(now, t);
      var frame := ToByteArray(exchangeMap[t].request.message, exchangeMap[t].request.methodCode);
      Hand(t, Datagram(frame, host));
    }

    /** An empty message to the target of the request. */
    method SendEmpty(t: Token, id: uint16, mtype: MessageType)
      requires t in exchangeMap
      modifies this`sent
      ensures State() == Sent(old(State()), t, EmptyDatagram(old(Entry(t)).request, id, mtype))
    {
      var frame := ToByteArray(EmptyMessage(id, mtype), 0);
      Hand(t, Datagram(frame, exchangeMap[t].request.target));
    }

    // Handlers

    method OnRequestError(t: Token, error: Error, response: Option<Received>)
      requires t in exchangeMap && Distinct()
      modifies this`exchangeMap, this`posted, this`signals
      ensures Distinct()
      ensures State() == Commit(old(State()), t, OnError(old(Entry(t)), error, response))
    {
      var user := exchangeMap[t].userReply;
      TellError(t, user, error, response);
      ForgetExchange(t);
      Emit(t, ErrorSignal(user, error));
      ErrorCommitted(old(State()), t, error, response);
    }

    /** Sets the error from the content of a response, or from the error itself. */
    method TellError(t: Token, user: Option<ReplyId>, error: Error, response: Option<Received>)
      modifies this`posted
      ensures State() == if user.None? then old(State())
                         else Posting(Posting(old(State()), t, user, [ErrorSlot(error, response)]), t, user,
                                      [SetFinished(Ok)])
    {
      if user.Some? {
        if response.Some? {
          var r := response.value;
          Invoke(t, user, [SetContent(r.sender, r.reply.message, r.reply.code)]);
        } else {
          Invoke(t, user, [SetError(error)]);
        }
        Invoke(t, user, [SetFinished(Ok)]);
      }
    }

    method OnLastMessageReceived(t: Token, sender: Address)
      requires t in exchangeMap && Distinct() && exchangeMap[t].replies != []
      requires exchangeMap[t].replies[|exchangeMap[t].replies| - 1].sender == sender
      modifies this`exchangeMap, this`posted, this`signals
      ensures Distinct()
      ensures State() == Commit(old(State()), t, OnLastMessage(old(Entry(t))))
    {
      ghost var s := State();
      var ExchangeData(userReply, request, replies) := exchangeMap[t];
      var observes := HasOption(request.message.options, OBSERVE);
      if userReply.None? || (observes && request.observeCancelled) {
        ForgetExchange(t);
        NothingCommitted(s, t, None);
        return;
      }
      var n := |replies| - 1;
      if IsEmptyAck(replies[n]) {
        SetReplies(t, replies[..n]);
        NothingCommitted(s, t, Some(s.exchanges[t].(replies := replies[..n])));
        return;
      }
      var lastReply := MergeReplies(t, sender);
      Deliver(t, lastReply, observes);
      DeliveryCommitted(s, t);
    }

    /** Merges the payloads of a blockwise transfer into the last reply, in place. */
    method MergeReplies(t: Token, sender: Address) returns (lastReply: Received)
      requires t in exchangeMap && Distinct() && exchangeMap[t].replies != []
      requires exchangeMap[t].replies[|exchangeMap[t].replies| - 1].sender == sender
      modifies this`exchangeMap
      ensures Distinct() && t in exchangeMap
      ensures lastReply == Merged(old(Entry(t)))
      ensures Entry(t) == WithLast(old(Entry(t)), lastReply)
      ensures State() == Put(old(State()), t, Entry(t))
    {
      lastReply := MergedLast(t, sender);
      Undisturbed();
      StoreLast(t, lastReply);
    }

    /** The last reply with the payload that goes to the user. */
    method MergedLast(t: Token, sender: Address) returns (last: Received)
      requires t in exchangeMap && exchangeMap[t].replies != []
      requires exchangeMap[t].replies[|exchangeMap[t].replies| - 1].sender == sender
      ensures last == Merged(Entry(t))
    {
      last := MergedReply(exchangeMap[t].request.target.Multicast?, exchangeMap[t].replies, sender);
    }

    /** Writes the merged payload into the stored reply. */
    method StoreLast(t: Token, last: Received)
      requires t in exchangeMap && Distinct() && exchangeMap[t].replies != []
      modifies this`exchangeMap
      ensures Distinct() && t in exchangeMap
      ensures Entry(t) == WithLast(old(Entry(t)), last)
      ensures State() == Put(old(State()), t, Entry(t))
    {
      SetReplies(t, exchangeMap[t].replies[|exchangeMap[t].replies| - 1 := last]);
    }

    /** The last reply; when there are several, with their payloads merged. Of a multicast exchange
        only the replies of the sender are merged. */
    static method MergedReply(multicast: bool, replies: seq<Received>, sender: Address) returns (last: Received)
      requires replies != [] && replies[|replies| - 1].sender == sender
      ensures last == WithPayload(replies[|replies| - 1], FinalPayload(multicast, replies))
    {
      last := replies[|replies| - 1];
      if |replies| > 1 {
        var parts := replies;
        if multicast {
          parts := FromSender(parts, sender);
        }
        var finalPayload := MergePayloads(parts);
        last := WithPayload(last, finalPayload);
      }
    }

    /** Forwards the answer to the user. */
    method Deliver(t: Token, last: Received, observes: bool)
      requires t in exchangeMap && Distinct() && exchangeMap[t].userReply.Some?
      requires observes == HasOption(exchangeMap[t].request.message.options, OBSERVE)
      modifies this`exchangeMap, this`posted, this`signals
      ensures Distinct()
      ensures State() == Delivered(old(State()), t, last)
    {
      var user := exchangeMap[t].userReply;
      Invoke(t, user, [SetContent(last.sender, last.reply.message, last.reply.code)]);
      if observes {
        Invoke(t, user, [SetNotified]);
        SetReplies(t, []);
      } else if exchangeMap[t].request.target.Multicast? {
        Emit(t, MulticastResponse(user.value, last.reply.message, last.sender));
      } else {
        Invoke(t, user, [SetFinished(Ok)]);
        ForgetExchange(t);
      }
    }

    /** Stops a unicast transmission and stores the reply. */
    method AcceptReply(t: Token, received: Received)
      requires t in exchangeMap && Distinct()
      modifies this`exchangeMap, exchangeMap[t].request
      ensures SameObjects() && Distinct()
      ensures Entry(t) == Accept(old(Entry(t)), received)
      ensures State() == Put(old(State()), t, Entry(t))
    {
      ghost var s := State();
      if !exchangeMap[t].request.target.Multicast? {
        StopTransmission(t);
      }
      ghost var stopped := Entry(t);
      assert State() == Put(s, t, stopped) by {
        PutSame(s, t);
      }
      SetReplies(t, exchangeMap[t].replies + [received]);
      PutTwice(s, t, stopped, Entry(t));
    }

    /** Answers the frame: a reset for a cancelled observation, an acknowledgment for a Confirmable
        message. */
    method Answer(t: Token, received: Received)
      requires t in exchangeMap && Distinct()
      modifies exchangeMap[t].request, this`sent
      ensures Entry(t) == Answered(old(Entry(t)))
      ensures State() == SentAll(Put(old(State()), t, Entry(t)), t, Answers(old(Entry(t)), received))
    {
      ghost var s, ex := State(), Entry(t);
      var m := received.reply.message;
      if exchangeMap[t].request.observeCancelled {
        RemoveObserve(t);
        SendEmpty(t, m.id, Reset);
      } else if m.mtype.Confirmable? {
        SendEmpty(t, m.id, Acknowledgment);
      }
      AnswerSent(s, t, ex, received);
    }

    /** Sends the request, turned to the next block, under the fresh id. */
    method SendNextBlock(now: nat, t: Token, c: Continuation, freshId: uint16, sender: Address)
      requires t in exchangeMap && Distinct() && Sorted(exchangeMap[t].request.message.options) && !c.Finish?
      requires exchangeMap[t].replies != []
      modifies exchangeMap[t].request, this`sent
      ensures State() == Commit(old(State()), t, Proceed(now, old(Entry(t)), sender, c, freshId, []))
    {
      ghost var s, ex := State(), Entry(t);
      var host := if c.AskForBlock? then sender else exchangeMap[t].request.target;
      TurnedKeepsIdentity(ex.request, c);
      TurnRequest(t, c, freshId);
      SendTo(now, t, host);
      NextBlockCommitted(s, t, now, ex, Turned(ex.request, c), freshId, host);
    }

    method ProcessFinal(now: nat, t: Token, received: Received, freshId: uint16)
      requires t in exchangeMap && Distinct() && exchangeMap[t].replies != []
      requires exchangeMap[t].replies[|exchangeMap[t].replies| - 1] == received
      modifies this`exchangeMap, this`posted, this`signals
      ensures Distinct()
      ensures State() == Commit(old(State()), t, Proceed(now, old(Entry(t)), received.sender, Finish, freshId, []))
    {
      FinishProceeds(now, Entry(t), received.sender, freshId);
      OnLastMessageReceived(t, received.sender);
    }

    /** Sends the next block, asks for the next block, or processes the final reply. */
    method Continue(now: nat, t: Token, received: Received, freshId: uint16)
      requires t in exchangeMap && Distinct() && Sorted(exchangeMap[t].request.message.options)
      requires exchangeMap[t].replies != [] && exchangeMap[t].replies[|exchangeMap[t].replies| - 1] == received
      modifies this`exchangeMap, this`posted, this`sent, this`signals, exchangeMap[t].request
      ensures Distinct()
      ensures State() == Commit(old(State()), t, Proceed(now, old(Entry(t)), received.sender,
                                                         Decide(old(settings), received.reply), freshId, []))
    {
      ghost var c := Decide(settings, received.reply);
      var next := NextBlockToSend(received.reply.message.options);
      if next >= 0 {
        assert c == SendBlock(next, settings.blockSize);
        SendNextBlock(now, t, SendBlock(next, settings.blockSize), freshId, received.sender);
      } else if received.reply.block.more {
        assert c == AskForBlock(Wrap32(received.reply.block.number + 1), received.reply.block.size);
        SendNextBlock(now, t, AskForBlock(Wrap32(received.reply.block.number + 1), received.reply.block.size), freshId,
                      received.sender);
      } else {
        assert c == Finish;
        ProcessFinal(now, t, received, freshId);
      }
    }

    /** Finds the exchange whose request carries the message id, in whatever order the table has. */
    method FindRequestByMessageId(id: uint16) returns (found: Option<Token>)
      requires Valid()
      ensures found == ById(Table(), id)
    {
      found := None;
      var tokens := exchangeMap.Keys;
      while tokens != {}
        invariant tokens <= exchangeMap.Keys
        invariant forall t :: t in exchangeMap && t !in tokens ==> exchangeMap[t].request.message.id != id
      {
        var t :| t in tokens;
        if exchangeMap[t].request.message.id == id {
          ByIdIsUnique(Table(), t);
          return Some(t);
        }
        tokens := tokens - {t};
      }
      assert forall t :: t in Table() ==> Table()[t].request.message.id != id;
    }

    /** The exchange a received message belongs to. */
    method FindExchange(m: Message) returns (found: Option<Token>)
      requires Valid()
      ensures found == Match(Table(), m)
      ensures found.Some? ==> found.value in exchangeMap
    {
      if m.token != [] && m.token in exchangeMap {
        return Some(m.token);
      }
      found := FindRequestByMessageId(m.id);
    }

    /** Processes a received message that belongs to exchange `t`; of a unicast exchange only
        messages from its target count. */
    method OnReply(now: nat, t: Token, received: Received, freshId: uint16)
      requires t in exchangeMap && Distinct() && Sorted(exchangeMap[t].request.message.options)
      modifies this`exchangeMap, this`posted, this`sent, this`signals, exchangeMap[t].request
      ensures Distinct()
      ensures State() == Commit(old(State()), t, OnFrame(old(settings), now, old(Entry(t)), received, freshId))
    {
      if !exchangeMap[t].request.target.Multicast? && exchangeMap[t].request.target != received.sender {
        Rejected(State(), t, now, received, freshId);
        return;
      }
      OnAccepted(now, t, received, freshId);
    }

    method OnAccepted(now: nat, t: Token, received: Received, freshId: uint16)
      requires t in exchangeMap && Distinct() && Sorted(exchangeMap[t].request.message.options)
      requires Accepts(Entry(t), received)
      modifies this`exchangeMap, this`posted, this`sent, this`signals, exchangeMap[t].request
      ensures Distinct()
      ensures State() == Commit(old(State()), t, OnFrame(old(settings), now, old(Entry(t)), received, freshId))
    {
      ghost var s, ex := State(), Entry(t);
      AcceptReply(t, received);
      ghost var accepted := Entry(t);
      if IsError(received.reply.code) {
        OnRequestError(t, ErrorForResponseCode(received.reply.code), Some(received));
        CommitOver(s, t, accepted, OnError(accepted, ErrorForResponseCode(received.reply.code), Some(received)));
        return;
      }
      RemoveNamedKeepsSorted(accepted.request.message.options, OBSERVE);
      Answer(t, received);
      ghost var answered := Entry(t);
      Continue(now, t, received, freshId);
      AnsweredCommitted(s, t, now, accepted, answered, received, Decide(settings, received.reply), freshId);
    }

    method Dispatch(now: nat, received: Received, freshId: uint16)
      requires Valid()
      modifies this, Objects()
      ensures Distinct() && State() == Dispatched(old(State()), now, received, freshId)
    {
      var found := FindExchange(received.reply.message);
      if found.Some? {
        OnReply(now, found.value, received, freshId);
      }
    }

    // Events

    method OnFrameReceived(now: nat, frame: Bytes, sender: Address, freshId: uint16)
      requires Valid() && Enabled(State(), now, FrameReceived(frame, sender, freshId))
      modifies this, Objects()
      ensures Valid() && State() == Next(old(State()), now, FrameReceived(frame, sender, freshId))
    {
      ghost var s := State();
      FrameIsDispatched(s, now, frame, sender, freshId);
      var reply := CreateFromFrame(frame);
      Undisturbed();
      Dispatch(now, Received(reply, sender), freshId);
    }

    method OnRequestTimeout(now: nat, t: Token)
      requires Valid() && Enabled(State(), now, RequestTimeout(t))
      modifies this, Objects()
      ensures Valid() && State() == Next(old(State()), now, RequestTimeout(t))
    {
      ghost var s, ex := State(), Entry(t);
      NextKeepsInvariant(s, now, RequestTimeout(t));
      TimeoutNext(s, now, t);
      var request := exchangeMap[t].request;
      if request.message.mtype.Confirmable? && request.retransmissionCounter < settings.maximumRetransmitCount {
        SendTo(now, t, request.target);
        RetryCommitted(s, t, now);
      } else {
        OnRequestError(t, TimeOut, None);
      }
    }

    method OnRequestMaxTransmissionSpanReached(now: nat, t: Token)
      requires Valid() && Enabled(State(), now, TransmitWaitExpired(t))
      modifies this, Objects()
      ensures Valid() && State() == Next(old(State()), now, TransmitWaitExpired(t))
    {
      NextKeepsInvariant(State(), now, TransmitWaitExpired(t));
      OnRequestError(t, TimeOut, None);
    }

    method OnMulticastRequestExpired(now: nat, t: Token)
      requires Valid() && Enabled(State(), now, MulticastRequestExpired(t))
      modifies this, Objects()
      ensures Valid() && State() == Next(old(State()), now, MulticastRequestExpired(t))
    {
      ghost var s := State();
      NextKeepsInvariant(s, now, MulticastRequestExpired(t));
      StopTransmission(t);
      ghost var stopped := Entry(t);
      Invoke(t, exchangeMap[t].userReply, [SetFinished(Ok)]);
      ForgetExchange(t);
      ExpiredCommitted(s, t, stopped);
    }

    method OnRequestAborted(now: nat, t: Token)
      requires Valid()
      modifies this, Objects()
      ensures Valid() && State() == Next(old(State()), now, RequestAborted(t))
    {
      ghost var s := State();
      NextKeepsInvariant(s, now, RequestAborted(t));
      if t in exchangeMap {
        StopTransmission(t);
        PutTwice(s, t, Entry(t), Entry(t));
        NothingCommitted(s, t, None);
        ForgetExchange(t);
      }
    }

    /** Cancels the observation of a reply whose request has this token. The reply is told even when
        the request is not tracked any more. */
    method CancelObserve(now: nat, reply: ReplyId, t: Token)
      requires Valid()
      modifies this, Objects()
      ensures Valid() && State() == Next(old(State()), now, Event.CancelObserve(reply, t))
    {
      ghost var s := State();
      NextKeepsInvariant(s, now, Event.CancelObserve(reply, t));
      CancelNext(s, now, reply, t);
      if t in exchangeMap {
        CancelTracked(reply, t);
      } else {
        Tell(NO_TOKEN, Post(reply, Slot.SetObserveCancelled));
      }
    }

    method CancelTracked(reply: ReplyId, t: Token)
      requires Distinct() && t in exchangeMap
      modifies exchangeMap[t].request, this`posted
      ensures State() == Commit(old(State()), t, OnCancel(old(Entry(t)), reply))
    {
      ghost var s, ex := State(), Entry(t);
      var request := exchangeMap[t].request;
      if !HasOption(request.message.options, OBSERVE) || request.observeCancelled {
        NothingCommitted(s, t, Some(ex));
        PutSame(s, t);
        return;
      }
      SetObserveCancelled(t);
      Tell(t, Post(reply, Slot.SetObserveCancelled));
      OneTagged(t, Post(reply, Slot.SetObserveCancelled));
      NothingTagged(t, s.sent);
      NothingTagged(t, s.signals);
    }

    // Sending a request

    /** Enters a new exchange; one with the same token is replaced. */
    method RegisterExchange(t: Token, reply: ReplyId, request: InternalRequest)
      requires Distinct() && request !in Objects()
      modifies this`exchangeMap
      ensures Distinct() && t in exchangeMap && exchangeMap[t].request == request
      ensures Entry(t) == Exchange(Some(reply), request.State(), [])
      ensures State() == Put(old(State()), t, Entry(t))
    {
      exchangeMap := exchangeMap[t := ExchangeData(Some(reply), request, [])];
      assert Table() == old(Table())[t := Entry(t)];
    }

    /** Sets block options and timeout of the request just registered. */
    method Prepare(t: Token, randomTimeout: nat)
      requires t in exchangeMap && Distinct() && Sorted(exchangeMap[t].request.message.options)
      modifies exchangeMap[t].request
      ensures Entry(t) == old(Entry(t)).(request := Prepared(settings, old(Entry(t)).request, randomTimeout))
      ensures State() == Put(old(State()), t, Entry(t))
    {
      var request := exchangeMap[t].request;
      ghost var r := request.State();
      if settings.blockSize > 0 {
        RequestBlockKeepsIdentity(r, 0, settings.blockSize);
        request.SetRequestBlock(0, settings.blockSize);
        if |request.message.payload| > settings.blockSize {
          request.SetSendBlock(0, settings.blockSize);
        }
      }
      if request.message.mtype.Confirmable? {
        request.timeout := if settings.ackTimeout == MaximumTimeout(settings) then settings.ackTimeout
                           else randomTimeout;
      } else {
        request.timeout := MaximumTimeout(settings);
      }
      RequestChanged(t);
    }

    method NewRequest(u: UserRequest, t: Token, id: uint16) returns (request: InternalRequest)
      ensures fresh(request) && request.State() == Fresh(settings, u, t, id)
    {
      request := new InternalRequest(u.message, u.methodCode, u.target);
      request.maxTransmitWait := MaximumTransmitWait(settings);
      if u.target.Multicast? {
        request.multicastTimeout := MulticastTimeout(settings);
      }
      request.message := request.message.(id := id);
      request.message := request.message.(token := t);
    }

    method SendRequest(now: nat, reply: ReplyId, u: UserRequest, freshId: uint16, freshToken: Token, randomTimeout: nat)
      requires Valid() && Enabled(State(), now, Event.SendRequest(reply, u, freshId, freshToken, randomTimeout))
      modifies this, Objects()
      ensures Valid()
      ensures State() == Next(old(State()), now, Event.SendRequest(reply, u, freshId, freshToken, randomTimeout))
    {
      NextKeepsInvariant(State(), now, Event.SendRequest(reply, u, freshId, freshToken, randomTimeout));
      SendRequestNext(State(), now, reply, u, freshId, freshToken, randomTimeout);
      if u.methodCode == 0 {
        return;
      }
      Open(now, reply, u, if u.message.token == [] then freshToken else u.message.token, freshId, randomTimeout);
    }

    /** Opens the exchange of a request under its token. */
    method Open(now: nat, reply: ReplyId, u: UserRequest, t: Token, id: uint16, randomTimeout: nat)
      requires Distinct() && Sorted(u.message.options)
      modifies this
      ensures Distinct()
      ensures State() == Commit(old(State()), t, Begin(old(settings), now, u, reply, t, id, randomTimeout))
    {
      ghost var s := State();
      var request := NewRequest(u, t, id);
      Undisturbed();
      RegisterExchange(t, reply, request);
      Invoke(t, Some(reply), [SetRunning(t, id)]);
      PreparedKeepsSorted(settings, request.State(), randomTimeout);
      Prepare(t, randomTimeout);
      SendTo(now, t, request.target);
      BeginCommitted(s, now, u, reply, t, id, randomTimeout);
    }

    // Message ids and tokens

    method IsMessageIdRegistered(id: uint16) returns (registered: bool)
      ensures registered == Engine.IsMessageIdRegistered(Table(), id)
    {
      if id == 0 {
        return true;
      }
      var tokens := exchangeMap.Keys;
      while tokens != {}
        invariant tokens <= exchangeMap.Keys
        invariant forall t :: t in exchangeMap && t !in tokens ==> exchangeMap[t].request.message.id != id
      {
        var t :| t in tokens;
        if exchangeMap[t].request.message.id == id {
          assert t in Table() && Table()[t].request.message.id == id;
          return true;
        }
        tokens := tokens - {t};
      }
      registered := false;
      assert forall t :: t in Table() ==> Table()[t].request.message.id != id;
    }

    /** Draws message ids until one is free. Of finitely many draws none need be: the library would
        go on drawing then. */
    method GenerateUniqueMessageId(draws: seq<uint16>) returns (id: Option<uint16>)
      ensures id.None? <==> forall d :: d in draws ==> !IsFreshId(Table(), d)
      ensures id.Some? ==> id.value in draws && IsFreshId(Table(), id.value)
    {
      for i := 0 to |draws|
        invariant forall j :: 0 <= j < i ==> !IsFreshId(Table(), draws[j])
      {
        var registered := IsMessageIdRegistered(draws[i]);
        if !registered {
          assert draws[i] in draws;
          return Some(draws[i]);
        }
      }
      id := None;
    }

    /** Draws tokens of `minimumTokenSize` to 8 bytes until one is free. */
    method GenerateUniqueToken(draws: seq<Token>) returns (token: Option<Token>)
      requires forall d :: d in draws ==> settings.minimumTokenSize <= |d| <= 8
      ensures token.Some? ==> settings.minimumTokenSize <= |token.value| <= 8
      ensures token.None? <==> forall d :: d in draws ==> IsTokenRegistered(Table(), d)
      ensures token.Some? ==> token.value in draws && !IsTokenRegistered(Table(), token.value)
    {
      for i := 0 to |draws|
        invariant forall j :: 0 <= j < i ==> IsTokenRegistered(Table(), draws[j])
      {
        if draws[i] != [] && draws[i] !in exchangeMap {
          assert draws[i] in draws;
          return Some(draws[i]);
        }
      }
      token := None;
    }

    // Settings

    method Assign(s: Settings)
      requires Distinct()
      modifies this`settings
      ensures Distinct() && settings == s && State() == old(State()).(settings := s)
    {
      settings := s;
    }

    method Configure(now: nat, s: Settings)
      requires Valid() && ValidSettings(s)
      modifies this`settings
      ensures Valid() && State() == Next(old(State()), now, Event.Configure(s))
      ensures settings == s
    {
      ConfigureNext(State(), now, s);
      Assign(s);
    }

    /** Takes 0 and the powers of two from 16 to 1024; leaves the size as it is otherwise. */
    method SetBlockSize(now: nat, size: bv16)
      requires Valid()
      modifies this`settings
      ensures Valid() && State() == Next(old(State()), now, Event.Configure(settings))
      ensures settings == if size == 0 || IsBlockSize(size as nat) then old(settings).(blockSize := size as nat)
                          else old(settings)
    {
      PowersOfTwo(size);
      if size & (size - 1) != 0 {
        return;
      }
      if size != 0 && (size < 16 || size > 1024) {
        return;
      }
      Configure(now, settings.(blockSize := size as nat));
    }

    method SetMaximumRetransmitCount(now: nat, count: nat)
      requires Valid()
      modifies this`settings
      ensures Valid() && State() == Next(old(State()), now, Event.Configure(settings))
      ensures settings == old(settings).(maximumRetransmitCount := if count <= 25 then count else 25)
    {
      var capped := count;
      if count > 25 {
        capped := 25;
      }
      Configure(now, settings.(maximumRetransmitCount := capped));
    }

    method SetAckTimeout(now: nat, timeout: nat)
      requires Valid() && timeout < 0x1_0000_0000
      modifies this`settings
      ensures Valid() && State() == Next(old(State()), now, Event.Configure(settings))
      ensures settings == old(settings).(ackTimeout := timeout)
    {
      Configure(now, settings.(ackTimeout := timeout));
    }

    method SetAckRandomFactor(now: nat, factor: real)
      requires Valid()
      modifies this`settings
      ensures Valid() && State() == Next(old(State()), now, Event.Configure(settings))
      ensures settings == old(settings).(ackRandomFactor := if factor < 1.0 then 1.0 else factor)
    {
      Configure(now, settings.(ackRandomFactor := if factor < 1.0 then 1.0 else factor));
    }

    method SetMaximumServerResponseDelay(now: nat, delay: nat)
      requires Valid() && delay < 0x1_0000_0000
      modifies this`settings
      ensures Valid() && State() == Next(old(State()), now, Event.Configure(settings))
      ensures settings == old(settings).(maximumServerResponseDelay := delay)
    {
      Configure(now, settings.(maximumServerResponseDelay := delay));
    }

    method SetMinimumTokenSize(now: nat, size: int)
      requires Valid()
      modifies this`settings
      ensures Valid() && State() == Next(old(State()), now, Event.Configure(settings))
      ensures settings == if 1 <= size <= 8 then old(settings).(minimumTokenSize := size) else old(settings)
    {
      if size > 0 && size <= 8 {
        Configure(now, settings.(minimumTokenSize := size));
      }
    }
  }

  /** The bit trick with the range check picks out exactly the block sizes. */
  lemma PowersOfTwo(size: bv16)
    ensures size & (size - 1) == 0 && (size == 0 || 16 <= size <= 1024) <==> size == 0 || IsBlockSize(size as nat)
  {
    assert size & (size - 1) == 0 && 16 <= size <= 1024
           <==> size == 16 || size == 32 || size == 64 || size == 128 || size == 256 || size == 512 || size == 1024;
    SameNumber(size, 16);
    SameNumber(size, 32);
    SameNumber(size, 64);
    SameNumber(size, 128);
    SameNumber(size, 256);
    SameNumber(size, 512);
    SameNumber(size, 1024);
  }

  lemma SameNumber(a: bv16, b: bv16)
    ensures a == b <==> a as nat == b as nat
  {
    if a as nat == b as nat {
      assert (a as nat) as bv16 == (b as nat) as bv16;
    }
  }

  /** The last reply with the payload that goes to the user. */
  function Merged(ex: Exchange): Received
    requires ex.replies != []
  {
    WithPayload(ex.replies[|ex.replies| - 1], FinalPayload(ex.request.IsMulticast(), ex.replies))
  }

  function WithLast(ex: Exchange, last: Received): Exchange
    requires ex.replies != []
  {
    ex.(replies := ex.replies[|ex.replies| - 1 := last])
  }

  /** Slots of a reply invoked. */
  function Posting(s: EngineState, t: Token, user: Option<ReplyId>, slots: seq<Slot>): EngineState {
    s.(posted := s.posted + Tagged(t, PostsTo(user, slots)))
  }

  function ErrorSlot(error: Error, response: Option<Received>): Slot {
    if response.Some? then SetContent(response.value.sender, response.value.reply.message, response.value.reply.code)
    else SetError(error)
  }

  function Without(s: EngineState, t: Token): EngineState {
    s.(exchanges := s.exchanges - {t})
  }

  function Signalling(s: EngineState, t: Token, signal: Signal): EngineState {
    s.(signals := s.signals + [(t, signal)])
  }

  /** The last steps of a delivery, one after the other. */
  function Delivered(s: EngineState, t: Token, last: Received): EngineState
    requires t in s.exchanges && s.exchanges[t].userReply.Some?
  {
    var ex := s.exchanges[t];
    var content := Posting(s, t, ex.userReply, [SetContent(last.sender, last.reply.message, last.reply.code)]);
    if ex.request.IsObserve() then
      Put(Posting(content, t, ex.userReply, [SetNotified]), t, ex.(replies := []))
    else if ex.request.IsMulticast() then
      Signalling(content, t, MulticastResponse(ex.userReply.value, last.reply.message, last.sender))
    else
      Without(Posting(content, t, ex.userReply, [SetFinished(Ok)]), t)
  }

  lemma PostingTwice(s: EngineState, t: Token, user: Option<ReplyId>, a: Slot, b: Slot)
    ensures Posting(Posting(s, t, user, [a]), t, user, [b]) == Posting(s, t, user, [a, b])
  {
    assert Tagged(t, PostsTo(user, [a])) + Tagged(t, PostsTo(user, [b])) == Tagged(t, PostsTo(user, [a, b]));
    assert (s.posted + Tagged(t, PostsTo(user, [a]))) + Tagged(t, PostsTo(user, [b]))
        == s.posted + (Tagged(t, PostsTo(user, [a])) + Tagged(t, PostsTo(user, [b])));
  }

  lemma PostingNone(s: EngineState, t: Token, slots: seq<Slot>)
    ensures Posting(s, t, None, slots) == s
  {
    assert s.posted + Tagged(t, PostsTo(None, slots)) == s.posted;
  }

  lemma NothingTagged<T>(t: Token, log: seq<(Token, T)>)
    ensures log + Tagged(t, []) == log
  {
  }

  lemma OneTagged<T>(t: Token, x: T)
    ensures Tagged(t, [x]) == [(t, x)]
  {
  }

  /** An effect that changes the exchange only. */
  lemma NothingCommitted(s: EngineState, t: Token, next: Option<Exchange>)
    ensures Commit(s, t, Effect(next, [], [], [])) == if next.Some? then Put(s, t, next.value) else Without(s, t)
  {
    NothingTagged(t, s.posted);
    NothingTagged(t, s.sent);
    NothingTagged(t, s.signals);
  }

  lemma ErrorCommitted(s: EngineState, t: Token, error: Error, response: Option<Received>)
    requires t in s.exchanges
    ensures var user := s.exchanges[t].userReply;
            var told := if user.None? then s
                        else Posting(Posting(s, t, user, [ErrorSlot(error, response)]), t, user, [SetFinished(Ok)]);
            Signalling(Without(told, t), t, ErrorSignal(user, error))
            == Commit(s, t, OnError(s.exchanges[t], error, response))
  {
    var user := s.exchanges[t].userReply;
    var what := ErrorSlot(error, response);
    PostingTwice(s, t, user, what, SetFinished(Ok));
    OneTagged(t, ErrorSignal(user, error));
    NothingTagged(t, s.sent);
    if user.None? {
      PostingNone(s, t, [what, SetFinished(Ok)]);
    }
  }

  function SentAll(s: EngineState, t: Token, sends: seq<Datagram>): EngineState {
    s.(sent := s.sent + Tagged(t, sends))
  }

  lemma AnswerSent(s: EngineState, t: Token, ex: Exchange, received: Received)
    requires t in s.exchanges && s.exchanges[t] == ex
    ensures Answers(ex, received) == [] ==> SentAll(s, t, Answers(ex, received)) == s
    ensures forall d :: Answers(ex, received) == [d] ==> SentAll(s, t, Answers(ex, received)) == Sent(s, t, d)
    ensures Put(s, t, ex) == s
  {
    NothingTagged(t, s.sent);
    forall d: Datagram ensures Tagged(t, [d]) == [(t, d)] {
      OneTagged(t, d);
    }
    assert s.exchanges[t := ex] == s.exchanges;
  }

  lemma NextBlockCommitted(s: EngineState, t: Token, now: nat, ex: Exchange, r: Request, id: uint16, host: Address)
    ensures var renamed := r.(message := r.message.(id := id));
            var sent := Transmitted(renamed, now);
            Sent(Put(Put(s, t, ex.(request := renamed)), t, ex.(request := sent)), t,
                 Datagram(RequestFrame(sent), host))
            == Commit(s, t, SendNext(now, ex, r, id, host, []))
  {
    var sent := Transmitted(r.(message := r.message.(id := id)), now);
    PutTwice(s, t, ex.(request := r.(message := r.message.(id := id))), ex.(request := sent));
    OneTagged(t, Datagram(RequestFrame(sent), host));
    NothingTagged(t, s.posted);
    assert [] + [Datagram(RequestFrame(sent), host)] == [Datagram(RequestFrame(sent), host)];
    NothingTagged(t, s.signals);
  }

  lemma FinishProceeds(now: nat, ex: Exchange, sender: Address, freshId: uint16)
    requires ex.replies != []
    ensures Proceed(now, ex, sender, Finish, freshId, []) == OnLastMessage(ex)
  {
    assert [] + OnLastMessage(ex).sends == OnLastMessage(ex).sends;
  }

  /** An effect replaces whatever stood in the table. */
  lemma CommitOver(s: EngineState, t: Token, a: Exchange, effect: Effect)
    ensures Commit(Put(s, t, a), t, effect) == Commit(s, t, effect)
  {
    if effect.next.Some? {
      PutTwice(s, t, a, effect.next.value);
    } else {
      PutTwice(s, t, a, a);
    }
  }

  /** Answers go out ahead of what else an effect sends. */
  lemma AnswersFirst(s: EngineState, t: Token, a: Exchange, answers: seq<Datagram>, effect: Effect)
    ensures Commit(SentAll(Put(s, t, a), t, answers), t, effect)
         == Commit(s, t, effect.(sends := answers + effect.sends))
  {
    CommitOver(s, t, a, effect);
    assert Tagged(t, answers) + Tagged(t, effect.sends) == Tagged(t, answers + effect.sends);
    assert (s.sent + Tagged(t, answers)) + Tagged(t, effect.sends)
        == s.sent + (Tagged(t, answers) + Tagged(t, effect.sends));
  }

  lemma ProceedAnswers(now: nat, ex: Exchange, sender: Address, c: Continuation, freshId: uint16,
                       answers: seq<Datagram>)
    requires ex.replies != []
    ensures var bare := Proceed(now, ex, sender, c, freshId, []);
            Proceed(now, ex, sender, c, freshId, answers) == bare.(sends := answers + bare.sends)
  {
    if c.Finish? {
      FinishProceeds(now, ex, sender, freshId);
    } else {
      var bare := Proceed(now, ex, sender, c, freshId, []);
      assert [] + [bare.sends[0]] == bare.sends;
    }
  }

  lemma AnsweredCommitted(s: EngineState, t: Token, now: nat, accepted: Exchange, answered: Exchange,
                          received: Received, c: Continuation, freshId: uint16)
    requires answered == Answered(accepted) && accepted.replies != []
    ensures Commit(SentAll(Put(Put(s, t, accepted), t, answered), t, Answers(accepted, received)), t,
                   Proceed(now, answered, received.sender, c, freshId, []))
         == Commit(s, t, Proceed(now, answered, received.sender, c, freshId, Answers(accepted, received)))
  {
    PutTwice(s, t, accepted, answered);
    AnswersFirst(s, t, answered, Answers(accepted, received), Proceed(now, answered, received.sender, c, freshId, []));
    ProceedAnswers(now, answered, received.sender, c, freshId, Answers(accepted, received));
  }

  lemma Rejected(s: EngineState, t: Token, now: nat, received: Received, freshId: uint16)
    requires t in s.exchanges && !Accepts(s.exchanges[t], received)
    ensures Commit(s, t, OnFrame(s.settings, now, s.exchanges[t], received, freshId)) == s
  {
    NothingCommitted(s, t, Some(s.exchanges[t]));
    PutSame(s, t);
  }

  /** What a received message does to the table. */
  ghost function Dispatched(s: EngineState, now: nat, received: Received, freshId: uint16): EngineState {
    var found := Match(s.exchanges, received.reply.message);
    if found.Some? && found.value in s.exchanges then
      Commit(s, found.value, OnFrame(s.settings, now, s.exchanges[found.value], received, freshId))
    else s
  }

  lemma FrameIsDispatched(s: EngineState, now: nat, frame: Bytes, sender: Address, freshId: uint16)
    requires TableInvariant(s) && Enabled(s, now, FrameReceived(frame, sender, freshId))
    ensures Decode(frame).Some?
    ensures var received := Received(Decode(frame).value, sender);
            && Next(s, now, FrameReceived(frame, sender, freshId)) == Dispatched(s, now, received, freshId)
            && TableInvariant(Dispatched(s, now, received, freshId))
  {
    NextKeepsInvariant(s, now, FrameReceived(frame, sender, freshId));
  }

  lemma TimeoutNext(s: EngineState, now: nat, t: Token)
    requires t in s.exchanges
    ensures Next(s, now, RequestTimeout(t)) == Commit(s, t, OnTimeout(s.settings, now, s.exchanges[t]))
  {
  }

  lemma CancelNext(s: EngineState, now: nat, reply: ReplyId, t: Token)
    ensures Next(s, now, Event.CancelObserve(reply, t))
         == if t in s.exchanges then Commit(s, t, OnCancel(s.exchanges[t], reply))
            else Told(s, NO_TOKEN, Post(reply, Slot.SetObserveCancelled))
  {
  }

  lemma ConfigureNext(s: EngineState, now: nat, settings: Settings)
    requires TableInvariant(s) && ValidSettings(settings)
    ensures var s' := Next(s, now, Event.Configure(settings));
            s' == s.(settings := settings) && TableInvariant(s')
  {
    NextKeepsInvariant(s, now, Event.Configure(settings));
  }

  lemma RetryCommitted(s: EngineState, t: Token, now: nat)
    requires t in s.exchanges
    ensures var ex := s.exchanges[t];
            var r := Transmitted(ex.request, now);
            Sent(Put(s, t, ex.(request := r)), t, Datagram(RequestFrame(r), ex.request.target))
            == Commit(s, t, Effect(Some(ex.(request := r)), [], [Datagram(RequestFrame(r), r.target)], []))
  {
    var r := Transmitted(s.exchanges[t].request, now);
    assert r.target == s.exchanges[t].request.target;
    OneTagged(t, Datagram(RequestFrame(r), r.target));
    NothingTagged(t, s.posted);
    NothingTagged(t, s.signals);
  }

  lemma ExpiredCommitted(s: EngineState, t: Token, stopped: Exchange)
    requires t in s.exchanges && stopped.userReply == s.exchanges[t].userReply
    ensures Without(Posting(Put(s, t, stopped), t, stopped.userReply, [SetFinished(Ok)]), t)
         == Commit(s, t, Effect(None, PostsTo(stopped.userReply, [SetFinished(Ok)]), [], []))
  {
    PutTwice(s, t, stopped, stopped);
    NothingTagged(t, s.sent);
    NothingTagged(t, s.signals);
  }

  /** A request object as it is created. */
  function Fresh(s: Settings, u: UserRequest, t: Token, id: uint16): Request {
    Request(u.message.(token := t, id := id), u.methodCode, u.message.payload, u.target, 0, 0, false, false,
            MaximumTransmitWait(s), if u.target.Multicast? then MulticastTimeout(s) else 0, None, None, None)
  }

  lemma PreparedKeepsSorted(s: Settings, r: Request, randomTimeout: nat)
    requires Sorted(r.message.options)
    ensures Sorted(Prepared(s, r, randomTimeout).message.options)
  {
    RequestBlockKeepsIdentity(r, 0, s.blockSize);
    SendBlockKeepsIdentity(SetToRequestBlock(r, 0, s.blockSize), 0, s.blockSize);
  }

  ghost function AfterSend(s: EngineState, now: nat, reply: ReplyId, u: UserRequest, id: uint16, freshToken: Token,
                           randomTimeout: nat): EngineState {
    var t := RequestToken(u, freshToken);
    if u.methodCode == 0 then s else Commit(s, t, Begin(s.settings, now, u, reply, t, id, randomTimeout))
  }

  lemma SendRequestNext(s: EngineState, now: nat, reply: ReplyId, u: UserRequest, id: uint16, freshToken: Token,
                        randomTimeout: nat)
    ensures Next(s, now, Event.SendRequest(reply, u, id, freshToken, randomTimeout))
         == AfterSend(s, now, reply, u, id, freshToken, randomTimeout)
  {
  }

  lemma BeginCommitted(s: EngineState, now: nat, u: UserRequest, reply: ReplyId, t: Token, id: uint16,
                       randomTimeout: nat)
    ensures var r0 := Fresh(s.settings, u, t, id);
            var r1 := Prepared(s.settings, r0, randomTimeout);
            var r2 := Transmitted(r1, now);
            var e0 := Exchange(Some(reply), r0, []);
            var e1 := Exchange(Some(reply), r1, []);
            var e2 := Exchange(Some(reply), r2, []);
            Sent(Put(Put(Posting(Put(s, t, e0), t, Some(reply), [SetRunning(t, id)]), t, e1), t, e2), t,
                 Datagram(RequestFrame(r2), u.target))
            == Commit(s, t, Begin(s.settings, now, u, reply, t, id, randomTimeout))
  {
    var r0 := Fresh(s.settings, u, t, id);
    var r1 := Prepared(s.settings, r0, randomTimeout);
    var r2 := Transmitted(r1, now);
    assert r1 == InitialRequest(s.settings, u, t, id, randomTimeout);
    assert r2.target == u.target;
    OneTagged(t, Datagram(RequestFrame(r2), u.target));
    assert PostsTo(Some(reply), [SetRunning(t, id)]) == [Post(reply, SetRunning(t, id))];
    var e2 := Exchange(Some(reply), r2, []);
    assert s.exchanges[t := Exchange(Some(reply), r0, [])][t := Exchange(Some(reply), r1, [])][t := e2]
        == s.exchanges[t := e2];
    NothingTagged(t, s.signals);
  }

  function Prepared(s: Settings, r: Request, randomTimeout: nat): Request {
    WithBlockOptions(s, r).(timeout := InitialTimeout(s, r.message.mtype, randomTimeout))
  }

  lemma PutSame(s: EngineState, t: Token)
    requires t in s.exchanges
    ensures Put(s, t, s.exchanges[t]) == s
  {
    assert s.exchanges[t := s.exchanges[t]] == s.exchanges;
  }

  lemma PutTwice(s: EngineState, t: Token, a: Exchange, b: Exchange)
    ensures Put(Put(s, t, a), t, b) == Put(s, t, b)
    ensures Without(Put(s, t, a), t) == Without(s, t)
  {
    assert s.exchanges[t := a][t := b] == s.exchanges[t := b];
    assert s.exchanges[t := a] - {t} == s.exchanges - {t};
  }

  lemma DeliveryCommitted(s: EngineState, t: Token)
    requires t in s.exchanges && s.exchanges[t].userReply.Some? && s.exchanges[t].replies != []
    requires !IsEmptyAck(s.exchanges[t].replies[|s.exchanges[t].replies| - 1])
    requires !(s.exchanges[t].request.IsObserve() && s.exchanges[t].request.observeCancelled)
    ensures var ex := s.exchanges[t];
            Delivered(Put(s, t, WithLast(ex, Merged(ex))), t, Merged(ex)) == Commit(s, t, OnLastMessage(ex))
  {
    var ex := s.exchanges[t];
    var last := Merged(ex);
    var content := SetContent(last.sender, last.reply.message, last.reply.code);
    var stored := WithLast(ex, last);
    PostingTwice(Put(s, t, stored), t, ex.userReply, content, SetNotified);
    PostingTwice(Put(s, t, stored), t, ex.userReply, content, SetFinished(Ok));
    PutTwice(s, t, stored, stored.(replies := []));
    OneTagged(t, MulticastResponse(ex.userReply.value, last.reply.message, last.sender));
    NothingTagged(t, s.sent);
    NothingTagged(t, s.signals);
  }

  function WithOptions(ex: Exchange, options: seq<CoapOption>): Exchange {
    ex.(request := ex.request.(message := ex.request.message.(options := options)))
  }

  function Renamed(ex: Exchange, r: Request, id: uint16): Exchange {
    ex.(request := r.(message := r.message.(id := id)))
  }
}
