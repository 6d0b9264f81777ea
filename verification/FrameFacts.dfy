/** What one accepted frame does to its exchange, in the terms the run theorems use. */
module FrameFacts {
  import opened CoapTypes
  import opened StableOrder
  import opened OptionList
  import opened Blocks
  import opened Codec
  import opened Reassembly
  import opened Requests
  import opened Exchanges

  /** The frame ends a response: no block is left to send or to ask for. */
  predicate Complete(r: Received) {
    NextBlockToSend(r.reply.message.options) < 0 && !r.reply.block.more
  }

  lemma CompleteDecides(s: Settings, r: Received)
    ensures Decide(s, r.reply).Finish? <==> Complete(r)
  {
  }

  /** A frame that asks for another request: it echoes a block of the payload with more to come, or is a
      block of a response with more to come. */
  predicate AsksForMore(ex: Exchange, e: LocalEvent) {
    e.Frame? && Accepts(ex, e.received) && !IsError(e.received.reply.code) && !Complete(e.received)
  }

  lemma InsertKeepsNamed(options: seq<CoapOption>, o: CoapOption, name: int)
    requires Sorted(options) && o.number != name
    ensures Named(Insert(options, o), name) == Named(options, name)
  {
    InsertWithKey(Number, options, o, name);
  }

  lemma RequestBlockKeepsNamed(r: Request, number: nat, size: nat, name: int)
    requires Sorted(r.message.options) && name != BLOCK1 && name != BLOCK2
    ensures Named(SetToRequestBlock(r, number, size).message.options, name) == Named(r.message.options, name)
    ensures Sorted(SetToRequestBlock(r, number, size).message.options)
  {
    if CheckBlockNumber(number) {
      var o1 := RemoveNamed(r.message.options, BLOCK1);
      var o2 := RemoveNamed(o1, BLOCK2);
      RemoveNamedKeepsSorted(r.message.options, BLOCK1);
      RemoveNamedKeepsSorted(o1, BLOCK2);
      RemoveNamedProjection(r.message.options, BLOCK1, name);
      RemoveNamedProjection(o1, BLOCK2, name);
      InsertKeepsNamed(o2, BlockOption(BLOCK2, number, false, size), name);
      InsertKeepsSorted(Number, o2, BlockOption(BLOCK2, number, false, size));
    }
  }

  lemma SendBlockKeepsNamed(r: Request, number: nat, size: nat, name: int)
    requires Sorted(r.message.options) && name != BLOCK1
    ensures Named(SetToSendBlock(r, number, size).message.options, name) == Named(r.message.options, name)
    ensures Sorted(SetToSendBlock(r, number, size).message.options)
  {
    if CheckBlockNumber(number) {
      var o1 := RemoveNamed(r.message.options, BLOCK1);
      var o := BlockOption(BLOCK1, number, (number + 1) * size < |r.fullPayload|, size);
      RemoveNamedKeepsSorted(r.message.options, BLOCK1);
      RemoveNamedProjection(r.message.options, BLOCK1, name);
      InsertKeepsNamed(o1, o, name);
      InsertKeepsSorted(Number, o1, o);
    }
  }

  lemma TurnedKeepsNature(r: Request, c: Continuation)
    requires Sorted(r.message.options)
    ensures Turned(r, c).IsObserve() == r.IsObserve() && Turned(r, c).target == r.target
    ensures Turned(r, c).observeCancelled == r.observeCancelled
    ensures Sorted(Turned(r, c).message.options)
  {
    match c {
      case SendBlock(number, size) => SendBlockKeepsNamed(r, number, size, OBSERVE);
      case AskForBlock(number, size) => RequestBlockKeepsNamed(r, number, size, OBSERVE);
      case Finish =>
    }
  }

  /** What stays the same about an exchange while it lasts. */
  ghost predicate SameNature(a: Exchange, b: Exchange) {
    && a.userReply == b.userReply && a.request.target == b.request.target
    && a.request.IsObserve() == b.request.IsObserve()
    && a.request.observeCancelled == b.request.observeCancelled
    && Sorted(b.request.message.options)
  }

  lemma SendNextFacts(now: nat, ex: Exchange, r: Request, freshId: uint16, host: Address, answers: seq<Datagram>)
    requires Sorted(r.message.options) && r.target == ex.request.target
    requires r.IsObserve() == ex.request.IsObserve() && r.observeCancelled == ex.request.observeCancelled
    ensures var effect := SendNext(now, ex, r, freshId, host, answers);
            && effect.next.Some? && effect.posts == []
            && effect.next.value.replies == ex.replies && SameNature(ex, effect.next.value)
  {
  }

  /** A frame in the middle of a response is stored, and the response goes on. */
  lemma MiddleFrame(s: Settings, now: nat, ex: Exchange, r: Received, freshId: uint16)
    requires Accepts(ex, r) && !IsError(r.reply.code) && !ex.request.observeCancelled
    requires Sorted(ex.request.message.options) && !Complete(r)
    ensures var effect := OnFrame(s, now, ex, r, freshId);
            && effect.next.Some? && effect.posts == []
            && effect.next.value.replies == ex.replies + [r] && SameNature(ex, effect.next.value)
  {
    var accepted := Accept(ex, r);
    var c := Decide(s, r.reply);
    CompleteDecides(s, r);
    TurnedKeepsNature(accepted.request, c);
    SendNextFacts(now, accepted, Turned(accepted.request, c), freshId,
                  if c.AskForBlock? then r.sender else accepted.request.target, Answers(accepted, r));
  }

  /** A frame that ends a response goes through the last-message handler. */
  lemma FinalFrame(s: Settings, now: nat, ex: Exchange, r: Received, freshId: uint16)
    requires Accepts(ex, r) && !IsError(r.reply.code) && !ex.request.observeCancelled && Complete(r)
    ensures var effect, last := OnFrame(s, now, ex, r, freshId), OnLastMessage(Accept(ex, r));
            && effect.next == last.next && effect.posts == last.posts && effect.signals == last.signals
            && effect.sends == Answers(Accept(ex, r), r) + last.sends
  {
    CompleteDecides(s, r);
  }

  /** Events other than frames, as long as they leave the exchange in place. */
  lemma QuietEvent(s: Settings, now: nat, ex: Exchange, e: LocalEvent)
    requires !e.Frame? && Handle(s, now, ex, e).next.Some?
    ensures var effect := Handle(s, now, ex, e);
            && effect.next.value.replies == ex.replies
            && effect.next.value.request.target == ex.request.target
            && effect.next.value.request.message == ex.request.message
            && (effect.next.value.userReply == ex.userReply ==>
                  effect.posts == []
                  || effect.next.value.request.observeCancelled != ex.request.observeCancelled)
  {
  }

  /** Cancellation and loss of the reply are final. */
  lemma FlagsAreFinal(s: Settings, now: nat, ex: Exchange, e: LocalEvent)
    requires Handle(s, now, ex, e).next.Some?
    ensures var next := Handle(s, now, ex, e).next.value;
            && (ex.request.observeCancelled ==> next.request.observeCancelled)
            && (next.userReply.Some? ==> next.userReply == ex.userReply)
            && (e.Frame? ==> next.userReply == ex.userReply
                             && next.request.observeCancelled == ex.request.observeCancelled)
  {
    if e.Frame? && Accepts(ex, e.received) && !IsError(e.received.reply.code) {
      var accepted := Accept(ex, e.received);
      ProceedKeepsFlags(now, Answered(accepted), e.received.sender, Decide(s, e.received.reply), e.freshId,
                        Answers(accepted, e.received));
    }
  }

  lemma ProceedKeepsFlags(now: nat, ex: Exchange, sender: Address, c: Continuation, freshId: uint16,
                          answers: seq<Datagram>)
    requires ex.replies != []
    ensures var next := Proceed(now, ex, sender, c, freshId, answers).next;
            next.Some? ==>
              && next.value.userReply == ex.userReply
              && next.value.request.observeCancelled == ex.request.observeCancelled
  {
    assert Turned(ex.request, c).observeCancelled == ex.request.observeCancelled;
  }

  ghost predicate AnyCancel(events: seq<Timed>) {
    exists i :: 0 <= i < |events| && events[i].event.Cancel?
  }

  /** What a request starts with. */
  lemma StartSends(s: Settings, now: nat, u: UserRequest, reply: ReplyId, token: Token, id: uint16, randomTimeout: nat)
    ensures var sent := Transmitted(InitialRequest(s, u, token, id, randomTimeout), now);
            Start(s, now, u, reply, token, id, randomTimeout)
            == History(Some(Exchange(Some(reply), sent, [])), [Post(reply, SetRunning(token, id))],
                       [Datagram(RequestFrame(sent), sent.target)])
  {
  }
}
