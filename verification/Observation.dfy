/** Observations: what the user is notified of, and what a cancelled observation still does. */
module Observation {
  import opened CoapTypes
  import opened StableOrder
  import opened OptionList
  import opened Blocks
  import opened Codec
  import opened Reassembly
  import opened Requests
  import opened Exchanges
  import opened FrameFacts

  // Cancelled observations

  ghost predicate NoNotification(posts: seq<Post>) {
    forall i :: 0 <= i < |posts| ==> !posts[i].slot.SetNotified?
  }

  lemma AnsweredIsNoObserve(ex: Exchange)
    requires ex.request.observeCancelled
    ensures !Answered(ex).request.IsObserve()
  {
    RemoveNamedProjection(ex.request.message.options, OBSERVE, OBSERVE);
  }

  lemma LastMessageWithoutObserve(ex: Exchange)
    requires ex.replies != [] && !ex.request.IsObserve()
    ensures NoNotification(OnLastMessage(ex).posts)
    ensures OnLastMessage(ex).next.Some? ==>
              OnLastMessage(ex).next.value.request == ex.request
  {
  }

  lemma ErrorWithoutNotification(ex: Exchange, error: Error, response: Option<Received>)
    ensures NoNotification(OnError(ex, error, response).posts)
  {
  }

  /** No event of a cancelled exchange posts a notification, and the exchange stays cancelled. */
  lemma CancelledHandle(s: Settings, now: nat, ex: Exchange, e: LocalEvent)
    requires ex.request.observeCancelled
    ensures var effect := Handle(s, now, ex, e);
            && NoNotification(effect.posts)
            && (effect.next.Some? ==> effect.next.value.request.observeCancelled)
  {
    match e {
      case Frame(received, freshId) => CancelledFrame(s, now, ex, received, freshId);
      case Timeout => ErrorWithoutNotification(ex, TimeOut, None);
      case WaitExpired => ErrorWithoutNotification(ex, TimeOut, None);
      case MulticastExpired =>
      case Cancel(caller) =>
      case Aborted =>
      case ReplyDestroyed(reply) =>
    }
  }

  lemma CancelledFrame(s: Settings, now: nat, ex: Exchange, received: Received, freshId: uint16)
    requires ex.request.observeCancelled
    ensures var effect := OnFrame(s, now, ex, received, freshId);
            && NoNotification(effect.posts)
            && (effect.next.Some? ==> effect.next.value.request.observeCancelled)
  {
    if Accepts(ex, received) {
      var accepted := Accept(ex, received);
      if IsError(received.reply.code) {
        ErrorWithoutNotification(accepted, ErrorForResponseCode(received.reply.code), Some(received));
      } else {
        AnsweredIsNoObserve(accepted);
        CancelledProceed(now, Answered(accepted), received.sender, Decide(s, received.reply), freshId,
                         Answers(accepted, received));
      }
    }
  }

  lemma CancelledProceed(now: nat, ex: Exchange, sender: Address, c: Continuation, freshId: uint16,
                         answers: seq<Datagram>)
    requires ex.replies != [] && !ex.request.IsObserve() && ex.request.observeCancelled
    ensures var effect := Proceed(now, ex, sender, c, freshId, answers);
            && NoNotification(effect.posts)
            && (effect.next.Some? ==> effect.next.value.request.observeCancelled)
  {
    if c.Finish? {
      LastMessageWithoutObserve(ex);
    } else {
      assert Turned(ex.request, c).observeCancelled;
    }
  }

  /** Over every continuation of the run: once cancelled, never notified again. */
  lemma {:induction false} CancelledStaysQuiet(h: History, events: seq<Timed>)
    requires h.exchange.Some? ==> h.exchange.value.request.observeCancelled
    ensures var h' := Run(h, events);
            && (h'.exchange.Some? ==> h'.exchange.value.request.observeCancelled)
            && h.posts <= h'.posts && NoNotification(h'.posts[|h.posts|..])
  {
    if events != [] {
      var before, last := Run(h, events[..|events| - 1]), events[|events| - 1];
      CancelledStaysQuiet(h, events[..|events| - 1]);
      if before.exchange.Some? {
        CancelledHandle(last.settings, last.now, before.exchange.value, last.event);
        var effect := Handle(last.settings, last.now, before.exchange.value, last.event);
        assert (before.posts + effect.posts)[|h.posts|..] == before.posts[|h.posts|..] + effect.posts;
      }
    }
  }

  /** Every accepted frame that is no error is answered with a reset carrying its message id,
      and on a unicast exchange the first complete response that is no empty acknowledgment
      ends the exchange: a live reply gets it as its last content. */
  lemma CancelledFrameIsReset(s: Settings, now: nat, ex: Exchange, r: Received, freshId: uint16)
    requires ex.request.observeCancelled && Accepts(ex, r) && !IsError(r.reply.code)
    ensures var effect := OnFrame(s, now, ex, r, freshId);
            && effect.sends != [] && effect.sends[0].host == ex.request.target
            && effect.sends[0].frame == [0x70, 0, r.reply.message.id / 0x100, r.reply.message.id % 0x100]
            && (!ex.request.IsMulticast() && Complete(r) && !IsEmptyAck(r) ==>
                  && effect.next.None?
                  && (ex.userReply.Some? ==>
                        |effect.posts| == 2 && effect.posts[0].slot.SetContent?
                        && effect.posts[1] == Post(ex.userReply.value, SetFinished(Ok))))
  {
    var accepted := Accept(ex, r);
    EmptyMessageIsFourBytes(r.reply.message.id, Reset);
    AnsweredIsNoObserve(accepted);
    CompleteDecides(s, r);
    assert Answers(accepted, r)[0] == EmptyDatagram(accepted.request, r.reply.message.id, Reset);
    CancelledProceeds(now, Answered(accepted), r, Decide(s, r.reply), freshId, Answers(accepted, r));
  }

  lemma CancelledProceeds(now: nat, ex: Exchange, r: Received, c: Continuation, freshId: uint16,
                          answers: seq<Datagram>)
    requires ex.replies != [] && ex.replies[|ex.replies| - 1] == r && answers != []
    requires !ex.request.IsObserve()
    ensures var effect := Proceed(now, ex, r.sender, c, freshId, answers);
            && effect.sends != [] && effect.sends[0] == answers[0]
            && (c.Finish? && !ex.request.IsMulticast() && !IsEmptyAck(r) ==>
                  && effect.next.None?
                  && (ex.userReply.Some? ==>
                        |effect.posts| == 2 && effect.posts[0].slot.SetContent?
                        && effect.posts[1] == Post(ex.userReply.value, SetFinished(Ok))))
  {
  }

  // The end of an observation

  lemma UntoldEffect(s: Settings, now: nat, ex: Exchange, e: LocalEvent)
    requires ex.userReply.None?
    ensures var effect := Handle(s, now, ex, e);
            && |effect.posts| <= 1 && (forall i :: 0 <= i < |effect.posts| ==> !effect.posts[i].slot.SetContent?)
            && (effect.next.Some? ==> effect.next.value.userReply.None?)
  {
    if Handle(s, now, ex, e).next.Some? {
      FlagsAreFinal(s, now, ex, e);
    }
  }

  /** The exchange is gone, or cancelled, or nobody is there to be notified. */
  predicate Ended(ex: Option<Exchange>) {
    ex.Some? ==> ex.value.userReply.None? || ex.value.request.observeCancelled
  }

  lemma EndedStaysQuiet(h: History, e: Timed)
    requires Ended(h.exchange)
    ensures Ended(Step(h, e).exchange) && h.posts <= Step(h, e).posts
    ensures NoNotification(Step(h, e).posts[|h.posts|..])
  {
    if h.exchange.Some? {
      var ex := h.exchange.value;
      var effect := Handle(e.settings, e.now, ex, e.event);
      assert (h.posts + effect.posts)[|h.posts|..] == effect.posts;
      if ex.request.observeCancelled {
        CancelledHandle(e.settings, e.now, ex, e.event);
      } else {
        UntoldEffect(e.settings, e.now, ex, e.event);
        UntoldIsQuiet(e.settings, e.now, ex, e.event);
      }
    } else {
      assert h.posts[|h.posts|..] == [];
    }
  }

  lemma UntoldIsQuiet(s: Settings, now: nat, ex: Exchange, e: LocalEvent)
    requires ex.userReply.None?
    ensures NoNotification(Handle(s, now, ex, e).posts)
  {
  }

  // Cancelling

  /** How often a reply has been told that its observation is cancelled. */
  function CancelCount(posts: seq<Post>): nat {
    if posts == [] then 0
    else CancelCount(posts[..|posts| - 1]) + if posts[|posts| - 1].slot.SetObserveCancelled? then 1 else 0
  }

  lemma {:induction false} CancelCountConcat(a: seq<Post>, b: seq<Post>)
    ensures CancelCount(a + b) == CancelCount(a) + CancelCount(b)
    decreases |b|
  {
    if b == [] {
      assert a + b == a;
    } else {
      CancelCountConcat(a, b[..|b| - 1]);
      assert (a + b)[..|a + b| - 1] == a + b[..|b| - 1];
    }
  }

  lemma {:induction false} NoCancelPosts(posts: seq<Post>)
    requires forall i :: 0 <= i < |posts| ==> !posts[i].slot.SetObserveCancelled?
    ensures CancelCount(posts) == 0
  {
    if posts != [] {
      NoCancelPosts(posts[..|posts| - 1]);
    }
  }

  lemma CancelMarks(ex: Exchange, caller: ReplyId)
    ensures var effect := OnCancel(ex, caller);
            && effect.next.Some?
            && (ex.request.IsObserve() ==> effect.next.value.request.observeCancelled)
            && CancelCount(effect.posts)
               == if effect.next.value.request.observeCancelled && !ex.request.observeCancelled then 1 else 0
  {
    assert [Post(caller, SetObserveCancelled)][..0] == [];
  }

  lemma OnlyCancelMarks(s: Settings, now: nat, ex: Exchange, e: LocalEvent)
    requires !e.Cancel?
    ensures var effect := Handle(s, now, ex, e);
            && (forall i :: 0 <= i < |effect.posts| ==> !effect.posts[i].slot.SetObserveCancelled?)
            && (effect.next.Some? ==> effect.next.value.request.observeCancelled == ex.request.observeCancelled)
  {
    if e.Frame? && Accepts(ex, e.received) && !IsError(e.received.reply.code) {
      var accepted := Accept(ex, e.received);
      ProceedMarksNothing(now, Answered(accepted), e.received.sender, Decide(s, e.received.reply), e.freshId,
                          Answers(accepted, e.received));
    }
  }

  lemma ProceedMarksNothing(now: nat, ex: Exchange, sender: Address, c: Continuation, freshId: uint16,
                            answers: seq<Datagram>)
    requires ex.replies != []
    ensures var effect := Proceed(now, ex, sender, c, freshId, answers);
            && (forall i :: 0 <= i < |effect.posts| ==> !effect.posts[i].slot.SetObserveCancelled?)
            && (effect.next.Some? ==> effect.next.value.request.observeCancelled == ex.request.observeCancelled)
  {
    ProceedKeepsFlags(now, ex, sender, c, freshId, answers);
  }

  /** At some point of the run the exchange was there and cancelled. */
  ghost predicate WasCancelled(h: History, events: seq<Timed>) {
    || (Run(h, events).exchange.Some? && Run(h, events).exchange.value.request.observeCancelled)
    || (events != [] && WasCancelled(h, events[..|events| - 1]))
  }

  /** Over every run of an exchange, also to its end: the observation is cancelled at most once, and a
      reply is told exactly then. */
  lemma {:induction false} CancelledAtMostOnce(h: History, events: seq<Timed>)
    requires h.exchange.Some? && !h.exchange.value.request.observeCancelled
    ensures var h' := Run(h, events);
            && CancelCount(h'.posts) == CancelCount(h.posts) + (if WasCancelled(h, events) then 1 else 0)
            && (h'.exchange.Some? ==> (WasCancelled(h, events) <==> h'.exchange.value.request.observeCancelled))
  {
    if events != [] {
      CancelledAtMostOnce(h, events[..|events| - 1]);
      CancelStep(Run(h, events[..|events| - 1]), events[|events| - 1]);
    }
  }

  lemma CancelStep(h: History, e: Timed)
    ensures var h' := Step(h, e);
            var marks := h.exchange.Some? && h'.exchange.Some? && h'.exchange.value.request.observeCancelled
                         && !h.exchange.value.request.observeCancelled;
            CancelCount(h'.posts) == CancelCount(h.posts) + if marks then 1 else 0
    ensures Step(h, e).exchange.Some? ==> h.exchange.Some?
    ensures h.exchange.Some? && h.exchange.value.request.observeCancelled && Step(h, e).exchange.Some? ==>
              Step(h, e).exchange.value.request.observeCancelled
  {
    if h.exchange.Some? {
      CancelCountConcat(h.posts, Handle(e.settings, e.now, h.exchange.value, e.event).posts);
      CancelEffect(e, h.exchange.value);
    }
  }

  lemma CancelEffect(e: Timed, ex: Exchange)
    ensures var effect := Handle(e.settings, e.now, ex, e.event);
            && CancelCount(effect.posts)
               == (if effect.next.Some? && effect.next.value.request.observeCancelled && !ex.request.observeCancelled
                   then 1 else 0)
            && (effect.next.Some? && ex.request.observeCancelled ==> effect.next.value.request.observeCancelled)
  {
    FlagsAreFinalIfKept(e, ex);
    if e.event.Cancel? {
      CancelMarks(ex, e.event.caller);
    } else {
      OnlyCancelMarks(e.settings, e.now, ex, e.event);
      NoCancelPosts(Handle(e.settings, e.now, ex, e.event).posts);
    }
  }

  lemma FlagsAreFinalIfKept(e: Timed, ex: Exchange)
    ensures var next := Handle(e.settings, e.now, ex, e.event).next;
            next.Some? && ex.request.observeCancelled ==> next.value.request.observeCancelled
  {
    if Handle(e.settings, e.now, ex, e.event).next.Some? {
      FlagsAreFinal(e.settings, e.now, ex, e.event);
    }
  }

  // Notifications

  /** The frames of a run that the exchange accepts and that are no errors. */
  function Frames(target: Address, events: seq<Timed>): seq<Received> {
    if events == [] then []
    else
      var e := events[|events| - 1].event;
      Frames(target, events[..|events| - 1]) + FrameOf(target, e)
  }

  /** How a frame counts: in the middle of a response, at its end, or, as a complete empty
      acknowledgment, not at all. */
  datatype Kind = Middle | Last | Ignored

  function Classify(r: Received): Kind {
    if !Complete(r) then Middle else if IsEmptyAck(r) then Ignored else Last
  }

  /** The frames that count since the last response ended. */
  function SinceLast(kind: Received -> Kind, frames: seq<Received>): seq<Received> {
    if frames == [] then []
    else
      var front, f := SinceLast(kind, frames[..|frames| - 1]), frames[|frames| - 1];
      match kind(f)
      case Middle => front + [f]
      case Last => []
      case Ignored => front
  }

  /** The frames cut into complete responses. */
  function Responses(kind: Received -> Kind, frames: seq<Received>): seq<seq<Received>> {
    if frames == [] then []
    else
      var front, f := frames[..|frames| - 1], frames[|frames| - 1];
      if kind(f).Last? then Responses(kind, front) + [SinceLast(kind, front) + [f]] else Responses(kind, front)
  }

  /** A notification: the last frame of a response with the payload merged from all of it. */
  function Notification(user: ReplyId, response: seq<Received>): seq<Post> {
    if response == [] then []
    else
      var last := response[|response| - 1];
      [Post(user, SetContent(last.sender, last.reply.message.(payload := FinalPayload(false, response)),
                             last.reply.code)),
       Post(user, SetNotified)]
  }

  function Notifications(user: ReplyId, responses: seq<seq<Received>>): seq<Post> {
    if responses == [] then []
    else Notifications(user, responses[..|responses| - 1]) + Notification(user, responses[|responses| - 1])
  }

  /** An exchange that observes for a user. */
  ghost predicate Observing(ex: Exchange, user: ReplyId, target: Address) {
    && ex.userReply == Some(user) && ex.request.target == target && !target.Multicast?
    && ex.request.IsObserve() && !ex.request.observeCancelled && Sorted(ex.request.message.options)
  }

  /** A unicast request with an Observe option starts like that. */
  lemma ObservationStarts(s: Settings, now: nat, u: UserRequest, reply: ReplyId, token: Token, id: uint16,
                          randomTimeout: nat)
    requires !u.target.Multicast? && Sorted(u.message.options) && HasOption(u.message.options, OBSERVE)
    ensures var h := Start(s, now, u, reply, token, id, randomTimeout);
            h.exchange.Some? && Observing(h.exchange.value, reply, u.target) && h.exchange.value.replies == []
  {
    var r := Request(u.message.(token := token, id := id), u.methodCode, u.message.payload, u.target,
                     0, 0, false, false, MaximumTransmitWait(s), 0, None, None, None);
    RequestBlockKeepsNamed(r, 0, s.blockSize, OBSERVE);
    SendBlockKeepsNamed(SetToRequestBlock(r, 0, s.blockSize), 0, s.blockSize, OBSERVE);
  }

  lemma ObservedFrame(s: Settings, now: nat, ex: Exchange, r: Received, freshId: uint16, user: ReplyId)
    requires Observing(ex, user, r.sender) && !IsError(r.reply.code)
    ensures var effect := OnFrame(s, now, ex, r, freshId);
            && effect.next.Some? && Observing(effect.next.value, user, r.sender)
            && effect.next.value.replies == (match Classify(r)
                                             case Middle => ex.replies + [r]
                                             case Last => []
                                             case Ignored => ex.replies)
            && effect.posts == (if Classify(r).Last? then Notification(user, ex.replies + [r]) else [])
  {
    if Complete(r) {
      FinalFrame(s, now, ex, r, freshId);
      ObservedLast(Accept(ex, r), ex.replies, r, user);
    } else {
      MiddleFrame(s, now, ex, r, freshId);
    }
  }

  lemma ObservedLast(ex: Exchange, before: seq<Received>, r: Received, user: ReplyId)
    requires Observing(ex, user, r.sender) && ex.replies == before + [r]
    ensures var effect := OnLastMessage(ex);
            && effect.next == Some(ex.(replies := if IsEmptyAck(r) then before else []))
            && effect.posts == (if IsEmptyAck(r) then [] else Notification(user, before + [r]))
  {
    assert ex.replies[..|ex.replies| - 1] == before;
    if !IsEmptyAck(r) {
      assert OnLastMessage(ex).posts[0] == Notification(user, before + [r])[0];
    }
  }

  /** The frame an event brings, if it counts. */
  function FrameOf(target: Address, e: LocalEvent): seq<Received> {
    if e.Frame? && e.received.sender == target && !IsError(e.received.reply.code) then [e.received] else []
  }

  /** The exchange and the posts after the frames received so far. */
  ghost predicate Notified(h: History, posts: seq<Post>, user: ReplyId, target: Address, frames: seq<Received>) {
    && h.exchange.Some? && Observing(h.exchange.value, user, target)
    && h.exchange.value.replies == SinceLast(Classify, frames)
    && h.posts == posts + Notifications(user, Responses(Classify, frames))
  }

  predicate StillObserving(ex: Option<Exchange>) {
    ex.Some? && !ex.value.request.observeCancelled && ex.value.userReply.Some?
  }

  lemma OneMoreFrame(kind: Received -> Kind, frames: seq<Received>, r: Received)
    ensures SinceLast(kind, frames + [r]) == match kind(r)
                                             case Middle => SinceLast(kind, frames) + [r]
                                             case Last => []
                                             case Ignored => SinceLast(kind, frames)
    ensures Responses(kind, frames + [r])
         == if kind(r).Last? then Responses(kind, frames) + [SinceLast(kind, frames) + [r]] else Responses(kind, frames)
  {
    assert (frames + [r])[..|frames|] == frames;
  }

  lemma OneMoreResponse(user: ReplyId, responses: seq<seq<Received>>, response: seq<Received>, posts: seq<Post>)
    ensures posts + Notifications(user, responses + [response])
         == (posts + Notifications(user, responses)) + Notification(user, response)
  {
    assert (responses + [response])[..|responses|] == responses;
  }

  /** An event that brings no frame changes nothing the user sees. */
  lemma SilentEvent(s: Settings, now: nat, ex: Exchange, e: LocalEvent, user: ReplyId, target: Address)
    requires Observing(ex, user, target) && FrameOf(target, e) == []
    requires StillObserving(Handle(s, now, ex, e).next)
    ensures var effect := Handle(s, now, ex, e);
            Observing(effect.next.value, user, target) && effect.next.value.replies == ex.replies && effect.posts == []
  {
    if !e.Frame? {
      FlagsAreFinal(s, now, ex, e);
      QuietEvent(s, now, ex, e);
    }
  }

  /** What ends an observation: an error of the target, a time-out, the cancellation, an abort, or the
      loss of the reply. */
  predicate EndsObservation(s: Settings, ex: Exchange, e: LocalEvent) {
    match e
    case Frame(received, _) => received.sender == ex.request.target && IsError(received.reply.code)
    case Timeout =>
      !ex.request.message.mtype.Confirmable? || ex.request.retransmissionCounter >= s.maximumRetransmitCount
    case ReplyDestroyed(reply) => ex.userReply == Some(reply)
    case _ => true
  }

  /** Exactly these events end it, and they bring no notification. */
  lemma ObservationEndsExactly(s: Settings, now: nat, ex: Exchange, e: LocalEvent, user: ReplyId, target: Address)
    requires Observing(ex, user, target)
    ensures var effect := Handle(s, now, ex, e);
            && (StillObserving(effect.next) <==> !EndsObservation(s, ex, e))
            && (EndsObservation(s, ex, e) ==> NoNotification(effect.posts) && Ended(effect.next))
  {
    if FrameOf(target, e) != [] {
      ObservedFrame(s, now, ex, e.received, e.freshId, user);
    }
  }

  /** The events up to the end of the observation. */
  function Observed(h: History, events: seq<Timed>): (r: seq<Timed>)
    ensures r <= events
  {
    if events == [] then []
    else
      var front, last := Observed(h, events[..|events| - 1]), events[|events| - 1];
      var before := Run(h, events[..|events| - 1]).exchange;
      if |front| == |events| - 1 && before.Some? && !EndsObservation(last.settings, before.value, last.event)
      then events else front
  }

  lemma NotifiedStep(h: History, e: Timed, posts: seq<Post>, user: ReplyId, target: Address, frames: seq<Received>)
    requires Notified(h, posts, user, target, frames) && StillObserving(Step(h, e).exchange)
    ensures Notified(Step(h, e), posts, user, target, frames + FrameOf(target, e.event))
  {
    var ex := h.exchange.value;
    var effect := Handle(e.settings, e.now, ex, e.event);
    if FrameOf(target, e.event) == [] {
      SilentEvent(e.settings, e.now, ex, e.event, user, target);
      assert h.posts + [] == h.posts && frames + [] == frames;
    } else {
      ObservedFrame(e.settings, e.now, ex, e.event.received, e.event.freshId, user);
      NotifiedByFrame(h, posts, user, target, frames, e.event.received, effect);
    }
  }

  lemma NotifiedByFrame(h: History, posts: seq<Post>, user: ReplyId, target: Address, frames: seq<Received>,
                        r: Received, effect: Effect)
    requires Notified(h, posts, user, target, frames)
    requires effect.next.Some? && Observing(effect.next.value, user, target)
    requires effect.next.value.replies == (match Classify(r)
                                           case Middle => h.exchange.value.replies + [r]
                                           case Last => []
                                           case Ignored => h.exchange.value.replies)
    requires effect.posts == (if Classify(r).Last? then Notification(user, h.exchange.value.replies + [r]) else [])
    ensures Notified(History(effect.next, h.posts + effect.posts, h.sends + effect.sends), posts, user, target,
                     frames + [r])
  {
    OneMoreFrame(Classify, frames, r);
    if Classify(r).Last? {
      OneMoreResponse(user, Responses(Classify, frames), SinceLast(Classify, frames) + [r], posts);
    } else {
      assert h.posts + [] == h.posts;
    }
  }

  /** The run up to the end of the observation, and what comes behind it. */
  ghost predicate NotifiedOutcome(h: History, events: seq<Timed>, user: ReplyId, target: Address) {
    var clear := Observed(h, events);
    && Notified(Run(h, clear), h.posts, user, target, Frames(target, clear))
    && Run(h, clear).posts <= Run(h, events).posts
    && NoNotification(Run(h, events).posts[|Run(h, clear).posts|..])
    && (clear != events ==> Ended(Run(h, events).exchange))
  }

  /** Over every run: up to the end of the observation, what is stored are the frames since the last
      notification, and the posts are exactly one notification per complete response; behind its end
      nobody is notified of anything. */
  lemma {:induction false} NotificationsAreFresh(h: History, events: seq<Timed>, user: ReplyId, target: Address)
    requires h.exchange.Some? && Observing(h.exchange.value, user, target) && h.exchange.value.replies == []
    ensures NotifiedOutcome(h, events, user, target)
  {
    if events == [] {
      assert h.posts + [] == h.posts && h.posts[|h.posts|..] == [];
    } else {
      var front, last := events[..|events| - 1], events[|events| - 1];
      NotificationsAreFresh(h, front, user, target);
      var clear := Observed(h, front);
      if clear == front {
        ObservedStep(Run(h, front), last, h.posts, user, target, Frames(target, front));
      } else {
        BehindTheEnd(Run(h, clear), Run(h, front), last);
      }
    }
  }

  lemma ObservedStep(h: History, e: Timed, posts: seq<Post>, user: ReplyId, target: Address, frames: seq<Received>)
    requires Notified(h, posts, user, target, frames)
    ensures var h' := Step(h, e);
            if EndsObservation(e.settings, h.exchange.value, e.event)
            then Ended(h'.exchange) && h.posts <= h'.posts && NoNotification(h'.posts[|h.posts|..])
            else Notified(h', posts, user, target, frames + FrameOf(target, e.event))
                 && NoNotification(h'.posts[|h'.posts|..])
  {
    ObservationEndsExactly(e.settings, e.now, h.exchange.value, e.event, user, target);
    if EndsObservation(e.settings, h.exchange.value, e.event) {
      assert NoNotification(h.posts[|h.posts|..]);
      QuietEnd(h, h, e);
    } else {
      NotifiedStep(h, e, posts, user, target, frames);
    }
  }

  lemma BehindTheEnd(clear: History, h: History, e: Timed)
    requires clear.posts <= h.posts && NoNotification(h.posts[|clear.posts|..]) && Ended(h.exchange)
    ensures var h' := Step(h, e);
            clear.posts <= h'.posts && NoNotification(h'.posts[|clear.posts|..]) && Ended(h'.exchange)
  {
    EndedStaysQuiet(h, e);
    var more := Step(h, e).posts[|h.posts|..];
    assert Step(h, e).posts == h.posts + more;
    QuietPosts(clear.posts, h.posts, more);
  }

  lemma QuietEnd(clear: History, h: History, e: Timed)
    requires clear.posts <= h.posts && NoNotification(h.posts[|clear.posts|..])
    requires h.exchange.Some? ==> NoNotification(Handle(e.settings, e.now, h.exchange.value, e.event).posts)
    ensures clear.posts <= Step(h, e).posts && NoNotification(Step(h, e).posts[|clear.posts|..])
  {
    if h.exchange.Some? {
      QuietPosts(clear.posts, h.posts, Handle(e.settings, e.now, h.exchange.value, e.event).posts);
    }
  }

  lemma QuietPosts(a: seq<Post>, b: seq<Post>, more: seq<Post>)
    requires a <= b && NoNotification(b[|a|..]) && NoNotification(more)
    ensures a <= b + more && NoNotification((b + more)[|a|..])
  {
    assert (b + more)[|a|..] == b[|a|..] + more;
  }

  /** Nothing older than the last notification gets into the next one: behind a complete response
      the frames are cut as if they were the first. */
  lemma {:induction false} ResponsesForgetThePast(kind: Received -> Kind, past: seq<Received>, frames: seq<Received>)
    requires past != [] && kind(past[|past| - 1]).Last?
    ensures SinceLast(kind, past + frames) == SinceLast(kind, frames)
    ensures Responses(kind, past + frames) == Responses(kind, past) + Responses(kind, frames)
    decreases |frames|
  {
    if frames == [] {
      assert past + frames == past;
    } else {
      var front, f := frames[..|frames| - 1], frames[|frames| - 1];
      ResponsesForgetThePast(kind, past, front);
      assert past + frames == (past + front) + [f];
      assert frames == front + [f];
      OneMoreFrame(kind, past + front, f);
      OneMoreFrame(kind, front, f);
    }
  }

  /** Every frame that counts is in exactly one response, in order, or still waits for one. */
  lemma {:induction false} ResponsesPartition(kind: Received -> Kind, frames: seq<Received>)
    ensures Joined(Responses(kind, frames)) + SinceLast(kind, frames) == Counting(kind, frames)
  {
    if frames != [] {
      var front, f := frames[..|frames| - 1], frames[|frames| - 1];
      var done, waiting := Responses(kind, front), SinceLast(kind, front);
      ResponsesPartition(kind, front);
      if kind(f).Last? {
        assert (done + [waiting + [f]])[..|done|] == done;
        assert Joined(done) + (waiting + [f]) == (Joined(done) + waiting) + [f];
      } else if kind(f).Middle? {
        assert Joined(done) + (waiting + [f]) == (Joined(done) + waiting) + [f];
      }
    }
  }

  function Joined(responses: seq<seq<Received>>): seq<Received> {
    if responses == [] then [] else Joined(responses[..|responses| - 1]) + responses[|responses| - 1]
  }

  function Counting(kind: Received -> Kind, frames: seq<Received>): seq<Received> {
    if frames == [] then []
    else Counting(kind, frames[..|frames| - 1])
         + if kind(frames[|frames| - 1]).Ignored? then [] else [frames[|frames| - 1]]
  }
}
