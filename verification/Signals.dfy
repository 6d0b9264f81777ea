/** What the engine signals to the client, and how exchanges end, over every run: one signal for every response
    to a multicast request, one for the error that ends an exchange, and no others. */
module Signals {
  import opened CoapTypes
  import opened OptionList
  import opened Codec
  import opened Reassembly
  import opened Requests
  import opened Exchanges
  import opened FrameFacts
  import opened Engine
  import opened Isolation
  import opened EngineRuns

  // Signals of an exchange

  function SignalsBy(h: History, e: Timed): seq<Signal> {
    if h.exchange.None? then [] else Handle(e.settings, e.now, h.exchange.value, e.event).signals
  }

  function SignalsOf(h: History, events: seq<Timed>): seq<Signal> {
    if events == [] then []
    else
      var front := events[..|events| - 1];
      SignalsOf(h, front) + SignalsBy(Run(h, front), events[|events| - 1])
  }

  /** The successful contents among posts, as they are signalled. */
  function Responses(posts: seq<Post>): seq<Signal> {
    if posts == [] then []
    else
      var p := posts[|posts| - 1];
      Responses(posts[..|posts| - 1])
      + if p.slot.SetContent? && !IsError(p.slot.code)
        then [MulticastResponse(p.reply, p.slot.message, p.slot.sender)] else []
  }

  lemma {:induction false} ResponsesConcat(a: seq<Post>, b: seq<Post>)
    ensures Responses(a + b) == Responses(a) + Responses(b)
    decreases |b|
  {
    if b == [] {
      assert a + b == a;
    } else {
      ResponsesConcat(a, b[..|b| - 1]);
      assert (a + b)[..|a + b| - 1] == a + b[..|b| - 1];
    }
  }

  /** A multicast request that observes nothing, or no longer, has its responses signalled. */
  predicate Announces(r: Request) {
    r.IsMulticast() && (!r.IsObserve() || r.observeCancelled)
  }

  function Announced(announces: bool, posts: seq<Post>): seq<Signal> {
    if announces then Responses(posts) else []
  }

  lemma AnnouncedConcat(announces: bool, a: seq<Post>, b: seq<Post>)
    ensures Announced(announces, a + b) == Announced(announces, a) + Announced(announces, b)
  {
    ResponsesConcat(a, b);
  }

  // Errors

  /** What ends an exchange as failed: an error response, or time running out. */
  datatype Failure = Failure(user: Option<ReplyId>, error: Error, response: Option<Received>)

  function FailureBy(s: Settings, ex: Exchange, e: LocalEvent): Option<Failure> {
    if e.Frame? && Accepts(ex, e.received) && IsError(e.received.reply.code) then
      Some(Failure(ex.userReply, ErrorForResponseCode(e.received.reply.code), Some(e.received)))
    else if e.WaitExpired? then Some(Failure(ex.userReply, TimeOut, None))
    else if e.Timeout? && !(ex.request.message.mtype.Confirmable?
                            && ex.request.retransmissionCounter < s.maximumRetransmitCount) then
      Some(Failure(ex.userReply, TimeOut, None))
    else None
  }

  /** The first failure of a run. */
  function FailureIn(h: History, events: seq<Timed>): Option<Failure> {
    if events == [] then None
    else
      var front := events[..|events| - 1];
      FailureAfter(FailureIn(h, front), Run(h, front), events[|events| - 1])
  }

  function FailureAfter(failure: Option<Failure>, h: History, e: Timed): Option<Failure> {
    if failure.Some? || h.exchange.None? then failure else FailureBy(e.settings, h.exchange.value, e.event)
  }

  /** A live user is told of the error, with the response that says so if there is one, and is finished. */
  function ToldOf(f: Failure): seq<Post> {
    if f.user.None? then []
    else
      [Post(f.user.value,
            if f.response.Some?
            then SetContent(f.response.value.sender, f.response.value.reply.message, f.response.value.reply.code)
            else SetError(f.error)),
       Post(f.user.value, SetFinished(Ok))]
  }

  /** A response that makes an exchange fail is an error. */
  predicate IsErrorIfAny(f: Failure) {
    f.response.Some? ==> IsError(f.response.value.reply.code)
  }

  function Signalled(f: Option<Failure>): seq<Signal> {
    if f.None? then [] else [ErrorSignal(f.value.user, f.value.error)]
  }

  /** No error is among the posts. */
  ghost predicate NoErrors(posts: seq<Post>) {
    forall i :: 0 <= i < |posts| ==> NoErrorSlot(posts[i].slot)
  }

  predicate NoErrorSlot(slot: Slot) {
    !slot.SetError? && (slot.SetContent? ==> !IsError(slot.code)) && (slot.SetFinished? ==> slot.error == Ok)
  }

  // One event

  lemma FailureEffect(s: Settings, now: nat, ex: Exchange, e: LocalEvent)
    requires FailureBy(s, ex, e).Some?
    ensures var effect, f := Handle(s, now, ex, e), FailureBy(s, ex, e);
            && effect.next.None? && effect.posts == ToldOf(f.value) && effect.sends == []
            && effect.signals == Signalled(f)
  {
  }

  lemma ToldAnswersNothing(f: Failure)
    requires IsErrorIfAny(f)
    ensures Responses(ToldOf(f)) == []
  {
    var told := ToldOf(f);
    if f.user.Some? {
      assert told[..1][..0] == [];
      assert Responses(told[..1]) == [];
    }
  }

  lemma FinalEffect(ex: Exchange)
    requires ex.replies != [] && !IsError(ex.replies[|ex.replies| - 1].reply.code)
    ensures var effect := OnLastMessage(ex);
            && NoErrors(effect.posts)
            && effect.signals
               == (if ex.request.IsMulticast() && !ex.request.IsObserve() then Responses(effect.posts) else [])
            && (effect.next.Some? ==> effect.next.value.request == ex.request)
            && (effect.next.None? <==>
                  || ex.userReply.None? || (ex.request.IsObserve() && ex.request.observeCancelled)
                  || (!IsEmptyAck(ex.replies[|ex.replies| - 1]) && !ex.request.IsObserve()
                      && !ex.request.IsMulticast()))
  {
    var posts := OnLastMessage(ex).posts;
    if ex.request.IsMulticast() && !ex.request.IsObserve() && posts != [] {
      assert posts == [posts[0]] && posts[..0] == [];
    }
  }

  lemma AnsweredAnnounces(ex: Exchange, r: Received)
    ensures var answered := Answered(Accept(ex, r));
            && answered.request.IsMulticast() == ex.request.IsMulticast()
            && answered.request.observeCancelled == ex.request.observeCancelled
            && answered.request.IsObserve() == (ex.request.IsObserve() && !ex.request.observeCancelled)
            && answered.userReply == ex.userReply && answered.replies == ex.replies + [r]
            && (Sorted(ex.request.message.options) ==> Sorted(answered.request.message.options))
  {
    if ex.request.observeCancelled {
      RemoveNamedProjection(ex.request.message.options, OBSERVE, OBSERVE);
      if Sorted(ex.request.message.options) {
        RemoveNamedKeepsSorted(ex.request.message.options, OBSERVE);
      }
    }
  }

  /** A frame in the middle of a response signals nothing, also behind a cancellation. */
  lemma MiddleEffect(now: nat, ex: Exchange, r: Received, c: Continuation, freshId: uint16, answers: seq<Datagram>)
    requires Sorted(ex.request.message.options) && ex.replies != [] && !c.Finish?
    ensures var effect := Proceed(now, ex, r.sender, c, freshId, answers);
            && effect.posts == [] && effect.signals == []
            && effect.next.Some? && Announces(effect.next.value.request) == Announces(ex.request)
            && effect.next.value.request.IsMulticast() == ex.request.IsMulticast()
            && Sorted(effect.next.value.request.message.options)
  {
    TurnedKeepsNature(ex.request, c);
  }

  /** A frame that is accepted and no error. */
  lemma FrameEffect(s: Settings, now: nat, ex: Exchange, r: Received, freshId: uint16)
    requires Sorted(ex.request.message.options) && Accepts(ex, r) && !IsError(r.reply.code)
    ensures var effect := OnFrame(s, now, ex, r, freshId);
            && NoErrors(effect.posts)
            && effect.signals == Announced(Announces(ex.request), effect.posts)
            && (effect.next.Some? ==>
                  && Announces(effect.next.value.request) == Announces(ex.request)
                  && effect.next.value.request.IsMulticast() == ex.request.IsMulticast()
                  && Sorted(effect.next.value.request.message.options))
            && (effect.next.None? <==>
                  Complete(r)
                  && (ex.userReply.None? || (!IsEmptyAck(r) && !(ex.request.IsObserve() && !ex.request.observeCancelled)
                                             && !ex.request.IsMulticast())))
  {
    var accepted := Accept(ex, r);
    var answered := Answered(accepted);
    AnsweredAnnounces(ex, r);
    CompleteDecides(s, r);
    if Complete(r) {
      FinalEffect(answered);
    } else {
      MiddleEffect(now, answered, r, Decide(s, r.reply), freshId, Answers(accepted, r));
    }
  }

  /** An event that is no failure. */
  lemma OtherEffect(s: Settings, now: nat, ex: Exchange, e: LocalEvent)
    requires Sorted(ex.request.message.options) && FailureBy(s, ex, e).None?
    ensures var effect := Handle(s, now, ex, e);
            && NoErrors(effect.posts)
            && effect.signals == Announced(Announces(ex.request), effect.posts)
            && (effect.next.Some? ==>
                  && (Announces(effect.next.value.request) == Announces(ex.request)
                      || (e.Cancel? && Announces(effect.next.value.request) && ex.request.IsMulticast()))
                  && effect.next.value.request.IsMulticast() == ex.request.IsMulticast()
                  && Sorted(effect.next.value.request.message.options))
  {
    if e.Frame? && Accepts(ex, e.received) {
      FrameEffect(s, now, ex, e.received, e.freshId);
    } else {
      QuietPosts(Handle(s, now, ex, e).posts);
    }
  }

  lemma QuietPosts(posts: seq<Post>)
    requires |posts| <= 1 && forall i :: 0 <= i < |posts| ==> !posts[i].slot.SetContent?
    ensures Responses(posts) == []
  {
    if posts != [] {
      assert posts[..0] == [];
    }
  }

  // How an exchange ends

  /** A frame that completes a response ends the exchange if its user is gone, or if it is a unicast exchange that
      does not observe, or no longer; an empty acknowledgment is no response. */
  predicate EndsWell(ex: Exchange, r: Received) {
    && Accepts(ex, r) && !IsError(r.reply.code) && Complete(r)
    && (ex.userReply.None?
        || (!IsEmptyAck(r) && !ex.request.IsMulticast() && !(ex.request.IsObserve() && !ex.request.observeCancelled)))
  }

  /** An event ends an open exchange exactly if it is a failure, the expiry of a multicast request, an abort, or a
      frame that ends it well. */
  lemma EndsWhen(s: Settings, now: nat, ex: Exchange, e: LocalEvent)
    requires Sorted(ex.request.message.options)
    ensures Handle(s, now, ex, e).next.None?
       <==> FailureBy(s, ex, e).Some? || e.MulticastExpired? || e.Aborted? || (e.Frame? && EndsWell(ex, e.received))
  {
    if FailureBy(s, ex, e).Some? {
      FailureEffect(s, now, ex, e);
    } else if e.Frame? && Accepts(ex, e.received) {
      FrameEffect(s, now, ex, e.received, e.freshId);
    }
  }

  // Runs

  /** Whether the responses of an exchange are signalled cannot change in the run: they are already, or the
      target is one host, or nothing is cancelled. */
  ghost predicate Settled(r: Request, events: seq<Timed>) {
    Announces(r) || !r.IsMulticast() || !AnyCancel(events)
  }

  /** The signals of a run and what it posts: a signal for each successful content if the exchange announces them;
      behind these, if it fails, the error, of which its user is told last; no error otherwise. */
  ghost predicate SignalsDue(announces: bool, posts: seq<Post>, failure: Option<Failure>, signals: seq<Signal>) {
    var told := if failure.None? then [] else ToldOf(failure.value);
    && signals == Announced(announces, posts) + Signalled(failure)
    && |told| <= |posts| && posts[|posts| - |told|..] == told && NoErrors(posts[..|posts| - |told|])
  }

  lemma DueIntact(announces: bool, posts: seq<Post>, signals: seq<Signal>)
    ensures SignalsDue(announces, posts, None, signals)
       <==> signals == Announced(announces, posts) && NoErrors(posts)
  {
    NothingBehind(Announced(announces, posts));
    assert Signalled(None) == [];
    assert posts[..|posts|] == posts && posts[|posts|..] == [];
  }

  lemma DueMore(announces: bool, posts: seq<Post>, more: seq<Post>, signals: seq<Signal>)
    requires SignalsDue(announces, posts, None, signals) && NoErrors(more)
    ensures SignalsDue(announces, posts + more, None, signals + Announced(announces, more))
  {
    DueIntact(announces, posts, signals);
    AnnouncedConcat(announces, posts, more);
    DueIntact(announces, posts + more, signals + Announced(announces, more));
  }

  lemma NothingBehind<T>(a: seq<T>)
    ensures a + [] == a
  {
  }

  lemma DueFailure(announces: bool, posts: seq<Post>, f: Failure, signals: seq<Signal>)
    requires SignalsDue(announces, posts, None, signals)
    requires IsErrorIfAny(f)
    ensures SignalsDue(announces, posts + ToldOf(f), Some(f), signals + Signalled(Some(f)))
  {
    var all := posts + ToldOf(f);
    DueIntact(announces, posts, signals);
    AnnouncedConcat(announces, posts, ToldOf(f));
    ToldAnswersNothing(f);
    NothingBehind(Announced(announces, posts));
    assert all[|posts|..] == ToldOf(f) && all[..|posts|] == posts;
  }

  lemma FailureIsError(s: Settings, ex: Exchange, e: LocalEvent)
    requires FailureBy(s, ex, e).Some?
    ensures IsErrorIfAny(FailureBy(s, ex, e).value)
  {
  }

  /** Where a run of an exchange stands. */
  ghost predicate Signalling(announces: bool, h: History, h': History, failure: Option<Failure>, signals: seq<Signal>)
  {
    && h.posts <= h'.posts && SignalsDue(announces, h'.posts[|h.posts|..], failure, signals)
    && (failure.Some? ==> h'.exchange.None?)
    && (h'.exchange.Some? ==>
          && Sorted(h'.exchange.value.request.message.options)
          && Announces(h'.exchange.value.request) == announces)
  }

  lemma Behind(before: seq<Post>, posts: seq<Post>, more: seq<Post>)
    requires before <= posts
    ensures before <= posts + more && (posts + more)[|before|..] == posts[|before|..] + more
  {
  }

  lemma SignallingFails(announces: bool, h: History, h': History, effect: Effect, f: Failure, signals: seq<Signal>)
    requires Signalling(announces, h, h', None, signals) && IsErrorIfAny(f)
    requires effect.next.None? && effect.posts == ToldOf(f) && effect.signals == Signalled(Some(f))
    ensures Signalling(announces, h, History(None, h'.posts + effect.posts, h'.sends + effect.sends), Some(f),
                       signals + effect.signals)
  {
    DueFailure(announces, h'.posts[|h.posts|..], f, signals);
    Behind(h.posts, h'.posts, effect.posts);
  }

  lemma SignallingGoesOn(announces: bool, h: History, h': History, effect: Effect, signals: seq<Signal>)
    requires Signalling(announces, h, h', None, signals) && NoErrors(effect.posts)
    requires effect.signals == Announced(announces, effect.posts)
    requires effect.next.Some? ==>
               && Announces(effect.next.value.request) == announces
               && Sorted(effect.next.value.request.message.options)
    ensures Signalling(announces, h, History(effect.next, h'.posts + effect.posts, h'.sends + effect.sends), None,
                       signals + effect.signals)
  {
    DueMore(announces, h'.posts[|h.posts|..], effect.posts, signals);
    Behind(h.posts, h'.posts, effect.posts);
  }

  lemma SignallingStep(announces: bool, h: History, h': History, e: Timed, signals: seq<Signal>)
    requires h'.exchange.Some? && Signalling(announces, h, h', None, signals)
    requires e.event.Cancel? ==> announces || !h'.exchange.value.request.IsMulticast()
    ensures Signalling(announces, h, Step(h', e), FailureBy(e.settings, h'.exchange.value, e.event),
                       signals + Handle(e.settings, e.now, h'.exchange.value, e.event).signals)
  {
    var ex, f := h'.exchange.value, FailureBy(e.settings, h'.exchange.value, e.event);
    var effect := Handle(e.settings, e.now, ex, e.event);
    if f.Some? {
      FailureEffect(e.settings, e.now, ex, e.event);
      FailureIsError(e.settings, ex, e.event);
      SignallingFails(announces, h, h', effect, f.value, signals);
    } else {
      OtherEffect(e.settings, e.now, ex, e.event);
      SignallingGoesOn(announces, h, h', effect, signals);
    }
  }

  lemma SignallingNext(announces: bool, h: History, h': History, e: Timed, failure: Option<Failure>,
                       signals: seq<Signal>)
    requires Signalling(announces, h, h', failure, signals)
    requires e.event.Cancel? && h'.exchange.Some? ==> announces || !h'.exchange.value.request.IsMulticast()
    ensures Signalling(announces, h, Step(h', e), FailureAfter(failure, h', e), signals + SignalsBy(h', e))
  {
    if h'.exchange.Some? {
      SignallingStep(announces, h, h', e, signals);
    } else {
      NothingBehind(signals);
    }
  }

  /** The kind of target stays. */
  lemma {:induction false} TargetStays(h: History, events: seq<Timed>)
    requires h.exchange.Some? && Sorted(h.exchange.value.request.message.options)
    ensures var ex := Run(h, events).exchange;
            ex.Some? ==>
              && Sorted(ex.value.request.message.options)
              && ex.value.request.IsMulticast() == h.exchange.value.request.IsMulticast()
  {
    if events != [] {
      var front, e := events[..|events| - 1], events[|events| - 1];
      TargetStays(h, front);
      if Run(h, front).exchange.Some? {
        var ex := Run(h, front).exchange.value;
        if FailureBy(e.settings, ex, e.event).Some? {
          FailureEffect(e.settings, e.now, ex, e.event);
        } else {
          OtherEffect(e.settings, e.now, ex, e.event);
        }
      }
    }
  }

  /** Over every run of an exchange: its signals are one for each successful content posted to its user, with the
      same message and sender and in the same order, if it announces them, and none otherwise; and behind
      these one error signal, with the user it then had and the error that ended it, exactly if it failed. */
  lemma {:induction false} SignalsExactly(h: History, events: seq<Timed>)
    requires h.exchange.Some? && Sorted(h.exchange.value.request.message.options)
    requires Settled(h.exchange.value.request, events)
    ensures Signalling(Announces(h.exchange.value.request), h, Run(h, events), FailureIn(h, events),
                       SignalsOf(h, events))
  {
    var announces := Announces(h.exchange.value.request);
    if events == [] {
      SignalsOfNothing(announces, h);
    } else {
      var front, e := events[..|events| - 1], events[|events| - 1];
      SettledBefore(h.exchange.value.request, events);
      SignalsExactly(h, front);
      TargetStays(h, front);
      SignallingNext(announces, h, Run(h, front), e, FailureIn(h, front), SignalsOf(h, front));
    }
  }

  lemma SignalsOfNothing(announces: bool, h: History)
    requires h.exchange.Some? && Sorted(h.exchange.value.request.message.options)
    requires announces == Announces(h.exchange.value.request)
    ensures Signalling(announces, h, h, None, [])
  {
    assert h.posts[|h.posts|..] == [];
    DueIntact(announces, [], []);
  }

  lemma SettledBefore(r: Request, events: seq<Timed>)
    requires events != [] && Settled(r, events)
    ensures Settled(r, events[..|events| - 1])
    ensures events[|events| - 1].event.Cancel? ==> Announces(r) || !r.IsMulticast()
  {
    var front := events[..|events| - 1];
    if i :| 0 <= i < |front| && front[i].event.Cancel? {
      assert events[i].event.Cancel?;
    }
  }

  /** Posts of a request that is not over. */
  ghost predicate GoesOn(posts: seq<Post>) {
    NoErrors(posts) && forall i :: 0 <= i < |posts| ==> !posts[i].slot.SetFinished?
  }

  lemma OpenGoesOn(s: Settings, now: nat, ex: Exchange, e: LocalEvent)
    requires Sorted(ex.request.message.options) && Handle(s, now, ex, e).next.Some?
    ensures FailureBy(s, ex, e).None? && GoesOn(Handle(s, now, ex, e).posts)
    ensures Sorted(Handle(s, now, ex, e).next.value.request.message.options)
  {
    EndsWhen(s, now, ex, e);
    OtherEffect(s, now, ex, e);
    if e.Frame? && Accepts(ex, e.received) {
      FrameGoesOn(s, now, ex, e.received, e.freshId);
    }
  }

  lemma FrameGoesOn(s: Settings, now: nat, ex: Exchange, r: Received, freshId: uint16)
    requires Sorted(ex.request.message.options) && Accepts(ex, r) && !IsError(r.reply.code)
    requires OnFrame(s, now, ex, r, freshId).next.Some?
    ensures forall i :: 0 <= i < |OnFrame(s, now, ex, r, freshId).posts| ==>
              !OnFrame(s, now, ex, r, freshId).posts[i].slot.SetFinished?
  {
    var accepted := Accept(ex, r);
    var answered := Answered(accepted);
    AnsweredAnnounces(ex, r);
    CompleteDecides(s, r);
    if Complete(r) {
      LastGoesOn(answered);
    } else {
      MiddleEffect(now, answered, r, Decide(s, r.reply), freshId, Answers(accepted, r));
    }
  }

  lemma LastGoesOn(ex: Exchange)
    requires ex.replies != [] && OnLastMessage(ex).next.Some?
    ensures forall i :: 0 <= i < |OnLastMessage(ex).posts| ==> !OnLastMessage(ex).posts[i].slot.SetFinished?
  {
  }

  /** The posts of a run that has failed: the failure is what its user is told of last, and before. */
  ghost predicate EndsWith(posts: seq<Post>, f: Failure) {
    var told := ToldOf(f);
    |told| <= |posts| && posts[|posts| - |told|..] == told && GoesOn(posts[..|posts| - |told|])
  }

  /** Over every run: while the exchange is open there has been no failure and nothing posted says that the
      request is over; behind a failure nothing is posted, and ahead of it nothing that says so. */
  lemma {:induction false} FailureComesLast(h: History, events: seq<Timed>)
    requires h.exchange.Some? && Sorted(h.exchange.value.request.message.options)
    ensures var h', f := Run(h, events), FailureIn(h, events);
            && h.posts <= h'.posts
            && (h'.exchange.Some? ==>
                  && f.None? && GoesOn(h'.posts[|h.posts|..])
                  && Sorted(h'.exchange.value.request.message.options))
            && (f.Some? ==> h'.exchange.None? && EndsWith(h'.posts[|h.posts|..], f.value))
  {
    if events == [] {
      assert h.posts[|h.posts|..] == [];
    } else {
      var front, e := events[..|events| - 1], events[|events| - 1];
      FailureComesLast(h, front);
      if Run(h, front).exchange.Some? {
        FailureStep(h, Run(h, front), e);
      }
    }
  }

  lemma FailureStep(h: History, h': History, e: Timed)
    requires h.posts <= h'.posts && h'.exchange.Some? && GoesOn(h'.posts[|h.posts|..])
    requires Sorted(h'.exchange.value.request.message.options)
    ensures var after, f := Step(h', e), FailureBy(e.settings, h'.exchange.value, e.event);
            && h.posts <= after.posts
            && (after.exchange.Some? ==>
                  && f.None? && GoesOn(after.posts[|h.posts|..])
                  && Sorted(after.exchange.value.request.message.options))
            && (f.Some? ==> after.exchange.None? && EndsWith(after.posts[|h.posts|..], f.value))
  {
    var ex, f := h'.exchange.value, FailureBy(e.settings, h'.exchange.value, e.event);
    var effect := Handle(e.settings, e.now, ex, e.event);
    var posts := h'.posts[|h.posts|..];
    assert (h'.posts + effect.posts)[|h.posts|..] == posts + effect.posts;
    if f.Some? {
      FailureEffect(e.settings, e.now, ex, e.event);
      assert (posts + effect.posts)[|posts|..] == effect.posts && (posts + effect.posts)[..|posts|] == posts;
    } else if effect.next.Some? {
      OpenGoesOn(e.settings, e.now, ex, e.event);
    }
  }

  // In the engine

  lemma SignalsOfMore(h: History, events: seq<Timed>, e: Timed)
    ensures SignalsOf(h, events + [e]) == SignalsOf(h, events) + SignalsBy(Run(h, events), e)
  {
    assert (events + [e])[..|events|] == events;
  }

  /** What one event of the engine signals under a token. */
  ghost function SignalsAt(s: EngineState, h: Happening, t: Token): seq<Signal> {
    if Concerns(s, h, t) == [] || t !in s.exchanges then []
    else Handle(s.settings, h.now, s.exchanges[t], Concerns(s, h, t)[0].event).signals
  }

  lemma RoutedSignals(s: EngineState, now: nat, e: Event, t: Token)
    requires Route(s, e).Some? && Route(s, e).value.0 in s.exchanges
    ensures var (u, local) := Route(s, e).value;
            Of(t, Next(s, now, e).signals)
            == Of(t, s.signals) + if u == t then Handle(s.settings, now, s.exchanges[u], local).signals else []
  {
    var (u, local) := Route(s, e).value;
    OfTagged(t, s.signals, u, Handle(s.settings, now, s.exchanges[u], local).signals);
  }

  lemma UnroutedSignals(s: EngineState, now: nat, e: Event)
    requires Route(s, e).None?
    ensures Next(s, now, e).signals == s.signals
  {
    NothingBehind(s.signals);
  }

  lemma StepSignals(s: EngineState, h: Happening, t: Token)
    requires t != NO_TOKEN && Leaves(h.event, t)
    ensures Of(t, Next(s, h.now, h.event).signals) == Of(t, s.signals) + SignalsAt(s, h, t)
  {
    RoutedToTable(s, h.event);
    NothingBehind(Of(t, s.signals));
    if Route(s, h.event).Some? {
      RoutedSignals(s, h.now, h.event, t);
    } else {
      UnroutedSignals(s, h.now, h.event);
    }
  }

  /** The signals under a token are those of its exchange. */
  lemma {:induction false} SignalsIsolated(s: EngineState, events: seq<Happening>, t: Token)
    requires t != NO_TOKEN && NotReopened(events, t)
    ensures Of(t, RunEngine(s, events).signals)
         == Of(t, s.signals) + SignalsOf(HistoryOf(s, t), ConcernsAll(s, events, t))
  {
    NothingBehind(Of(t, s.signals));
    if events != [] {
      var front, last := events[..|events| - 1], events[|events| - 1];
      SignalsIsolated(s, front, t);
      RunIsolated(s, front, t);
      OneMoreEvent(s, front, RunEngine(s, front), last, t);
    }
  }

  lemma OneMoreEvent(s: EngineState, front: seq<Happening>, before: EngineState, last: Happening, t: Token)
    requires t != NO_TOKEN && Leaves(last.event, t) && before == RunEngine(s, front)
    requires HistoryOf(before, t) == Run(HistoryOf(s, t), ConcernsAll(s, front, t))
    requires Of(t, before.signals) == Of(t, s.signals) + SignalsOf(HistoryOf(s, t), ConcernsAll(s, front, t))
    ensures Of(t, Next(before, last.now, last.event).signals)
         == Of(t, s.signals) + SignalsOf(HistoryOf(s, t), ConcernsAll(s, front, t) + Concerns(before, last, t))
  {
    var more := SignalsAt(before, last, t);
    StepSignals(before, last, t);
    MoreSignals(s, front, last, t);
    Associates(Of(t, s.signals), SignalsOf(HistoryOf(s, t), ConcernsAll(s, front, t)), more);
  }

  lemma Associates<T>(a: seq<T>, b: seq<T>, c: seq<T>)
    ensures (a + b) + c == a + (b + c)
  {
  }

  lemma MoreSignals(s: EngineState, front: seq<Happening>, last: Happening, t: Token)
    requires HistoryOf(RunEngine(s, front), t) == Run(HistoryOf(s, t), ConcernsAll(s, front, t))
    ensures var before := RunEngine(s, front);
            SignalsOf(HistoryOf(s, t), ConcernsAll(s, front, t) + Concerns(before, last, t))
            == SignalsOf(HistoryOf(s, t), ConcernsAll(s, front, t)) + SignalsAt(before, last, t)
  {
    var before, more, local := RunEngine(s, front), Concerns(RunEngine(s, front), last, t), ConcernsAll(s, front, t);
    if more == [] {
      NothingBehind(local);
      NothingBehind(SignalsOf(HistoryOf(s, t), local));
    } else {
      SignalsOfMore(HistoryOf(s, t), local, more[0]);
      assert more == [more[0]];
    }
  }

  lemma WithBlocksObserves(s: Settings, r: Request)
    requires Sorted(r.message.options)
    ensures var r' := WithBlockOptions(s, r);
            && r'.IsObserve() == r.IsObserve() && r'.target == r.target && r'.observeCancelled == r.observeCancelled
            && Sorted(r'.message.options)
  {
    RequestBlockKeepsNamed(r, 0, s.blockSize, OBSERVE);
    SendBlockKeepsNamed(SetToRequestBlock(r, 0, s.blockSize), 0, s.blockSize, OBSERVE);
  }

  lemma StartAnnounces(s: Settings, now: nat, u: UserRequest, reply: ReplyId, token: Token, id: uint16,
                       randomTimeout: nat)
    requires Sorted(u.message.options)
    ensures var ex := Start(s, now, u, reply, token, id, randomTimeout).exchange;
            && ex.Some? && Sorted(ex.value.request.message.options)
            && ex.value.request.IsMulticast() == u.target.Multicast?
            && Announces(ex.value.request) == (u.target.Multicast? && !HasOption(u.message.options, OBSERVE))
  {
    var r := Request(u.message.(token := token, id := id), u.methodCode, u.message.payload, u.target,
                     0, 0, false, false, MaximumTransmitWait(s),
                     if u.target.Multicast? then MulticastTimeout(s) else 0, None, None, None);
    WithBlocksObserves(s, r);
  }

  /** In an engine with any other exchanges: what is signalled under a token from its submission on is exactly
      what is due for its exchange. A multicast observation starts to announce its responses when it is
      cancelled, so for that the run must be taken apart there. */
  lemma SignalsInEngine(s: EngineState, open: Happening, events: seq<Happening>, t: Token)
    requires Opens(s, open, t) && NotReopened(events, t)
    ensures var s', u := Next(s, open.now, open.event), open.event.request;
            var h, local := Opened(s, open, t), ConcernsAll(s', events, t);
            var announces := u.target.Multicast? && !HasOption(u.message.options, OBSERVE);
            && Of(t, RunEngine(s', events).signals) == Of(t, s.signals) + SignalsOf(h, local)
            && (announces || !u.target.Multicast? || !AnyCancel(local) ==>
                  Signalling(announces, h, Run(h, local), FailureIn(h, local), SignalsOf(h, local)))
  {
    var e, s' := open.event, Next(s, open.now, open.event);
    OpenedRun(s, open, events, t);
    SignalsIsolated(s', events, t);
    BeginSignals(s, open, t);
    StartAnnounces(s.settings, open.now, e.request, e.reply, t, e.freshId, e.randomTimeout);
    if Settled(Opened(s, open, t).exchange.value.request, ConcernsAll(s', events, t)) {
      SignalsExactly(Opened(s, open, t), ConcernsAll(s', events, t));
    }
  }

  lemma BeginSignals(s: EngineState, open: Happening, t: Token)
    requires Opens(s, open, t)
    ensures Next(s, open.now, open.event).signals == s.signals
  {
    NothingBehind(s.signals);
  }
}
