/** Multicast requests: responses of many hosts, possibly blockwise, interleave in one
    exchange. */
module Multicasting {
  import opened CoapTypes
  import opened StableOrder
  import opened OptionList
  import opened Blocks
  import opened Codec
  import opened Reassembly
  import opened Requests
  import opened Exchanges
  import opened FrameFacts
  import opened Observation
  import opened Retransmission
  import opened TransmissionTimers

  /** A multicast exchange for a live user that neither observes nor is cancelled. */
  ghost predicate Multicasts(ex: Exchange, user: ReplyId) {
    && ex.userReply == Some(user) && ex.request.IsMulticast()
    && !ex.request.IsObserve() && !ex.request.observeCancelled && Sorted(ex.request.message.options)
  }

  /** What an exchange stores for one host after the host's own frames: a complete response
      leaves its last frame behind with the merged payload. */
  function HostReplies(kind: Received -> Kind, merge: seq<Received> -> Bytes, frames: seq<Received>): seq<Received> {
    if frames == [] then []
    else
      var front, f := HostReplies(kind, merge, frames[..|frames| - 1]), frames[|frames| - 1];
      match kind(f)
      case Middle => front + [f]
      case Last => front + [WithPayload(f, merge(front + [f]))]
      case Ignored => front
  }

  /** The messages delivered for one host, from the host's own frames. */
  function HostMessages(kind: Received -> Kind, merge: seq<Received> -> Bytes, frames: seq<Received>): seq<Received> {
    if frames == [] then []
    else
      var front, f := frames[..|frames| - 1], frames[|frames| - 1];
      HostMessages(kind, merge, front)
      + if kind(f).Last? then [WithPayload(f, merge(HostReplies(kind, merge, front) + [f]))] else []
  }

  lemma OneMoreHostFrame(kind: Received -> Kind, merge: seq<Received> -> Bytes, frames: seq<Received>, f: Received)
    ensures var stored := HostReplies(kind, merge, frames);
            && HostReplies(kind, merge, frames + [f]) == (match kind(f)
                                                         case Middle => stored + [f]
                                                         case Last => stored + [WithPayload(f, merge(stored + [f]))]
                                                         case Ignored => stored)
            && HostMessages(kind, merge, frames + [f])
               == HostMessages(kind, merge, frames)
                  + if kind(f).Last? then [WithPayload(f, merge(stored + [f]))] else []
  {
    assert (frames + [f])[..|frames|] == frames;
  }

  lemma {:induction false} FromSenderConcat(a: seq<Received>, b: seq<Received>, host: Address)
    ensures FromSender(a + b, host) == FromSender(a, host) + FromSender(b, host)
  {
    if a == [] {
      assert a + b == b;
    } else {
      assert (a + b)[1..] == a[1..] + b;
      FromSenderConcat(a[1..], b, host);
    }
  }

  lemma FromSenderOne(r: Received, host: Address)
    ensures FromSender([r], host) == if r.sender == host then [r] else []
  {
    assert [r][1..] == [];
  }

  /** The content slots among the posts that carry a success response of `host`. */
  function Contents(posts: seq<Post>, host: Address): seq<Post> {
    if posts == [] then []
    else
      var p := posts[|posts| - 1];
      Contents(posts[..|posts| - 1], host)
      + if IsSuccessOf(p, host) then [p] else []
  }

  predicate IsSuccessOf(p: Post, host: Address) {
    p.slot.SetContent? && p.slot.sender == host && !IsError(p.slot.code)
  }

  lemma {:induction false} ContentsConcat(a: seq<Post>, b: seq<Post>, host: Address)
    ensures Contents(a + b, host) == Contents(a, host) + Contents(b, host)
    decreases |b|
  {
    if b == [] {
      assert a + b == a;
    } else {
      ContentsConcat(a, b[..|b| - 1], host);
      assert (a + b)[..|a + b| - 1] == a + b[..|b| - 1];
    }
  }

  function ContentPosts(user: ReplyId, messages: seq<Received>): seq<Post> {
    if messages == [] then []
    else
      var m := messages[|messages| - 1];
      ContentPosts(user, messages[..|messages| - 1]) + [Post(user, SetContent(m.sender, m.reply.message, m.reply.code))]
  }

  lemma OneMoreContent(user: ReplyId, messages: seq<Received>, m: Received)
    ensures ContentPosts(user, messages + [m])
         == ContentPosts(user, messages) + [Post(user, SetContent(m.sender, m.reply.message, m.reply.code))]
  {
    assert (messages + [m])[..|messages|] == messages;
  }

  /** The exchange as the frames so far have left it: for every host, exactly what the host's
      own frames make of it. */
  ghost predicate Separated(h: History, posts: seq<Post>, user: ReplyId, frames: seq<Received>) {
    && h.exchange.Some? && Multicasts(h.exchange.value, user)
    && SmallNumbers(h.exchange.value.replies)
    && posts <= h.posts
    && forall host :: HostView(h, posts, user, frames, host)
  }

  ghost predicate HostView(h: History, posts: seq<Post>, user: ReplyId, frames: seq<Received>, host: Address)
    requires h.exchange.Some? && posts <= h.posts
  {
    && FromSender(h.exchange.value.replies, host) == HostReplies(Classify, Merge, FromSender(frames, host))
    && Contents(h.posts[|posts|..], host)
       == ContentPosts(user, HostMessages(Classify, Merge, FromSender(frames, host)))
  }

  /** How a frame changes what is stored. */
  function Stored(kind: Received -> Kind, merge: seq<Received> -> Bytes, replies: seq<Received>, r: Received)
    : seq<Received>
  {
    match kind(r)
    case Middle => replies + [r]
    case Last => replies + [Completed(merge, replies, r)]
    case Ignored => replies
  }

  /** The last frame of a response with what its host's frames merge to. */
  function Completed(merge: seq<Received> -> Bytes, replies: seq<Received>, r: Received): Received {
    WithPayload(r, merge(FromSender(replies, r.sender) + [r]))
  }

  function ContentOf(user: ReplyId, m: Received): Post {
    Post(user, SetContent(m.sender, m.reply.message, m.reply.code))
  }

  lemma MulticastLast(ex: Exchange, before: seq<Received>, r: Received, user: ReplyId)
    requires Multicasts(ex, user) && ex.replies == before + [r]
    requires BlockNumber(r) < MAX_BLOCK
    ensures var effect := OnLastMessage(ex);
            var last := WithPayload(r, Merge(FromSender(before, r.sender) + [r]));
            && effect.next == Some(ex.(replies := if IsEmptyAck(r) then before else before + [last]))
            && effect.posts == (if IsEmptyAck(r) then []
                                else [Post(user, SetContent(last.sender, last.reply.message, last.reply.code))])
  {
    assert ex.replies[..|ex.replies| - 1] == before;
    FromSenderConcat(before, [r], r.sender);
    FromSenderOne(r, r.sender);
    if before == [] {
      MergeSingle(r);
      assert FromSender(before, r.sender) + [r] == [r];
    }
    if !IsEmptyAck(r) {
      var last := WithPayload(r, Merge(FromSender(before, r.sender) + [r]));
      assert FinalPayload(true, ex.replies) == Merge(FromSender(before, r.sender) + [r]);
      assert ex.replies[|ex.replies| - 1 := last] == before + [last];
    }
  }

  lemma MulticastFrame(s: Settings, now: nat, ex: Exchange, r: Received, freshId: uint16, user: ReplyId)
    requires Multicasts(ex, user) && !IsError(r.reply.code) && BlockNumber(r) < MAX_BLOCK
    ensures var effect := OnFrame(s, now, ex, r, freshId);
            && effect.next.Some? && Multicasts(effect.next.value, user)
            && effect.next.value.replies == Stored(Classify, Merge, ex.replies, r)
            && effect.posts == (if Classify(r).Last? then [ContentOf(user, Completed(Merge, ex.replies, r))] else [])
  {
    if Complete(r) {
      FinalFrame(s, now, ex, r, freshId);
      MulticastLast(Accept(ex, r), ex.replies, r, user);
    } else {
      MiddleFrame(s, now, ex, r, freshId);
    }
  }

  /** The frame an event brings. */
  function AnyFrame(e: LocalEvent): seq<Received> {
    if e.Frame? && !IsError(e.received.reply.code) then [e.received] else []
  }

  function AllFrames(events: seq<Timed>): seq<Received> {
    if events == [] then []
    else AllFrames(events[..|events| - 1]) + AnyFrame(events[|events| - 1].event)
  }

  lemma SilentMulticastEvent(s: Settings, now: nat, ex: Exchange, e: LocalEvent, user: ReplyId)
    requires Multicasts(ex, user) && AnyFrame(e) == []
    requires StillObserving(Handle(s, now, ex, e).next)
    ensures var effect := Handle(s, now, ex, e);
            Multicasts(effect.next.value, user) && effect.next.value.replies == ex.replies && effect.posts == []
  {
    if !e.Frame? {
      FlagsAreFinal(s, now, ex, e);
      QuietEvent(s, now, ex, e);
    }
  }

  lemma StoredForHost(kind: Received -> Kind, merge: seq<Received> -> Bytes, replies: seq<Received>,
                      frames: seq<Received>, r: Received, host: Address)
    requires FromSender(replies, host) == HostReplies(kind, merge, FromSender(frames, host))
    ensures FromSender(Stored(kind, merge, replies, r), host)
         == HostReplies(kind, merge, FromSender(frames + [r], host))
  {
    var last := Completed(merge, replies, r);
    FromSenderConcat(frames, [r], host);
    FromSenderOne(r, host);
    FromSenderConcat(replies, [r], host);
    FromSenderConcat(replies, [last], host);
    FromSenderOne(last, host);
    OneMoreHostFrame(kind, merge, FromSender(frames, host), r);
    assert FromSender(frames, host) + [] == FromSender(frames, host);
    assert FromSender(replies, host) + [] == FromSender(replies, host);
  }

  lemma DeliveredForHost(kind: Received -> Kind, merge: seq<Received> -> Bytes, replies: seq<Received>,
                         frames: seq<Received>, r: Received, host: Address, user: ReplyId)
    requires FromSender(replies, host) == HostReplies(kind, merge, FromSender(frames, host))
    ensures var messages := HostMessages(kind, merge, FromSender(frames, host));
            ContentPosts(user, HostMessages(kind, merge, FromSender(frames + [r], host)))
            == ContentPosts(user, messages)
               + if kind(r).Last? && r.sender == host then [ContentOf(user, Completed(merge, replies, r))] else []
  {
    var own := FromSender(frames, host);
    FromSenderConcat(frames, [r], host);
    FromSenderOne(r, host);
    if r.sender == host {
      OneMoreHostFrame(kind, merge, own, r);
      OneMoreContent(user, HostMessages(kind, merge, own), Completed(merge, replies, r));
      NothingAdded(HostMessages(kind, merge, own), ContentPosts(user, HostMessages(kind, merge, own)));
    } else {
      NothingAdded(own, ContentPosts(user, HostMessages(kind, merge, own)));
    }
  }

  lemma NothingAdded<S, T>(a: seq<S>, b: seq<T>)
    ensures a + [] == a && b + [] == b
  {
  }

  lemma HostViewStep(h: History, posts: seq<Post>, user: ReplyId, frames: seq<Received>, host: Address, r: Received,
                     effect: Effect)
    requires h.exchange.Some? && posts <= h.posts && HostView(h, posts, user, frames, host)
    requires effect.next.Some? && !IsError(r.reply.code)
    requires effect.next.value.replies == Stored(Classify, Merge, h.exchange.value.replies, r)
    requires effect.posts == if Classify(r).Last? then [ContentOf(user, Completed(Merge, h.exchange.value.replies, r))]
                             else []
    ensures HostView(History(effect.next, h.posts + effect.posts, h.sends + effect.sends), posts, user, frames + [r],
                     host)
  {
    StoredForHost(Classify, Merge, h.exchange.value.replies, frames, r, host);
    DeliveredForHost(Classify, Merge, h.exchange.value.replies, frames, r, host, user);
    assert (h.posts + effect.posts)[|posts|..] == h.posts[|posts|..] + effect.posts;
    ContentsConcat(h.posts[|posts|..], effect.posts, host);
    PostedForHost(Completed(Merge, h.exchange.value.replies, r), effect.posts, host, user);
  }

  lemma PostedForHost(last: Received, posts: seq<Post>, host: Address, user: ReplyId)
    requires posts == [] || posts == [ContentOf(user, last)]
    requires !IsError(last.reply.code)
    ensures Contents(posts, host) == if posts != [] && last.sender == host then [ContentOf(user, last)] else []
  {
    OnePost(posts, host);
  }

  lemma OnePost(posts: seq<Post>, host: Address)
    requires |posts| <= 1
    ensures Contents(posts, host)
         == if posts != [] && IsSuccessOf(posts[0], host) then posts else []
  {
    if posts != [] {
      assert posts[..|posts| - 1] == [];
      assert posts == [posts[0]];
    }
  }

  lemma SeparatedStep(h: History, e: Timed, posts: seq<Post>, user: ReplyId, frames: seq<Received>)
    requires Separated(h, posts, user, frames) && StillObserving(Step(h, e).exchange)
    requires SmallNumbers(AnyFrame(e.event))
    ensures Separated(Step(h, e), posts, user, frames + AnyFrame(e.event))
  {
    var ex := h.exchange.value;
    var effect := Handle(e.settings, e.now, ex, e.event);
    if AnyFrame(e.event) == [] {
      SilentMulticastEvent(e.settings, e.now, ex, e.event, user);
      assert h.posts + [] == h.posts && frames + [] == frames;
      assert forall host :: HostView(h, posts, user, frames, host)
                            ==> HostView(Step(h, e), posts, user, frames, host);
    } else {
      var r := e.event.received;
      assert r in AnyFrame(e.event);
      MulticastFrame(e.settings, e.now, ex, r, e.event.freshId, user);
      forall host ensures HostView(Step(h, e), posts, user, frames + [r], host) {
        assert HostView(h, posts, user, frames, host);
        HostViewStep(h, posts, user, frames, host, r, effect);
      }
    }
  }

  // What ends a multicast exchange

  /** An error response, of whatever host, the expiry, an abort, or the loss of the user's reply. */
  predicate Disturbs(e: LocalEvent, user: ReplyId) {
    || (e.Frame? && IsError(e.received.reply.code))
    || e.MulticastExpired? || e.Aborted? || e == ReplyDestroyed(user)
  }

  /** The events before the first disturbance. */
  function Undisturbed(events: seq<Timed>, user: ReplyId): (r: seq<Timed>)
    ensures r <= events
  {
    if events == [] then []
    else
      var front := Undisturbed(events[..|events| - 1], user);
      if |front| == |events| - 1 && !Disturbs(events[|events| - 1].event, user) then events else front
  }

  /** Timer events happen only to timers that have run out. */
  ghost predicate TimersFair(h: History, events: seq<Timed>) {
    events == []
    || (var before, last := Run(h, events[..|events| - 1]), events[|events| - 1];
        && TimersFair(h, events[..|events| - 1])
        && (before.exchange.Some? ==> TimersAllow(before.exchange.value, last.now, last.event)))
  }

  /** Exactly the disturbances end it, and they bring no success content. */
  lemma DisturbanceEnds(s: Settings, now: nat, ex: Exchange, e: LocalEvent, user: ReplyId, host: Address)
    requires Multicasts(ex, user) && TimersMatch(ex.request) && TimersAllow(ex, now, e)
    requires SmallNumbers(AnyFrame(e))
    ensures var effect := Handle(s, now, ex, e);
            && (StillObserving(effect.next) <==> !Disturbs(e, user))
            && (Disturbs(e, user) ==> Contents(effect.posts, host) == [])
  {
    if AnyFrame(e) != [] {
      assert e.received in AnyFrame(e);
      MulticastFrame(s, now, ex, e.received, e.freshId, user);
    } else if e.Frame? || e.MulticastExpired? {
      TwoPosts(Handle(s, now, ex, e).posts, host);
    }
  }

  lemma TwoPosts(posts: seq<Post>, host: Address)
    requires |posts| <= 2 && forall i :: 0 <= i < |posts| ==> !IsSuccessOf(posts[i], host)
    ensures Contents(posts, host) == []
  {
    if |posts| == 2 {
      OnePost(posts[..1], host);
    } else {
      OnePost(posts, host);
    }
  }

  /** The exchange is gone, or nobody is there to be told. */
  predicate Over(h: History) {
    h.exchange.Some? ==> h.exchange.value.userReply.None?
  }

  lemma OverIsSilent(h: History, e: Timed, host: Address)
    requires Over(h)
    ensures Over(Step(h, e)) && h.posts <= Step(h, e).posts && Contents(Step(h, e).posts[|h.posts|..], host) == []
  {
    if h.exchange.Some? {
      var effect := Handle(e.settings, e.now, h.exchange.value, e.event);
      UntoldEffect(e.settings, e.now, h.exchange.value, e.event);
      TwoPosts(effect.posts, host);
      assert (h.posts + effect.posts)[|h.posts|..] == effect.posts;
    } else {
      assert h.posts[|h.posts|..] == [];
    }
  }

  lemma ContentsLater(a: seq<Post>, b: seq<Post>, c: seq<Post>, host: Address)
    requires a <= b <= c && Contents(c[|b|..], host) == []
    ensures Contents(c[|a|..], host) == Contents(b[|a|..], host)
  {
    assert c[|a|..] == b[|a|..] + c[|b|..];
    ContentsConcat(b[|a|..], c[|b|..], host);
  }

  // Every run

  /** What a host's frames, up to a disturbance, have made of the posts. */
  ghost predicate Told(h: History, h': History, clear: seq<Timed>, user: ReplyId, host: Address) {
    && h.posts <= h'.posts
    && Contents(h'.posts[|h.posts|..], host)
       == ContentPosts(user, HostMessages(Classify, Merge, FromSender(AllFrames(clear), host)))
  }

  ghost predicate MulticastOutcome(h: History, h': History, events: seq<Timed>, user: ReplyId) {
    var clear := Undisturbed(events, user);
    && (if clear == events
        then Separated(h', h.posts, user, AllFrames(events)) && TimersMatch(h'.exchange.value.request)
        else Over(h'))
    && forall host :: Told(h, h', clear, user, host)
  }

  lemma SeparatedIsTold(h: History, h': History, clear: seq<Timed>, user: ReplyId, host: Address)
    requires Separated(h', h.posts, user, AllFrames(clear))
    ensures Told(h, h', clear, user, host)
  {
    assert HostView(h', h.posts, user, AllFrames(clear), host);
  }

  lemma OutcomeStep(h: History, h': History, events: seq<Timed>, e: Timed, user: ReplyId)
    requires MulticastOutcome(h, h', events, user) && SmallNumbers(AnyFrame(e.event))
    requires h'.exchange.Some? ==> TimersAllow(h'.exchange.value, e.now, e.event)
    ensures MulticastOutcome(h, Step(h', e), events + [e], user)
  {
    assert (events + [e])[..|events + [e]| - 1] == events;
    var clear := Undisturbed(events, user);
    if clear != events {
      forall host ensures Told(h, Step(h', e), clear, user, host) {
        assert Told(h, h', clear, user, host);
        OverIsSilent(h', e, host);
        ContentsLater(h.posts, h'.posts, Step(h', e).posts, host);
      }
      OverIsSilent(h', e, Unicast(0));
      assert Undisturbed(events + [e], user) == clear && clear != events + [e];
    } else {
      ClearStep(h, h', events, e, user);
    }
  }

  lemma ClearStep(h: History, h': History, events: seq<Timed>, e: Timed, user: ReplyId)
    requires Separated(h', h.posts, user, AllFrames(events)) && TimersMatch(h'.exchange.value.request)
    requires Undisturbed(events, user) == events && SmallNumbers(AnyFrame(e.event))
    requires TimersAllow(h'.exchange.value, e.now, e.event)
    ensures MulticastOutcome(h, Step(h', e), events + [e], user)
  {
    assert (events + [e])[..|events + [e]| - 1] == events;
    var ex := h'.exchange.value;
    DisturbanceEnds(e.settings, e.now, ex, e.event, user, Unicast(0));
    if Disturbs(e.event, user) {
      assert Undisturbed(events + [e], user) == events && events != events + [e];
      forall host ensures Told(h, Step(h', e), events, user, host) {
        DisturbedStep(h, h', events, e, user, host);
      }
      DisturbedIsOver(h', e, user);
    } else {
      assert Undisturbed(events + [e], user) == events + [e];
      SeparatedStep(h', e, h.posts, user, AllFrames(events));
      HandleTimers(e.settings, e.now, ex, e.event);
      forall host ensures Told(h, Step(h', e), events + [e], user, host) {
        SeparatedIsTold(h, Step(h', e), events + [e], user, host);
      }
    }
  }

  lemma DisturbedIsOver(h: History, e: Timed, user: ReplyId)
    requires h.exchange.Some? && Multicasts(h.exchange.value, user) && Disturbs(e.event, user)
    ensures Over(Step(h, e))
  {
  }

  lemma DisturbedStep(h: History, h': History, events: seq<Timed>, e: Timed, user: ReplyId, host: Address)
    requires Separated(h', h.posts, user, AllFrames(events)) && TimersMatch(h'.exchange.value.request)
    requires Disturbs(e.event, user) && SmallNumbers(AnyFrame(e.event))
    requires TimersAllow(h'.exchange.value, e.now, e.event)
    ensures Told(h, Step(h', e), events, user, host)
  {
    var effect := Handle(e.settings, e.now, h'.exchange.value, e.event);
    SeparatedIsTold(h, h', events, user, host);
    DisturbanceEnds(e.settings, e.now, h'.exchange.value, e.event, user, host);
    assert (h'.posts + effect.posts)[|h'.posts|..] == effect.posts;
    ContentsLater(h.posts, h'.posts, h'.posts + effect.posts, host);
  }

  lemma NothingYet(h: History, user: ReplyId)
    requires h.exchange.Some? && Multicasts(h.exchange.value, user) && h.exchange.value.replies == []
    requires TimersMatch(h.exchange.value.request)
    ensures MulticastOutcome(h, h, [], user)
  {
    assert h.posts[|h.posts|..] == [];
    assert forall host :: HostView(h, h.posts, user, [], host);
    assert forall host :: Told(h, h, [], user, host);
  }

  /** A multicast request that does not observe starts like that. */
  lemma MulticastStarts(s: Settings, now: nat, u: UserRequest, reply: ReplyId, token: Token, id: uint16,
                        randomTimeout: nat)
    requires ValidSettings(s) && u.target.Multicast? && randomTimeout < 0x1_0000_0000
    requires Sorted(u.message.options) && !HasOption(u.message.options, OBSERVE)
    ensures var h := Start(s, now, u, reply, token, id, randomTimeout);
            && h.exchange.Some? && Multicasts(h.exchange.value, reply) && h.exchange.value.replies == []
            && TimersMatch(h.exchange.value.request)
  {
    var r := Request(u.message.(token := token, id := id), u.methodCode, u.message.payload, u.target,
                     0, 0, false, false, MaximumTransmitWait(s), MulticastTimeout(s), None, None, None);
    RequestBlockKeepsNamed(r, 0, s.blockSize, OBSERVE);
    SendBlockKeepsNamed(SetToRequestBlock(r, 0, s.blockSize), 0, s.blockSize, OBSERVE);
    StartTimers(s, now, u, reply, token, id, randomTimeout);
  }

  /** Every run, whatever the interleaving and whatever happens. Before the first disturbance, what is
      stored and delivered for a host is a function of that host's own frames; from it on nothing is
      delivered to anyone. */
  lemma {:induction false} HostsAreSeparated(h: History, events: seq<Timed>, user: ReplyId)
    requires h.exchange.Some? && Multicasts(h.exchange.value, user) && h.exchange.value.replies == []
    requires TimersMatch(h.exchange.value.request)
    requires SmallNumbers(AllFrames(events)) && TimersFair(h, events)
    ensures MulticastOutcome(h, Run(h, events), events, user)
  {
    if events == [] {
      NothingYet(h, user);
    } else {
      var front, last := events[..|events| - 1], events[|events| - 1];
      assert forall r :: r in AllFrames(front) ==> r in AllFrames(events);
      assert forall r :: r in AnyFrame(last.event) ==> r in AllFrames(events);
      HostsAreSeparated(h, front, user);
      OutcomeStep(h, Run(h, front), front, last, user);
      assert events == front + [last];
    }
  }

  /** Two runs in which a host sends the same frames before the first disturbance tell the user the
      same about it. */
  lemma OtherHostsMakeNoDifference(h: History, events: seq<Timed>, events': seq<Timed>, user: ReplyId, host: Address)
    requires h.exchange.Some? && Multicasts(h.exchange.value, user) && h.exchange.value.replies == []
    requires TimersMatch(h.exchange.value.request)
    requires SmallNumbers(AllFrames(events)) && TimersFair(h, events)
    requires SmallNumbers(AllFrames(events')) && TimersFair(h, events')
    requires FromSender(AllFrames(Undisturbed(events, user)), host)
          == FromSender(AllFrames(Undisturbed(events', user)), host)
    ensures var a, b := Run(h, events), Run(h, events');
            && h.posts <= a.posts && h.posts <= b.posts
            && Contents(a.posts[|h.posts|..], host) == Contents(b.posts[|h.posts|..], host)
  {
    HostsAreSeparated(h, events, user);
    HostsAreSeparated(h, events', user);
    assert Told(h, Run(h, events), Undisturbed(events, user), user, host);
    assert Told(h, Run(h, events'), Undisturbed(events', user), user, host);
  }

  function CountLast(kind: Received -> Kind, frames: seq<Received>): nat {
    if frames == [] then 0
    else CountLast(kind, frames[..|frames| - 1]) + if kind(frames[|frames| - 1]).Last? then 1 else 0
  }

  lemma {:induction false} CountLastConcat(kind: Received -> Kind, a: seq<Received>, b: seq<Received>)
    ensures CountLast(kind, a + b) == CountLast(kind, a) + CountLast(kind, b)
    decreases |b|
  {
    if b == [] {
      assert a + b == a;
    } else {
      CountLastConcat(kind, a, b[..|b| - 1]);
      assert (a + b)[..|a + b| - 1] == a + b[..|b| - 1];
    }
  }

  lemma {:induction false} MessagesCount(kind: Received -> Kind, merge: seq<Received> -> Bytes, frames: seq<Received>,
                                         user: ReplyId)
    ensures |ContentPosts(user, HostMessages(kind, merge, frames))| == |HostMessages(kind, merge, frames)|
         == CountLast(kind, frames)
  {
    if frames != [] {
      var front, f := frames[..|frames| - 1], frames[|frames| - 1];
      MessagesCount(kind, merge, front, user);
      var messages, m := HostMessages(kind, merge, front), WithPayload(f, merge(HostReplies(kind, merge, front) + [f]));
      OneMoreContent(user, messages, m);
      assert messages + [] == messages;
    }
  }

  /** Frames that complete nothing add no message. */
  lemma {:induction false} NoLastNoMessage(kind: Received -> Kind, merge: seq<Received> -> Bytes, a: seq<Received>,
                                           b: seq<Received>)
    requires CountLast(kind, b) == 0
    ensures HostMessages(kind, merge, a + b) == HostMessages(kind, merge, a)
    decreases |b|
  {
    if b == [] {
      assert a + b == a;
    } else {
      NoLastNoMessage(kind, merge, a, b[..|b| - 1]);
      OneMoreHostFrame(kind, merge, a + b[..|b| - 1], b[|b| - 1]);
      assert a + b == (a + b[..|b| - 1]) + [b[|b| - 1]];
    }
  }

  lemma {:induction false} AllFramesConcat(a: seq<Timed>, b: seq<Timed>)
    ensures AllFrames(a + b) == AllFrames(a) + AllFrames(b)
    decreases |b|
  {
    if b == [] {
      assert a + b == a;
    } else {
      AllFramesConcat(a, b[..|b| - 1]);
      assert (a + b)[..|a + b| - 1] == a + b[..|b| - 1] && (a + b)[|a + b| - 1] == b[|b| - 1];
      Regrouped(AllFrames(a), AllFrames(b[..|b| - 1]), AnyFrame(b[|b| - 1].event));
    }
  }

  lemma Regrouped<T>(a: seq<T>, b: seq<T>, c: seq<T>)
    ensures (a + b) + c == a + (b + c)
  {
  }

  /** The frames of a host that come too late: after the first disturbance. */
  function LateFrames(events: seq<Timed>, user: ReplyId, host: Address): seq<Received> {
    FromSender(AllFrames(events[|Undisturbed(events, user)|..]), host)
  }

  /** The user is told of a host exactly what its own frames make if and only if no complete response
      of the host comes after a disturbance: an accepted error of any host, expiry, abort, or the loss
      of the reply. */
  lemma HostGetsItsOwnExactly(h: History, events: seq<Timed>, user: ReplyId, host: Address)
    requires h.exchange.Some? && Multicasts(h.exchange.value, user) && h.exchange.value.replies == []
    requires TimersMatch(h.exchange.value.request)
    requires SmallNumbers(AllFrames(events)) && TimersFair(h, events)
    ensures Told(h, Run(h, events), events, user, host) <==> CountLast(Classify, LateFrames(events, user, host)) == 0
  {
    HostsAreSeparated(h, events, user);
    ToldOfAllExactly(h, Run(h, events), events, user, host);
  }

  lemma ToldOfAllExactly(h: History, h': History, events: seq<Timed>, user: ReplyId, host: Address)
    requires Told(h, h', Undisturbed(events, user), user, host)
    ensures Told(h, h', events, user, host) <==> CountLast(Classify, LateFrames(events, user, host)) == 0
  {
    var clear := Undisturbed(events, user);
    assert events == clear + events[|clear|..];
    AllFramesConcat(clear, events[|clear|..]);
    FromSenderConcat(AllFrames(clear), AllFrames(events[|clear|..]), host);
    SameMessages(Classify, Merge, FromSender(AllFrames(clear), host), LateFrames(events, user, host), user);
  }

  lemma SameMessages(kind: Received -> Kind, merge: seq<Received> -> Bytes, early: seq<Received>, late: seq<Received>,
                     user: ReplyId)
    ensures ContentPosts(user, HostMessages(kind, merge, early))
            == ContentPosts(user, HostMessages(kind, merge, early + late))
            <==> CountLast(kind, late) == 0
  {
    MessagesCount(kind, merge, early, user);
    MessagesCount(kind, merge, early + late, user);
    CountLastConcat(kind, early, late);
    if CountLast(kind, late) == 0 {
      NoLastNoMessage(kind, merge, early, late);
    }
  }

  /** Two hosts. Alone, the response of one is delivered; behind an error of the other, the user gets
      that error, is told that the request is finished, and never hears of the response. */
  lemma ErrorOfAnotherHostSilences(h: History, bad: Timed, good: Timed, user: ReplyId)
    requires h.exchange.Some? && Multicasts(h.exchange.value, user) && h.exchange.value.replies == []
    requires bad.event.Frame? && IsError(bad.event.received.reply.code)
    requires good.event.Frame? && !IsError(good.event.received.reply.code) && Classify(good.event.received).Last?
    requires BlockNumber(good.event.received) < MAX_BLOCK && bad.event.received.sender != good.event.received.sender
    ensures var b := bad.event.received;
            && Run(h, [good]).posts == h.posts + [ContentOf(user, good.event.received)]
            && Run(h, [bad, good])
               == History(None, h.posts + [ContentOf(user, b), Post(user, SetFinished(Ok))], h.sends)
  {
    var r := good.event.received;
    assert [good][..0] == [] && [bad, good][..1] == [bad] && [bad][..0] == [];
    MulticastFrame(good.settings, good.now, h.exchange.value, r, good.event.freshId, user);
    MergeSingle(r);
    assert FromSender([], r.sender) + [r] == [r];
    assert Completed(Merge, [], r) == r;
    assert h.sends + [] == h.sends;
    var effect := OnFrame(bad.settings, bad.now, h.exchange.value, bad.event.received, bad.event.freshId);
    assert effect.next == None && effect.sends == [];
    assert effect.posts == [ContentOf(user, bad.event.received), Post(user, SetFinished(Ok))];
  }
}
