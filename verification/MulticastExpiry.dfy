/** How long a multicast exchange stays open. */
module MulticastExpiry {
  import opened CoapTypes
  import opened StableOrder
  import opened OptionList
  import opened Blocks
  import opened Codec
  import opened Reassembly
  import opened Requests
  import opened Exchanges
  import opened FrameFacts
  import opened Observation
  import opened Retransmission
  import opened TransmissionTimers
  import opened Multicasting

  // The deadline

  /** When an answer is back: the request leaves by the end of the transmit span, each way takes at
      most the maximum latency, and the server thinks no longer than its response delay. */
  predicate Timely(s: Settings, sentAfter: nat, there: nat, thinking: nat, back: nat) {
    && sentAfter <= Bound(s, s.maximumRetransmitCount) && there <= MAXIMUM_LATENCY && back <= MAXIMUM_LATENCY
    && thinking <= s.maximumServerResponseDelay
  }

  /** The longest of them. */
  function LongestDelay(s: Settings): nat {
    Bound(s, s.maximumRetransmitCount) + 2 * MAXIMUM_LATENCY + s.maximumServerResponseDelay
  }

  /** The expiry timer is started, and not due before any timely answer, exactly when the longest delay is
      an interval a timer can be started with: when it fits 31 bits. */
  lemma TimerCoversTimelyAnswers(s: Settings, r: Request, now: nat)
    requires ValidSettings(s) && r.IsMulticast() && r.multicastTimeout == MulticastTimeout(s)
    ensures var deadline := Transmitted(r, now).multicastExpireTimer;
            (deadline.Some?
             && forall sentAfter, there, thinking, back :: Timely(s, sentAfter, there, thinking, back) ==>
               now + sentAfter + there + thinking + back <= deadline.value)
            <==> LongestDelay(s) < 0x8000_0000
  {
    var n := s.maximumRetransmitCount;
    assert Timely(s, Bound(s, n), MAXIMUM_LATENCY, s.maximumServerResponseDelay, MAXIMUM_LATENCY);
    assert Transmitted(r, now).multicastExpireTimer == Armed(now, MulticastTimeout(s));
    if LongestDelay(s) < 0x8000_0000 {
      ComputedIsBound(s, n);
      assert MulticastTimeout(s) == LongestDelay(s);
    }
  }

  /** A response delay of 2 200 000 s starts no timer at all: the exchange never expires. */
  lemma ExpiryNeverStarts(r: Request, now: nat)
    requires r.IsMulticast() && r.multicastTimeout == MulticastTimeout(Settings(0, 4, 2000, 1.5, 2_200_000_000, 4))
    ensures r.multicastTimeout == 2_200_245_000 && Transmitted(r, now).multicastExpireTimer == None
  {
    assert Pow2(4) == 16;
    assert Wrap32(2000 * 15) == 30000;
    assert Scaled(30000, 1.5) == 45000;
  }

  // Runs

  /** A multicast exchange transmitted last at `start` or later, for a live user. */
  ghost predicate Live(ex: Exchange, user: ReplyId, timeout: nat, start: nat) {
    && ex.userReply == Some(user) && ex.request.IsMulticast() && TimersMatch(ex.request)
    && ex.request.multicastTimeout == timeout < 0x1_0000_0000
    && (ex.request.multicastExpireTimer.Some? ==>
          timeout < 0x8000_0000 && ex.request.multicastExpireTimer.value >= start + timeout)
  }

  /** The exchange as its first transmission leaves it. */
  ghost predicate JustOpened(h: History, s: Settings, user: ReplyId, start: nat) {
    && h.exchange.Some? && Live(h.exchange.value, user, MulticastTimeout(s), start)
    && h.exchange.value.request.multicastExpireTimer == Armed(start, MulticastTimeout(s))
  }

  /** Every multicast request starts like that. */
  lemma StartJustOpened(s: Settings, now: nat, u: UserRequest, reply: ReplyId, token: Token, id: uint16,
                        randomTimeout: nat)
    requires ValidSettings(s) && u.target.Multicast? && randomTimeout < 0x1_0000_0000
    ensures JustOpened(Start(s, now, u, reply, token, id, randomTimeout), s, reply, now)
  {
    StartTimers(s, now, u, reply, token, id, randomTimeout);
    StartSends(s, now, u, reply, token, id, randomTimeout);
    InitialMulticast(s, u, token, id, randomTimeout);
    OpenedByFirst(Start(s, now, u, reply, token, id, randomTimeout), s, now, reply,
                  InitialRequest(s, u, token, id, randomTimeout));
  }

  lemma OpenedByFirst(h: History, s: Settings, now: nat, reply: ReplyId, r: Request)
    requires h.exchange == Some(Exchange(Some(reply), Transmitted(r, now), []))
    requires r.IsMulticast() && r.multicastTimeout == MulticastTimeout(s) && TimersMatch(Transmitted(r, now))
    ensures JustOpened(h, s, reply, now)
  {
    FirstDeadline(r, now);
    SumIsSmall(s);
  }

  lemma InitialMulticast(s: Settings, u: UserRequest, token: Token, id: uint16, randomTimeout: nat)
    requires u.target.Multicast?
    ensures var r := InitialRequest(s, u, token, id, randomTimeout);
            r.target == u.target && r.multicastTimeout == MulticastTimeout(s)
  {
  }

  lemma FirstDeadline(r: Request, now: nat)
    requires r.IsMulticast()
    ensures Transmitted(r, now) == r.(multicastExpireTimer := Armed(now, r.multicastTimeout))
  {
  }

  lemma SumIsSmall(s: Settings)
    ensures MulticastTimeout(s) < 0x1_0000_0000
  {
  }

  /** A disturbance other than the expiry. */
  predicate Cuts(e: LocalEvent, user: ReplyId) {
    Disturbs(e, user) && !e.MulticastExpired?
  }

  /** The events happen from `start` on and before `until`, and nothing cuts the exchange off. */
  ghost predicate Within(events: seq<Timed>, user: ReplyId, start: nat, until: nat) {
    forall e :: e in events ==> start <= e.now < until && !Cuts(e.event, user)
  }

  lemma SentAgain(now: nat, ex: Exchange, r: Request, freshId: uint16, host: Address, answers: seq<Datagram>,
                  user: ReplyId, timeout: nat, start: nat)
    requires Live(ex, user, timeout, start) && start <= now
    requires r == ex.request.(message := r.message)
    ensures var next := SendNext(now, ex, r, freshId, host, answers).next;
            next.Some? && Live(next.value, user, timeout, start)
  {
  }

  lemma FrameStaysLive(s: Settings, now: nat, ex: Exchange, r: Received, freshId: uint16, user: ReplyId, timeout: nat,
                       start: nat)
    requires Live(ex, user, timeout, start) && start <= now && !IsError(r.reply.code)
    ensures var next := OnFrame(s, now, ex, r, freshId).next;
            next.Some? && Live(next.value, user, timeout, start)
  {
    var accepted := Answered(Accept(ex, r));
    var c := Decide(s, r.reply);
    AnsweredStays(Accept(ex, r));
    if c.Finish? {
      LastStaysLive(accepted, user, timeout, start);
    } else {
      var turned := Turned(accepted.request, c);
      assert turned == accepted.request.(message := turned.message);
      SentAgain(now, accepted, turned, freshId, if c.AskForBlock? then r.sender else accepted.request.target,
                Answers(Accept(ex, r), r), user, timeout, start);
    }
  }

  lemma AnsweredStays(ex: Exchange)
    ensures var answered := Answered(ex);
            && answered == ex.(request := ex.request.(message := answered.request.message))
            && !(answered.request.IsObserve() && answered.request.observeCancelled)
  {
    if ex.request.observeCancelled {
      AnsweredIsNoObserve(ex);
    }
  }

  lemma LastStaysLive(ex: Exchange, user: ReplyId, timeout: nat, start: nat)
    requires Live(ex, user, timeout, start) && ex.replies != []
    requires !(ex.request.IsObserve() && ex.request.observeCancelled)
    ensures var next := OnLastMessage(ex).next; next.Some? && Live(next.value, user, timeout, start)
  {
  }

  lemma EventStaysLive(s: Settings, now: nat, ex: Exchange, e: LocalEvent, user: ReplyId, timeout: nat, start: nat)
    requires Live(ex, user, timeout, start) && start <= now && !Disturbs(e, user) && TimersAllow(ex, now, e)
    ensures var next := Handle(s, now, ex, e).next; next.Some? && Live(next.value, user, timeout, start)
  {
    if e.Frame? {
      FrameStaysLive(s, now, ex, e.received, e.freshId, user, timeout, start);
    }
  }

  /** Before its timer is due the exchange is open, whatever arrives. */
  lemma {:induction false} OpenThroughout(h: History, events: seq<Timed>, user: ReplyId, timeout: nat, start: nat,
                                          until: nat)
    requires h.exchange.Some? && Live(h.exchange.value, user, timeout, start)
    requires TimersFair(h, events) && Within(events, user, start, until)
    requires timeout < 0x8000_0000 ==> until <= start + timeout
    ensures Run(h, events).exchange.Some? && Live(Run(h, events).exchange.value, user, timeout, start)
  {
    if events != [] {
      var front, last := events[..|events| - 1], events[|events| - 1];
      assert last in events && forall e :: e in front ==> e in events;
      OpenThroughout(h, front, user, timeout, start, until);
      EventStaysLive(last.settings, last.now, Run(h, front).exchange.value, last.event, user, timeout, start);
    }
  }

  /** In every run without a cut the exchange is open when an answer arrives at `until`. */
  ghost predicate OpenUntil(h: History, user: ReplyId, start: nat, until: nat) {
    forall events :: TimersFair(h, events) && Within(events, user, start, until) ==> Run(h, events).exchange.Some?
  }

  ghost predicate OpenForTimelyAnswers(h: History, s: Settings, user: ReplyId, start: nat) {
    forall sentAfter, there, thinking, back :: Timely(s, sentAfter, there, thinking, back) ==>
      OpenUntil(h, user, start, start + sentAfter + there + thinking + back)
  }

  /** Some run without a cut sees the expiry. */
  ghost predicate CanExpire(h: History, user: ReplyId, start: nat) {
    exists events, until :: TimersFair(h, events) && Within(events, user, start, until) && Run(h, events).exchange.None?
  }

  lemma ExpiryRun(h: History, s: Settings, user: ReplyId, start: nat)
    requires JustOpened(h, s, user, start) && MulticastTimeout(s) < 0x8000_0000
    ensures var expiry := [Timed(start + MulticastTimeout(s), s, MulticastExpired)];
            && TimersFair(h, expiry) && Run(h, expiry).exchange.None?
            && forall until :: until > start + MulticastTimeout(s) ==> Within(expiry, user, start, until)
  {
    var expiry := [Timed(start + MulticastTimeout(s), s, MulticastExpired)];
    assert expiry[..|expiry| - 1] == [] && TimersFair(h, []);
    assert Run(h, expiry[..|expiry| - 1]) == h;
  }

  lemma WrappedTimeout(s: Settings)
    requires ValidSettings(s)
    ensures LongestDelay(s) < 0x8000_0000 ==> MulticastTimeout(s) == LongestDelay(s)
  {
    if LongestDelay(s) < 0x8000_0000 {
      ComputedIsBound(s, s.maximumRetransmitCount);
    }
  }

  lemma OpenForTimelyExactly(h: History, s: Settings, user: ReplyId, start: nat)
    requires ValidSettings(s) && JustOpened(h, s, user, start)
    ensures OpenForTimelyAnswers(h, s, user, start)
            <==> LongestDelay(s) < 0x8000_0000 || MulticastTimeout(s) >= 0x8000_0000
  {
    var timeout := MulticastTimeout(s);
    WrappedTimeout(s);
    if LongestDelay(s) < 0x8000_0000 || timeout >= 0x8000_0000 {
      forall sentAfter, there, thinking, back | Timely(s, sentAfter, there, thinking, back)
        ensures OpenUntil(h, user, start, start + sentAfter + there + thinking + back) {
        var until := start + sentAfter + there + thinking + back;
        forall events | TimersFair(h, events) && Within(events, user, start, until)
          ensures Run(h, events).exchange.Some? {
          OpenThroughout(h, events, user, timeout, start, until);
        }
      }
    } else {
      var n := s.maximumRetransmitCount;
      var late := start + Bound(s, n) + MAXIMUM_LATENCY + s.maximumServerResponseDelay + MAXIMUM_LATENCY;
      ExpiryRun(h, s, user, start);
      assert Timely(s, Bound(s, n), MAXIMUM_LATENCY, s.maximumServerResponseDelay, MAXIMUM_LATENCY);
      assert !OpenUntil(h, user, start, late);
    }
  }

  lemma CanExpireExactly(h: History, s: Settings, user: ReplyId, start: nat)
    requires JustOpened(h, s, user, start)
    ensures CanExpire(h, user, start) <==> MulticastTimeout(s) < 0x8000_0000
  {
    if MulticastTimeout(s) < 0x8000_0000 {
      ExpiryRun(h, s, user, start);
      assert Within([Timed(start + MulticastTimeout(s), s, MulticastExpired)], user, start,
                    start + MulticastTimeout(s) + 1);
    } else {
      forall events, until | TimersFair(h, events) && Within(events, user, start, until)
        ensures Run(h, events).exchange.Some? {
        OpenThroughout(h, events, user, MulticastTimeout(s), start, until);
      }
    }
  }

  /** Over runs that nothing cuts off: a multicast exchange is open for every timely answer (section 2.5
      of RFC 7390), and expires at all, exactly when the longest delay fits 31 bits. */
  lemma ExpiryWaitsForTimelyAnswers(h: History, s: Settings, user: ReplyId, start: nat)
    requires ValidSettings(s) && JustOpened(h, s, user, start)
    ensures OpenForTimelyAnswers(h, s, user, start) && CanExpire(h, user, start) <==> LongestDelay(s) < 0x8000_0000
    ensures OpenForTimelyAnswers(h, s, user, start)
            <==> LongestDelay(s) < 0x8000_0000 || MulticastTimeout(s) >= 0x8000_0000
  {
    OpenForTimelyExactly(h, s, user, start);
    CanExpireExactly(h, s, user, start);
    WrappedTimeout(s);
  }

  // The deadline in every run

  /** When the last request of the run was sent: at `start`, or for the last frame that asked for more. */
  function LastSent(h: History, events: seq<Timed>, start: nat): nat {
    if events == [] then start
    else
      var front, last := events[..|events| - 1], events[|events| - 1];
      var before := Run(h, front).exchange;
      if before.Some? && AsksForMore(before.value, last.event) then last.now else LastSent(h, front, start)
  }

  /** A multicast exchange whose timer was started at `sent`. */
  ghost predicate DueFrom(ex: Exchange, timeout: nat, sent: nat) {
    && ex.request.IsMulticast() && TimersMatch(ex.request) && ex.request.multicastTimeout == timeout
    && ex.request.multicastExpireTimer == Armed(sent, timeout)
  }

  lemma FrameKeepsDeadline(s: Settings, now: nat, ex: Exchange, r: Received, freshId: uint16, timeout: nat, sent: nat)
    requires DueFrom(ex, timeout, sent)
    ensures var next := OnFrame(s, now, ex, r, freshId).next;
            next.Some? ==> DueFrom(next.value, timeout, if AsksForMore(ex, Frame(r, freshId)) then now else sent)
  {
    if !IsError(r.reply.code) {
      var accepted := Answered(Accept(ex, r));
      var c := Decide(s, r.reply);
      AnsweredStays(Accept(ex, r));
      CompleteDecides(s, r);
      if c.Finish? {
        LastKeepsRequest(accepted);
      } else {
        var turned := Turned(accepted.request, c);
        assert turned == accepted.request.(message := turned.message);
        SentFrom(now, accepted, turned, freshId, if c.AskForBlock? then r.sender else accepted.request.target,
                 Answers(Accept(ex, r), r), timeout, sent);
      }
    }
  }

  lemma LastKeepsRequest(ex: Exchange)
    requires ex.replies != []
    ensures var next := OnLastMessage(ex).next; next.Some? ==> next.value.request == ex.request
  {
  }

  lemma SentFrom(now: nat, ex: Exchange, r: Request, freshId: uint16, host: Address, answers: seq<Datagram>,
                 timeout: nat, sent: nat)
    requires DueFrom(ex, timeout, sent) && r == ex.request.(message := r.message)
    ensures var next := SendNext(now, ex, r, freshId, host, answers).next;
            next.Some? && DueFrom(next.value, timeout, now)
  {
  }

  lemma EventKeepsDeadline(s: Settings, now: nat, ex: Exchange, e: LocalEvent, timeout: nat, sent: nat)
    requires DueFrom(ex, timeout, sent) && TimersAllow(ex, now, e)
    ensures var next := Handle(s, now, ex, e).next;
            next.Some? ==> DueFrom(next.value, timeout, if AsksForMore(ex, e) then now else sent)
  {
    if e.Frame? {
      FrameKeepsDeadline(s, now, ex, e.received, e.freshId, timeout, sent);
    }
  }

  /** Over every run in which timers fire only when they have run out, whatever arrives: as long as the exchange is
      open its expiry timer runs, given an interval of 31 bits, from the last request on. */
  lemma {:induction false} ExpiryDeadlineExactly(h: History, s: Settings, events: seq<Timed>, user: ReplyId, start: nat)
    requires JustOpened(h, s, user, start) && TimersFair(h, events)
    ensures var ex := Run(h, events).exchange;
            ex.Some? ==> DueFrom(ex.value, MulticastTimeout(s), LastSent(h, events, start))
  {
    if events != [] {
      var front, last := events[..|events| - 1], events[|events| - 1];
      ExpiryDeadlineExactly(h, s, front, user, start);
      if Run(h, front).exchange.Some? {
        EventKeepsDeadline(last.settings, last.now, Run(h, front).exchange.value, last.event, MulticastTimeout(s),
                           LastSent(h, front, start));
      }
    }
  }
}
