/** When a timer of an exchange runs, and whether an exchange that hears nothing more ever ends. */
module TransmissionTimers {
  import opened CoapTypes
  import opened StableOrder
  import opened OptionList
  import opened Blocks
  import opened Codec
  import opened Reassembly
  import opened Requests
  import opened Exchanges
  import opened FrameFacts
  import opened Retransmission

  predicate HasTimer(r: Request) {
    r.timeoutTimer.Some? || r.maxTransmitWaitTimer.Some?
  }

  /** The retry timer runs with this timeout. */
  predicate Retries31(timeout: nat) {
    0 < timeout < 0x8000_0000
  }

  /** Which timers run, as a function of what is being transmitted. */
  predicate TimersMatch(r: Request) {
    && r.timeout < 0x1_0000_0000 && r.maxTransmitWait < 0x1_0000_0000
    && if r.IsMulticast() || !r.transmissionInProgress then !HasTimer(r)
       else (r.maxTransmitWaitTimer.Some? <==> WaitRuns(r.maxTransmitWait))
            && (r.timeoutTimer.Some? <==> Retries31(r.timeout))
  }

  lemma TransmittedTimers(r: Request, now: nat)
    requires TimersMatch(r)
    ensures var r' := Transmitted(r, now);
            TimersMatch(r') && (!r.IsMulticast() ==> r'.transmissionInProgress)
  {
  }

  lemma StoppedTimers(r: Request)
    requires TimersMatch(r)
    ensures var r' := StopTransmission(r);
            TimersMatch(r') && (!r.IsMulticast() ==> !r'.transmissionInProgress && !HasTimer(r'))
  {
  }

  lemma ProceedTimers(now: nat, ex: Exchange, sender: Address, c: Continuation, freshId: uint16, answers: seq<Datagram>)
    requires ex.replies != [] && TimersMatch(ex.request)
    ensures var next := Proceed(now, ex, sender, c, freshId, answers).next;
            next.Some? ==>
              && TimersMatch(next.value.request)
              && next.value.request.target == ex.request.target
              && next.value.request.maxTransmitWait == ex.request.maxTransmitWait
              && (c.Finish? ==> next.value.request == ex.request)
              && (!c.Finish? && !ex.request.IsMulticast() ==> next.value.request.transmissionInProgress)
  {
    if !c.Finish? {
      var turned := Turned(ex.request, c);
      assert turned == ex.request.(message := turned.message);
      TransmittedTimers(turned.(message := turned.message.(id := freshId)), now);
    }
  }

  lemma FrameTimers(s: Settings, now: nat, ex: Exchange, r: Received, freshId: uint16)
    requires TimersMatch(ex.request)
    ensures var next := OnFrame(s, now, ex, r, freshId).next;
            next.Some? ==>
              && TimersMatch(next.value.request) && next.value.request.target == ex.request.target
              && (Accepts(ex, r) && !ex.request.IsMulticast() ==>
                    (next.value.request.transmissionInProgress <==> !Complete(r)))
  {
    if Accepts(ex, r) && !IsError(r.reply.code) {
      var accepted := Accept(ex, r);
      StoppedTimers(ex.request);
      CompleteDecides(s, r);
      AnsweredTimers(accepted);
      ProceedTimers(now, Answered(accepted), r.sender, Decide(s, r.reply), freshId, Answers(accepted, r));
    }
  }

  lemma AnsweredTimers(ex: Exchange)
    requires TimersMatch(ex.request)
    ensures TimersMatch(Answered(ex).request) && Answered(ex).request.target == ex.request.target
    ensures Answered(ex).request.transmissionInProgress == ex.request.transmissionInProgress
  {
  }

  /** Every event keeps timers and transmission in step. */
  lemma HandleTimers(s: Settings, now: nat, ex: Exchange, e: LocalEvent)
    requires TimersMatch(ex.request)
    ensures var next := Handle(s, now, ex, e).next;
            next.Some? ==> TimersMatch(next.value.request) && next.value.request.target == ex.request.target
  {
    if e.Frame? {
      FrameTimers(s, now, ex, e.received, e.freshId);
    } else if e.Timeout? {
      TransmittedTimers(ex.request, now);
    }
  }

  lemma StartTimers(s: Settings, now: nat, u: UserRequest, reply: ReplyId, token: Token, id: uint16, randomTimeout: nat)
    requires ValidSettings(s) && randomTimeout < 0x1_0000_0000
    ensures var h := Start(s, now, u, reply, token, id, randomTimeout);
            && h.exchange.Some? && TimersMatch(h.exchange.value.request)
            && (!u.target.Multicast? ==> h.exchange.value.request.transmissionInProgress)
  {
    var r := InitialRequest(s, u, token, id, randomTimeout);
    assert TimersMatch(r);
    TransmittedTimers(r, now);
  }

  lemma StartsAtTarget(s: Settings, now: nat, u: UserRequest, reply: ReplyId, token: Token, id: uint16,
                       randomTimeout: nat)
    ensures var h := Start(s, now, u, reply, token, id, randomTimeout);
            h.exchange.Some? && h.exchange.value.request.target == u.target
  {
  }

  /** In every reachable state of an exchange: its timers match its transmission. */
  lemma {:induction false} ReachableTimers(h: History, events: seq<Timed>)
    requires h.exchange.Some? && TimersMatch(h.exchange.value.request)
    ensures var h' := Run(h, events);
            h'.exchange.Some? ==>
              && TimersMatch(h'.exchange.value.request)
              && h'.exchange.value.request.target == h.exchange.value.request.target
  {
    if events != [] {
      var front, last := events[..|events| - 1], events[|events| - 1];
      ReachableTimers(h, front);
      if Run(h, front).exchange.Some? {
        HandleTimers(last.settings, last.now, Run(h, front).exchange.value, last.event);
      }
    }
  }

  /** A unicast exchange has a running timer exactly while a transmission is in progress, provided its
      transmit wait is one a timer can be started with; with a longer one only the retry timer is
      left, and it must have an interval of its own that fits. */
  lemma TimerRunsExactly(h: History, events: seq<Timed>)
    requires h.exchange.Some? && TimersMatch(h.exchange.value.request) && !h.exchange.value.request.IsMulticast()
    requires Run(h, events).exchange.Some?
    ensures var r := Run(h, events).exchange.value.request;
            && (HasTimer(r) <==> r.transmissionInProgress && (WaitRuns(r.maxTransmitWait) || Retries31(r.timeout)))
            && (WaitRuns(r.maxTransmitWait) ==> (HasTimer(r) <==> r.transmissionInProgress))
  {
    ReachableTimers(h, events);
  }

  /** An accepted frame that leaves its exchange open leaves a transmission in progress exactly when
      it asks for another block; a notification and an empty acknowledgment leave no timer. */
  lemma StoppedExactly(s: Settings, now: nat, ex: Exchange, r: Received, freshId: uint16)
    requires TimersMatch(ex.request) && !ex.request.IsMulticast() && Accepts(ex, r)
    requires OnFrame(s, now, ex, r, freshId).next.Some?
    ensures var request := OnFrame(s, now, ex, r, freshId).next.value.request;
            && (request.transmissionInProgress <==> !Complete(r))
            && (Complete(r) ==> !HasTimer(request))
  {
    FrameTimers(s, now, ex, r, freshId);
  }

  // Runs in which nothing more is received

  /** The retransmissions still allowed. */
  function Remaining(s: Settings, r: Request): nat {
    if r.message.mtype.Confirmable? && r.retransmissionCounter < s.maximumRetransmitCount
    then s.maximumRetransmitCount - r.retransmissionCounter else 0
  }

  /** One of the timers will end the exchange: the transmit-wait timer, or the retry timer, which must
      run through all remaining waits. */
  predicate WillEnd(s: Settings, r: Request) {
    && r.transmissionInProgress
    && (WaitRuns(r.maxTransmitWait) || (r.timeout > 0 && RetryRuns(r.timeout, Remaining(s, r))))
  }

  /** Under fixed settings, no frame comes, nothing is aborted, and timers fire when they have run
      out. */
  ghost predicate Silent(s: Settings, h: History, events: seq<Timed>) {
    events == []
    || (var front, last := events[..|events| - 1], events[|events| - 1];
        && Silent(s, h, front) && last.settings == s && !last.event.Frame? && !last.event.Aborted?
        && !last.event.MulticastExpired?
        && (Run(h, front).exchange.Some? ==> TimersAllow(Run(h, front).exchange.value, last.now, last.event)))
  }

  function TimerEvents(events: seq<Timed>): nat {
    if events == [] then 0
    else TimerEvents(events[..|events| - 1])
         + if events[|events| - 1].event.Timeout? || events[|events| - 1].event.WaitExpired? then 1 else 0
  }

  lemma {:induction false} WaitShift(t: nat, m: nat)
    ensures Wait(2 * t, m) == Wait(t, m + 1)
  {
    if m > 0 {
      WaitShift(t, m - 1);
    }
  }

  lemma RetriedTimers(s: Settings, now: nat, r: Request)
    requires TimersMatch(r) && !r.IsMulticast() && r.timeoutTimer.Some? && Remaining(s, r) > 0
    ensures var r' := Transmitted(r, now);
            && Remaining(s, r') == Remaining(s, r) - 1 && (WillEnd(s, r') <==> WillEnd(s, r))
  {
    var r' := Transmitted(r, now);
    assert r'.timeout == 2 * r.timeout && r'.retransmissionCounter == r.retransmissionCounter + 1;
    WaitShift(r.timeout, Remaining(s, r'));
  }

  /** What a silent event does: it retries, leaving the end as certain as it was; or it ends the
      exchange, which was certain; or it does not touch the transmission. */
  lemma SilentStep(s: Settings, now: nat, ex: Exchange, e: LocalEvent)
    requires TimersMatch(ex.request) && !ex.request.IsMulticast() && TimersAllow(ex, now, e)
    requires !e.Frame? && !e.Aborted? && !e.MulticastExpired?
    ensures var next, timer := Handle(s, now, ex, e).next, e.Timeout? || e.WaitExpired?;
            if next.None? then timer && WillEnd(s, ex.request)
            else && (WillEnd(s, next.value.request) <==> WillEnd(s, ex.request))
                 && Remaining(s, next.value.request) + (if timer then 1 else 0) == Remaining(s, ex.request)
  {
    if e.Timeout? {
      if Remaining(s, ex.request) > 0 {
        RetriedTimers(s, now, ex.request);
      } else {
        assert Wait(ex.request.timeout, 0) == ex.request.timeout;
      }
    }
  }

  /** Where a silent run can be. */
  ghost predicate SilentOutcome(s: Settings, r: Request, h': History, fired: nat) {
    if h'.exchange.None? then WillEnd(s, r) && fired <= Remaining(s, r) + 1
    else
      var r' := h'.exchange.value.request;
      && TimersMatch(r') && !r'.IsMulticast() && (WillEnd(s, r') <==> WillEnd(s, r))
      && Remaining(s, r') + fired == Remaining(s, r)
  }

  lemma SilentOutcomeStep(s: Settings, r: Request, h: History, e: Timed, fired: nat)
    requires h.exchange.Some? && SilentOutcome(s, r, h, fired)
    requires e.settings == s && !e.event.Frame? && !e.event.Aborted? && !e.event.MulticastExpired?
    requires TimersAllow(h.exchange.value, e.now, e.event)
    ensures SilentOutcome(s, r, Step(h, e), fired + if e.event.Timeout? || e.event.WaitExpired? then 1 else 0)
  {
    SilentStep(s, e.now, h.exchange.value, e.event);
    HandleTimers(s, e.now, h.exchange.value, e.event);
  }

  /** Every silent run, until it has ended: the exchange ends only if that was certain from the start,
      after at most one timer event more than retransmissions remained. */
  lemma {:induction false} SilentRun(s: Settings, h: History, events: seq<Timed>)
    requires h.exchange.Some? && TimersMatch(h.exchange.value.request) && !h.exchange.value.request.IsMulticast()
    requires Silent(s, h, events)
    ensures Run(h, events).exchange.Some? ==>
              SilentOutcome(s, h.exchange.value.request, Run(h, events), TimerEvents(events))
    ensures Run(h, events).exchange.None? ==> WillEnd(s, h.exchange.value.request)
  {
    if events != [] {
      var front, last := events[..|events| - 1], events[|events| - 1];
      SilentRun(s, h, front);
      if Run(h, front).exchange.Some? {
        SilentOutcomeStep(s, h.exchange.value.request, Run(h, front), last, TimerEvents(front));
      }
    }
  }

  lemma TimerWhileWillEnd(s: Settings, r: Request)
    requires TimersMatch(r) && !r.IsMulticast() && WillEnd(s, r)
    ensures HasTimer(r)
  {
    WaitGrows(r.timeout, 0, Remaining(s, r));
  }

  /** Nothing can fire any more. */
  predicate AtRest(h: History) {
    h.exchange.Some? ==> !HasTimer(h.exchange.value.request)
  }

  /** An exchange that hears nothing more: a silent run that is at rest has ended it if and only if it
      was certain to end; and every silent run comes to rest, since timers can fire only
      `Remaining + 1` times. */
  lemma EndsExactly(s: Settings, h: History, events: seq<Timed>)
    requires h.exchange.Some? && TimersMatch(h.exchange.value.request) && !h.exchange.value.request.IsMulticast()
    requires Silent(s, h, events)
    ensures var r, h' := h.exchange.value.request, Run(h, events);
            && (AtRest(h') ==> (h'.exchange.None? <==> WillEnd(s, r)))
            && (!WillEnd(s, r) ==> h'.exchange.Some?)
            && (h'.exchange.Some? ==> TimerEvents(events) <= Remaining(s, r))
            && (WaitRuns(r.maxTransmitWait) ==> (WillEnd(s, r) <==> r.transmissionInProgress))
  {
    SilentRun(s, h, events);
    if Run(h, events).exchange.Some? && WillEnd(s, h.exchange.value.request) {
      TimerWhileWillEnd(s, Run(h, events).exchange.value.request);
    }
  }

  /** Hence an exchange left open by a complete response, a notification or an empty acknowledgment, is
      never given up by itself. */
  lemma StoppedNeverEnds(s: Settings, now: nat, h: History, r: Received, freshId: uint16, events: seq<Timed>)
    requires h.exchange.Some? && TimersMatch(h.exchange.value.request) && !h.exchange.value.request.IsMulticast()
    requires Accepts(h.exchange.value, r) && Complete(r)
    requires var effect := OnFrame(s, now, h.exchange.value, r, freshId);
             && effect.next.Some?
             && Silent(s, History(effect.next, h.posts + effect.posts, h.sends + effect.sends), events)
    ensures var effect := OnFrame(s, now, h.exchange.value, r, freshId);
            Run(History(effect.next, h.posts + effect.posts, h.sends + effect.sends), events).exchange.Some?
  {
    var effect := OnFrame(s, now, h.exchange.value, r, freshId);
    FrameTimers(s, now, h.exchange.value, r, freshId);
    EndsExactly(s, History(effect.next, h.posts + effect.posts, h.sends + effect.sends), events);
  }
}
