/** The theorems about one exchange, for a whole engine that receives raw frames and in which any
    number of other exchanges run at the same time. */
module EngineRuns {
  import opened CoapTypes
  import opened OptionList
  import opened Blocks
  import opened Codec
  import opened Reassembly
  import opened Requests
  import opened Exchanges
  import opened Engine
  import opened Isolation
  import Observation
  import TransmissionTimers
  import Retransmission
  import SeparateResponses
  import Multicasting
  import HostResponses
  import MulticastObservation
  import Download
  import Upload

  // Which frames reach an exchange

  /** By its token; or, when it has no token or one that is in use nowhere, by its message id. */
  ghost predicate Reaches(s: EngineState, m: Message, t: Token) {
    && t in s.exchanges
    && (m.token == t
        || ((m.token == [] || m.token !in s.exchanges) && m.id == s.exchanges[t].request.message.id))
  }

  lemma MatchExactly(s: EngineState, m: Message, t: Token)
    requires TableInvariant(s)
    ensures Match(s.exchanges, m) == Some(t) <==> Reaches(s, m, t)
  {
    if t in s.exchanges {
      ByIdIsUnique(s.exchanges, t);
    }
  }

  /** A frame is processed for exchange `t` if and only if it reaches it; in particular a frame with a
      foreign token does if that token is unknown and its message id is that of the request. */
  lemma ReachesExactly(s: EngineState, frame: Bytes, sender: Address, freshId: uint16, t: Token)
    requires TableInvariant(s) && Decode(frame).Some?
    ensures var reply := Decode(frame).value;
            && (Route(s, FrameReceived(frame, sender, freshId)) == Some((t, Frame(Received(reply, sender), freshId)))
                <==> Reaches(s, reply.message, t))
            && (reply.message.token != t ==>
                  (Reaches(s, reply.message, t)
                   <==> && t in s.exchanges && reply.message.id == s.exchanges[t].request.message.id
                        && (reply.message.token == [] || reply.message.token !in s.exchanges)))
  {
    MatchExactly(s, Decode(frame).value.message, t);
  }

  // Opening an exchange

  /** The event opens an exchange under a token that is new to the engine. */
  ghost predicate Opens(s: EngineState, h: Happening, t: Token) {
    && h.event.SendRequest? && h.event.request.methodCode != 0
    && t == RequestToken(h.event.request, h.event.freshToken) && t != NO_TOKEN && |t| <= 15
    && t !in s.exchanges && Of(t, s.posted) == [] && Of(t, s.sent) == []
    && TableInvariant(s) && Enabled(s, h.now, h.event)
  }

  /** The exchange as the event leaves it. */
  function Opened(s: EngineState, h: Happening, t: Token): History
    requires h.event.SendRequest?
  {
    var e := h.event;
    Start(s.settings, h.now, e.request, e.reply, t, e.freshId, e.randomTimeout)
  }

  ghost predicate NotReopened(events: seq<Happening>, t: Token) {
    forall h :: h in events ==> Leaves(h.event, t)
  }

  lemma OpenedRun(s: EngineState, open: Happening, events: seq<Happening>, t: Token)
    requires Opens(s, open, t) && NotReopened(events, t)
    ensures var s' := Next(s, open.now, open.event);
            && HistoryOf(s', t) == Opened(s, open, t)
            && HistoryOf(RunEngine(s', events), t) == Run(Opened(s, open, t), ConcernsAll(s', events, t))
  {
    BeginIsolated(s, open);
    RunIsolated(Next(s, open.now, open.event), events, t);
  }

  lemma {:induction false} InvariantAlong(s: EngineState, events: seq<Happening>)
    requires TableInvariant(s) && Legal(s, events)
    ensures TableInvariant(RunEngine(s, events))
  {
    if events != [] {
      var front, last := events[..|events| - 1], events[|events| - 1];
      InvariantAlong(s, front);
      NextKeepsInvariant(RunEngine(s, front), last.now, last.event);
    }
  }

  // Raw frames

  /** What a raw frame is for exchange `t`, if it reaches it. */
  ghost function RawFrame(s: EngineState, e: Event, t: Token): Option<Received> {
    if e.FrameReceived? && Decode(e.frame).Some? && Reaches(s, Decode(e.frame).value.message, t)
    then Some(Received(Decode(e.frame).value, e.sender)) else None
  }

  lemma ConcernsFrame(s: EngineState, h: Happening, t: Token)
    requires TableInvariant(s) && (h.event.FrameReceived? ==> Decode(h.event.frame).Some?)
    ensures var local := Concerns(s, h, t);
            && |local| <= 1
            && (local != [] ==> local[0].settings == s.settings)
            && (local != [] && local[0].event.Frame? ==> RawFrame(s, h.event, t) == Some(local[0].event.received))
  {
    if h.event.FrameReceived? {
      ReachesExactly(s, h.event.frame, h.event.sender, h.event.freshId, t);
    }
  }

  /** Every frame the target sends to this exchange answers a request of this exchange; the frames of
      other hosts, and those that reach other exchanges, are any. */
  ghost predicate RawServed(x: Download.Resource, s: EngineState, events: seq<Happening>, t: Token, target: Address)
    requires IsBlockSize(x.size)
  {
    events == []
    || (var front, last := events[..|events| - 1], events[|events| - 1];
        var before := RunEngine(s, front);
        && RawServed(x, s, front, t, target)
        && (RawFrame(before, last.event, t).Some? ==>
              Download.MayArrive(x, HistoryOf(before, t), RawFrame(before, last.event, t).value, target)))
  }

  lemma ServedMore(x: Download.Resource, h: History, events: seq<Timed>, more: seq<Timed>, target: Address)
    requires IsBlockSize(x.size) && Download.Served(x, h, events, target) && |more| <= 1
    requires more != [] && more[0].event.Frame? ==>
               Download.MayArrive(x, Run(h, events), more[0].event.received, target)
    ensures Download.Served(x, h, events + more, target)
  {
    if more == [] {
      assert events + more == events;
    } else {
      assert (events + more)[..|events + more| - 1] == events;
    }
  }

  lemma {:induction false} RawIsServed(x: Download.Resource, s: EngineState, events: seq<Happening>, t: Token,
                                       target: Address)
    requires IsBlockSize(x.size) && RawServed(x, s, events, t, target) && t != NO_TOKEN && NotReopened(events, t)
    requires TableInvariant(s) && Legal(s, events)
    ensures Download.Served(x, HistoryOf(s, t), ConcernsAll(s, events, t), target)
  {
    if events != [] {
      var front, last := events[..|events| - 1], events[|events| - 1];
      RawIsServed(x, s, front, t, target);
      RunIsolated(s, front, t);
      InvariantAlong(s, front);
      ConcernsFrame(RunEngine(s, front), last, t);
      ServedMore(x, HistoryOf(s, t), ConcernsAll(s, front, t), Concerns(RunEngine(s, front), last, t), target);
    }
  }

  /** A download in the engine, on raw frames: whatever the other exchanges do and other hosts send, the
      user gets the body or no success content, if and only if no empty message of the target cuts
      the exchange off. */
  lemma DownloadInEngine(x: Download.Resource, s: EngineState, open: Happening, events: seq<Happening>, t: Token)
    requires Opens(s, open, t) && NotReopened(events, t) && Legal(Next(s, open.now, open.event), events)
    requires IsBlockSize(x.size) && Download.FetchRequest(open.event.request)
    requires RawServed(x, Next(s, open.now, open.event), events, t, open.event.request.target)
    ensures var s', target := Next(s, open.now, open.event), open.event.request.target;
            Download.Sound(x, HistoryOf(RunEngine(s', events), t), target)
            <==> !Download.CutOff(Opened(s, open, t), ConcernsAll(s', events, t), target) || x.body == []
  {
    var e := open.event;
    var s' := Next(s, open.now, e);
    OpenedRun(s, open, events, t);
    NextKeepsInvariant(s, open.now, e);
    RawIsServed(x, s', events, t, e.request.target);
    Download.DownloadDeliversOnlyTheBody(x, s.settings, open.now, e.request, e.reply, t, e.freshId, e.randomTimeout,
                                         ConcernsAll(s', events, t));
  }

  /** Every frame the target sends to this exchange echoes a block of this exchange, and the block size
      in the settings stays. */
  ghost predicate RawEchoed(x: Upload.Content, s: EngineState, events: seq<Happening>, t: Token, target: Address)
    requires IsBlockSize(x.size)
  {
    events == []
    || (var front, last := events[..|events| - 1], events[|events| - 1];
        var before := RunEngine(s, front);
        && RawEchoed(x, s, front, t, target) && before.settings.blockSize == x.size
        && (RawFrame(before, last.event, t).Some? ==>
              Upload.MayArrive(x, HistoryOf(before, t), RawFrame(before, last.event, t).value, target)))
  }

  lemma EchoedMore(x: Upload.Content, h: History, events: seq<Timed>, more: seq<Timed>, target: Address)
    requires IsBlockSize(x.size) && Upload.Echoed(x, h, events, target) && |more| <= 1
    requires more != [] ==> more[0].settings.blockSize == x.size
    requires more != [] && more[0].event.Frame? ==>
               Upload.MayArrive(x, Run(h, events), more[0].event.received, target)
    ensures Upload.Echoed(x, h, events + more, target)
  {
    if more == [] {
      assert events + more == events;
    } else {
      assert (events + more)[..|events + more| - 1] == events;
    }
  }

  lemma {:induction false} RawIsEchoed(x: Upload.Content, s: EngineState, events: seq<Happening>, t: Token,
                                       target: Address)
    requires IsBlockSize(x.size) && RawEchoed(x, s, events, t, target) && t != NO_TOKEN && NotReopened(events, t)
    requires TableInvariant(s) && Legal(s, events)
    ensures Upload.Echoed(x, HistoryOf(s, t), ConcernsAll(s, events, t), target)
  {
    if events != [] {
      var front, last := events[..|events| - 1], events[|events| - 1];
      RawIsEchoed(x, s, front, t, target);
      RunIsolated(s, front, t);
      InvariantAlong(s, front);
      ConcernsFrame(RunEngine(s, front), last, t);
      EchoedMore(x, HistoryOf(s, t), ConcernsAll(s, front, t), Concerns(RunEngine(s, front), last, t), target);
    }
  }

  /** An upload in the engine, on raw frames: success is reported only after the whole payload has been
      sent, if and only if no empty message of the target cuts the exchange off early. */
  lemma UploadInEngine(s: EngineState, open: Happening, events: seq<Happening>, t: Token)
    requires Opens(s, open, t) && NotReopened(events, t) && Legal(Next(s, open.now, open.event), events)
    requires s.settings.blockSize > 0 && Upload.UploadRequest(open.event.request, s.settings.blockSize)
    requires RawEchoed(Upload.Content(open.event.request.message.payload, s.settings.blockSize),
                       Next(s, open.now, open.event), events, t, open.event.request.target)
    ensures var x := Upload.Content(open.event.request.message.payload, s.settings.blockSize);
            var s', target := Next(s, open.now, open.event), open.event.request.target;
            Upload.Sound(x, HistoryOf(RunEngine(s', events), t), target)
            <==> !Upload.CutEarly(x, Opened(s, open, t), ConcernsAll(s', events, t), target)
  {
    var e := open.event;
    var s' := Next(s, open.now, e);
    var x := Upload.Content(e.request.message.payload, s.settings.blockSize);
    OpenedRun(s, open, events, t);
    NextKeepsInvariant(s, open.now, e);
    RawIsEchoed(x, s', events, t, e.request.target);
    Upload.StartIsSound(s.settings, open.now, e.request, e.reply, t, e.freshId, e.randomTimeout);
    Upload.UploadIsSound(x, Opened(s, open, t), ConcernsAll(s', events, t), e.request.target);
  }

  /** A cancelled observation in the engine stays quiet in every continuation. */
  lemma CancelledInEngine(s: EngineState, events: seq<Happening>, t: Token)
    requires t in s.exchanges && t != NO_TOKEN && s.exchanges[t].request.observeCancelled && NotReopened(events, t)
    ensures var before, after := Of(t, s.posted), Of(t, RunEngine(s, events).posted);
            before <= after && Observation.NoNotification(after[|before|..])
  {
    RunIsolated(s, events, t);
    Observation.CancelledStaysQuiet(HistoryOf(s, t), ConcernsAll(s, events, t));
  }

  // Multicast

  lemma FairMore(h: History, events: seq<Timed>, more: seq<Timed>)
    requires Multicasting.TimersFair(h, events) && |more| <= 1
    requires more != [] && Run(h, events).exchange.Some? ==>
               TimersAllow(Run(h, events).exchange.value, more[0].now, more[0].event)
    ensures Multicasting.TimersFair(h, events + more)
  {
    if more == [] {
      assert events + more == events;
    } else {
      assert (events + more)[..|events + more| - 1] == events;
    }
  }

  lemma ConcernsTimer(s: EngineState, h: Happening, t: Token)
    requires Enabled(s, h.now, h.event)
    ensures var local := Concerns(s, h, t);
            && |local| <= 1
            && (local != [] && t in s.exchanges ==> TimersAllow(s.exchanges[t], local[0].now, local[0].event))
  {
  }

  /** In the engine timers fire only when they have run out. */
  lemma {:induction false} LegalIsFair(s: EngineState, events: seq<Happening>, t: Token)
    requires Legal(s, events) && t != NO_TOKEN && NotReopened(events, t)
    ensures Multicasting.TimersFair(HistoryOf(s, t), ConcernsAll(s, events, t))
  {
    if events != [] {
      var front, last := events[..|events| - 1], events[|events| - 1];
      LegalIsFair(s, front, t);
      RunIsolated(s, front, t);
      ConcernsTimer(RunEngine(s, front), last, t);
      FairMore(HistoryOf(s, t), ConcernsAll(s, front, t), Concerns(RunEngine(s, front), last, t));
    }
  }

  /** A multicast request in the engine, with or without an Observe option: the user gets each complete
      response of a host with the merge of its own frames under the conditions for one exchange. */
  lemma MulticastInEngine(s: EngineState, open: Happening, events: seq<Happening>, t: Token, host: Address)
    requires Opens(s, open, t) && NotReopened(events, t) && Legal(Next(s, open.now, open.event), events)
    requires open.event.request.target.Multicast?
    requires SmallNumbers(Multicasting.AllFrames(ConcernsAll(Next(s, open.now, open.event), events, t)))
    ensures !HasOption(open.event.request.message.options, OBSERVE) ==>
              SeparatedInEngine(Opened(s, open, t), HistoryOf(RunEngine(Next(s, open.now, open.event), events), t),
                                ConcernsAll(Next(s, open.now, open.event), events, t), open.event.reply, host)
    ensures HasOption(open.event.request.message.options, OBSERVE) ==>
              WatchedInEngine(Opened(s, open, t), HistoryOf(RunEngine(Next(s, open.now, open.event), events), t),
                              ConcernsAll(Next(s, open.now, open.event), events, t), open.event.reply, host)
  {
    var e := open.event;
    var s' := Next(s, open.now, e);
    var h, local := Opened(s, open, t), ConcernsAll(s', events, t);
    OpenedRun(s, open, events, t);
    LegalIsFair(s', events, t);
    if HasOption(e.request.message.options, OBSERVE) {
      MulticastObservation.WatchStarts(s.settings, open.now, e.request, e.reply, t, e.freshId, e.randomTimeout);
      MulticastObservation.WatchedHostGetsItsOwnExactly(h, local, e.reply, host);
    } else {
      Multicasting.MulticastStarts(s.settings, open.now, e.request, e.reply, t, e.freshId, e.randomTimeout);
      Multicasting.HostGetsItsOwnExactly(h, local, e.reply, host);
      HostResponses.EachResponseIsOwnExactly(h, local, e.reply, host);
    }
  }

  /** Without Observe: the user is told of a host what the host's own frames make if and only if none of
      its complete responses comes after a disturbance, and each response is its own merge if,
      besides, what was stored before is settled; with comparable copies, only then. */
  ghost predicate SeparatedInEngine(h: History, h': History, local: seq<Timed>, user: ReplyId, host: Address) {
    var early := FromSender(Multicasting.AllFrames(Multicasting.Undisturbed(local, user)), host);
    var intime := Multicasting.CountLast(Observation.Classify, Multicasting.LateFrames(local, user, host)) == 0;
    var own := HostResponses.ToldItsOwn(h, h', local, user, host);
    && (Multicasting.Told(h, h', local, user, host) <==> intime)
    && (intime && HostResponses.AllSettled(early) ==> own)
    && (HostResponses.AllComparable(early) ==> (own <==> intime && HostResponses.AllSettled(early)))
  }

  /** With Observe: the user hears of a host what the host's own responses make if none comes after the
      end of the observation and the blocks lost to other hosts have come again; with comparable
      copies, only then; where no block comes twice, exactly without interleaving. */
  ghost predicate WatchedInEngine(h: History, h': History, local: seq<Timed>, user: ReplyId, host: Address) {
    var frames := Multicasting.AllFrames(MulticastObservation.Watched(local, user));
    var missed := MulticastObservation.Missed(local, user, host);
    var intime := Multicasting.CountLast(Observation.Classify, missed) == 0;
    var own := MulticastObservation.HearsItsOwn(h, h', local, user, host);
    && (intime && MulticastObservation.AllRecovered(frames, host) ==> own)
    && (MulticastObservation.LossesComparable(frames, host) ==>
          (own <==> intime && MulticastObservation.AllRecovered(frames, host)))
    && (MulticastObservation.AllDistinct(frames, host) ==>
          (own <==> intime && !MulticastObservation.Interleaved(Observation.Classify, frames, host)))
  }

  // Observations, answers, timers

  /** An observation in the engine: one notification per complete response, from exactly its frames, up
      to the end of the observation, and none behind it. */
  lemma NotificationsInEngine(s: EngineState, open: Happening, events: seq<Happening>, t: Token)
    requires Opens(s, open, t) && NotReopened(events, t)
    requires !open.event.request.target.Multicast? && HasOption(open.event.request.message.options, OBSERVE)
    ensures var s', target := Next(s, open.now, open.event), open.event.request.target;
            var h, local := Opened(s, open, t), ConcernsAll(s', events, t);
            && HistoryOf(RunEngine(s', events), t) == Run(h, local)
            && Observation.NotifiedOutcome(h, local, open.event.reply, target)
  {
    var e := open.event;
    OpenedRun(s, open, events, t);
    Observation.ObservationStarts(s.settings, open.now, e.request, e.reply, t, e.freshId, e.randomTimeout);
    Observation.NotificationsAreFresh(Opened(s, open, t), ConcernsAll(Next(s, open.now, e), events, t), e.reply,
                                      e.request.target);
  }

  /** The empty messages an exchange makes the engine send are exactly those it owes. */
  lemma AnswersInEngine(s: EngineState, events: seq<Happening>, t: Token)
    requires t != NO_TOKEN && NotReopened(events, t)
    requires t in s.exchanges ==> s.exchanges[t].request.methodCode != 0
    ensures SeparateResponses.Empties(Of(t, RunEngine(s, events).sent))
         == SeparateResponses.Empties(Of(t, s.sent))
            + SeparateResponses.OwedAll(HistoryOf(s, t), ConcernsAll(s, events, t))
  {
    RunIsolated(s, events, t);
    SeparateResponses.AnswersExactly(HistoryOf(s, t), ConcernsAll(s, events, t));
  }

  /** A unicast exchange that hears nothing more from some point of the run of the engine on: at rest, it
      has ended if and only if it was certain to end at that point. */
  lemma EndsInEngine(s: EngineState, open: Happening, past: seq<Happening>, events: seq<Happening>, t: Token)
    requires Opens(s, open, t) && NotReopened(past, t) && NotReopened(events, t)
    requires !open.event.request.target.Multicast?
    requires var s1 := RunEngine(Next(s, open.now, open.event), past);
             && t in s1.exchanges
             && TransmissionTimers.Silent(s1.settings, HistoryOf(s1, t), ConcernsAll(s1, events, t))
    ensures var s1 := RunEngine(Next(s, open.now, open.event), past);
            var s2, ends := RunEngine(s1, events), TransmissionTimers.WillEnd(s1.settings, s1.exchanges[t].request);
            && (TransmissionTimers.AtRest(HistoryOf(s2, t)) ==> (t !in s2.exchanges <==> ends))
            && (!ends ==> t in s2.exchanges)
  {
    var s1 := RunEngine(Next(s, open.now, open.event), past);
    TimersInEngine(s, open, past, t);
    RunIsolated(s1, events, t);
    TransmissionTimers.EndsExactly(s1.settings, HistoryOf(s1, t), ConcernsAll(s1, events, t));
  }

  lemma TimersInEngine(s: EngineState, open: Happening, past: seq<Happening>, t: Token)
    requires Opens(s, open, t) && NotReopened(past, t)
    ensures var s1 := RunEngine(Next(s, open.now, open.event), past);
            t in s1.exchanges ==>
              && TransmissionTimers.TimersMatch(s1.exchanges[t].request)
              && s1.exchanges[t].request.target == open.event.request.target
  {
    var e := open.event;
    OpenedRun(s, open, past, t);
    TransmissionTimers.StartTimers(s.settings, open.now, e.request, e.reply, t, e.freshId, e.randomTimeout);
    TransmissionTimers.StartsAtTarget(s.settings, open.now, e.request, e.reply, t, e.freshId, e.randomTimeout);
    TransmissionTimers.ReachableTimers(Opened(s, open, t), ConcernsAll(Next(s, open.now, e), past, t));
  }

  /** Fully tried, the last retransmission within the span, given up within the wait. */
  ghost predicate TriedInTime(s: Settings, h: History, h': History, local: seq<Timed>, start: nat, t0: nat,
                              user: ReplyId) {
    var n := s.maximumRetransmitCount;
    && h.exchange.Some? && Retransmission.FullyTried(s, h, h', local, start, t0, user)
    && Retransmission.Elapsed(t0, n) <= MaximumTransmitSpan(s)
    && Retransmission.Elapsed(t0, n + 1) <= MaximumTransmitWait(s)
  }

  /** A Confirmable request to one host, with settings whose transmit wait fits 31 bits. */
  predicate Reliable(s: Settings, u: UserRequest) {
    && u.message.mtype.Confirmable? && !u.target.Multicast? && s.ackTimeout > 0
    && Retransmission.Bound(s, s.maximumRetransmitCount + 1) < 0x8000_0000
  }

  lemma TriedLocally(s: EngineState, open: Happening, t: Token, local: seq<Timed>)
    requires Opens(s, open, t) && Reliable(s.settings, open.event.request)
    requires Retransmission.Unanswered(s.settings, Opened(s, open, t), local)
    ensures TriedInTime(s.settings, Opened(s, open, t), Run(Opened(s, open, t), local), local, open.now,
                        InitialTimeout(s.settings, Confirmable, open.event.randomTimeout), open.event.reply)
  {
    var e := open.event;
    AloneInTime(s.settings, open.now, e.request, e.reply, t, e.freshId, e.randomTimeout, local);
  }

  lemma AloneInTime(s: Settings, now: nat, u: UserRequest, reply: ReplyId, t: Token, id: uint16, randomTimeout: nat,
                    local: seq<Timed>)
    requires ValidSettings(s) && Reliable(s, u)
    requires s.ackTimeout < MaximumTimeout(s) ==> s.ackTimeout <= randomTimeout < MaximumTimeout(s)
    requires Retransmission.Unanswered(s, Start(s, now, u, reply, t, id, randomTimeout), local)
    ensures var h := Start(s, now, u, reply, t, id, randomTimeout);
            TriedInTime(s, h, Run(h, local), local, now, InitialTimeout(s, Confirmable, randomTimeout), reply)
  {
    Retransmission.ReliableTransmission(s, now, u, reply, t, id, randomTimeout, local);
  }

  /** A Confirmable request that is never answered, in the engine: fully tried, within span and wait. */
  lemma ReliableInEngine(s: EngineState, open: Happening, events: seq<Happening>, t: Token, local: seq<Timed>)
    requires Opens(s, open, t) && NotReopened(events, t) && Reliable(s.settings, open.event.request)
    requires local == ConcernsAll(Next(s, open.now, open.event), events, t)
    requires Retransmission.Unanswered(s.settings, Opened(s, open, t), local)
    ensures TriedInTime(s.settings, Opened(s, open, t),
                        HistoryOf(RunEngine(Next(s, open.now, open.event), events), t), local, open.now,
                        InitialTimeout(s.settings, Confirmable, open.event.randomTimeout), open.event.reply)
  {
    OpenedRun(s, open, events, t);
    TriedLocally(s, open, t, local);
  }
}
