/** What the engine does for one exchange depends on the events of that exchange alone:
    a run of the whole engine, seen through one token, is a run of that exchange. */
module Isolation {
  import opened CoapTypes
  import opened Codec
  import opened Requests
  import opened Exchanges
  import opened Engine

  /** The log entries made for token `t`. */
  function Of<T>(t: Token, log: seq<(Token, T)>): seq<T> {
    if log == [] then []
    else Of(t, log[..|log| - 1]) + if log[|log| - 1].0 == t then [log[|log| - 1].1] else []
  }

  function HistoryOf(s: EngineState, t: Token): History {
    History(if t in s.exchanges then Some(s.exchanges[t]) else None, Of(t, s.posted), Of(t, s.sent))
  }

  lemma {:induction false} OfTagged<T>(t: Token, log: seq<(Token, T)>, u: Token, xs: seq<T>)
    ensures Of(t, log + Tagged(u, xs)) == Of(t, log) + if t == u then xs else []
  {
    var all := log + Tagged(u, xs);
    if xs == [] {
      assert all == log;
    } else {
      var front := xs[..|xs| - 1];
      OfTagged(t, log, u, front);
      assert all[..|all| - 1] == log + Tagged(u, front);
      assert all[|all| - 1] == (u, xs[|xs| - 1]);
      assert t == u ==> xs == front + [xs[|xs| - 1]];
    }
  }

  lemma CommitIsolated(s: EngineState, u: Token, effect: Effect, t: Token)
    ensures var h, h' := HistoryOf(s, t), HistoryOf(Commit(s, u, effect), t);
            h' == if t == u then History(effect.next, h.posts + effect.posts, h.sends + effect.sends) else h
  {
    OfTagged(t, s.posted, u, effect.posts);
    OfTagged(t, s.sent, u, effect.sends);
  }

  /** What an engine event is for the exchange with token `t`: at most one event. */
  ghost function Concerns(s: EngineState, h: Happening, t: Token): seq<Timed> {
    var route := Route(s, h.event);
    if route.Some? && route.value.0 == t then [Timed(h.now, s.settings, route.value.1)]
    else if h.event.ReplyGone? then [Timed(h.now, s.settings, ReplyDestroyed(h.event.reply))]
    else []
  }

  /** The events of the exchange with token `t` in a run. */
  ghost function ConcernsAll(s: EngineState, events: seq<Happening>, t: Token): seq<Timed> {
    if events == [] then []
    else
      var front := events[..|events| - 1];
      ConcernsAll(s, front, t) + Concerns(RunEngine(s, front), events[|events| - 1], t)
  }

  /** The event does not open a new exchange under token `t`. */
  predicate Leaves(e: Event, t: Token) {
    e.SendRequest? && e.request.methodCode != 0 ==> RequestToken(e.request, e.freshToken) != t
  }

  lemma RunOne(h: History, e: Timed)
    ensures Run(h, [e]) == Step(h, e)
  {
    assert [e][..0] == [];
  }

  lemma {:induction false} RunConcat(h: History, a: seq<Timed>, b: seq<Timed>)
    ensures Run(h, a + b) == Run(Run(h, a), b)
    decreases |b|
  {
    if b == [] {
      assert a + b == a;
    } else {
      var front := b[..|b| - 1];
      RunConcat(h, a, front);
      assert (a + b)[..|a + b| - 1] == a + front;
    }
  }

  lemma RoutedToTable(s: EngineState, e: Event)
    ensures Route(s, e).Some? ==> Route(s, e).value.0 in s.exchanges
  {
  }

  /** One engine event, seen through token `t`. */
  lemma StepIsolated(s: EngineState, h: Happening, t: Token)
    requires t != NO_TOKEN && Leaves(h.event, t)
    ensures HistoryOf(Next(s, h.now, h.event), t) == Run(HistoryOf(s, t), Concerns(s, h, t))
  {
    var e := h.event;
    var route := Route(s, e);
    RoutedToTable(s, e);
    if route.Some? {
      var (u, local) := route.value;
      CommitIsolated(s, u, Handle(s.settings, h.now, s.exchanges[u], local), t);
      if u == t {
        RunOne(HistoryOf(s, t), Timed(h.now, s.settings, local));
      }
    } else if e.SendRequest? && e.request.methodCode != 0 {
      var u := RequestToken(e.request, e.freshToken);
      CommitIsolated(s, u, Begin(s.settings, h.now, e.request, e.reply, u, e.freshId, e.randomTimeout), t);
    } else if e.CancelObserve? {
      UntrackedCancel(s, e.reply, t);
    } else if e.ReplyGone? {
      RunOne(HistoryOf(s, t), Timed(h.now, s.settings, ReplyDestroyed(e.reply)));
    }
  }

  lemma UntrackedCancel(s: EngineState, reply: ReplyId, t: Token)
    requires t != NO_TOKEN
    ensures Of(t, s.posted + [(NO_TOKEN, Post(reply, SetObserveCancelled))]) == Of(t, s.posted)
  {
    var log := s.posted + [(NO_TOKEN, Post(reply, SetObserveCancelled))];
    assert log[..|log| - 1] == s.posted;
  }

  /** A run of the engine, seen through token `t`, is the run of that exchange over its own
      events: nothing that happens to other exchanges makes a difference. */
  lemma {:induction false} RunIsolated(s: EngineState, events: seq<Happening>, t: Token)
    requires t != NO_TOKEN
    requires forall h :: h in events ==> Leaves(h.event, t)
    ensures HistoryOf(RunEngine(s, events), t) == Run(HistoryOf(s, t), ConcernsAll(s, events, t))
  {
    if events != [] {
      var front, last := events[..|events| - 1], events[|events| - 1];
      RunIsolated(s, front, t);
      var mid := RunEngine(s, front);
      StepIsolated(mid, last, t);
      RunConcat(HistoryOf(s, t), ConcernsAll(s, front, t), Concerns(mid, last, t));
    }
  }

  /** A request opens its exchange with the history `Start` describes, when its token is new. */
  lemma BeginIsolated(s: EngineState, h: Happening)
    requires h.event.SendRequest? && h.event.request.methodCode != 0
    ensures var e := h.event;
            var t := RequestToken(e.request, e.freshToken);
            t !in s.exchanges && Of(t, s.posted) == [] && Of(t, s.sent) == [] ==>
              HistoryOf(Next(s, h.now, e), t)
              == Start(s.settings, h.now, e.request, e.reply, t, e.freshId, e.randomTimeout)
  {
    var e := h.event;
    var t := RequestToken(e.request, e.freshToken);
    var effect := Begin(s.settings, h.now, e.request, e.reply, t, e.freshId, e.randomTimeout);
    CommitIsolated(s, t, effect, t);
    assert [] + effect.posts == effect.posts && [] + effect.sends == effect.sends;
  }
}
