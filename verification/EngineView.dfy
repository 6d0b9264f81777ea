/** The engine's part of a run of the whole system, as a run of the engine: what makes the theorems about engines
    apply to a request from its submission on. */
module EngineView {
  import opened CoapTypes
  import opened OptionList
  import opened Codec
  import opened Reassembly
  import opened Requests
  import opened Exchanges
  import opened Engine
  import opened Isolation
  import opened EngineRuns
  import opened UserReplies
  import opened Completion
  import opened SystemRuns
  import opened Deliveries

  // Events

  /** What an event of the system is for the engine. */
  ghost function HappeningOf(s: SystemState, e: SystemEvent): seq<Happening>
    requires Possible(s, e)
  {
    match e
    case Submit(now, reply, _, _, _) => if reply in s.users then [Happening(now, Submission(s, e))] else []
    case Arrive(now, event) => [Happening(now, event)]
    case CancelCall(reply) => [Happening(0, CancelObserve(reply, s.users[reply].token))]
    case HandleAbort => [Happening(0, RequestAborted(s.aborts[0]))]
    case Destroy(reply) => [Happening(0, ReplyGone(reply))]
    case _ => []
  }

  lemma EngineStep(s: SystemState, e: SystemEvent)
    requires Possible(s, e)
    ensures var h, engine := HappeningOf(s, e), NextSystem(s, e).engine;
            && |h| <= 1
            && (h == [] ==> engine == s.engine)
            && (h != [] ==> engine == Next(s.engine, h[0].now, h[0].event) && Enabled(s.engine, h[0].now, h[0].event))
  {
    if e.Destroy? {
      NobodyRouted(s.engine, e.reply);
    }
  }

  lemma NobodyRouted(s: EngineState, reply: ReplyId)
    ensures Next(s, 0, ReplyGone(reply)) == WithoutReply(s, reply)
  {
  }

  /** All of that behind the first `n` events. */
  ghost function HappeningsSince(settings: Settings, n: nat, events: seq<SystemEvent>): seq<Happening> {
    if |events| <= n then []
    else
      var front, last := events[..|events| - 1], events[|events| - 1];
      var before := RunSystem(settings, front);
      HappeningsSince(settings, n, front)
      + if before.Some? && Possible(before.value, last) then HappeningOf(before.value, last) else []
  }

  lemma RunEngineMore(s: EngineState, events: seq<Happening>, more: seq<Happening>)
    requires |more| <= 1
    ensures RunEngine(s, events + more)
         == if more == [] then RunEngine(s, events) else Next(RunEngine(s, events), more[0].now, more[0].event)
    ensures Legal(s, events) && (more != [] ==> Enabled(RunEngine(s, events), more[0].now, more[0].event)) ==>
              Legal(s, events + more)
  {
    if more == [] {
      assert events + more == events;
    } else {
      assert (events + more)[..|events + more| - 1] == events;
    }
  }

  /** The engine of a run of the system has gone through a run of its own. */
  lemma {:induction false} SystemIsEngineRun(settings: Settings, n: nat, events: seq<SystemEvent>)
    requires n <= |events| && RunSystem(settings, events).Some?
    ensures RunSystem(settings, events[..n]).Some?
    ensures var s, later := RunSystem(settings, events[..n]).value.engine, HappeningsSince(settings, n, events);
            RunSystem(settings, events).value.engine == RunEngine(s, later) && Legal(s, later)
  {
    if n == |events| {
      assert events[..n] == events;
    } else {
      var front, last := events[..|events| - 1], events[|events| - 1];
      RunBefore(settings, events);
      SystemIsEngineRun(settings, n, front);
      assert front[..n] == events[..n];
      EngineStep(RunSystem(settings, front).value, last);
      RunEngineMore(RunSystem(settings, events[..n]).value.engine, HappeningsSince(settings, n, front),
                    HappeningOf(RunSystem(settings, front).value, last));
    }
  }

  // Tokens

  /** The token is that of a submitted reply. */
  predicate Uses(s: SystemState, reply: ReplyId, t: Token) {
    t in s.owners && s.owners[t] == reply && reply in s.submitted
  }

  lemma StillUses(s: SystemState, e: SystemEvent, reply: ReplyId, t: Token)
    requires UsersOwned(s) && Possible(s, e) && Uses(s, reply, t) && t != NO_TOKEN
    ensures Uses(NextSystem(s, e), reply, t)
  {
    if e.Submit? {
      assert Owned(s, s.requests[e.reply].message.token, e.reply);
    }
  }

  /** No later submission uses it again. */
  lemma LeavesToken(s: SystemState, e: SystemEvent, reply: ReplyId, t: Token)
    requires UsersOwned(s) && Possible(s, e) && Uses(s, reply, t) && t != NO_TOKEN
    ensures forall h :: h in HappeningOf(s, e) ==> Leaves(h.event, t)
  {
    if e.Submit? {
      assert Owned(s, s.requests[e.reply].message.token, e.reply);
    }
  }

  lemma {:induction false} NotReopenedSince(settings: Settings, n: nat, events: seq<SystemEvent>, reply: ReplyId,
                                            t: Token)
    requires ValidSettings(settings) && n <= |events| && RunSystem(settings, events).Some? && t != NO_TOKEN
    requires RunSystem(settings, events[..n]).Some? && Uses(RunSystem(settings, events[..n]).value, reply, t)
    ensures NotReopened(HappeningsSince(settings, n, events), t)
    ensures Uses(RunSystem(settings, events).value, reply, t)
  {
    if n == |events| {
      assert events[..n] == events;
    } else {
      var front, last := events[..|events| - 1], events[|events| - 1];
      RunBefore(settings, events);
      assert front[..n] == events[..n];
      NotReopenedSince(settings, n, front, reply, t);
      ReachableSystemInvariant(settings, front);
      StillUses(RunSystem(settings, front).value, last, reply, t);
      LeavesToken(RunSystem(settings, front).value, last, reply, t);
    }
  }

  // The log of datagrams

  ghost predicate SentOwned(s: SystemState) {
    forall i :: 0 <= i < |s.engine.sent| ==>
      s.engine.sent[i].0 in s.owners && s.owners[s.engine.sent[i].0] in s.submitted
  }

  /** Datagrams are logged under the token of an open exchange, or of the one that is opened. */
  lemma SentTags(s: EngineState, now: nat, e: Event)
    ensures var sent := Next(s, now, e).sent;
            && s.sent <= sent
            && forall i :: |s.sent| <= i < |sent| ==>
                 sent[i].0 in s.exchanges || (e.SendRequest? && sent[i].0 == RequestToken(e.request, e.freshToken))
  {
    RoutedToTable(s, e);
    var route := Route(s, e);
    if route.Some? {
      var sends := Handle(s.settings, now, s.exchanges[route.value.0], route.value.1).sends;
      assert Next(s, now, e).sent == s.sent + Tagged(route.value.0, sends);
    }
  }

  lemma NextKeepsSent(s: SystemState, e: SystemEvent)
    requires SystemInvariant(s) && Possible(s, e) && SentOwned(s)
    ensures SentOwned(NextSystem(s, e))
  {
    var s', h := NextSystem(s, e), HappeningOf(s, e);
    EngineStep(s, e);
    OwnersStay(s, e);
    if h != [] {
      SentTags(s.engine, h[0].now, h[0].event);
      forall i | 0 <= i < |s'.engine.sent|
        ensures s'.engine.sent[i].0 in s'.owners && s'.owners[s'.engine.sent[i].0] in s'.submitted {
        if i < |s.engine.sent| {
          assert s'.engine.sent[i] == s.engine.sent[i];
        }
      }
    }
  }

  lemma OwnersStay(s: SystemState, e: SystemEvent)
    requires UsersOwned(s) && Possible(s, e)
    ensures var s' := NextSystem(s, e);
            && (forall t :: t in s.owners && s.owners[t] in s.submitted && t != NO_TOKEN ==>
                  t in s'.owners && s'.owners[t] == s.owners[t] && s'.owners[t] in s'.submitted)
            && (e.Submit? && e.reply in s.users ==>
                  && SubmittedToken(s, e) in s'.owners && s'.owners[SubmittedToken(s, e)] == e.reply
                  && e.reply in s'.submitted)
  {
    if e.Submit? {
      assert Owned(s, s.requests[e.reply].message.token, e.reply);
    }
  }

  lemma {:induction false} ReachableSent(settings: Settings, events: seq<SystemEvent>)
    requires ValidSettings(settings)
    ensures RunSystem(settings, events).Some? ==> SentOwned(RunSystem(settings, events).value)
  {
    if events != [] && RunSystem(settings, events).Some? {
      var front, last := events[..|events| - 1], events[|events| - 1];
      RunBefore(settings, events);
      ReachableSent(settings, front);
      ReachableSystemInvariant(settings, front);
      NextKeepsSent(RunSystem(settings, front).value, last);
    }
  }

  // Submissions

  lemma {:induction false} NothingUnder<T>(t: Token, log: seq<(Token, T)>)
    requires forall i :: 0 <= i < |log| ==> log[i].0 != t
    ensures Of(t, log) == []
  {
    if log != [] {
      NothingUnder(t, log[..|log| - 1]);
    }
  }

  /** The token of a submission is new: nobody uses it, or the reply itself, which is not submitted yet. */
  lemma NewToken(s: SystemState, e: SystemEvent)
    requires UsersOwned(s) && Possible(s, e) && e.Submit? && e.reply in s.users
    ensures var t := SubmittedToken(s, e);
            t != NO_TOKEN && (t in s.owners ==> s.owners[t] !in s.submitted)
  {
    assert Owned(s, s.requests[e.reply].message.token, e.reply);
  }

  lemma SubmissionOpens(s: SystemState, e: SystemEvent)
    requires SystemInvariant(s) && LogPlaced(s) && SentOwned(s)
    requires Possible(s, e) && e.Submit? && e.reply in s.users && |SubmittedToken(s, e)| <= 15
    ensures Opens(s.engine, Happening(e.now, Submission(s, e)), SubmittedToken(s, e))
    ensures Uses(NextSystem(s, e), e.reply, SubmittedToken(s, e))
  {
    var t := SubmittedToken(s, e);
    NewToken(s, e);
    forall i | 0 <= i < |s.engine.posted| ensures s.engine.posted[i].0 != t {
      assert Placed(s, s.engine.posted[i]);
    }
    NothingUnder(t, s.engine.posted);
    NothingUnder(t, s.engine.sent);
  }

  /** Event `k` of the run submits the reply, which is there. */
  ghost predicate Submits(settings: Settings, events: seq<SystemEvent>, k: nat, reply: ReplyId) {
    && k < |events| && events[k].Submit? && events[k].reply == reply
    && RunSystem(settings, events).Some? && RunSystem(settings, events[..k]).Some?
    && reply in RunSystem(settings, events[..k]).value.users
    && Possible(RunSystem(settings, events[..k]).value, events[k])
  }

  /** A submission in a run: the system ahead of it, the engine's event it is, the token, and what comes behind
      it for the engine. */
  datatype View = View(before: SystemState, open: Happening, token: Token, later: seq<Happening>) {
    ghost function Engine(): EngineState {
      Next(before.engine, open.now, open.event)
    }
  }

  ghost function ViewOf(settings: Settings, events: seq<SystemEvent>, k: nat, reply: ReplyId): View
    requires Submits(settings, events, k, reply)
  {
    var s := RunSystem(settings, events[..k]).value;
    View(s, Happening(events[k].now, Submission(s, events[k])), SubmittedToken(s, events[k]),
         HappeningsSince(settings, k + 1, events))
  }

  /** From the submission on the engine of a system run is an engine that opens an exchange under a new token,
      which no later event opens again. */
  lemma SeenFromSubmission(settings: Settings, events: seq<SystemEvent>, k: nat, reply: ReplyId)
    requires ValidSettings(settings) && Submits(settings, events, k, reply)
    requires |ViewOf(settings, events, k, reply).token| <= 15
    ensures var v, s := ViewOf(settings, events, k, reply), RunSystem(settings, events).value;
            && Opens(v.before.engine, v.open, v.token) && v.open.event.reply == reply
            && NotReopened(v.later, v.token) && Legal(v.Engine(), v.later)
            && s.engine == RunEngine(v.Engine(), v.later) && Uses(s, reply, v.token)
  {
    var v := ViewOf(settings, events, k, reply);
    ReachableSystemInvariant(settings, events[..k]);
    ReachableLog(settings, events[..k]);
    ReachableSent(settings, events[..k]);
    SubmissionOpens(v.before, events[k]);
    AfterSubmission(settings, events, k);
    EngineStep(v.before, events[k]);
    SystemIsEngineRun(settings, k + 1, events);
    NotReopenedSince(settings, k + 1, events, reply, v.token);
  }

  lemma AfterSubmission(settings: Settings, events: seq<SystemEvent>, k: nat)
    requires k < |events| && RunSystem(settings, events[..k]).Some?
    requires Possible(RunSystem(settings, events[..k]).value, events[k])
    ensures RunSystem(settings, events[..k + 1]) == Some(NextSystem(RunSystem(settings, events[..k]).value, events[k]))
  {
    assert events[..k + 1][..k] == events[..k];
  }
}
