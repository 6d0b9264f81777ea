/** More about runs of engine, event queue and replies: what an abort achieves, and what a finished
    reply keeps. */
module SystemRuns {
  import opened CoapTypes
  import opened OptionList
  import opened Codec
  import opened Requests
  import opened Exchanges
  import opened Engine
  import opened UserReplies
  import opened Completion

  // Tokens and their owners

  /** A reply owns at most one token: the one of its request, or the one drawn at submission. */
  ghost predicate SoleTokens(s: SystemState) {
    && (forall t, u :: t in s.owners && u in s.owners && s.owners[t] == s.owners[u] ==> t == u)
    && (forall t :: t in s.owners ==> s.owners[t] in s.submitted || RequestTokenIs(s, s.owners[t], t))
  }

  predicate RequestTokenIs(s: SystemState, reply: ReplyId, t: Token) {
    reply in s.requests && s.requests[reply].message.token == t && t != []
  }

  lemma CreateKeepsTokens(s: SystemState, reply: ReplyId, request: UserRequest)
    requires UsersOwned(s) && SoleTokens(s) && reply !in s.requests
    ensures SoleTokens(Created(s, reply, request))
  {
  }

  lemma SubmitKeepsTokens(s: SystemState, e: SystemEvent)
    requires UsersOwned(s) && SoleTokens(s) && e.Submit? && Possible(s, e)
    ensures SoleTokens(Submitted(s, e))
  {
    var token := s.requests[e.reply].message.token;
    if token != [] {
      assert Owned(s, token, e.reply);
    }
  }

  lemma NextKeepsTokens(s: SystemState, e: SystemEvent)
    requires SystemInvariant(s) && SoleTokens(s) && Possible(s, e)
    ensures SoleTokens(NextSystem(s, e))
  {
    if e.Create? {
      CreateKeepsTokens(s, e.reply, e.request);
    } else if e.Submit? {
      SubmitKeepsTokens(s, e);
    } else {
      SameOwners(s, e);
    }
  }

  lemma SameOwners(s: SystemState, e: SystemEvent)
    requires Possible(s, e) && !e.Create? && !e.Submit?
    ensures var s' := NextSystem(s, e);
            s'.owners == s.owners && s'.submitted == s.submitted && s'.requests == s.requests
  {
  }

  lemma {:induction false} ReachableTokens(settings: Settings, events: seq<SystemEvent>)
    requires ValidSettings(settings)
    ensures RunSystem(settings, events).Some? ==> SoleTokens(RunSystem(settings, events).value)
  {
    if events != [] {
      var front := RunSystem(settings, events[..|events| - 1]);
      ReachableTokens(settings, events[..|events| - 1]);
      ReachableSystemInvariant(settings, events[..|events| - 1]);
      if front.Some? && Possible(front.value, events[|events| - 1]) {
        NextKeepsTokens(front.value, events[|events| - 1]);
      }
    }
  }

  // Aborts

  lemma KnownTokenIsTheToken(s: SystemState, reply: ReplyId, t: Token)
    requires SystemInvariant(s) && SoleTokens(s) && reply in s.users
    requires t in s.engine.exchanges && s.engine.exchanges[t].userReply == Some(reply)
    ensures reply in s.submitted && t != [] && (s.users[reply].token != [] ==> s.users[reply].token == t)
  {
    assert Owned(s, s.users[reply].token, reply);
  }

  lemma AbortInEngine(s: EngineState, t: Token)
    ensures Next(s, 0, RequestAborted(t)).exchanges == if t in s.exchanges then s.exchanges - {t} else s.exchanges
  {
  }

  lemma AbortRemoves(s: SystemState, reply: ReplyId)
    requires SystemInvariant(s) && SoleTokens(s) && s.aborts == []
    requires reply in s.users && !s.users[reply].IsFinished() && InTable(s.engine.exchanges, reply)
    ensures AbortedByUser(s, reply).aborts == [s.users[reply].token]
    ensures InTable(AbortHandled(AbortedByUser(s, reply)).engine.exchanges, reply) <==> s.users[reply].token == []
  {
    var t :| t in s.engine.exchanges && s.engine.exchanges[t].userReply == Some(reply);
    KnownTokenIsTheToken(s, reply, t);
    var token, after := s.users[reply].token, AbortHandled(AbortedByUser(s, reply)).engine.exchanges;
    AbortInEngine(s.engine, token);
    if token == [] {
      assert after[t].userReply == Some(reply);
    } else if u :| u in after && after[u].userReply == Some(reply) {
      KnownTokenIsTheToken(s, reply, u);
    }
  }

  // Cancellations

  lemma CancelInEngine(s: EngineState, reply: ReplyId, t: Token)
    ensures var s' := Next(s, 0, CancelObserve(reply, t));
            if t in s.exchanges then s' == Commit(s, t, OnCancel(s.exchanges[t], reply))
            else s'.exchanges == s.exchanges && s'.posted == s.posted + [(NO_TOKEN, Post(reply, SetObserveCancelled))]
  {
  }

  lemma CancelMarks(s: SystemState, reply: ReplyId, t: Token)
    requires SystemInvariant(s) && SoleTokens(s) && reply in s.users
    requires t in s.engine.exchanges && s.engine.exchanges[t].userReply == Some(reply)
    requires s.engine.exchanges[t].request.IsObserve() && !s.engine.exchanges[t].request.observeCancelled
    ensures var s' := Cancelled(s, reply);
            && t in s'.engine.exchanges
            && (s'.engine.exchanges[t].request.observeCancelled <==> s.users[reply].token != [])
            && (s.users[reply].token == [] ==> s'.engine.exchanges == s.engine.exchanges)
            && FinishPending(s'.engine.posted, |s.engine.posted|, reply)
  {
    KnownTokenIsTheToken(s, reply, t);
    CancelInEngine(s.engine, reply, s.users[reply].token);
    var posted, n := Cancelled(s, reply).engine.posted, |s.engine.posted|;
    assert posted[n].1 == Post(reply, SetObserveCancelled);
  }

  /** An abort before submission reaches nobody, whatever token the reply carries: the request can be
      submitted just as before, and submitting it opens the exchange of the aborted reply. */
  lemma AbortBeforeSubmissionIsLost(s: SystemState, e: SystemEvent)
    requires e.Submit? && e.reply in s.users && e.reply !in s.submitted
    requires e.reply in s.requests && s.requests[e.reply].methodCode != 0
    ensures var s' := AbortedByUser(s, e.reply);
            && s'.aborts == s.aborts && s'.users[e.reply].IsFinished()
            && (Possible(s', e) <==> Possible(s, e))
            && (Possible(s', e) ==> InTable(NextSystem(s', e).engine.exchanges, e.reply))
  {
    var s' := AbortedByUser(s, e.reply);
    assert s'.aborts == s.aborts;
    OpensExchange(s'.engine, e.now, e.reply, s'.requests[e.reply], e.freshId, e.freshToken, e.randomTimeout);
  }

  lemma OpensExchange(s: EngineState, now: nat, reply: ReplyId, u: UserRequest, id: uint16, freshToken: Token,
                      randomTimeout: nat)
    requires u.methodCode != 0
    ensures InTable(Next(s, now, SendRequest(reply, u, id, freshToken, randomTimeout)).exchanges, reply)
  {
    var t := RequestToken(u, freshToken);
    var after := Next(s, now, SendRequest(reply, u, id, freshToken, randomTimeout)).exchanges;
    BeginNotCancelled(s.settings, now, u, reply, t, id, randomTimeout);
    assert t in after && after[t].userReply == Some(reply);
  }

  // Finished replies

  /** `r'` is `r` later on, with nothing added but errors. */
  ghost predicate FrozenSince(r: ReplyState, r': ReplyState) {
    && r'.IsFinished() && r'.message == r.message && r'.code == r.code && r'.aborted == r.aborted
    && r.emitted <= r'.emitted
    && forall i :: |r.emitted| <= i < |r'.emitted| ==> r'.emitted[i].ErrorEmitted?
  }

  /** `reply` was `r` and is now frozen, or is gone, but has been there. */
  ghost predicate FrozenIn(r: ReplyState, s: SystemState, reply: ReplyId) {
    reply in s.requests && (reply in s.users ==> FrozenSince(r, s.users[reply]))
  }

  lemma StaysFrozen(r: ReplyState, r': ReplyState, op: UserOp)
    requires FrozenSince(r, r')
    ensures FrozenSince(r, Applied(r', op))
  {
    assert [op][..0] == [];
    FrozenWhenFinished(r', [op]);
  }

  /** What an event of the system is for one reply: nothing, or one slot, or an abort. */
  ghost predicate OneOp(r: ReplyState, r': ReplyState) {
    r' == r || exists op :: r' == Applied(r, op)
  }

  lemma ReplyStep(s: SystemState, e: SystemEvent, reply: ReplyId)
    requires Possible(s, e) && reply in s.requests && reply in NextSystem(s, e).users
    ensures reply in s.users && OneOp(s.users[reply], NextSystem(s, e).users[reply])
    ensures reply in NextSystem(s, e).requests
  {
    var s' := NextSystem(s, e);
    match e {
      case Deliver =>
        var post := s.engine.posted[s.delivered].1;
        assert post.reply == reply ==> s'.users[reply] == Applied(s.users[reply], Slotted(post.slot));
      case UserAbort(r) =>
        assert r == reply ==> s'.users[reply] == Applied(s.users[reply], AbortCall);
      case _ =>
    }
  }

  /** In every run of the system: a reply that has finished keeps its content and its code for as long
      as it exists, and emits nothing more but errors. */
  lemma {:induction false} FinishedStaysFrozen(settings: Settings, past: seq<SystemEvent>, events: seq<SystemEvent>,
                                               reply: ReplyId)
    requires ValidSettings(settings) && RunSystem(settings, past + events).Some?
    ensures RunSystem(settings, past).Some?
    ensures var s, s' := RunSystem(settings, past).value, RunSystem(settings, past + events).value;
            reply in s.users && s.users[reply].IsFinished() ==> FrozenIn(s.users[reply], s', reply)
    decreases |events|
  {
    ReachableSystemInvariant(settings, past);
    if events == [] {
      assert past + events == past;
    } else {
      SplitLast(past, events);
      RunBefore(settings, past + events);
      FinishedStaysFrozen(settings, past, events[..|events| - 1], reply);
      var s, before := RunSystem(settings, past).value, RunSystem(settings, past + events[..|events| - 1]).value;
      if reply in s.users && s.users[reply].IsFinished() {
        FrozenStep(s.users[reply], before, events[|events| - 1], reply);
      }
    }
  }

  lemma RunBefore(settings: Settings, events: seq<SystemEvent>)
    requires events != [] && RunSystem(settings, events).Some?
    ensures var before, last := RunSystem(settings, events[..|events| - 1]), events[|events| - 1];
            && before.Some? && Possible(before.value, last)
            && RunSystem(settings, events).value == NextSystem(before.value, last)
  {
  }

  lemma SplitLast<T>(a: seq<T>, b: seq<T>)
    requires b != []
    ensures var all := a + b;
            && all != [] && all[..|all| - 1] == a + b[..|b| - 1] && all[|all| - 1] == b[|b| - 1]
  {
  }

  lemma FrozenStep(r0: ReplyState, before: SystemState, e: SystemEvent, reply: ReplyId)
    requires Possible(before, e) && FrozenIn(r0, before, reply)
    ensures FrozenIn(r0, NextSystem(before, e), reply)
  {
    RequestsStay(before, e, reply);
    if reply in NextSystem(before, e).users {
      ReplyStep(before, e, reply);
      var r, r' := before.users[reply], NextSystem(before, e).users[reply];
      if r' != r {
        var op :| r' == Applied(r, op);
        StaysFrozen(r0, r, op);
      }
    }
  }

  lemma RequestsStay(s: SystemState, e: SystemEvent, reply: ReplyId)
    requires Possible(s, e) && reply in s.requests
    ensures reply in NextSystem(s, e).requests
  {
  }
}
