/** What the system's event queue delivers to a reply, over whole runs: every live reply is what the slots
    delivered to it and its user's aborts have made of it. */
module Deliveries {
  import opened CoapTypes
  import opened OptionList
  import opened Codec
  import opened Reassembly
  import opened Requests
  import opened Exchanges
  import opened Engine
  import opened UserReplies
  import opened ReplyHistory
  import opened Completion
  import opened SystemRuns

  type Log = seq<(Token, Post)>

  // The log of posts

  /** A post under a token is for the owner of that token, who has been submitted; a running slot carries the
      token it is logged under; without a token there is nothing but the cancellation of an untracked
      observation. */
  ghost predicate Placed(s: SystemState, entry: (Token, Post)) {
    && entry.1.reply in s.requests
    && (entry.0 == NO_TOKEN ==> entry.1.slot.SetObserveCancelled?)
    && (entry.0 != NO_TOKEN ==>
          entry.0 in s.owners && s.owners[entry.0] == entry.1.reply && entry.1.reply in s.submitted)
    && (entry.1.slot.SetRunning? ==> entry.1.slot.token == entry.0)
  }

  ghost predicate LogPlaced(s: SystemState) {
    forall i :: 0 <= i < |s.engine.posted| ==> Placed(s, s.engine.posted[i])
  }

  /** A reply is told its token once. */
  ghost predicate ToldOnce(log: Log) {
    forall i, j :: 0 <= i < j < |log| && log[i].1.slot.SetRunning? && log[j].1.slot.SetRunning? ==>
      log[i].1.reply != log[j].1.reply
  }

  lemma HandlePosts(s: Settings, now: nat, ex: Exchange, e: LocalEvent)
    ensures forall i :: 0 <= i < |Handle(s, now, ex, e).posts| ==>
              var p := Handle(s, now, ex, e).posts[i];
              && (ex.userReply == Some(p.reply) || (e.Cancel? && p.reply == e.caller))
              && (p.slot.SetObserveCancelled? ==> e.Cancel? && p.reply == e.caller)
  {
    if e.Frame? && Accepts(ex, e.received) && !IsError(e.received.reply.code) {
      var accepted := Accept(ex, e.received);
      ProceedPosts(now, Answered(accepted), e.received.sender, Decide(s, e.received.reply), e.freshId,
                   Answers(accepted, e.received));
    }
  }

  lemma ProceedPosts(now: nat, ex: Exchange, sender: Address, c: Continuation, freshId: uint16, answers: seq<Datagram>)
    requires ex.replies != []
    ensures forall i :: 0 <= i < |Proceed(now, ex, sender, c, freshId, answers).posts| ==>
              var p := Proceed(now, ex, sender, c, freshId, answers).posts[i];
              ex.userReply == Some(p.reply) && !p.slot.SetObserveCancelled?
  {
  }

  /** What an event adds to the log. */
  ghost predicate Extends(s: SystemState, s': SystemState, more: Log) {
    && s'.engine.posted == s.engine.posted + more
    && OwnersGrow(s, s') && s.requests.Keys <= s'.requests.Keys && s.submitted <= s'.submitted
    && forall i :: 0 <= i < |more| ==> Placed(s', more[i])
  }

  lemma Commits(s: SystemState, t: Token, now: nat, e: LocalEvent)
    returns (more: Log)
    requires SystemInvariant(s) && t in s.engine.exchanges && !e.ReplyDestroyed?
    requires e.Cancel? ==> Owned(s, t, e.caller) && e.caller in s.users
    ensures var effect := Handle(s.engine.settings, now, s.engine.exchanges[t], e);
            && more == Tagged(t, effect.posts)
            && Extends(s, Committed(s, t, effect), more)
            && forall i :: 0 <= i < |more| ==>
                 && !more[i].1.slot.SetRunning?
                 && (more[i].1.slot.SetObserveCancelled? ==> e.Cancel? && more[i].1.reply == e.caller)
  {
    var effect := Handle(s.engine.settings, now, s.engine.exchanges[t], e);
    HandleAccounts(s.engine.settings, now, s.engine.exchanges[t], e);
    HandlePosts(s.engine.settings, now, s.engine.exchanges[t], e);
    more := Tagged(t, effect.posts);
    TagsArePlaced(s, Committed(s, t, effect), t, effect.posts, e);
  }

  lemma TagsArePlaced(s: SystemState, s': SystemState, t: Token, posts: seq<Post>, e: LocalEvent)
    requires TableOwned(s) && UsersKnown(s) && t in s.engine.exchanges && t != NO_TOKEN
    requires s'.owners == s.owners && s'.requests == s.requests && s'.submitted == s.submitted
    requires e.Cancel? ==> Owned(s, t, e.caller) && e.caller in s.users
    requires forall i :: 0 <= i < |posts| ==>
               && !posts[i].slot.SetRunning?
               && (s.engine.exchanges[t].userReply == Some(posts[i].reply) || (e.Cancel? && posts[i].reply == e.caller))
    ensures forall i :: 0 <= i < |posts| ==> Placed(s', Tagged(t, posts)[i])
  {
  }

  lemma ArriveExtends(s: SystemState, now: nat, e: Event)
    returns (more: Log)
    requires SystemInvariant(s) && FromOutside(e)
    ensures Extends(s, s.(engine := Next(s.engine, now, e)), more)
    ensures forall i :: 0 <= i < |more| ==> !more[i].1.slot.SetRunning? && !more[i].1.slot.SetObserveCancelled?
  {
    var route := Route(s.engine, e);
    if route.Some? {
      OutsideRoute(s.engine, now, e);
      more := Commits(s, route.value.0, now, route.value.1);
    } else {
      more := [];
      assert Next(s.engine, now, e).posted == s.engine.posted + [];
    }
  }

  lemma CancelExtends(s: SystemState, reply: ReplyId)
    returns (more: Log)
    requires SystemInvariant(s) && reply in s.users
    ensures Extends(s, Cancelled(s, reply), more)
    ensures forall i :: 0 <= i < |more| ==>
              !more[i].1.slot.SetRunning? && (more[i].1.slot.SetObserveCancelled? ==> more[i].1.reply == reply)
  {
    var t := s.users[reply].token;
    CancelIs(s, reply);
    if t in s.engine.exchanges {
      more := Commits(s, t, 0, Cancel(reply));
    } else {
      more := [(NO_TOKEN, Post(reply, SetObserveCancelled))];
    }
  }

  lemma CancelIs(s: SystemState, reply: ReplyId)
    requires reply in s.users
    ensures var t, s' := s.users[reply].token, Cancelled(s, reply);
            && (t in s.engine.exchanges ==>
                  s' == Committed(s, t, Handle(s.engine.settings, 0, s.engine.exchanges[t], Cancel(reply))))
            && (t !in s.engine.exchanges ==>
                  && s'.engine.posted == s.engine.posted + [(NO_TOKEN, Post(reply, SetObserveCancelled))]
                  && s' == s.(engine := s'.engine))
  {
    CancelInEngine(s.engine, reply, s.users[reply].token);
  }

  lemma AbortExtends(s: SystemState)
    requires SystemInvariant(s) && s.aborts != []
    ensures Extends(s, AbortHandled(s), [])
  {
    assert s.engine.posted + [] == s.engine.posted;
    AbortPostsNothing(s.engine, s.aborts[0]);
  }

  lemma AbortPostsNothing(s: EngineState, t: Token)
    ensures Next(s, 0, RequestAborted(t)).posted == s.posted
  {
    assert s.posted + [] == s.posted;
  }

  lemma SubmitExtends(s: SystemState, e: SystemEvent)
    returns (more: Log)
    requires SystemInvariant(s) && e.Submit? && Possible(s, e)
    ensures Extends(s, Submitted(s, e), more)
    ensures more == if e.reply in s.users
                    then [(SubmittedToken(s, e), Post(e.reply, SetRunning(SubmittedToken(s, e), e.freshId)))] else []
  {
    var t := SubmittedToken(s, e);
    if e.reply in s.users {
      more := [(t, Post(e.reply, SetRunning(t, e.freshId)))];
      SubmitPosts(s.engine, e.now, e.reply, s.requests[e.reply], e.freshId, e.freshToken, e.randomTimeout);
      SubmittedIsPlaced(s, Submitted(s, e), e);
    } else {
      more := [];
      assert s.engine.posted + [] == s.engine.posted;
    }
  }

  lemma SubmittedIsPlaced(s: SystemState, s': SystemState, e: SystemEvent)
    requires UsersOwned(s) && e.Submit? && e.reply in s.requests && e.freshToken != [] && e.freshToken !in s.owners
    requires s'.requests == s.requests && e.reply in s'.submitted
    requires s'.owners == s.owners[SubmittedToken(s, e) := e.reply]
    ensures Placed(s', (SubmittedToken(s, e), Post(e.reply, SetRunning(SubmittedToken(s, e), e.freshId))))
    ensures OwnersGrow(s, s')
  {
    assert Owned(s, s.requests[e.reply].message.token, e.reply);
  }

  lemma SubmitPosts(s: EngineState, now: nat, reply: ReplyId, u: UserRequest, id: uint16, freshToken: Token,
                    randomTimeout: nat)
    requires u.methodCode != 0
    ensures var t := RequestToken(u, freshToken);
            Next(s, now, SendRequest(reply, u, id, freshToken, randomTimeout)).posted
            == s.posted + [(t, Post(reply, SetRunning(t, id)))]
  {
    var t := RequestToken(u, freshToken);
    BeginNotCancelled(s.settings, now, u, reply, t, id, randomTimeout);
    assert Tagged(t, [Post(reply, SetRunning(t, id))]) == [(t, Post(reply, SetRunning(t, id)))];
  }

  /** Every event extends the log. Only the submission of a live reply adds a running slot, and only its own
      cancellation tells a reply that it is cancelled. */
  lemma EventExtends(s: SystemState, e: SystemEvent)
    returns (more: Log)
    requires SystemInvariant(s) && SoleTokens(s) && Possible(s, e)
    ensures Extends(s, NextSystem(s, e), more)
    ensures e.Submit? ==>
              more == if e.reply in s.users
                      then [(SubmittedToken(s, e), Post(e.reply, SetRunning(SubmittedToken(s, e), e.freshId)))] else []
    ensures !e.Submit? ==> forall i :: 0 <= i < |more| ==> !more[i].1.slot.SetRunning?
    ensures forall i :: 0 <= i < |more| && more[i].1.slot.SetObserveCancelled? ==> e == CancelCall(more[i].1.reply)
  {
    if e.Submit? {
      more := SubmitExtends(s, e);
    } else if e.Arrive? {
      more := ArriveExtends(s, e.now, e.event);
    } else if e.CancelCall? {
      more := CancelExtends(s, e.reply);
    } else {
      more := [];
      OthersExtend(s, e);
    }
  }

  lemma OthersExtend(s: SystemState, e: SystemEvent)
    requires SystemInvariant(s) && Possible(s, e) && !e.Submit? && !e.Arrive? && !e.CancelCall?
    ensures Extends(s, NextSystem(s, e), [])
  {
    assert s.engine.posted + [] == s.engine.posted;
    if e.HandleAbort? {
      AbortExtends(s);
    }
  }

  lemma MorePlaced(s: SystemState, s': SystemState, more: Log)
    requires LogPlaced(s) && Extends(s, s', more)
    ensures LogPlaced(s')
  {
    forall i | 0 <= i < |s'.engine.posted| ensures Placed(s', s'.engine.posted[i]) {
      if i < |s.engine.posted| {
        assert s'.engine.posted[i] == s.engine.posted[i] && Placed(s, s.engine.posted[i]);
      } else {
        assert s'.engine.posted[i] == more[i - |s.engine.posted|];
      }
    }
  }

  lemma StillToldOnce(s: SystemState, e: SystemEvent, more: Log)
    requires LogPlaced(s) && ToldOnce(s.engine.posted) && |more| <= 1
    requires more != [] && more[0].1.slot.SetRunning? ==> more[0].1.reply !in s.submitted
    ensures ToldOnce(s.engine.posted + more)
  {
    var log := s.engine.posted + more;
    forall i, j | 0 <= i < j < |log| && log[i].1.slot.SetRunning? && log[j].1.slot.SetRunning?
      ensures log[i].1.reply != log[j].1.reply {
      assert Placed(s, s.engine.posted[i]);
    }
  }

  lemma NoneTold(log: Log, more: Log)
    requires ToldOnce(log) && forall i :: 0 <= i < |more| ==> !more[i].1.slot.SetRunning?
    ensures ToldOnce(log + more)
  {
  }

  /** In every run of the system: the log of posts is in order, and a reply is told its token at most
      once. */
  lemma {:induction false} ReachableLog(settings: Settings, events: seq<SystemEvent>)
    requires ValidSettings(settings)
    ensures RunSystem(settings, events).Some? ==>
              var s := RunSystem(settings, events).value; LogPlaced(s) && ToldOnce(s.engine.posted)
  {
    if events != [] && RunSystem(settings, events).Some? {
      var front, last := events[..|events| - 1], events[|events| - 1];
      RunBefore(settings, events);
      ReachableLog(settings, front);
      ReachableSystemInvariant(settings, front);
      ReachableTokens(settings, front);
      LogStep(RunSystem(settings, front).value, last);
    }
  }

  lemma LogStep(s: SystemState, e: SystemEvent)
    requires SystemInvariant(s) && SoleTokens(s) && Possible(s, e) && LogPlaced(s) && ToldOnce(s.engine.posted)
    ensures LogPlaced(NextSystem(s, e)) && ToldOnce(NextSystem(s, e).engine.posted)
  {
    var more := EventExtends(s, e);
    MorePlaced(s, NextSystem(s, e), more);
    if e.Submit? {
      StillToldOnce(s, e, more);
    } else {
      NoneTold(s.engine.posted, more);
    }
  }

  // What has been done to a reply

  /** What an event of the system is for one reply: a slot that is delivered to it, or its user's abort. */
  ghost function OpOf(s: SystemState, e: SystemEvent, reply: ReplyId): seq<UserOp> {
    if reply !in s.users then []
    else if e.Deliver? && s.delivered < |s.engine.posted| && s.engine.posted[s.delivered].1.reply == reply
    then [Slotted(s.engine.posted[s.delivered].1.slot)]
    else if e == UserAbort(reply) then [AbortCall]
    else []
  }

  /** All of that in a run. */
  ghost function OpsOf(settings: Settings, events: seq<SystemEvent>, reply: ReplyId): seq<UserOp> {
    if events == [] then []
    else
      var front, before := events[..|events| - 1], RunSystem(settings, events[..|events| - 1]);
      OpsOf(settings, front, reply) + if before.Some? then OpOf(before.value, events[|events| - 1], reply) else []
  }

  function SlotsFor(log: Log, reply: ReplyId): seq<Slot> {
    if log == [] then []
    else
      var last := log[|log| - 1].1;
      SlotsFor(log[..|log| - 1], reply) + if last.reply == reply then [last.slot] else []
  }

  function SlotsOf(ops: seq<UserOp>): seq<Slot> {
    if ops == [] then []
    else
      var last := ops[|ops| - 1];
      SlotsOf(ops[..|ops| - 1]) + if last.Slotted? then [last.slot] else []
  }

  /** Delivery goes through the log in order. */
  ghost predicate Told(s: SystemState, ops: seq<UserOp>, reply: ReplyId) {
    && s.delivered <= |s.engine.posted|
    && (reply !in s.requests ==> reply !in s.users && ops == [])
    && (reply in s.users ==>
          && reply in s.requests
          && s.users[reply] == AppliedAll(NewReply(s.requests[reply].message.token), ops)
          && SlotsOf(ops) == SlotsFor(s.engine.posted[..s.delivered], reply))
  }

  lemma {:induction false} NoSlotsFor(log: Log, reply: ReplyId)
    requires forall i :: 0 <= i < |log| ==> log[i].1.reply != reply
    ensures SlotsFor(log, reply) == []
  {
    if log != [] {
      NoSlotsFor(log[..|log| - 1], reply);
    }
  }

  lemma UserAfter(s: SystemState, e: SystemEvent, reply: ReplyId)
    requires Possible(s, e) && s.users.Keys <= s.requests.Keys
    ensures var s' := NextSystem(s, e);
            && s.requests.Keys <= s'.requests.Keys && s'.delivered == s.delivered + (if e.Deliver? then 1 else 0)
            && (reply in s.requests ==> s'.requests[reply] == s.requests[reply])
            && (reply !in s.requests && reply in s'.requests ==>
                  reply in s'.users && s'.users[reply] == NewReply(s'.requests[reply].message.token))
            && (reply !in s'.requests ==> reply !in s'.users)
            && (reply in s.requests && reply in s'.users ==>
                  reply in s.users
                  && s'.users[reply]
                     == (if OpOf(s, e, reply) == [] then s.users[reply]
                         else Applied(s.users[reply], OpOf(s, e, reply)[0])))
  {
  }

  lemma ToldStep(s: SystemState, e: SystemEvent, more: Log, ops: seq<UserOp>, reply: ReplyId)
    requires Told(s, ops, reply) && Possible(s, e) && s.users.Keys <= s.requests.Keys && LogPlaced(s)
    requires NextSystem(s, e).engine.posted == s.engine.posted + more
    ensures Told(NextSystem(s, e), ops + OpOf(s, e, reply), reply)
  {
    UserAfter(s, e, reply);
    DoneAfter(s, NextSystem(s, e), e, more, reply);
    SlotsOfMore(ops, OpOf(s, e, reply));
    if reply !in s.requests {
      NothingForUnknown(s, reply);
    } else if OpOf(s, e, reply) != [] {
      AppliedStep(NewReply(s.requests[reply].message.token), ops, OpOf(s, e, reply)[0]);
    } else {
      assert ops + [] == ops;
    }
  }

  /** What has been delivered to a reply after an event. */
  lemma DoneAfter(s: SystemState, s': SystemState, e: SystemEvent, more: Log, reply: ReplyId)
    requires Possible(s, e) && s.delivered <= |s.engine.posted| && s'.engine.posted == s.engine.posted + more
    requires s'.delivered == s.delivered + if e.Deliver? then 1 else 0
    ensures SlotsFor(s'.engine.posted[..s'.delivered], reply)
         == SlotsFor(s.engine.posted[..s.delivered], reply)
            + if e.Deliver? && s.engine.posted[s.delivered].1.reply == reply
              then [s.engine.posted[s.delivered].1.slot] else []
  {
    var done := s.engine.posted[..s.delivered];
    if e.Deliver? {
      assert s'.engine.posted[..s'.delivered] == done + [s.engine.posted[s.delivered]];
      SlotsForMore(done, s.engine.posted[s.delivered], reply);
    } else {
      assert s'.engine.posted[..s'.delivered] == done;
      assert SlotsFor(done, reply) + [] == SlotsFor(done, reply);
    }
  }

  lemma NothingForUnknown(s: SystemState, reply: ReplyId)
    requires LogPlaced(s) && reply !in s.requests && s.delivered <= |s.engine.posted|
    ensures SlotsFor(s.engine.posted[..s.delivered], reply) == []
  {
    forall i | 0 <= i < s.delivered ensures s.engine.posted[i].1.reply != reply {
      assert Placed(s, s.engine.posted[i]);
    }
    NoSlotsFor(s.engine.posted[..s.delivered], reply);
  }

  lemma SlotsForMore(log: Log, entry: (Token, Post), reply: ReplyId)
    ensures SlotsFor(log + [entry], reply)
         == SlotsFor(log, reply) + if entry.1.reply == reply then [entry.1.slot] else []
  {
    assert (log + [entry])[..|log|] == log;
  }

  lemma SlotsOfMore(ops: seq<UserOp>, more: seq<UserOp>)
    requires |more| <= 1
    ensures SlotsOf(ops + more) == SlotsOf(ops) + if more != [] && more[0].Slotted? then [more[0].slot] else []
  {
    if more == [] {
      assert ops + more == ops && SlotsOf(ops) + [] == SlotsOf(ops);
    } else {
      assert (ops + more)[..|ops|] == ops;
    }
  }

  /** In every run of the system: a live reply is what the operations on it have made of a new one, and
      the slots among these are the posts for it that have been delivered, in order. */
  lemma {:induction false} RepliesAreTheirOps(settings: Settings, events: seq<SystemEvent>, reply: ReplyId)
    requires ValidSettings(settings) && RunSystem(settings, events).Some?
    ensures Told(RunSystem(settings, events).value, OpsOf(settings, events, reply), reply)
  {
    if events != [] {
      var front, last := events[..|events| - 1], events[|events| - 1];
      RunBefore(settings, events);
      RepliesAreTheirOps(settings, front, reply);
      ReachableLog(settings, front);
      ReachableTokens(settings, front);
      ReachableSystemInvariant(settings, front);
      var s := RunSystem(settings, front).value;
      var more := EventExtends(s, last);
      ToldStep(s, last, more, OpsOf(settings, front, reply), reply);
    }
  }
}
