/** Engine, event queue and user replies together: who gets to know that a request is over.
    The queue is the engine's log of posted slots from `delivered` on. Replies live in the
    user's thread: they are created, submitted, cancelled, aborted and destroyed there, and
    an abort reaches the engine as a queued signal carrying the reply's token. */
module Completion {
  import opened CoapTypes
  import opened OptionList
  import opened Codec
  import opened Reassembly
  import opened Requests
  import opened Exchanges
  import opened Engine
  import opened UserReplies

  datatype SystemState = SystemState(
    engine: EngineState, delivered: nat, users: map<ReplyId, ReplyState>, requests: map<ReplyId, UserRequest>,
    submitted: set<ReplyId>, owners: map<Token, ReplyId>, aborts: seq<Token>)

  datatype SystemEvent =
    | Create(reply: ReplyId, request: UserRequest)
    | Submit(now: nat, reply: ReplyId, freshId: uint16, freshToken: Token, randomTimeout: nat)
    | Arrive(now: nat, event: Event)
    | CancelCall(reply: ReplyId)
    | Deliver
    | UserAbort(reply: ReplyId)
    | HandleAbort
    | Destroy(reply: ReplyId)

  /** Events that come from the network, from timers and from the setters. */
  predicate FromOutside(e: Event) {
    e.FrameReceived? || e.RequestTimeout? || e.TransmitWaitExpired? || e.MulticastRequestExpired? || e.Configure?
  }

  function Submission(s: SystemState, e: SystemEvent): Event
    requires e.Submit? && e.reply in s.requests
  {
    SendRequest(e.reply, s.requests[e.reply], e.freshId, e.freshToken, e.randomTimeout)
  }

  function SubmittedToken(s: SystemState, e: SystemEvent): Token
    requires e.Submit? && e.reply in s.requests
  {
    RequestToken(s.requests[e.reply], e.freshToken)
  }

  /** No token is used for two requests. */
  ghost predicate Possible(s: SystemState, e: SystemEvent) {
    match e
    case Create(reply, request) =>
      && reply !in s.requests && request.methodCode != 0 && Sorted(request.message.options)
      && (request.message.token == [] || request.message.token !in s.owners)
    case Submit(now, reply, _, freshToken, _) =>
      && reply in s.requests && reply !in s.submitted && freshToken !in s.owners
      && Enabled(s.engine, now, Submission(s, e))
    case Arrive(now, event) => FromOutside(event) && Enabled(s.engine, now, event)
    case CancelCall(reply) => reply in s.users
    case Deliver => s.delivered < |s.engine.posted|
    case UserAbort(reply) => reply in s.users
    case HandleAbort => s.aborts != []
    case Destroy(reply) => reply in s.users
  }

  /** The signal an abort sends to the engine, once the reply has been submitted. */
  function AbortSignal(s: SystemState, reply: ReplyId): seq<Token>
    requires reply in s.users
  {
    if s.users[reply].IsFinished() || reply !in s.submitted then [] else [s.users[reply].token]
  }

  function Created(s: SystemState, reply: ReplyId, request: UserRequest): SystemState {
    var token := request.message.token;
    s.(users := s.users[reply := NewReply(token)], requests := s.requests[reply := request],
       owners := if token == [] then s.owners else s.owners[token := reply])
  }

  /** The queued request reaches the engine; nothing happens if its reply is gone. */
  ghost function Submitted(s: SystemState, e: SystemEvent): SystemState
    requires e.Submit? && e.reply in s.requests
  {
    if e.reply in s.users then
      s.(engine := Next(s.engine, e.now, Submission(s, e)), submitted := s.submitted + {e.reply},
         owners := s.owners[SubmittedToken(s, e) := e.reply])
    else s.(submitted := s.submitted + {e.reply})
  }

  ghost function Cancelled(s: SystemState, reply: ReplyId): SystemState
    requires reply in s.users
  {
    s.(engine := Next(s.engine, 0, CancelObserve(reply, s.users[reply].token)))
  }

  /** The oldest queued slot runs; it is dropped if its object is gone. */
  function Delivered(s: SystemState): SystemState
    requires s.delivered < |s.engine.posted|
  {
    var post := s.engine.posted[s.delivered].1;
    s.(delivered := s.delivered + 1,
       users := if post.reply in s.users then s.users[post.reply := Invoke(s.users[post.reply], post.slot)]
                else s.users)
  }

  function AbortedByUser(s: SystemState, reply: ReplyId): SystemState
    requires reply in s.users
  {
    s.(users := s.users[reply := Abort(s.users[reply])], aborts := s.aborts + AbortSignal(s, reply))
  }

  ghost function AbortHandled(s: SystemState): SystemState
    requires s.aborts != []
  {
    s.(engine := Next(s.engine, 0, RequestAborted(s.aborts[0])), aborts := s.aborts[1..])
  }

  function Destroyed(s: SystemState, reply: ReplyId): SystemState
    requires reply in s.users
  {
    s.(engine := WithoutReply(s.engine, reply), users := s.users - {reply},
       aborts := s.aborts + AbortSignal(s, reply))
  }

  ghost function NextSystem(s: SystemState, e: SystemEvent): SystemState
    requires Possible(s, e)
  {
    match e
    case Create(reply, request) => Created(s, reply, request)
    case Submit(_, _, _, _, _) => Submitted(s, e)
    case Arrive(now, event) => s.(engine := Next(s.engine, now, event))
    case CancelCall(reply) => Cancelled(s, reply)
    case Deliver => Delivered(s)
    case UserAbort(reply) => AbortedByUser(s, reply)
    case HandleAbort => AbortHandled(s)
    case Destroy(reply) => Destroyed(s, reply)
  }

  // The accounting invariant

  ghost predicate FinishPending(posted: seq<(Token, Post)>, from: nat, reply: ReplyId) {
    exists i :: from <= i < |posted| && posted[i].1.reply == reply && FinishesReply(posted[i].1.slot)
  }

  /** The reply is finished, or a slot that finishes it is in the queue. */
  ghost predicate Covered(s: SystemState, reply: ReplyId) {
    || FinishPending(s.engine.posted, s.delivered, reply)
    || (reply in s.users && s.users[reply].IsFinished())
  }

  ghost predicate InTable(table: Table, reply: ReplyId) {
    exists t :: t in table && table[t].userReply == Some(reply)
  }

  predicate Owned(s: SystemState, t: Token, reply: ReplyId) {
    t == [] || (t in s.owners && s.owners[t] == reply)
  }

  ghost predicate TableOwned(s: SystemState) {
    forall t :: t in s.engine.exchanges ==>
      && t in s.owners && s.owners[t] in s.submitted
      && (s.engine.exchanges[t].userReply.Some? ==>
            s.engine.exchanges[t].userReply.value == s.owners[t] && s.owners[t] in s.users)
  }

  ghost predicate UsersKnown(s: SystemState) {
    && s.users.Keys <= s.requests.Keys && s.submitted <= s.requests.Keys
    && forall t :: t in s.owners ==> s.owners[t] in s.requests
  }

  ghost predicate RepliesOwned(s: SystemState) {
    forall reply :: reply in s.users ==>
      ReplyInvariant(s.users[reply]) && Owned(s, s.users[reply].token, reply)
  }

  ghost predicate RequestsOwned(s: SystemState) {
    forall reply :: reply in s.requests ==>
      && s.requests[reply].methodCode != 0 && Sorted(s.requests[reply].message.options)
      && Owned(s, s.requests[reply].message.token, reply)
  }

  ghost predicate UsersOwned(s: SystemState) {
    UsersKnown(s) && RepliesOwned(s) && RequestsOwned(s)
  }

  ghost predicate PostsOwned(s: SystemState) {
    forall i :: 0 <= i < |s.engine.posted| && s.engine.posted[i].1.slot.SetRunning? ==>
      Owned(s, s.engine.posted[i].1.slot.token, s.engine.posted[i].1.reply)
  }

  ghost predicate AbortsJustified(s: SystemState) {
    forall i :: 0 <= i < |s.aborts| ==>
      s.aborts[i] == [] || (s.aborts[i] in s.owners && OverFor(s, s.owners[s.aborts[i]]))
  }

  /** The user's object is gone or finished. */
  predicate OverFor(s: SystemState, reply: ReplyId) {
    reply !in s.users || s.users[reply].IsFinished()
  }

  ghost predicate Accounted(s: SystemState) {
    forall reply :: reply in s.submitted && reply in s.users ==> InTable(s.engine.exchanges, reply) || Covered(s, reply)
  }

  ghost predicate SystemInvariant(s: SystemState) {
    && TableInvariant(s.engine) && s.delivered <= |s.engine.posted|
    && TableOwned(s) && UsersOwned(s) && PostsOwned(s) && AbortsJustified(s)
    && Accounted(s)
  }

  // What one event of an exchange does to its account

  ghost predicate Finishes(posts: seq<Post>, reply: ReplyId) {
    exists i :: 0 <= i < |posts| && posts[i].reply == reply && FinishesReply(posts[i].slot)
  }

  /** An exchange that ends without an abort finishes its reply, also when its observation has been
      cancelled; it is marked as cancelled only by a cancellation, which finishes the caller; no post
      is a new token. */
  ghost predicate Accounts(ex: Exchange, e: LocalEvent, effect: Effect) {
    && (effect.next.Some? ==>
          && effect.next.value.userReply == ex.userReply
          && (effect.next.value.request.observeCancelled == ex.request.observeCancelled
              || (e.Cancel? && Finishes(effect.posts, e.caller))))
    && (effect.next.None? && ex.userReply.Some? && !e.Aborted? ==>
          Finishes(effect.posts, ex.userReply.value))
    && (forall i :: 0 <= i < |effect.posts| ==> !effect.posts[i].slot.SetRunning?)
  }

  lemma PostsToFinish(user: Option<ReplyId>, slots: seq<Slot>)
    requires forall i :: 0 <= i < |slots| ==> !slots[i].SetRunning?
    ensures forall i :: 0 <= i < |PostsTo(user, slots)| ==> !PostsTo(user, slots)[i].slot.SetRunning?
    ensures user.Some? && slots != [] && FinishesReply(slots[|slots| - 1]) ==>
              Finishes(PostsTo(user, slots), user.value)
  {
    if user.Some? && slots != [] {
      assert PostsTo(user, slots)[|slots| - 1] == Post(user.value, slots[|slots| - 1]);
    }
  }

  lemma OnErrorAccounts(ex: Exchange, before: Exchange, error: Error, response: Option<Received>, e: LocalEvent)
    requires ex.userReply == before.userReply
    ensures Accounts(before, e, OnError(ex, error, response))
  {
    var what := if response.Some?
                then SetContent(response.value.sender, response.value.reply.message, response.value.reply.code)
                else SetError(error);
    PostsToFinish(ex.userReply, [what, SetFinished(Ok)]);
  }

  lemma OnLastMessageAccounts(ex: Exchange, before: Exchange, e: LocalEvent, answers: seq<Datagram>)
    requires ex.replies != [] && ex.userReply == before.userReply
    requires ex.request.observeCancelled == before.request.observeCancelled
    requires ex.request.IsObserve() ==> !ex.request.observeCancelled
    ensures Accounts(before, e, OnLastMessage(ex).(sends := answers))
  {
    var n := |ex.replies| - 1;
    var last := WithPayload(ex.replies[n], FinalPayload(ex.request.IsMulticast(), ex.replies));
    var content := SetContent(last.sender, last.reply.message, last.reply.code);
    PostsToFinish(ex.userReply, [content]);
    PostsToFinish(ex.userReply, [content, SetNotified]);
    PostsToFinish(ex.userReply, [content, SetFinished(Ok)]);
  }

  lemma SendNextAccounts(now: nat, ex: Exchange, r: Request, freshId: uint16, host: Address,
                         answers: seq<Datagram>, before: Exchange, e: LocalEvent)
    requires ex.userReply == before.userReply && r.observeCancelled == before.request.observeCancelled
    ensures Accounts(before, e, SendNext(now, ex, r, freshId, host, answers))
  {
  }

  lemma ProceedAccounts(now: nat, ex: Exchange, sender: Address, c: Continuation, freshId: uint16,
                        answers: seq<Datagram>, before: Exchange, e: LocalEvent)
    requires ex.replies != [] && ex.userReply == before.userReply
    requires ex.request.observeCancelled == before.request.observeCancelled
    requires ex.request.IsObserve() ==> !ex.request.observeCancelled
    ensures Accounts(before, e, Proceed(now, ex, sender, c, freshId, answers))
  {
    if c.Finish? {
      OnLastMessageAccounts(ex, before, e, answers + OnLastMessage(ex).sends);
    } else {
      SendNextAccounts(now, ex, Turned(ex.request, c), freshId,
                       if c.AskForBlock? then sender else ex.request.target, answers, before, e);
    }
  }

  /** A cancelled observation has lost its Observe option when the answer is processed. */
  lemma AnsweredObserves(ex: Exchange)
    ensures Answered(ex).request.IsObserve() ==> !ex.request.observeCancelled
  {
    if ex.request.observeCancelled {
      RemoveNamedProjection(ex.request.message.options, OBSERVE, OBSERVE);
    }
  }

  lemma HandleAccounts(s: Settings, now: nat, ex: Exchange, e: LocalEvent)
    requires !e.ReplyDestroyed?
    ensures Accounts(ex, e, Handle(s, now, ex, e))
  {
    match e {
      case Frame(received, freshId) =>
        if Accepts(ex, received) {
          var accepted := Accept(ex, received);
          if IsError(received.reply.code) {
            OnErrorAccounts(accepted, ex, ErrorForResponseCode(received.reply.code), Some(received), e);
          } else {
            AnsweredObserves(accepted);
            ProceedAccounts(now, Answered(accepted), received.sender, Decide(s, received.reply), freshId,
                            Answers(accepted, received), ex, e);
          }
        }
      case Timeout => OnErrorAccounts(ex, ex, TimeOut, None, e);
      case WaitExpired => OnErrorAccounts(ex, ex, TimeOut, None, e);
      case MulticastExpired => PostsToFinish(ex.userReply, [SetFinished(Ok)]);
      case Cancel(caller) =>
        if ex.request.IsObserve() && !ex.request.observeCancelled {
          assert OnCancel(ex, caller).posts[0] == Post(caller, SetObserveCancelled);
        }
      case Aborted =>
    }
  }

  // Every event keeps the accounts

  lemma FinishPendingGrows(posted: seq<(Token, Post)>, more: seq<(Token, Post)>, from: nat, reply: ReplyId)
    ensures FinishPending(posted, from, reply) ==> FinishPending(posted + more, from, reply)
  {
    if FinishPending(posted, from, reply) {
      var i :| from <= i < |posted| && posted[i].1.reply == reply && FinishesReply(posted[i].1.slot);
      assert (posted + more)[i] == posted[i];
    }
  }

  lemma FinishPendingNew(posted: seq<(Token, Post)>, t: Token, posts: seq<Post>, from: nat, reply: ReplyId)
    requires from <= |posted| && Finishes(posts, reply)
    ensures FinishPending(posted + Tagged(t, posts), from, reply)
  {
    var i :| 0 <= i < |posts| && posts[i].reply == reply && FinishesReply(posts[i].slot);
    assert (posted + Tagged(t, posts))[|posted| + i] == (t, posts[i]);
  }

  function Committed(s: SystemState, t: Token, effect: Effect): SystemState {
    s.(engine := Commit(s.engine, t, effect))
  }

  lemma CoveredCommitted(s: SystemState, t: Token, effect: Effect, reply: ReplyId)
    requires s.delivered <= |s.engine.posted|
    ensures Covered(s, reply) ==> Covered(Committed(s, t, effect), reply)
    ensures Finishes(effect.posts, reply) ==> Covered(Committed(s, t, effect), reply)
  {
    FinishPendingGrows(s.engine.posted, Tagged(t, effect.posts), s.delivered, reply);
    if Finishes(effect.posts, reply) {
      FinishPendingNew(s.engine.posted, t, effect.posts, s.delivered, reply);
    }
  }

  lemma PostsCommitted(s: SystemState, t: Token, effect: Effect)
    requires PostsOwned(s)
    requires forall i :: 0 <= i < |effect.posts| && effect.posts[i].slot.SetRunning? ==>
               Owned(s, effect.posts[i].slot.token, effect.posts[i].reply)
    ensures PostsOwned(Committed(s, t, effect))
  {
    var tagged := Tagged(t, effect.posts);
    var posted := s.engine.posted + tagged;
    forall i | 0 <= i < |posted| && posted[i].1.slot.SetRunning?
      ensures Owned(s, posted[i].1.slot.token, posted[i].1.reply)
    {
      if i >= |s.engine.posted| {
        assert posted[i] == (t, effect.posts[i - |s.engine.posted|]);
      }
    }
  }

  /** What a routed event must satisfy: an abort is for a reply that is over. */
  ghost predicate Rightful(s: SystemState, ex: Exchange, e: LocalEvent) {
    && !e.ReplyDestroyed?
    && (e.Aborted? && ex.userReply.Some? ==> Covered(s, ex.userReply.value))
  }

  lemma TableCommitted(s: SystemState, t: Token, e: LocalEvent, effect: Effect)
    requires TableOwned(s) && t in s.engine.exchanges && Accounts(s.engine.exchanges[t], e, effect)
    ensures TableOwned(Committed(s, t, effect))
  {
  }

  lemma AccountsCommitted(s: SystemState, t: Token, e: LocalEvent, effect: Effect)
    requires Accounted(s) && s.delivered <= |s.engine.posted|
    requires t in s.engine.exchanges && Accounts(s.engine.exchanges[t], e, effect)
    requires Rightful(s, s.engine.exchanges[t], e)
    ensures Accounted(Committed(s, t, effect))
  {
    var s' := Committed(s, t, effect);
    forall reply | reply in s.submitted && reply in s.users
      ensures InTable(s'.engine.exchanges, reply) || Covered(s', reply)
    {
      CoveredCommitted(s, t, effect, reply);
      if !Covered(s, reply) {
        var u :| u in s.engine.exchanges && s.engine.exchanges[u].userReply == Some(reply);
        if u != t || effect.next.Some? {
          assert u in s'.engine.exchanges && s'.engine.exchanges[u].userReply == Some(reply);
        }
      }
    }
  }

  /** What only the engine changes leaves the users and their tokens as they are. */
  lemma SameUsers(s: SystemState, s': SystemState)
    requires UsersOwned(s) && s'.users == s.users && s'.requests == s.requests && s'.owners == s.owners
    requires s'.submitted == s.submitted
    ensures UsersOwned(s')
  {
  }

  lemma SameAborts(s: SystemState, s': SystemState)
    requires AbortsJustified(s) && s'.users == s.users && s'.owners == s.owners && s'.aborts == s.aborts
    ensures AbortsJustified(s')
  {
  }

  lemma EffectKeepsAccount(s: SystemState, t: Token, e: LocalEvent, effect: Effect)
    requires SystemInvariant(s) && t in s.engine.exchanges && Rightful(s, s.engine.exchanges[t], e)
    requires Accounts(s.engine.exchanges[t], e, effect) && TableInvariant(Commit(s.engine, t, effect))
    ensures SystemInvariant(Committed(s, t, effect))
  {
    SameUsers(s, Committed(s, t, effect));
    SameAborts(s, Committed(s, t, effect));
    PostsCommitted(s, t, effect);
    TableCommitted(s, t, e, effect);
    AccountsCommitted(s, t, e, effect);
  }

  lemma RoutedKeepsAccount(s: SystemState, now: nat, t: Token, e: LocalEvent)
    requires SystemInvariant(s) && t in s.engine.exchanges && Rightful(s, s.engine.exchanges[t], e)
    requires var effect := Handle(s.engine.settings, now, s.engine.exchanges[t], e);
             TableInvariant(Commit(s.engine, t, effect))
    ensures var effect := Handle(s.engine.settings, now, s.engine.exchanges[t], e);
            SystemInvariant(Committed(s, t, effect))
  {
    HandleAccounts(s.engine.settings, now, s.engine.exchanges[t], e);
    EffectKeepsAccount(s, t, e, Handle(s.engine.settings, now, s.engine.exchanges[t], e));
  }

  lemma ArriveKeepsInvariant(s: SystemState, now: nat, e: Event)
    requires SystemInvariant(s) && FromOutside(e) && Enabled(s.engine, now, e)
    ensures SystemInvariant(s.(engine := Next(s.engine, now, e)))
  {
    NextKeepsInvariant(s.engine, now, e);
    var route := Route(s.engine, e);
    if route.Some? {
      OutsideRoute(s.engine, now, e);
      RoutedKeepsAccount(s, now, route.value.0, route.value.1);
    } else {
      UnroutedKeepsAccount(s, Next(s.engine, now, e));
    }
  }

  lemma OutsideRoute(s: EngineState, now: nat, e: Event)
    requires FromOutside(e) && Route(s, e).Some?
    ensures var (t, local) := Route(s, e).value;
            && t in s.exchanges && !local.ReplyDestroyed? && !local.Aborted?
            && Next(s, now, e) == Commit(s, t, Handle(s.settings, now, s.exchanges[t], local))
  {
  }

  /** An event that concerns no exchange changes the settings at most. */
  lemma UnroutedKeepsAccount(s: SystemState, engine: EngineState)
    requires SystemInvariant(s) && TableInvariant(engine)
    requires engine.exchanges == s.engine.exchanges && engine.posted == s.engine.posted
    ensures SystemInvariant(s.(engine := engine))
  {
    var s' := s.(engine := engine);
    SameUsers(s, s');
    SameAborts(s, s');
    forall r ensures Covered(s, r) ==> Covered(s', r) {
    }
  }

  lemma CancelKeepsInvariant(s: SystemState, reply: ReplyId)
    requires SystemInvariant(s) && reply in s.users
    ensures SystemInvariant(Cancelled(s, reply))
  {
    var e := CancelObserve(reply, s.users[reply].token);
    NextKeepsInvariant(s.engine, 0, e);
    if e.token in s.engine.exchanges {
      RoutedKeepsAccount(s, 0, e.token, Cancel(reply));
    } else {
      UntrackedCancelKeeps(s, Cancelled(s, reply), reply);
    }
  }

  lemma UntrackedCancelKeeps(s: SystemState, s': SystemState, reply: ReplyId)
    requires SystemInvariant(s) && TableInvariant(s'.engine) && s'.engine.exchanges == s.engine.exchanges
    requires s'.engine.posted == s.engine.posted + [(NO_TOKEN, Post(reply, SetObserveCancelled))]
    requires s' == s.(engine := s'.engine)
    ensures SystemInvariant(s')
  {
    SameUsers(s, s');
    SameAborts(s, s');
    forall r ensures Covered(s, r) ==> Covered(s', r) {
      FinishPendingGrows(s.engine.posted, [(NO_TOKEN, Post(reply, SetObserveCancelled))], s.delivered, r);
    }
  }

  /** The oldest abort leaves the queue. */
  lemma AbortTaken(s: SystemState)
    requires SystemInvariant(s) && s.aborts != []
    ensures SystemInvariant(s.(aborts := s.aborts[1..]))
    ensures s.aborts[0] in s.engine.exchanges && s.engine.exchanges[s.aborts[0]].userReply.Some? ==>
              Covered(s.(aborts := s.aborts[1..]), s.engine.exchanges[s.aborts[0]].userReply.value)
  {
    var s1 := s.(aborts := s.aborts[1..]);
    SameUsers(s, s1);
    assert forall i :: 0 <= i < |s1.aborts| ==> s1.aborts[i] == s.aborts[i + 1];
    forall r ensures Covered(s, r) ==> Covered(s1, r) {
    }
  }

  lemma AbortedKeepsInvariant(s: SystemState)
    requires SystemInvariant(s) && s.aborts != []
    ensures SystemInvariant(AbortHandled(s))
  {
    AbortTaken(s);
    NextKeepsInvariant(s.engine, 0, RequestAborted(s.aborts[0]));
    if s.aborts[0] in s.engine.exchanges {
      RoutedKeepsAccount(s.(aborts := s.aborts[1..]), 0, s.aborts[0], Aborted);
    }
  }

  lemma CreateKeepsInvariant(s: SystemState, reply: ReplyId, request: UserRequest)
    requires SystemInvariant(s)
    requires reply !in s.requests && request.methodCode != 0 && Sorted(request.message.options)
    requires request.message.token == [] || request.message.token !in s.owners
    ensures SystemInvariant(Created(s, reply, request))
  {
    var s' := Created(s, reply, request);
    CreateKeepsOwnership(s, reply, request);
    forall r ensures Covered(s, r) ==> Covered(s', r) {
    }
    CreateKeepsTable(s, s');
  }

  lemma CreateKeepsOwnership(s: SystemState, reply: ReplyId, request: UserRequest)
    requires UsersOwned(s) && PostsOwned(s) && AbortsJustified(s)
    requires reply !in s.requests && request.methodCode != 0 && Sorted(request.message.options)
    requires request.message.token == [] || request.message.token !in s.owners
    ensures var s' := Created(s, reply, request); UsersOwned(s') && PostsOwned(s') && AbortsJustified(s')
  {
    var s' := Created(s, reply, request);
    NewReplyInvariant(request.message.token);
    CreateKeepsRequests(s, s', reply, request);
    CreateKeepsReplies(s, s', reply, request.message.token);
    PostsStayOwned(s, s');
    CreateKeepsAborts(s, s', reply);
  }

  lemma CreateKeepsRequests(s: SystemState, s': SystemState, reply: ReplyId, request: UserRequest)
    requires UsersKnown(s) && RequestsOwned(s) && OwnersGrow(s, s')
    requires request.methodCode != 0 && Sorted(request.message.options) && Owned(s', request.message.token, reply)
    requires s'.requests == s.requests[reply := request] && s'.submitted == s.submitted
    requires s'.users.Keys <= s.users.Keys + {reply}
    requires forall t :: t in s'.owners ==> (t in s.owners && s'.owners[t] == s.owners[t]) || s'.owners[t] == reply
    ensures UsersKnown(s') && RequestsOwned(s')
  {
  }

  lemma CreateKeepsReplies(s: SystemState, s': SystemState, reply: ReplyId, token: Token)
    requires RepliesOwned(s) && OwnersGrow(s, s') && Owned(s', token, reply)
    requires ReplyInvariant(NewReply(token)) && s'.users == s.users[reply := NewReply(token)]
    ensures RepliesOwned(s')
  {
  }

  lemma CreateKeepsAborts(s: SystemState, s': SystemState, reply: ReplyId)
    requires AbortsJustified(s) && UsersKnown(s) && OwnersGrow(s, s') && s'.aborts == s.aborts
    requires reply !in s.requests
    requires forall r :: r in s'.users && r != reply ==> r in s.users && s'.users[r] == s.users[r]
    ensures AbortsJustified(s')
  {
  }

  /** Tokens keep their owners. */
  ghost predicate OwnersGrow(s: SystemState, s': SystemState) {
    forall t :: t in s.owners ==> t in s'.owners && s'.owners[t] == s.owners[t]
  }

  lemma PostsStayOwned(s: SystemState, s': SystemState)
    requires PostsOwned(s) && OwnersGrow(s, s') && s'.engine.posted == s.engine.posted
    ensures PostsOwned(s')
  {
  }

  lemma CreateKeepsTable(s: SystemState, s': SystemState)
    requires TableOwned(s)
    requires s'.engine == s.engine && s'.delivered == s.delivered && s'.submitted == s.submitted
    requires forall t :: t in s.owners ==> t in s'.owners && s'.owners[t] == s.owners[t]
    requires forall r :: r in s.users ==> r in s'.users
    ensures TableOwned(s')
  {
  }

  /** A submission with a new token opens an exchange and touches nothing else. */
  lemma SubmitKeepsInvariant(s: SystemState, e: SystemEvent)
    requires SystemInvariant(s) && e.Submit? && Possible(s, e) && e.reply in s.users
    ensures SystemInvariant(Submitted(s, e))
  {
    var u := s.requests[e.reply];
    var t := SubmittedToken(s, e);
    var effect := Begin(s.engine.settings, e.now, u, e.reply, t, e.freshId, e.randomTimeout);
    NextKeepsInvariant(s.engine, e.now, Submission(s, e));
    BeginIdentity(s.engine.settings, e.now, u, e.reply, t, e.freshId, e.randomTimeout);
    BeginNotCancelled(s.engine.settings, e.now, u, e.reply, t, e.freshId, e.randomTimeout);
    SubmitKeepsAccounts(s, e.reply, e.freshId, t, effect);
  }

  lemma LateSubmitKeepsInvariant(s: SystemState, reply: ReplyId)
    requires SystemInvariant(s) && reply in s.requests && reply !in s.users
    ensures SystemInvariant(s.(submitted := s.submitted + {reply}))
  {
    assert SystemInvariant(s.(submitted := s.submitted + {reply}));
  }

  lemma BeginNotCancelled(settings: Settings, now: nat, u: UserRequest, reply: ReplyId, t: Token, id: uint16,
                          randomTimeout: nat)
    ensures var effect := Begin(settings, now, u, reply, t, id, randomTimeout);
            && effect.next.Some? && !effect.next.value.request.observeCancelled
            && effect.posts == [Post(reply, SetRunning(t, id))]
  {
  }

  lemma SubmitKeepsAccounts(s: SystemState, reply: ReplyId, id: uint16, t: Token, effect: Effect)
    requires SystemInvariant(s) && reply in s.users && reply !in s.submitted
    requires t != [] && t !in s.engine.exchanges && (t in s.owners ==> s.owners[t] == reply)
    requires effect.next.Some? && effect.next.value.userReply == Some(reply)
    requires !effect.next.value.request.observeCancelled
    requires effect.posts == [Post(reply, SetRunning(t, id))]
    requires TableInvariant(Commit(s.engine, t, effect))
    ensures SystemInvariant(Committed(s, t, effect).(submitted := s.submitted + {reply},
                                                     owners := s.owners[t := reply]))
  {
    var s1 := s.(submitted := s.submitted + {reply}, owners := s.owners[t := reply]);
    OwnerAdded(s, reply, t);
    SameUsers(s1, Committed(s1, t, effect));
    SameAborts(s1, Committed(s1, t, effect));
    PostsCommitted(s1, t, effect);
    SubmittedTableOwned(s, s1, reply, t, effect);
    SubmitKeepsAccounted(s, s1, reply, t, effect);
  }

  lemma OwnerAdded(s: SystemState, reply: ReplyId, t: Token)
    requires UsersOwned(s) && PostsOwned(s) && AbortsJustified(s) && reply in s.users
    requires t in s.owners ==> s.owners[t] == reply
    ensures var s1 := s.(submitted := s.submitted + {reply}, owners := s.owners[t := reply]);
            UsersOwned(s1) && PostsOwned(s1) && AbortsJustified(s1)
  {
    var s1 := s.(submitted := s.submitted + {reply}, owners := s.owners[t := reply]);
    assert OwnersGrow(s, s1);
    PostsStayOwned(s, s1);
    OwnersGrown(s, s1);
    AbortsStayJustified(s, s1);
  }

  lemma OwnersGrown(s: SystemState, s': SystemState)
    requires RepliesOwned(s) && RequestsOwned(s) && OwnersGrow(s, s')
    requires s'.users == s.users && s'.requests == s.requests
    ensures RepliesOwned(s') && RequestsOwned(s')
  {
  }

  lemma AbortsStayJustified(s: SystemState, s': SystemState)
    requires AbortsJustified(s) && OwnersGrow(s, s') && s'.users == s.users && s'.aborts == s.aborts
    ensures AbortsJustified(s')
  {
  }

  lemma SubmittedTableOwned(s: SystemState, s1: SystemState, reply: ReplyId, t: Token, effect: Effect)
    requires TableOwned(s) && t !in s.engine.exchanges && reply in s.users
    requires s1 == s.(submitted := s.submitted + {reply}, owners := s.owners[t := reply])
    requires effect.next.Some? && effect.next.value.userReply == Some(reply)
    ensures TableOwned(Committed(s1, t, effect))
  {
  }

  lemma SubmitKeepsAccounted(s: SystemState, s1: SystemState, reply: ReplyId, t: Token, effect: Effect)
    requires Accounted(s) && s.delivered <= |s.engine.posted| && t !in s.engine.exchanges
    requires s1.engine == s.engine && s1.delivered == s.delivered && s1.users == s.users
    requires s1.submitted == s.submitted + {reply}
    requires effect.next.Some? && effect.next.value.userReply == Some(reply)
    ensures Accounted(Committed(s1, t, effect))
  {
    var s' := Committed(s1, t, effect);
    forall r | r in s'.submitted && r in s'.users ensures InTable(s'.engine.exchanges, r) || Covered(s', r) {
      CoveredCommitted(s1, t, effect, r);
      if r == reply {
        assert s'.engine.exchanges[t].userReply == Some(r);
      } else if InTable(s.engine.exchanges, r) {
        var u :| u in s.engine.exchanges && s.engine.exchanges[u].userReply == Some(r);
        assert s'.engine.exchanges[u].userReply == Some(r);
      }
    }
  }

  /** Users change, engine and queue position do not: what is needed to keep the accounts. */
  lemma UsersChange(s: SystemState, s': SystemState)
    requires SystemInvariant(s)
    requires s'.engine == s.engine && s'.requests == s.requests && s'.submitted == s.submitted
    requires s'.owners == s.owners && s'.users.Keys == s.users.Keys
    requires s.delivered <= s'.delivered <= |s.engine.posted|
    requires forall r :: r in s.users && s.users[r].IsFinished() ==> s'.users[r].IsFinished()
    requires forall r :: r in s.users && Covered(s, r) ==> Covered(s', r)
    requires forall r :: r in s'.users ==> ReplyInvariant(s'.users[r]) && Owned(s', s'.users[r].token, r)
    requires AbortsJustified(s')
    ensures SystemInvariant(s')
  {
  }

  lemma DeliverKeepsCovered(s: SystemState, r: ReplyId)
    requires SystemInvariant(s) && s.delivered < |s.engine.posted| && r in s.users && Covered(s, r)
    ensures Covered(Delivered(s), r)
  {
    var s' := Delivered(s);
    var post := s.engine.posted[s.delivered].1;
    InvokeKeepsInvariant(s.users[r], post.slot);
    if FinishPending(s.engine.posted, s.delivered, r) {
      var i :| s.delivered <= i < |s.engine.posted| && s.engine.posted[i].1.reply == r
               && FinishesReply(s.engine.posted[i].1.slot);
      if i > s.delivered {
        assert FinishPending(s'.engine.posted, s'.delivered, r);
      }
    }
  }

  lemma DeliverKeepsInvariant(s: SystemState)
    requires SystemInvariant(s) && s.delivered < |s.engine.posted|
    ensures SystemInvariant(Delivered(s))
  {
    var post := s.engine.posted[s.delivered].1;
    if post.reply in s.users {
      InvokeKeepsInvariant(s.users[post.reply], post.slot);
      DeliveredToken(s);
    }
    forall r | r in s.users && Covered(s, r) ensures Covered(Delivered(s), r) {
      DeliverKeepsCovered(s, r);
    }
    UsersChange(s, Delivered(s));
  }

  lemma DeliveredToken(s: SystemState)
    requires UsersOwned(s) && PostsOwned(s) && s.delivered < |s.engine.posted|
    requires s.engine.posted[s.delivered].1.reply in s.users
    ensures var post := s.engine.posted[s.delivered].1;
            Owned(s, Invoke(s.users[post.reply], post.slot).token, post.reply)
  {
  }

  lemma AbortTokenOwned(s: SystemState, reply: ReplyId)
    requires UsersOwned(s) && reply in s.users
    ensures forall i :: 0 <= i < |AbortSignal(s, reply)| ==> Owned(s, AbortSignal(s, reply)[i], reply)
  {
  }

  lemma UserAbortKeepsInvariant(s: SystemState, reply: ReplyId)
    requires SystemInvariant(s) && reply in s.users
    ensures SystemInvariant(AbortedByUser(s, reply))
  {
    AbortKeepsInvariant(s.users[reply]);
    AbortTokenOwned(s, reply);
    AbortSignalJustified(s, reply);
    UsersChange(s, AbortedByUser(s, reply));
  }

  lemma AbortSignalJustified(s: SystemState, reply: ReplyId)
    requires AbortsJustified(s) && reply in s.users && Abort(s.users[reply]).IsFinished()
    requires forall i :: 0 <= i < |AbortSignal(s, reply)| ==> Owned(s, AbortSignal(s, reply)[i], reply)
    ensures AbortsJustified(AbortedByUser(s, reply))
  {
  }

  lemma DestroyKeepsInvariant(s: SystemState, reply: ReplyId)
    requires SystemInvariant(s) && reply in s.users
    ensures SystemInvariant(Destroyed(s, reply))
  {
    WithoutReplyKeepsInvariant(s.engine, reply);
    DestroyKeepsOwnership(s, reply);
    DestroyKeepsAborts(s, reply);
    DestroyKeepsAccounts(s, reply);
  }

  lemma DestroyKeepsOwnership(s: SystemState, reply: ReplyId)
    requires UsersOwned(s) && TableOwned(s) && PostsOwned(s) && reply in s.users
    ensures var s' := Destroyed(s, reply); UsersOwned(s') && TableOwned(s') && PostsOwned(s')
  {
  }

  lemma DestroyKeepsAborts(s: SystemState, reply: ReplyId)
    requires UsersOwned(s) && AbortsJustified(s) && reply in s.users
    ensures AbortsJustified(Destroyed(s, reply))
  {
    AbortTokenOwned(s, reply);
  }

  lemma DestroyKeepsAccounts(s: SystemState, reply: ReplyId)
    requires Accounted(s) && reply in s.users
    ensures Accounted(Destroyed(s, reply))
  {
    var s' := Destroyed(s, reply);
    forall r | r in s'.submitted && r in s'.users ensures InTable(s'.engine.exchanges, r) || Covered(s', r) {
      if InTable(s.engine.exchanges, r) {
        var t :| t in s.engine.exchanges && s.engine.exchanges[t].userReply == Some(r);
        assert s'.engine.exchanges[t].userReply == Some(r);
      }
    }
  }

  lemma NextSystemKeepsInvariant(s: SystemState, e: SystemEvent)
    requires SystemInvariant(s) && Possible(s, e)
    ensures SystemInvariant(NextSystem(s, e))
  {
    match e {
      case Create(reply, request) => CreateKeepsInvariant(s, reply, request);
      case Submit(_, reply, _, _, _) =>
        if reply in s.users {
          SubmitKeepsInvariant(s, e);
        } else {
          LateSubmitKeepsInvariant(s, reply);
        }
      case Arrive(now, event) => ArriveKeepsInvariant(s, now, event);
      case CancelCall(reply) => CancelKeepsInvariant(s, reply);
      case Deliver => DeliverKeepsInvariant(s);
      case UserAbort(reply) => UserAbortKeepsInvariant(s, reply);
      case HandleAbort => AbortedKeepsInvariant(s);
      case Destroy(reply) => DestroyKeepsInvariant(s, reply);
    }
  }

  // Runs

  function InitialSystem(settings: Settings): SystemState {
    SystemState(Initial(settings), 0, map[], map[], {}, map[], [])
  }

  /** The state after a run, or `None` if some event of it cannot happen. */
  ghost function RunSystem(settings: Settings, events: seq<SystemEvent>): Option<SystemState> {
    if events == [] then Some(InitialSystem(settings))
    else
      match RunSystem(settings, events[..|events| - 1])
      case None => None
      case Some(s) =>
        if Possible(s, events[|events| - 1]) then Some(NextSystem(s, events[|events| - 1])) else None
  }

  lemma {:induction false} ReachableSystemInvariant(settings: Settings, events: seq<SystemEvent>)
    requires ValidSettings(settings)
    ensures RunSystem(settings, events).Some? ==> SystemInvariant(RunSystem(settings, events).value)
  {
    if events != [] {
      var front := RunSystem(settings, events[..|events| - 1]);
      ReachableSystemInvariant(settings, events[..|events| - 1]);
      if front.Some? && Possible(front.value, events[|events| - 1]) {
        NextSystemKeepsInvariant(front.value, events[|events| - 1]);
      }
    }
  }

  /** In every run: a submitted reply that still exists has an exchange in the table, or is
      finished, or will be by a slot already in the queue. Once the queue is drained and the
      exchange gone it has emitted `finished` exactly once, with no notification behind it. */
  lemma CompletionAccounting(settings: Settings, events: seq<SystemEvent>, reply: ReplyId)
    requires ValidSettings(settings) && RunSystem(settings, events).Some?
    ensures
      var s := RunSystem(settings, events).value;
      reply in s.submitted && reply in s.users ==>
        && (InTable(s.engine.exchanges, reply) || Covered(s, reply))
        && FinishedCount(s.users[reply].emitted) <= 1
        && QuietAfterFinished(s.users[reply].emitted)
        && (s.delivered == |s.engine.posted| && !InTable(s.engine.exchanges, reply) ==>
              FinishedCount(s.users[reply].emitted) == 1)
  {
    ReachableSystemInvariant(settings, events);
  }

  // Where the account does not balance

  ghost predicate OnlyExchangeOf(table: Table, t: Token, reply: ReplyId) {
    t in table && table[t].userReply == Some(reply)
    && forall u :: u in table && table[u].userReply == Some(reply) ==> u == t
  }

  /** A second request under another reply's token drops that reply's exchange, and nothing in
      the queue will finish the reply. Any other token leaves it alone. */
  lemma ReusedTokenDropsExchange(s: EngineState, now: nat, e: Event, t: Token, first: ReplyId)
    requires e.SendRequest? && e.request.methodCode != 0 && e.reply != first
    requires OnlyExchangeOf(s.exchanges, t, first)
    ensures InTable(Next(s, now, e).exchanges, first) <==> RequestToken(e.request, e.freshToken) != t
    ensures !FinishPending(Next(s, now, e).posted, |s.posted|, first)
  {
    var u := RequestToken(e.request, e.freshToken);
    var effect := Begin(s.settings, now, e.request, e.reply, u, e.freshId, e.randomTimeout);
    BeginNotCancelled(s.settings, now, e.request, e.reply, u, e.freshId, e.randomTimeout);
    assert effect.next.value.userReply == Some(e.reply);
    DroppedByCommit(s, u, effect, e.reply, t, first);
  }

  lemma DroppedByCommit(s: EngineState, u: Token, effect: Effect, reply: ReplyId, t: Token, first: ReplyId)
    requires OnlyExchangeOf(s.exchanges, t, first) && reply != first
    requires effect.next.Some? && effect.next.value.userReply == Some(reply)
    requires |effect.posts| == 1 && effect.posts[0].reply == reply
    ensures InTable(Commit(s, u, effect).exchanges, first) <==> u != t
    ensures !FinishPending(Commit(s, u, effect).posted, |s.posted|, first)
  {
    var s' := Commit(s, u, effect);
    assert s'.posted[|s.posted|] == (u, effect.posts[0]);
    if u != t {
      assert s'.exchanges[t].userReply == Some(first);
    }
  }

  /** A reply aborted before it was told its token aborts nothing: the exchange stays. */
  lemma AbortBeforeRunningIsLost(s: SystemState, reply: ReplyId)
    requires SystemInvariant(s) && reply in s.users && s.users[reply].token == [] && s.aborts == []
    requires reply in s.submitted && !s.users[reply].IsFinished()
    ensures AbortedByUser(s, reply).aborts == [[]]
    ensures AbortHandled(AbortedByUser(s, reply)).engine == s.engine
  {
    EmptyTokenAbortsNothing(s.engine);
  }

  lemma EmptyTokenAbortsNothing(s: EngineState)
    requires TableInvariant(s)
    ensures Next(s, 0, RequestAborted([])) == s
  {
  }
}
