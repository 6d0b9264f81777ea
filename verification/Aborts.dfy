/** Aborts and cancellations over whole runs of the system. Both name the exchange by the token of the
    reply, which comes with the request or with the running slot. */
module Aborts {
  import opened CoapTypes
  import opened OptionList
  import opened Codec
  import opened Reassembly
  import opened Requests
  import opened Exchanges
  import opened Engine
  import opened UserReplies
  import opened ReplyHistory
  import opened Completion
  import opened SystemRuns
  import opened Deliveries

  // The running slot

  /** Token and id of the last running slot. */
  function LastRunningSlot(slots: seq<Slot>): Option<(Token, uint16)> {
    if slots == [] then None
    else if slots[|slots| - 1].SetRunning? then Some((slots[|slots| - 1].token, slots[|slots| - 1].id))
    else LastRunningSlot(slots[..|slots| - 1])
  }

  lemma {:induction false} LastRunningIsASlot(ops: seq<UserOp>)
    ensures LastRunning(ops) == LastRunningSlot(SlotsOf(ops))
  {
    if ops != [] {
      var front, op := ops[..|ops| - 1], ops[|ops| - 1];
      LastRunningIsASlot(front);
      if op.Slotted? {
        assert (SlotsOf(front) + [op.slot])[..|SlotsOf(front)|] == SlotsOf(front);
      } else {
        assert SlotsOf(front) + [] == SlotsOf(front);
      }
    }
  }

  /** Entry `i` of the log tells `reply` its token. */
  predicate Tells(log: Log, i: int, reply: ReplyId) {
    0 <= i < |log| && log[i].1.reply == reply && log[i].1.slot.SetRunning?
  }

  lemma {:induction false} LastRunningFor(log: Log, reply: ReplyId)
    requires ToldOnce(log)
    ensures forall i :: Tells(log, i, reply) ==>
              LastRunningSlot(SlotsFor(log, reply)) == Some((log[i].1.slot.token, log[i].1.slot.id))
    ensures (forall i :: !Tells(log, i, reply)) ==> LastRunningSlot(SlotsFor(log, reply)) == None
  {
    if log != [] {
      var front, last := log[..|log| - 1], log[|log| - 1];
      LastRunningFor(front, reply);
      assert forall i :: Tells(log, i, reply) && i < |front| ==> Tells(front, i, reply);
      assert forall i :: Tells(front, i, reply) ==> Tells(log, i, reply);
      if last.1.reply == reply {
        assert (SlotsFor(front, reply) + [last.1.slot])[..|SlotsFor(front, reply)|] == SlotsFor(front, reply);
        assert last.1.slot.SetRunning? ==> Tells(log, |log| - 1, reply);
      } else {
        assert SlotsFor(front, reply) + [] == SlotsFor(front, reply);
      }
    }
  }

  /** In every run: a live reply behind whose running slot the queue has got carries the token and the id of
      that slot; before that, the token of its request. */
  lemma RunningTellsTheToken(settings: Settings, events: seq<SystemEvent>, reply: ReplyId)
    requires ValidSettings(settings) && RunSystem(settings, events).Some?
    requires reply in RunSystem(settings, events).value.users
    ensures var s := RunSystem(settings, events).value;
            && s.delivered <= |s.engine.posted| && reply in s.requests
            && (forall i :: Tells(s.engine.posted[..s.delivered], i, reply) ==>
                  s.engine.posted[i].1.slot == SetRunning(s.users[reply].token, s.users[reply].id))
            && ((forall i :: !Tells(s.engine.posted[..s.delivered], i, reply)) ==>
                  s.users[reply].token == s.requests[reply].message.token)
  {
    var s, ops := RunSystem(settings, events).value, OpsOf(settings, events, reply);
    RepliesAreTheirOps(settings, events, reply);
    ReachableLog(settings, events);
    TokenIsTheLast(s.requests[reply].message.token, ops);
    LastRunningIsASlot(ops);
    LastRunningFor(s.engine.posted[..s.delivered], reply);
  }

  /** The reply has been told its token: by its request, or by a running slot that has been delivered. */
  ghost predicate KnowsItsToken(s: SystemState, reply: ReplyId)
    requires reply in s.requests && s.delivered <= |s.engine.posted|
  {
    s.requests[reply].message.token != [] || exists i :: Tells(s.engine.posted[..s.delivered], i, reply)
  }

  lemma TokenKnownExactly(settings: Settings, events: seq<SystemEvent>, reply: ReplyId)
    requires ValidSettings(settings) && RunSystem(settings, events).Some?
    requires reply in RunSystem(settings, events).value.users
    ensures var s := RunSystem(settings, events).value;
            && reply in s.requests && s.delivered <= |s.engine.posted|
            && (KnowsItsToken(s, reply) <==> s.users[reply].token != [])
  {
    var s := RunSystem(settings, events).value;
    ReachableSystemInvariant(settings, events);
    ReachableLog(settings, events);
    RunningTellsTheToken(settings, events, reply);
    if i :| Tells(s.engine.posted[..s.delivered], i, reply) {
      assert Placed(s, s.engine.posted[i]);
    }
  }

  // Aborts

  /** In every reachable state without aborts on their way: aborting an unfinished reply whose exchange
      is open ends that exchange if and only if the reply has been told its token, by its request or by
      the running slot, which must have been delivered. */
  lemma AbortRemovesExactly(settings: Settings, events: seq<SystemEvent>, reply: ReplyId)
    requires ValidSettings(settings) && RunSystem(settings, events).Some?
    requires var s := RunSystem(settings, events).value;
             s.aborts == [] && reply in s.users && !s.users[reply].IsFinished() && InTable(s.engine.exchanges, reply)
    ensures var s := RunSystem(settings, events).value;
            && reply in s.requests && s.delivered <= |s.engine.posted|
            && AbortedByUser(s, reply).aborts != []
            && (!InTable(AbortHandled(AbortedByUser(s, reply)).engine.exchanges, reply) <==> KnowsItsToken(s, reply))
  {
    ReachableSystemInvariant(settings, events);
    ReachableTokens(settings, events);
    TokenKnownExactly(settings, events, reply);
    AbortRemoves(RunSystem(settings, events).value, reply);
  }

  lemma DestroyRemoves(s: SystemState, reply: ReplyId, t: Token)
    requires SystemInvariant(s) && SoleTokens(s) && s.aborts == []
    requires reply in s.users && !s.users[reply].IsFinished()
    requires t in s.engine.exchanges && s.engine.exchanges[t].userReply == Some(reply)
    ensures Destroyed(s, reply).aborts == [s.users[reply].token]
    ensures t in AbortHandled(Destroyed(s, reply)).engine.exchanges <==> s.users[reply].token == []
  {
    KnownTokenIsTheToken(s, reply, t);
    AbortInEngine(Destroyed(s, reply).engine, s.users[reply].token);
  }

  /** In every reachable state without aborts on their way: destroying an unfinished reply whose exchange is open
      ends that exchange, like an abort, if and only if the reply has been told its token. */
  lemma DestroyRemovesExactly(settings: Settings, events: seq<SystemEvent>, reply: ReplyId, t: Token)
    requires ValidSettings(settings) && RunSystem(settings, events).Some?
    requires var s := RunSystem(settings, events).value;
             && s.aborts == [] && reply in s.users && !s.users[reply].IsFinished()
             && t in s.engine.exchanges && s.engine.exchanges[t].userReply == Some(reply)
    ensures var s := RunSystem(settings, events).value;
            && reply in s.requests && s.delivered <= |s.engine.posted|
            && Destroyed(s, reply).aborts != []
            && (t !in AbortHandled(Destroyed(s, reply)).engine.exchanges <==> KnowsItsToken(s, reply))
  {
    ReachableSystemInvariant(settings, events);
    ReachableTokens(settings, events);
    TokenKnownExactly(settings, events, reply);
    DestroyRemoves(RunSystem(settings, events).value, reply, t);
  }

  // Cancellations

  /** In every reachable state: cancelling an open observation marks its exchange, so that the next frame
      is answered by a reset, if and only if the reply has been told its token, by its request or by the
      running slot, which must have been delivered. The reply is told of the cancellation in any case. */
  lemma CancelMarksExactly(settings: Settings, events: seq<SystemEvent>, reply: ReplyId, t: Token)
    requires ValidSettings(settings) && RunSystem(settings, events).Some?
    requires var s := RunSystem(settings, events).value;
             && reply in s.users && t in s.engine.exchanges && s.engine.exchanges[t].userReply == Some(reply)
             && s.engine.exchanges[t].request.IsObserve() && !s.engine.exchanges[t].request.observeCancelled
    ensures var s := RunSystem(settings, events).value;
            var s' := Cancelled(s, reply);
            && reply in s.requests && s.delivered <= |s.engine.posted| && t in s'.engine.exchanges
            && (s'.engine.exchanges[t].request.observeCancelled <==> KnowsItsToken(s, reply))
            && (!KnowsItsToken(s, reply) ==> s'.engine.exchanges == s.engine.exchanges)
            && FinishPending(s'.engine.posted, |s.engine.posted|, reply)
  {
    ReachableSystemInvariant(settings, events);
    ReachableTokens(settings, events);
    TokenKnownExactly(settings, events, reply);
    CancelMarks(RunSystem(settings, events).value, reply, t);
  }
}
