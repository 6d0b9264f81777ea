/** The exchange engine as a state machine: a table from tokens to exchanges, and what it
    has posted to user replies, handed to the connection and signalled so far. Every log
    entry carries the token of the exchange it was made for. */
module Engine {
  import opened CoapTypes
  import opened StableOrder
  import opened OptionList
  import opened Blocks
  import opened Codec
  import opened Reassembly
  import opened Requests
  import opened Exchanges

  type Table = map<Token, Exchange>

  datatype EngineState = EngineState(settings: Settings, exchanges: Table,
                                     posted: seq<(Token, Post)>, sent: seq<(Token, Datagram)>,
                                     signals: seq<(Token, Signal)>)

  const NO_TOKEN: Token := []

  datatype Event =
    | SendRequest(reply: ReplyId, request: UserRequest, freshId: uint16, freshToken: Token, randomTimeout: nat)
    | FrameReceived(frame: Bytes, sender: Address, freshId: uint16)
    | RequestTimeout(token: Token)
    | TransmitWaitExpired(token: Token)
    | MulticastRequestExpired(token: Token)
    | CancelObserve(reply: ReplyId, token: Token)
    | RequestAborted(token: Token)
    | ReplyGone(reply: ReplyId)
    | Configure(settings: Settings)

  // Lookups

  predicate IsMessageIdRegistered(table: Table, id: uint16) {
    id == 0 || exists t :: t in table && table[t].request.message.id == id
  }

  predicate IsTokenRegistered(table: Table, token: Token) {
    token == [] || token in table
  }

  /** Some exchange whose request carries the id. */
  ghost function ById(table: Table, id: uint16): Option<Token> {
    if exists t :: t in table && table[t].request.message.id == id then
      var t :| t in table && table[t].request.message.id == id;
      Some(t)
    else None
  }

  /** The exchange a message belongs to: by token, or else by message id. */
  ghost function Match(table: Table, m: Message): Option<Token> {
    if m.token != [] && m.token in table then Some(m.token) else ById(table, m.id)
  }

  // Transitions

  function Tagged<T>(t: Token, xs: seq<T>): (r: seq<(Token, T)>)
    ensures |r| == |xs|
  {
    seq(|xs|, i requires 0 <= i < |xs| => (t, xs[i]))
  }

  /** Carries out what was decided for the exchange with token `t`. */
  function Commit(s: EngineState, t: Token, effect: Effect): EngineState {
    s.(exchanges := if effect.next.Some? then s.exchanges[t := effect.next.value] else s.exchanges - {t},
       posted := s.posted + Tagged(t, effect.posts),
       sent := s.sent + Tagged(t, effect.sends),
       signals := s.signals + Tagged(t, effect.signals))
  }

  /** The exchange an event is for, and what it means there. */
  ghost function Route(s: EngineState, e: Event): Option<(Token, LocalEvent)> {
    match e
    case FrameReceived(frame, sender, freshId) =>
      (match Decode(frame)
       case None => None
       case Some(reply) =>
         match Match(s.exchanges, reply.message)
         case None => None
         case Some(t) => Some((t, Frame(Received(reply, sender), freshId))))
    case RequestTimeout(t) => if t in s.exchanges then Some((t, Timeout)) else None
    case TransmitWaitExpired(t) => if t in s.exchanges then Some((t, WaitExpired)) else None
    case MulticastRequestExpired(t) => if t in s.exchanges then Some((t, MulticastExpired)) else None
    case CancelObserve(reply, t) => if t in s.exchanges then Some((t, Cancel(reply))) else None
    case RequestAborted(t) => if t in s.exchanges then Some((t, Aborted)) else None
    case _ => None
  }

  function RequestToken(u: UserRequest, freshToken: Token): Token {
    if u.message.token == [] then freshToken else u.message.token
  }

  function ForgetReply(table: Table, reply: ReplyId): Table {
    map t | t in table :: Handled(table[t], reply)
  }

  function Handled(ex: Exchange, reply: ReplyId): Exchange {
    if ex.userReply == Some(reply) then ex.(userReply := None) else ex
  }

  function WithoutReply(s: EngineState, reply: ReplyId): EngineState {
    s.(exchanges := ForgetReply(s.exchanges, reply))
  }

  /** One event. */
  ghost function Next(s: EngineState, now: nat, e: Event): EngineState {
    var route := Route(s, e);
    if route.Some? && route.value.0 in s.exchanges then
      Commit(s, route.value.0, Handle(s.settings, now, s.exchanges[route.value.0], route.value.1))
    else
      match e
      case SendRequest(reply, u, freshId, freshToken, randomTimeout) =>
        if u.methodCode == 0 then s
        else
          var t := RequestToken(u, freshToken);
          Commit(s, t, Begin(s.settings, now, u, reply, t, freshId, randomTimeout))
      case CancelObserve(reply, t) => s.(posted := s.posted + [(NO_TOKEN, Post(reply, SetObserveCancelled))])
      case ReplyGone(reply) => WithoutReply(s, reply)
      case Configure(settings) => s.(settings := settings)
      case _ => s
  }

  predicate IsFreshId(table: Table, id: uint16) {
    !IsMessageIdRegistered(table, id)
  }

  /** When an event can happen, and which random choices go with it. A frame must be one that
      can be read. */
  ghost predicate Enabled(s: EngineState, now: nat, e: Event) {
    match e
    case SendRequest(reply, u, freshId, freshToken, randomTimeout) =>
      && IsFreshId(s.exchanges, freshId) && !IsTokenRegistered(s.exchanges, freshToken)
      && s.settings.minimumTokenSize <= |freshToken| <= 8
      && Sorted(u.message.options) && randomTimeout < 0x1_0000_0000
      && (s.settings.ackTimeout < MaximumTimeout(s.settings) ==>
            s.settings.ackTimeout <= randomTimeout < MaximumTimeout(s.settings))
    case FrameReceived(frame, sender, freshId) => Decode(frame).Some? && IsFreshId(s.exchanges, freshId)
    case RequestTimeout(t) => t in s.exchanges && Expired(s.exchanges[t].request.timeoutTimer, now)
    case TransmitWaitExpired(t) => t in s.exchanges && Expired(s.exchanges[t].request.maxTransmitWaitTimer, now)
    case MulticastRequestExpired(t) => t in s.exchanges && Expired(s.exchanges[t].request.multicastExpireTimer, now)
    case CancelObserve(_, _) => true
    case RequestAborted(_) => true
    case ReplyGone(_) => true
    case Configure(settings) => ValidSettings(settings)
  }

  // Runs

  datatype Happening = Happening(now: nat, event: Event)

  ghost function RunEngine(s: EngineState, events: seq<Happening>): EngineState {
    if events == [] then s
    else Next(RunEngine(s, events[..|events| - 1]), events[|events| - 1].now, events[|events| - 1].event)
  }

  /** Every event of the run can happen when it does. */
  ghost predicate Legal(s: EngineState, events: seq<Happening>) {
    events == []
    || (&& Legal(s, events[..|events| - 1])
        && Enabled(RunEngine(s, events[..|events| - 1]), events[|events| - 1].now, events[|events| - 1].event))
  }

  function Initial(settings: Settings): EngineState {
    EngineState(settings, map[], [], [], [])
  }

  // The table invariant

  ghost predicate DistinctIds(table: Table) {
    forall t, u :: t in table && u in table && table[t].request.message.id == table[u].request.message.id ==> t == u
  }

  ghost predicate TableInvariant(s: EngineState) {
    && ValidSettings(s.settings)
    && DistinctIds(s.exchanges)
    && forall t :: t in s.exchanges ==>
         && t != []
         && s.exchanges[t].request.message.token == t
         && s.exchanges[t].request.message.id != 0
         && Sorted(s.exchanges[t].request.message.options)
  }

  /** With distinct ids the lookup by id does not depend on the order of the table. */
  lemma ByIdIsUnique(table: Table, t: Token)
    requires DistinctIds(table) && t in table
    ensures ById(table, table[t].request.message.id) == Some(t)
  {
  }

  lemma RequestBlockKeepsIdentity(r: Request, number: nat, size: nat)
    requires Sorted(r.message.options)
    ensures SetToRequestBlock(r, number, size).message.id == r.message.id
    ensures SetToRequestBlock(r, number, size).message.token == r.message.token
    ensures Sorted(SetToRequestBlock(r, number, size).message.options)
  {
    if CheckBlockNumber(number) {
      var o1 := RemoveNamed(r.message.options, BLOCK1);
      RemoveNamedKeepsSorted(r.message.options, BLOCK1);
      RemoveNamedKeepsSorted(o1, BLOCK2);
      InsertKeepsSorted(Number, RemoveNamed(o1, BLOCK2), BlockOption(BLOCK2, number, false, size));
    }
  }

  lemma SendBlockKeepsIdentity(r: Request, number: nat, size: nat)
    requires Sorted(r.message.options)
    ensures SetToSendBlock(r, number, size).message.id == r.message.id
    ensures SetToSendBlock(r, number, size).message.token == r.message.token
    ensures Sorted(SetToSendBlock(r, number, size).message.options)
  {
    if CheckBlockNumber(number) {
      var more := (number + 1) * size < |r.fullPayload|;
      RemoveNamedKeepsSorted(r.message.options, BLOCK1);
      InsertKeepsSorted(Number, RemoveNamed(r.message.options, BLOCK1), BlockOption(BLOCK1, number, more, size));
    }
  }

  lemma TurnedKeepsIdentity(r: Request, c: Continuation)
    requires Sorted(r.message.options)
    ensures Turned(r, c).message.id == r.message.id && Turned(r, c).message.token == r.message.token
    ensures Sorted(Turned(r, c).message.options)
  {
    match c {
      case SendBlock(number, size) => SendBlockKeepsIdentity(r, number, size);
      case AskForBlock(number, size) => RequestBlockKeepsIdentity(r, number, size);
      case Finish =>
    }
  }

  /** The request of an exchange keeps its token, and its id or takes the fresh one. */
  lemma HandleKeepsIdentity(settings: Settings, now: nat, ex: Exchange, e: LocalEvent)
    requires Sorted(ex.request.message.options)
    ensures var next := Handle(settings, now, ex, e).next;
            next.Some? ==>
              var m := next.value.request.message;
              && m.token == ex.request.message.token
              && Sorted(m.options)
              && (m.id == ex.request.message.id || (e.Frame? && m.id == e.freshId))
  {
    if e.Frame? {
      FrameKeepsIdentity(settings, now, ex, e.received, e.freshId);
    }
  }

  lemma FrameKeepsIdentity(settings: Settings, now: nat, ex: Exchange, received: Received, freshId: uint16)
    requires Sorted(ex.request.message.options)
    ensures var next := OnFrame(settings, now, ex, received, freshId).next;
            next.Some? ==>
              var m := next.value.request.message;
              && m.token == ex.request.message.token
              && Sorted(m.options)
              && (m.id == ex.request.message.id || m.id == freshId)
  {
    if Accepts(ex, received) && !IsError(received.reply.code) {
      var accepted := Accept(ex, received);
      RemoveNamedKeepsSorted(ex.request.message.options, OBSERVE);
      ProceedKeepsIdentity(now, Answered(accepted), received.sender, Decide(settings, received.reply), freshId,
                           Answers(accepted, received));
    }
  }

  lemma ProceedKeepsIdentity(now: nat, ex: Exchange, sender: Address, c: Continuation, freshId: uint16,
                             answers: seq<Datagram>)
    requires Sorted(ex.request.message.options) && ex.replies != []
    ensures var next := Proceed(now, ex, sender, c, freshId, answers).next;
            next.Some? ==>
              var m := next.value.request.message;
              && m.token == ex.request.message.token
              && Sorted(m.options)
              && (m.id == ex.request.message.id || m.id == freshId)
  {
    TurnedKeepsIdentity(ex.request, c);
  }

  lemma BeginIdentity(settings: Settings, now: nat, u: UserRequest, reply: ReplyId, token: Token, id: uint16,
                      randomTimeout: nat)
    requires Sorted(u.message.options)
    ensures var next := Begin(settings, now, u, reply, token, id, randomTimeout).next;
            && next.Some? && next.value.userReply == Some(reply)
            && next.value.request.message.token == token && next.value.request.message.id == id
            && Sorted(next.value.request.message.options)
  {
    var r := Request(u.message.(token := token, id := id), u.methodCode, u.message.payload, u.target,
                     0, 0, false, false, MaximumTransmitWait(settings),
                     if u.target.Multicast? then MulticastTimeout(settings) else 0, None, None, None);
    RequestBlockKeepsIdentity(r, 0, settings.blockSize);
    SendBlockKeepsIdentity(SetToRequestBlock(r, 0, settings.blockSize), 0, settings.blockSize);
  }

  /** Replacing or removing one exchange keeps the invariant when the new id is the exchange's
      own or a fresh one. */
  lemma CommitKeepsInvariant(s: EngineState, t: Token, effect: Effect)
    requires TableInvariant(s) && t != []
    requires effect.next.Some? ==>
               var m := effect.next.value.request.message;
               && m.token == t && Sorted(m.options)
               && ((t in s.exchanges && m.id == s.exchanges[t].request.message.id) || IsFreshId(s.exchanges, m.id))
    ensures TableInvariant(Commit(s, t, effect))
  {
    var s' := Commit(s, t, effect);
    if effect.next.Some? {
      assert effect.next.value.request.message.id != 0;
    }
    forall x | x in s'.exchanges && x != t ensures x in s.exchanges && s'.exchanges[x] == s.exchanges[x] {
    }
  }

  lemma WithoutReplyKeepsInvariant(s: EngineState, reply: ReplyId)
    requires TableInvariant(s)
    ensures TableInvariant(WithoutReply(s, reply))
  {
  }

  /** Every event keeps the table invariant. */
  lemma NextKeepsInvariant(s: EngineState, now: nat, e: Event)
    requires TableInvariant(s) && Enabled(s, now, e)
    ensures TableInvariant(Next(s, now, e))
  {
    var route := Route(s, e);
    if route.Some? && route.value.0 in s.exchanges {
      var (t, local) := route.value;
      HandleKeepsIdentity(s.settings, now, s.exchanges[t], local);
      CommitKeepsInvariant(s, t, Handle(s.settings, now, s.exchanges[t], local));
    } else if e.SendRequest? && e.request.methodCode != 0 {
      var t := RequestToken(e.request, e.freshToken);
      BeginIdentity(s.settings, now, e.request, e.reply, t, e.freshId, e.randomTimeout);
      CommitKeepsInvariant(s, t, Begin(s.settings, now, e.request, e.reply, t, e.freshId, e.randomTimeout));
    }
  }

  /** The invariant holds throughout every run. */
  lemma {:induction false} ReachableInvariant(settings: Settings, events: seq<Happening>)
    requires ValidSettings(settings) && Legal(Initial(settings), events)
    ensures TableInvariant(RunEngine(Initial(settings), events))
  {
    if events != [] {
      var front, last := events[..|events| - 1], events[|events| - 1];
      ReachableInvariant(settings, front);
      NextKeepsInvariant(RunEngine(Initial(settings), front), last.now, last.event);
    }
  }

  // Fresh message ids

  function IdRange(n: nat): (r: set<int>)
    ensures |r| == n
    ensures forall i :: i in r <==> 1 <= i <= n
  {
    if n == 0 then {} else IdRange(n - 1) + {n}
  }

  ghost function UsedIds(table: Table, tokens: set<Token>): set<int>
    requires tokens <= table.Keys
  {
    set t | t in tokens :: table[t].request.message.id as int
  }

  lemma {:induction false} UsedIdsCount(table: Table, tokens: set<Token>)
    requires tokens <= table.Keys && DistinctIds(table)
    ensures |UsedIds(table, tokens)| == |tokens|
  {
    if tokens != {} {
      var t :| t in tokens;
      UsedIdsCount(table, tokens - {t});
      assert UsedIds(table, tokens) == UsedIds(table, tokens - {t}) + {table[t].request.message.id as int};
    }
  }

  lemma Outside<T>(a: set<T>, b: set<T>)
    requires a <= b
    ensures |a| < |b| <==> exists x :: x in b && x !in a
  {
    assert b == a + (b - a);
    assert |b| == |a| + |b - a|;
    if x :| x in b && x !in a {
      assert x in b - a;
    } else {
      assert b - a == {};
    }
  }

  /** A message id is left exactly while fewer than 65535 exchanges are open: only then can the
      loop that draws ids end. */
  lemma FreshIdExistsExactly(s: EngineState)
    requires TableInvariant(s)
    ensures (exists id: uint16 :: IsFreshId(s.exchanges, id)) <==> |s.exchanges| < 65535
  {
    UsedIdsCount(s.exchanges, s.exchanges.Keys);
    UsedIdsInRange(s);
    Outside(UsedIds(s.exchanges, s.exchanges.Keys), IdRange(65535));
    FreshIsOutside(s.exchanges);
  }

  lemma UsedIdsInRange(s: EngineState)
    requires TableInvariant(s)
    ensures UsedIds(s.exchanges, s.exchanges.Keys) <= IdRange(65535)
  {
  }

  lemma FreshIsOutside(table: Table)
    ensures (exists id: uint16 :: IsFreshId(table, id))
            <==> exists x :: x in IdRange(65535) && x !in UsedIds(table, table.Keys)
  {
    if id: uint16 :| IsFreshId(table, id) {
      assert (id as int) in IdRange(65535) && (id as int) !in UsedIds(table, table.Keys);
    }
    if x :| x in IdRange(65535) && x !in UsedIds(table, table.Keys) {
      assert IsFreshId(table, x);
    }
  }
}
