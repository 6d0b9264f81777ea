/** What users see in the end, over whole runs of the system: the theorems about exchanges carried through the
    event queue to the fields and the signals of the reply. */
module UserView {
  import opened CoapTypes
  import opened OptionList
  import opened Blocks
  import opened Codec
  import opened Reassembly
  import opened Requests
  import opened Exchanges
  import opened Engine
  import opened Isolation
  import opened EngineRuns
  import opened UserReplies
  import opened ReplyHistory
  import opened Completion
  import opened SystemRuns
  import opened Deliveries
  import opened EngineView
  import opened Signals
  import Observation
  import Download
  import Upload
  import WireRequests

  // The slots of a reply are those posted under its token

  function SlotsIn(posts: seq<Post>): seq<Slot> {
    if posts == [] then [] else SlotsIn(posts[..|posts| - 1]) + [posts[|posts| - 1].slot]
  }

  lemma {:induction false} SlotsInConcat(a: seq<Post>, b: seq<Post>)
    ensures SlotsIn(a + b) == SlotsIn(a) + SlotsIn(b)
    decreases |b|
  {
    if b == [] {
      assert a + b == a;
    } else {
      SlotsInConcat(a, b[..|b| - 1]);
      assert (a + b)[..|a + b| - 1] == a + b[..|b| - 1];
    }
  }

  lemma {:induction false} SlotsInAt(posts: seq<Post>)
    ensures |SlotsIn(posts)| == |posts| && forall i :: 0 <= i < |posts| ==> SlotsIn(posts)[i] == posts[i].slot
  {
    if posts != [] {
      SlotsInAt(posts[..|posts| - 1]);
    }
  }

  /** The slots before the first one that finishes the reply. */
  function Calm(slots: seq<Slot>): (r: seq<Slot>)
    ensures r <= slots
  {
    if slots == [] then []
    else
      var front := Calm(slots[..|slots| - 1]);
      if |front| == |slots| - 1 && !FinishesReply(slots[|slots| - 1]) then slots else front
  }

  lemma CalmMore(slots: seq<Slot>, slot: Slot)
    ensures Calm(slots + [slot]) == if Calm(slots) == slots && !FinishesReply(slot) then slots + [slot] else Calm(slots)
  {
    assert (slots + [slot])[..|slots|] == slots;
  }

  lemma {:induction false} LiveSlots(ops: seq<UserOp>)
    ensures SlotsOf(Live(ops)) <= Calm(SlotsOf(ops))
    ensures Live(ops) == ops ==> Calm(SlotsOf(ops)) == SlotsOf(ops)
  {
    if ops != [] {
      var front, op := ops[..|ops| - 1], ops[|ops| - 1];
      assert ops == front + [op];
      LiveSlots(front);
      LiveMore(front, op);
      SlotsOfMore(front, [op]);
      if op.Slotted? {
        CalmMore(SlotsOf(front), op.slot);
      } else {
        assert SlotsOf(front) + [] == SlotsOf(front);
      }
    }
  }

  /** In the log, the posts for the reply are those under its token and cancellations without one. */
  ghost predicate SortedOut(log: Log, t: Token, reply: ReplyId) {
    forall i :: 0 <= i < |log| ==>
      && (log[i].0 == t ==> log[i].1.reply == reply)
      && (log[i].1.reply == reply ==> log[i].0 == t || (log[i].0 == NO_TOKEN && log[i].1.slot.SetObserveCancelled?))
  }

  lemma LogIsSortedOut(s: SystemState, t: Token, reply: ReplyId)
    requires LogPlaced(s) && SoleTokens(s) && Uses(s, reply, t) && t != NO_TOKEN
    ensures SortedOut(s.engine.posted, t, reply)
  {
    forall i | 0 <= i < |s.engine.posted|
      ensures s.engine.posted[i].0 == t ==> s.engine.posted[i].1.reply == reply
      ensures s.engine.posted[i].1.reply == reply ==>
                s.engine.posted[i].0 == t
                || (s.engine.posted[i].0 == NO_TOKEN && s.engine.posted[i].1.slot.SetObserveCancelled?) {
      assert Placed(s, s.engine.posted[i]);
    }
  }

  lemma {:induction false} CalmAreTagged(log: Log, t: Token, reply: ReplyId)
    requires SortedOut(log, t, reply)
    ensures Calm(SlotsFor(log, reply)) <= SlotsIn(Of(t, log))
    ensures Calm(SlotsFor(log, reply)) == SlotsFor(log, reply) ==> SlotsFor(log, reply) == SlotsIn(Of(t, log))
  {
    if log != [] {
      var front, last := log[..|log| - 1], log[|log| - 1];
      assert log == front + [last];
      CalmAreTagged(front, t, reply);
      SlotsForMore(front, last, reply);
      TaggedMore(front, last, t);
      if last.1.reply == reply {
        CalmMore(SlotsFor(front, reply), last.1.slot);
      } else {
        assert SlotsFor(front, reply) + [] == SlotsFor(front, reply);
      }
    }
  }

  lemma TaggedMore(log: Log, last: (Token, Post), t: Token)
    ensures SlotsIn(Of(t, log + [last])) == SlotsIn(Of(t, log)) + if last.0 == t then [last.1.slot] else []
  {
    assert (log + [last])[..|log|] == log;
    if last.0 == t {
      SlotsInConcat(Of(t, log), [last.1]);
      assert [last.1][..0] == [];
    } else {
      assert Of(t, log) + [] == Of(t, log) && SlotsIn(Of(t, log)) + [] == SlotsIn(Of(t, log));
    }
  }

  /** Without such cancellations they are just those under the token. */
  lemma {:induction false} AllAreTagged(log: Log, t: Token, reply: ReplyId)
    requires SortedOut(log, t, reply)
    requires forall i :: 0 <= i < |log| && log[i].1.reply == reply ==> !log[i].1.slot.SetObserveCancelled?
    ensures SlotsFor(log, reply) == SlotsIn(Of(t, log))
  {
    if log != [] {
      var front, last := log[..|log| - 1], log[|log| - 1];
      assert log == front + [last];
      AllAreTagged(front, t, reply);
      SlotsForMore(front, last, reply);
      TaggedMore(front, last, t);
    }
  }

  lemma {:induction false} TaggedPrefix(log: Log, n: nat, t: Token)
    requires n <= |log|
    ensures Of(t, log[..n]) <= Of(t, log) && SlotsIn(Of(t, log[..n])) <= SlotsIn(Of(t, log))
  {
    if n == |log| {
      assert log[..n] == log;
    } else {
      TaggedPrefix(log[..|log| - 1], n, t);
      assert log[..|log| - 1][..n] == log[..n];
      assert log == log[..|log| - 1] + [log[|log| - 1]];
      TaggedMore(log[..|log| - 1], log[|log| - 1], t);
    }
  }

  /** In every run: the slots that reached a live reply before it was finished are the first of those posted under
      its token. */
  lemma LiveSlotsArePosted(settings: Settings, events: seq<SystemEvent>, reply: ReplyId, t: Token)
    requires ValidSettings(settings) && RunSystem(settings, events).Some? && t != NO_TOKEN
    requires var s := RunSystem(settings, events).value; Uses(s, reply, t) && reply in s.users
    ensures var s, ops := RunSystem(settings, events).value, OpsOf(settings, events, reply);
            && SlotsOf(Live(ops)) <= SlotsIn(Of(t, s.engine.posted))
            && (Live(ops) == ops && s.delivered == |s.engine.posted| ==>
                  SlotsOf(ops) == SlotsIn(Of(t, s.engine.posted)))
  {
    var s, ops := RunSystem(settings, events).value, OpsOf(settings, events, reply);
    RepliesAreTheirOps(settings, events, reply);
    ReachableLog(settings, events);
    ReachableTokens(settings, events);
    LogIsSortedOut(s, t, reply);
    LiveSlots(ops);
    CalmAreTagged(s.engine.posted[..s.delivered], t, reply);
    TaggedPrefix(s.engine.posted, s.delivered, t);
    assert s.delivered == |s.engine.posted| ==> s.engine.posted[..s.delivered] == s.engine.posted;
  }

  // Contents

  function LastContentSlot(slots: seq<Slot>): Option<(Message, byte)> {
    if slots == [] then None
    else
      var slot := slots[|slots| - 1];
      if slot.SetContent? then Some((slot.message, slot.code)) else LastContentSlot(slots[..|slots| - 1])
  }

  lemma {:induction false} LastContentIsASlot(ops: seq<UserOp>)
    ensures LastContent(ops) == LastContentSlot(SlotsOf(ops))
  {
    if ops != [] {
      var front, op := ops[..|ops| - 1], ops[|ops| - 1];
      LastContentIsASlot(front);
      SlotsOfMore(front, [op]);
      assert ops == front + [op];
      if op.Slotted? {
        assert (SlotsOf(front) + [op.slot])[..|SlotsOf(front)|] == SlotsOf(front);
      } else {
        assert SlotsOf(front) + [] == SlotsOf(front);
      }
    }
  }

  /** The message and the code are those of one of the contents. */
  ghost predicate AmongContents(slots: seq<Slot>, message: Message, code: byte) {
    exists i :: 0 <= i < |slots| && slots[i].SetContent? && slots[i].message == message && slots[i].code == code
  }

  lemma {:induction false} LastContentIsAmong(slots: seq<Slot>)
    ensures LastContentSlot(slots).Some? ==>
              AmongContents(slots, LastContentSlot(slots).value.0, LastContentSlot(slots).value.1)
  {
    if slots != [] {
      var front, slot := slots[..|slots| - 1], slots[|slots| - 1];
      LastContentIsAmong(front);
      if slot.SetContent? {
        assert slots[|slots| - 1].SetContent?;
      } else if LastContentSlot(front).Some? {
        var i :| 0 <= i < |front| && front[i].SetContent? && front[i].message == LastContentSlot(front).value.0
                 && front[i].code == LastContentSlot(front).value.1;
        assert slots[i] == front[i];
      }
    }
  }

  /** In every run: a live reply whose code is no error shows a content that has been posted under its token. */
  lemma ShownIsPosted(settings: Settings, events: seq<SystemEvent>, reply: ReplyId, t: Token)
    requires ValidSettings(settings) && RunSystem(settings, events).Some? && t != NO_TOKEN
    requires var s := RunSystem(settings, events).value; Uses(s, reply, t) && reply in s.users
    ensures var s := RunSystem(settings, events).value;
            !IsError(s.users[reply].code) ==>
              AmongContents(SlotsIn(Of(t, s.engine.posted)), s.users[reply].message, s.users[reply].code)
  {
    var s, ops := RunSystem(settings, events).value, OpsOf(settings, events, reply);
    LiveSlotsArePosted(settings, events, reply, t);
    RepliesAreTheirOps(settings, events, reply);
    ContentIsTheLast(s.requests[reply].message.token, ops);
    LastContentIsASlot(Live(ops));
    LastContentIsAmong(SlotsOf(Live(ops)));
    if !IsError(s.users[reply].code) {
      AmongMore(SlotsOf(Live(ops)), SlotsIn(Of(t, s.engine.posted)), s.users[reply].message, s.users[reply].code);
    }
  }

  lemma AmongMore(a: seq<Slot>, b: seq<Slot>, message: Message, code: byte)
    requires a <= b && AmongContents(a, message, code)
    ensures AmongContents(b, message, code)
  {
    var i :| 0 <= i < |a| && a[i].SetContent? && a[i].message == message && a[i].code == code;
    assert b[i] == a[i];
  }

  /** A download in a run of the system, whatever else its users and the network do: as long as the code of the
      reply is no error, its payload is the whole body, if no empty message of the target cuts the exchange
      off. */
  lemma DownloadReachesUser(x: Download.Resource, settings: Settings, events: seq<SystemEvent>, k: nat, reply: ReplyId)
    requires ValidSettings(settings) && Submits(settings, events, k, reply)
    requires IsBlockSize(x.size) && Served(x, ViewOf(settings, events, k, reply))
    requires reply in RunSystem(settings, events).value.users
    ensures var r := RunSystem(settings, events).value.users[reply];
            !IsError(r.code) ==> r.message.payload == x.body
  {
    var v, s := ViewOf(settings, events, k, reply), RunSystem(settings, events).value;
    SeenFromSubmission(settings, events, k, reply);
    DownloadInEngine(x, v.before.engine, v.open, v.later, v.token);
    ShownIsPosted(settings, events, reply, v.token);
    OnlyBodyShown(x, Of(v.token, s.engine.posted), s.users[reply]);
  }

  /** The request fetches the resource, and the target serves it without cutting the exchange off. */
  ghost predicate Served(x: Download.Resource, v: View)
    requires IsBlockSize(x.size)
  {
    && v.open.event.SendRequest? && |v.token| <= 15 && Download.FetchRequest(v.open.event.request)
    && RawServed(x, v.Engine(), v.later, v.token, v.open.event.request.target)
    && !Download.CutOff(Opened(v.before.engine, v.open, v.token), ConcernsAll(v.Engine(), v.later, v.token),
                        v.open.event.request.target)
  }

  lemma OnlyBodyShown(x: Download.Resource, posts: seq<Post>, r: ReplyState)
    requires Download.OnlyBody(x, posts)
    requires !IsError(r.code) ==> AmongContents(SlotsIn(posts), r.message, r.code)
    ensures !IsError(r.code) ==> r.message.payload == x.body
  {
    SlotsInAt(posts);
    if !IsError(r.code) {
      var i :| 0 <= i < |posts| && SlotsIn(posts)[i].SetContent? && SlotsIn(posts)[i].message == r.message
               && SlotsIn(posts)[i].code == r.code;
      assert Download.IsBody(x, posts[i]);
    }
  }

  /** An upload in a run of the system: a reply whose code is no error means that the whole payload has been sent,
      if no empty message of the target cuts the exchange off early. */
  lemma UploadReachesUser(settings: Settings, events: seq<SystemEvent>, k: nat, reply: ReplyId)
    requires ValidSettings(settings) && Submits(settings, events, k, reply)
    requires Echoed(ViewOf(settings, events, k, reply))
    requires reply in RunSystem(settings, events).value.users
    ensures var v, s := ViewOf(settings, events, k, reply), RunSystem(settings, events).value;
            !IsError(s.users[reply].code) ==> Upload.AllSent(Sent(v), Of(v.token, s.engine.sent))
  {
    var v, s := ViewOf(settings, events, k, reply), RunSystem(settings, events).value;
    SeenFromSubmission(settings, events, k, reply);
    UploadInEngine(v.before.engine, v.open, v.later, v.token);
    ShownIsPosted(settings, events, reply, v.token);
    SuccessShown(Of(v.token, s.engine.posted), s.users[reply]);
  }

  function Sent(v: View): Upload.Content
    requires v.open.event.SendRequest?
  {
    Upload.Content(v.open.event.request.message.payload, v.before.engine.settings.blockSize)
  }

  /** The request uploads its payload, and the target echoes blocks of it without cutting the exchange off early. */
  ghost predicate Echoed(v: View) {
    && v.open.event.SendRequest? && |v.token| <= 15 && IsBlockSize(v.before.engine.settings.blockSize)
    && Upload.UploadRequest(v.open.event.request, v.before.engine.settings.blockSize)
    && RawEchoed(Sent(v), v.Engine(), v.later, v.token, v.open.event.request.target)
    && !Upload.CutEarly(Sent(v), Opened(v.before.engine, v.open, v.token),
                        ConcernsAll(v.Engine(), v.later, v.token), v.open.event.request.target)
  }

  lemma SuccessShown(posts: seq<Post>, r: ReplyState)
    requires !IsError(r.code) ==> AmongContents(SlotsIn(posts), r.message, r.code)
    ensures !IsError(r.code) ==> !WireRequests.NoSuccess(posts)
  {
    SlotsInAt(posts);
    if !IsError(r.code) {
      var i :| 0 <= i < |posts| && SlotsIn(posts)[i].SetContent? && SlotsIn(posts)[i].message == r.message
               && SlotsIn(posts)[i].code == r.code;
      assert posts[i].slot.SetContent? && !IsError(posts[i].slot.code);
    }
  }

  // Downloads without loss

  /** The user neither aborts the request nor cancels it. */
  ghost predicate LeftAlone(events: seq<SystemEvent>, reply: ReplyId) {
    forall i :: 0 <= i < |events| ==> events[i] != UserAbort(reply) && events[i] != CancelCall(reply)
  }

  lemma {:induction false} NoneCancelled(settings: Settings, events: seq<SystemEvent>, reply: ReplyId)
    requires ValidSettings(settings) && RunSystem(settings, events).Some? && LeftAlone(events, reply)
    ensures var log := RunSystem(settings, events).value.engine.posted;
            forall i :: 0 <= i < |log| && log[i].1.reply == reply ==> !log[i].1.slot.SetObserveCancelled?
  {
    if events != [] {
      var front, last := events[..|events| - 1], events[|events| - 1];
      RunBefore(settings, events);
      NoneCancelled(settings, front, reply);
      ReachableTokens(settings, front);
      ReachableSystemInvariant(settings, front);
      var more := EventExtends(RunSystem(settings, front).value, last);
    }
  }

  lemma {:induction false} OnlySlots(settings: Settings, events: seq<SystemEvent>, reply: ReplyId)
    requires LeftAlone(events, reply)
    ensures forall op :: op in OpsOf(settings, events, reply) ==> op.Slotted?
  {
    if events != [] {
      OnlySlots(settings, events[..|events| - 1], reply);
    }
  }

  lemma {:induction false} SlottedOps(ops: seq<UserOp>)
    requires forall op :: op in ops ==> op.Slotted?
    ensures |SlotsOf(ops)| == |ops| && forall i :: 0 <= i < |ops| ==> ops[i] == Slotted(SlotsOf(ops)[i])
  {
    if ops != [] {
      SlottedOps(ops[..|ops| - 1]);
      assert ops[|ops| - 1] in ops;
    }
  }

  /** A reply that has been left alone, once everything has been delivered. */
  lemma AllDelivered(settings: Settings, events: seq<SystemEvent>, reply: ReplyId, t: Token)
    requires ValidSettings(settings) && RunSystem(settings, events).Some? && t != NO_TOKEN && LeftAlone(events, reply)
    requires var s := RunSystem(settings, events).value;
             Uses(s, reply, t) && reply in s.users && s.delivered == |s.engine.posted|
    ensures var s, ops := RunSystem(settings, events).value, OpsOf(settings, events, reply);
            && reply in s.requests && s.users[reply] == AppliedAll(NewReply(s.requests[reply].message.token), ops)
            && |ops| == |Of(t, s.engine.posted)|
            && forall i :: 0 <= i < |ops| ==> ops[i] == Slotted(Of(t, s.engine.posted)[i].slot)
  {
    var s, ops := RunSystem(settings, events).value, OpsOf(settings, events, reply);
    RepliesAreTheirOps(settings, events, reply);
    ReachableLog(settings, events);
    ReachableTokens(settings, events);
    LogIsSortedOut(s, t, reply);
    NoneCancelled(settings, events, reply);
    AllAreTagged(s.engine.posted, t, reply);
    OnlySlots(settings, events, reply);
    SlottedOps(ops);
    SlotsInAt(Of(t, s.engine.posted));
    assert s.engine.posted[..s.delivered] == s.engine.posted;
  }

  lemma ThreeSlots(r: ReplyState, ops: seq<UserOp>, token: Token, id: uint16, content: Slot)
    requires ops == [Slotted(SetRunning(token, id)), Slotted(content), Slotted(SetFinished(Ok))]
    requires content.SetContent? && !IsError(content.code) && !r.finished && !r.aborted
    ensures AppliedAll(r, ops)
         == ReplyState(token, id, content.message, content.code, r.error, false, true, false, r.emitted + [Finished])
  {
    assert ops[..2] == [ops[0], ops[1]] && ops[..2][..1] == [ops[0]] && ops[..2][..1][..0] == [];
    assert AppliedAll(r, ops[..2][..1]) == Invoke(r, SetRunning(token, id));
    assert AppliedAll(r, ops[..2]) == Invoke(Invoke(r, SetRunning(token, id)), content);
  }

  /** Told the token, given the body, finished. */
  ghost predicate TellsBody(x: Download.Resource, posts: seq<Post>, user: ReplyId, token: Token, id: uint16) {
    && |posts| == 3 && posts[0] == Post(user, SetRunning(token, id))
    && posts[1].slot.SetContent? && !IsError(posts[1].slot.code) && posts[1].slot.message.payload == x.body
    && posts[2] == Post(user, SetFinished(Ok))
  }

  lemma DownloadedLocally(x: Download.Resource, s: Settings, now: nat, u: UserRequest, reply: ReplyId, t: Token,
                          id: uint16, randomTimeout: nat, local: seq<Timed>)
    requires ValidSettings(s) && Download.FetchRequest(u) && |t| <= 15
    requires IsBlockSize(x.size) && x.Count() <= 0x10_0000
    requires Download.InOrder(x, local, u.target) && |local| == x.Count()
    ensures TellsBody(x, Run(Start(s, now, u, reply, t, id, randomTimeout), local).posts, reply, t, id)
  {
    var h := Start(s, now, u, reply, t, id, randomTimeout);
    Download.StartIsSound(x, s, now, u, reply, t, id, randomTimeout);
    NothingStored(x, h.exchange.value.replies);
    Download.DownloadTakesCountReplies(x, h, local, u.target, reply);
    BodyTold(x, h, Run(h, local), reply, t, id);
  }

  lemma BodyTold(x: Download.Resource, h: History, h': History, user: ReplyId, t: Token, id: uint16)
    requires Download.Delivered(x, h, h', user) && h.posts == [Post(user, SetRunning(t, id))]
    ensures TellsBody(x, h'.posts, user, t, id)
  {
    assert h'.posts[0] == h'.posts[..1][0];
  }

  lemma NothingStored(x: Download.Resource, replies: seq<Received>)
    requires IsBlockSize(x.size) && Download.Prefix(x, replies, 0)
    ensures replies == []
  {
    if replies != [] {
      Download.StoredMeansPositive(replies, 0);
    }
  }

  lemma DownloadedPosts(x: Download.Resource, v: View)
    requires v.open.event.SendRequest? && Opens(v.before.engine, v.open, v.token) && NotReopened(v.later, v.token)
    requires IsBlockSize(x.size) && x.Count() <= 0x10_0000 && Download.FetchRequest(v.open.event.request)
    requires var local := ConcernsAll(v.Engine(), v.later, v.token);
             Download.InOrder(x, local, v.open.event.request.target) && |local| == x.Count()
    ensures TellsBody(x, Of(v.token, RunEngine(v.Engine(), v.later).posted), v.open.event.reply, v.token,
                      v.open.event.freshId)
  {
    var e := v.open.event;
    OpenedRun(v.before.engine, v.open, v.later, v.token);
    DownloadedLocally(x, v.before.engine.settings, v.open.now, e.request, e.reply, v.token, e.freshId,
                      e.randomTimeout, ConcernsAll(v.Engine(), v.later, v.token));
  }

  lemma BodyShown(x: Download.Resource, r: ReplyState, ops: seq<UserOp>, posts: seq<Post>, user: ReplyId, t: Token,
                  id: uint16)
    requires TellsBody(x, posts, user, t, id) && !r.finished && !r.aborted
    requires |ops| == |posts| && forall i :: 0 <= i < |ops| ==> ops[i] == Slotted(posts[i].slot)
    ensures var r' := AppliedAll(r, ops);
            && r'.message.payload == x.body && !IsError(r'.code) && r'.error == r.error && r'.token == t
            && r'.finished && !r'.aborted && !r'.running && r'.emitted == r.emitted + [Finished]
  {
    assert ops == [ops[0], ops[1], ops[2]];
    ThreeSlots(r, ops, t, id, posts[1].slot);
  }

  /** A download without loss and duplication, its user leaving it alone: once everything has been delivered, the
      reply carries the body, without error, has its token, and has told its user that it is finished, and
      nothing else. */
  lemma DownloadedForUser(x: Download.Resource, settings: Settings, events: seq<SystemEvent>, k: nat, reply: ReplyId)
    requires ValidSettings(settings) && Submits(settings, events, k, reply) && LeftAlone(events, reply)
    requires IsBlockSize(x.size) && x.Count() <= 0x10_0000
    requires var v := ViewOf(settings, events, k, reply);
             && Download.FetchRequest(v.open.event.request) && |v.token| <= 15
             && Download.InOrder(x, ConcernsAll(v.Engine(), v.later, v.token), v.open.event.request.target)
             && |ConcernsAll(v.Engine(), v.later, v.token)| == x.Count()
    requires var s := RunSystem(settings, events).value; reply in s.users && s.delivered == |s.engine.posted|
    ensures var r := RunSystem(settings, events).value.users[reply];
            && r.message.payload == x.body && !IsError(r.code) && r.error == Ok
            && r.token == ViewOf(settings, events, k, reply).token
            && r.IsSuccessful() && !r.IsRunning() && !r.aborted && r.emitted == [Finished]
  {
    var v, s := ViewOf(settings, events, k, reply), RunSystem(settings, events).value;
    SeenFromSubmission(settings, events, k, reply);
    DownloadedPosts(x, v);
    AllDelivered(settings, events, reply, v.token);
    BodyShown(x, NewReply(s.requests[reply].message.token), OpsOf(settings, events, reply),
              Of(v.token, s.engine.posted), reply, v.token, v.open.event.freshId);
  }

  // Notifications

  /** For every notification among the slots, the message of the last content ahead of it. */
  function NoticesOfSlots(slots: seq<Slot>): seq<Message> {
    if slots == [] then []
    else
      var front := slots[..|slots| - 1];
      NoticesOfSlots(front)
      + if slots[|slots| - 1].SetNotified?
        then [if LastContentSlot(front).Some? then LastContentSlot(front).value.0 else NO_MESSAGE] else []
  }

  lemma NoticesMore(slots: seq<Slot>, slot: Slot)
    ensures NoticesOfSlots(slots + [slot])
         == NoticesOfSlots(slots)
            + if slot.SetNotified?
              then [if LastContentSlot(slots).Some? then LastContentSlot(slots).value.0 else NO_MESSAGE] else []
    ensures LastContentSlot(slots + [slot])
         == if slot.SetContent? then Some((slot.message, slot.code)) else LastContentSlot(slots)
  {
    assert (slots + [slot])[..|slots|] == slots;
  }

  lemma {:induction false} NoticesDueOfSlots(ops: seq<UserOp>)
    ensures NoticesDue(ops) == NoticesOfSlots(SlotsOf(ops))
  {
    if ops != [] {
      var front, op := ops[..|ops| - 1], ops[|ops| - 1];
      NoticesDueOfSlots(front);
      LastContentIsASlot(front);
      NoticesDueMore(front, op);
      SlotsOfMore(front, [op]);
      assert ops == front + [op];
      if op.Slotted? {
        NoticesMore(SlotsOf(front), op.slot);
      } else {
        assert SlotsOf(front) + [] == SlotsOf(front) && NoticesDue(front) + [] == NoticesDue(front);
      }
    }
  }

  lemma {:induction false} NoticesPrefix(a: seq<Slot>, b: seq<Slot>)
    requires a <= b
    ensures NoticesOfSlots(a) <= NoticesOfSlots(b)
    decreases |b|
  {
    if |a| < |b| {
      NoticesPrefix(a, b[..|b| - 1]);
      NoticesMore(b[..|b| - 1], b[|b| - 1]);
      assert b == b[..|b| - 1] + [b[|b| - 1]];
    } else {
      assert a == b;
    }
  }

  lemma {:induction false} NoNoticesBehind(slots: seq<Slot>, more: seq<Slot>)
    requires forall i :: 0 <= i < |more| ==> !more[i].SetNotified?
    ensures NoticesOfSlots(slots + more) == NoticesOfSlots(slots)
    decreases |more|
  {
    if more == [] {
      assert slots + more == slots;
    } else {
      var front, last := more[..|more| - 1], more[|more| - 1];
      NoNoticesBehind(slots, front);
      NoticesMore(slots + front, last);
      assert slots + more == (slots + front) + [last];
    }
  }

  /** The message a complete response is notified with: that of its last frame, with the merged payload. */
  function MessageOf(response: seq<Received>): seq<Message> {
    if response == [] then []
    else [response[|response| - 1].reply.message.(payload := FinalPayload(false, response))]
  }

  function MessagesOf(responses: seq<seq<Received>>): seq<Message> {
    if responses == [] then []
    else MessagesOf(responses[..|responses| - 1]) + MessageOf(responses[|responses| - 1])
  }

  lemma {:induction false} NotificationsNotice(slots: seq<Slot>, user: ReplyId, responses: seq<seq<Received>>)
    ensures NoticesOfSlots(slots + SlotsIn(Observation.Notifications(user, responses)))
         == NoticesOfSlots(slots) + MessagesOf(responses)
    decreases |responses|
  {
    if responses == [] {
      assert slots + [] == slots && NoticesOfSlots(slots) + [] == NoticesOfSlots(slots);
    } else {
      var front, last := responses[..|responses| - 1], responses[|responses| - 1];
      NotificationsNotice(slots, user, front);
      OneNotification(slots + SlotsIn(Observation.Notifications(user, front)), user, last);
      SlotsInConcat(Observation.Notifications(user, front), Observation.Notification(user, last));
      Joined(slots, SlotsIn(Observation.Notifications(user, front)), SlotsIn(Observation.Notification(user, last)));
      Joined(NoticesOfSlots(slots), MessagesOf(front), MessageOf(last));
    }
  }

  lemma Joined<T>(a: seq<T>, b: seq<T>, c: seq<T>)
    ensures (a + b) + c == a + (b + c)
  {
  }

  lemma OneNotification(slots: seq<Slot>, user: ReplyId, response: seq<Received>)
    ensures NoticesOfSlots(slots + SlotsIn(Observation.Notification(user, response)))
         == NoticesOfSlots(slots) + MessageOf(response)
  {
    var posts := Observation.Notification(user, response);
    SlotsInAt(posts);
    if response == [] {
      assert slots + SlotsIn(posts) == slots && NoticesOfSlots(slots) + [] == NoticesOfSlots(slots);
    } else {
      var content := posts[0].slot;
      assert slots + SlotsIn(posts) == (slots + [content]) + [SetNotified];
      NoticesMore(slots, content);
      NoticesMore(slots + [content], SetNotified);
    }
  }

  lemma NoticesOfRun(user: ReplyId, before: seq<Post>, responses: seq<seq<Received>>, posts: seq<Post>)
    requires |before| == 1 && before[0].slot.SetRunning?
    requires var told := before + Observation.Notifications(user, responses);
             told <= posts && Observation.NoNotification(posts[|told|..])
    ensures NoticesOfSlots(SlotsIn(posts)) == MessagesOf(responses)
  {
    var notifications := Observation.Notifications(user, responses);
    var told := before + notifications;
    var rest := posts[|told|..];
    assert posts == told + rest;
    SlotsInConcat(told, rest);
    SlotsInConcat(before, notifications);
    SlotsInAt(rest);
    NoNoticesBehind(SlotsIn(told), SlotsIn(rest));
    NotificationsNotice(SlotsIn(before), user, responses);
    SlotsInAt(before);
    assert SlotsIn(before) == [] + [before[0].slot];
    NoticesMore([], before[0].slot);
    assert [] + MessagesOf(responses) == MessagesOf(responses);
  }

  /** The responses an observation in the view has got up to its end. */
  ghost function ResponsesSeen(v: View): seq<seq<Received>>
    requires v.open.event.SendRequest?
  {
    var h, target := Opened(v.before.engine, v.open, v.token), v.open.event.request.target;
    var local := ConcernsAll(v.Engine(), v.later, v.token);
    Observation.Responses(Observation.Classify, Observation.Frames(target, Observation.Observed(h, local)))
  }

  lemma NotifiedPosts(v: View)
    requires v.open.event.SendRequest? && Opens(v.before.engine, v.open, v.token) && NotReopened(v.later, v.token)
    requires !v.open.event.request.target.Multicast? && HasOption(v.open.event.request.message.options, OBSERVE)
    ensures NoticesOfSlots(SlotsIn(Of(v.token, RunEngine(v.Engine(), v.later).posted))) == MessagesOf(ResponsesSeen(v))
  {
    var h := Opened(v.before.engine, v.open, v.token);
    NotificationsInEngine(v.before.engine, v.open, v.later, v.token);
    StartPosts(v.before.engine, v.open, v.token);
    NoticesOfRun(v.open.event.reply, h.posts, ResponsesSeen(v), Of(v.token, RunEngine(v.Engine(), v.later).posted));
  }

  lemma StartPosts(s: EngineState, open: Happening, t: Token)
    requires open.event.SendRequest?
    ensures Opened(s, open, t).posts == [Post(open.event.reply, SetRunning(t, open.event.freshId))]
  {
  }

  /** An observation in a run of the system: the user has been notified of the messages of the complete responses
      up to the end of the observation, each with the merge of its own frames, one after the other from the
      first; of all of them, once everything has been delivered, while the reply is not finished. */
  lemma NotificationsReachUser(settings: Settings, events: seq<SystemEvent>, k: nat, reply: ReplyId)
    requires ValidSettings(settings) && Submits(settings, events, k, reply)
    requires var v := ViewOf(settings, events, k, reply);
             && |v.token| <= 15 && !v.open.event.request.target.Multicast?
             && HasOption(v.open.event.request.message.options, OBSERVE)
    requires reply in RunSystem(settings, events).value.users
    ensures var v, s := ViewOf(settings, events, k, reply), RunSystem(settings, events).value;
            && Notices(s.users[reply].emitted) <= MessagesOf(ResponsesSeen(v))
            && (!s.users[reply].IsFinished() && s.delivered == |s.engine.posted| ==>
                  Notices(s.users[reply].emitted) == MessagesOf(ResponsesSeen(v)))
  {
    var v, s := ViewOf(settings, events, k, reply), RunSystem(settings, events).value;
    SeenFromSubmission(settings, events, k, reply);
    NotifiedPosts(v);
    NoticesShown(settings, events, reply, v.token);
  }

  lemma NoticesShown(settings: Settings, events: seq<SystemEvent>, reply: ReplyId, t: Token)
    requires ValidSettings(settings) && RunSystem(settings, events).Some? && t != NO_TOKEN
    requires var s := RunSystem(settings, events).value; Uses(s, reply, t) && reply in s.users
    ensures var s := RunSystem(settings, events).value;
            var r, due := s.users[reply], NoticesOfSlots(SlotsIn(Of(t, s.engine.posted)));
            && Notices(r.emitted) <= due
            && (!r.IsFinished() && s.delivered == |s.engine.posted| ==> Notices(r.emitted) == due)
  {
    var s, ops := RunSystem(settings, events).value, OpsOf(settings, events, reply);
    RepliesAreTheirOps(settings, events, reply);
    ContentIsTheLast(s.requests[reply].message.token, ops);
    FinishedExactlyOnce(s.requests[reply].message.token, ops);
    LiveExactly(ops);
    LiveSlotsArePosted(settings, events, reply, t);
    NoticesDueOfSlots(Live(ops));
    NoticesPrefix(SlotsOf(Live(ops)), SlotsIn(Of(t, s.engine.posted)));
  }

  // Failures

  lemma {:induction false} CalmOps(ops: seq<UserOp>)
    requires forall op :: op in ops ==> op.Slotted? && NoErrorSlot(op.slot) && !FinishesReply(op.slot)
    ensures Live(ops) == ops && ErrorsTold(ops) == []
  {
    if ops != [] {
      var front, op := ops[..|ops| - 1], ops[|ops| - 1];
      assert op in ops;
      CalmOps(front);
    }
  }

  lemma ErrorsToldMore(ops: seq<UserOp>, op: UserOp)
    ensures ErrorsTold(ops + [op]) == ErrorsTold(ops) + ErrorOf(op, Live(ops) != ops)
  {
    assert (ops + [op])[..|ops|] == ops;
  }

  /** What the failure is: time has run out, or the response says which error it is. */
  predicate Consistent(f: Failure) {
    f.error == if f.response.None? then TimeOut else ErrorForResponseCode(f.response.value.reply.code)
  }

  predicate IsFailure(f: Failure) {
    Consistent(f) && IsErrorIfAny(f)
  }

  lemma {:induction false} FailureIsFailure(h: History, events: seq<Timed>)
    ensures FailureIn(h, events).Some? ==> IsFailure(FailureIn(h, events).value)
  {
    if events != [] {
      FailureIsFailure(h, events[..|events| - 1]);
    }
  }

  /** Two operations behind calm ones, the second of which finishes the reply. */
  lemma LiveToTheEnd(calm: seq<UserOp>, what: UserOp, over: UserOp)
    requires Live(calm) == calm && !IsFinishing(what) && IsFinishing(over)
    ensures Live(calm + [what]) == calm + [what] == Live(calm + [what] + [over])
    ensures SomeFinishing(calm + [what] + [over])
  {
    LiveMore(calm, what);
    LiveMore(calm + [what], over);
    LiveExactly(calm + [what] + [over]);
  }

  lemma ToldOnlyOf(calm: seq<UserOp>, what: UserOp, over: UserOp)
    requires Live(calm) == calm && Live(calm + [what]) == calm + [what] && ErrorsTold(calm) == []
    requires over == Slotted(SetFinished(Ok))
    ensures ErrorsTold(calm + [what] + [over]) == ErrorOf(what, false)
  {
    ErrorsToldMore(calm, what);
    ErrorsToldMore(calm + [what], over);
    NothingAround(ErrorOf(what, false));
  }

  lemma OpsOfFailure(calm: seq<UserOp>, what: UserOp, over: UserOp)
    requires Live(calm) == calm && ErrorsTold(calm) == []
    requires what.Slotted? && !FinishesReply(what.slot) && over == Slotted(SetFinished(Ok))
    ensures Live(calm + [what, over]) == calm + [what] && SomeFinishing(calm + [what, over])
    ensures ErrorsTold(calm + [what, over]) == ErrorOf(what, false)
  {
    assert calm + [what, over] == calm + [what] + [over];
    LiveToTheEnd(calm, what, over);
    ToldOnlyOf(calm, what, over);
  }

  lemma NothingAround<T>(a: seq<T>)
    ensures [] + a == a && a + [] == a
  {
  }

  /** Slots without errors and end, and then the failure: the reply has the error, has emitted it once, and shows
      the response that says so. */
  lemma FailureTold(token: Token, calm: seq<UserOp>, f: Failure)
    requires forall op :: op in calm ==> op.Slotted? && NoErrorSlot(op.slot) && !FinishesReply(op.slot)
    requires IsFailure(f) && f.user.Some?
    ensures var r := AppliedAll(NewReply(token), calm + [Slotted(ToldOf(f)[0].slot), Slotted(ToldOf(f)[1].slot)]);
            ShowsFailure(r, f)
  {
    var what, over := Slotted(ToldOf(f)[0].slot), Slotted(ToldOf(f)[1].slot);
    var ops := calm + [what, over];
    CalmOps(calm);
    OpsOfFailure(calm, what, over);
    LastContentMore(calm, what);
    ErrorsOfFailure(f, ErrorsTold(ops));
    ErrorIsTheLast(token, ops);
    ContentIsTheLast(token, ops);
    FinishedExactlyOnce(token, ops);
  }

  lemma ErrorsOfFailure(f: Failure, told: seq<Error>)
    requires IsFailure(f) && told == [f.error]
    ensures LastError(told) == f.error && Changes(told) == [f.error]
  {
    assert told[..0] == [] && Changes([]) == [];
  }

  predicate ShowsFailure(r: ReplyState, f: Failure) {
    && r.IsFinished() && !r.IsSuccessful() && r.error == f.error && ErrorSignals(r.emitted) == [f.error]
    && (f.response.Some? ==> r.message == f.response.value.reply.message && r.code == f.response.value.reply.code)
  }

  lemma {:induction false} UnderToken(log: Log, t: Token)
    requires forall i :: 0 <= i < |log| && log[i].0 == t ==> !log[i].1.slot.SetObserveCancelled?
    ensures forall i :: 0 <= i < |Of(t, log)| ==> !Of(t, log)[i].slot.SetObserveCancelled?
  {
    if log != [] {
      UnderToken(log[..|log| - 1], t);
    }
  }

  lemma NeverCancelled(settings: Settings, events: seq<SystemEvent>, reply: ReplyId, t: Token)
    requires ValidSettings(settings) && RunSystem(settings, events).Some? && t != NO_TOKEN && LeftAlone(events, reply)
    requires Uses(RunSystem(settings, events).value, reply, t)
    ensures var posts := Of(t, RunSystem(settings, events).value.engine.posted);
            forall i :: 0 <= i < |posts| ==> !posts[i].slot.SetObserveCancelled?
  {
    var s := RunSystem(settings, events).value;
    ReachableLog(settings, events);
    ReachableTokens(settings, events);
    LogIsSortedOut(s, t, reply);
    NoneCancelled(settings, events, reply);
    UnderToken(s.engine.posted, t);
  }

  lemma LastTwo(posts: seq<Post>, f: Failure)
    requires f.user.Some? && posts != [] && EndsWith(posts[1..], f)
    ensures |posts| >= 3 && posts[|posts| - 2..] == ToldOf(f) && GoesOn(posts[1..|posts| - 2])
  {
    var rest := posts[1..];
    assert posts[|posts| - 2..] == rest[|rest| - 2..] && posts[1..|posts| - 2] == rest[..|rest| - 2];
  }

  lemma CalmBefore(ops: seq<UserOp>, posts: seq<Post>, n: nat)
    requires n <= |posts| && n <= |ops| && n >= 1 && posts[0].slot.SetRunning? && GoesOn(posts[1..n])
    requires forall i :: 0 <= i < n ==> !posts[i].slot.SetObserveCancelled? && ops[i] == Slotted(posts[i].slot)
    ensures forall op :: op in ops[..n] ==> op.Slotted? && NoErrorSlot(op.slot) && !FinishesReply(op.slot)
  {
    forall i | 0 <= i < n ensures NoErrorSlot(posts[i].slot) && !FinishesReply(posts[i].slot) {
      assert i > 0 ==> posts[i] == posts[1..n][i - 1];
    }
  }

  lemma {:induction false} FailureShown(token: Token, ops: seq<UserOp>, posts: seq<Post>, f: Failure)
    requires IsFailure(f) && f.user.Some? && posts != [] && posts[0].slot.SetRunning? && EndsWith(posts[1..], f)
    requires forall i :: 0 <= i < |posts| ==> !posts[i].slot.SetObserveCancelled?
    requires |ops| == |posts| && forall i :: 0 <= i < |ops| ==> ops[i] == Slotted(posts[i].slot)
    ensures ShowsFailure(AppliedAll(NewReply(token), ops), f)
  {
    var n := |ops| - 2;
    LastTwo(posts, f);
    CalmBefore(ops, posts, n);
    assert posts[n] == posts[n..][0] && posts[n + 1] == posts[n..][1];
    assert ops == ops[..n] + [Slotted(ToldOf(f)[0].slot), Slotted(ToldOf(f)[1].slot)];
    FailureTold(token, ops[..n], f);
  }

  /** A request that fails while its user is there and leaves it alone: once everything has been delivered, the
      reply is finished, has the error that ended the exchange, has emitted that error once and no other, and
      shows the error response if there was one. */
  lemma FailureReachesUser(settings: Settings, events: seq<SystemEvent>, k: nat, reply: ReplyId)
    requires ValidSettings(settings) && Submits(settings, events, k, reply) && LeftAlone(events, reply)
    requires |ViewOf(settings, events, k, reply).token| <= 15
    requires FailureSeen(ViewOf(settings, events, k, reply)).Some?
    requires FailureSeen(ViewOf(settings, events, k, reply)).value.user.Some?
    requires var s := RunSystem(settings, events).value; reply in s.users && s.delivered == |s.engine.posted|
    ensures ShowsFailure(RunSystem(settings, events).value.users[reply],
                         FailureSeen(ViewOf(settings, events, k, reply)).value)
  {
    var v, s := ViewOf(settings, events, k, reply), RunSystem(settings, events).value;
    SeenFromSubmission(settings, events, k, reply);
    FailedPosts(v);
    AllDelivered(settings, events, reply, v.token);
    NeverCancelled(settings, events, reply, v.token);
    FailureIsFailure(Opened(v.before.engine, v.open, v.token), ConcernsAll(v.Engine(), v.later, v.token));
    FailureShown(s.requests[reply].message.token, OpsOf(settings, events, reply), Of(v.token, s.engine.posted),
                 FailureSeen(v).value);
  }

  ghost function FailureSeen(v: View): Option<Failure> {
    if v.open.event.SendRequest?
    then FailureIn(Opened(v.before.engine, v.open, v.token), ConcernsAll(v.Engine(), v.later, v.token))
    else None
  }

  lemma FailedPosts(v: View)
    requires v.open.event.SendRequest? && Opens(v.before.engine, v.open, v.token) && NotReopened(v.later, v.token)
    requires FailureSeen(v).Some?
    ensures var posts := Of(v.token, RunEngine(v.Engine(), v.later).posted);
            posts != [] && posts[0].slot.SetRunning? && EndsWith(posts[1..], FailureSeen(v).value)
  {
    var e, h := v.open.event, Opened(v.before.engine, v.open, v.token);
    OpenedRun(v.before.engine, v.open, v.later, v.token);
    StartPosts(v.before.engine, v.open, v.token);
    StartAnnounces(v.before.engine.settings, v.open.now, e.request, e.reply, v.token, e.freshId, e.randomTimeout);
    FailureComesLast(h, ConcernsAll(v.Engine(), v.later, v.token));
    assert Of(v.token, RunEngine(v.Engine(), v.later).posted)[0] == h.posts[0];
  }
}
