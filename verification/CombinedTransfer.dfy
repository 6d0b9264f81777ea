/** An upload whose response is itself blockwise (section 3.3 of RFC 7959): first every block of the
    payload is echoed, then the response is fetched block by block. */
module CombinedTransfer {
  import opened CoapTypes
  import opened StableOrder
  import opened OptionList
  import opened Blocks
  import opened Codec
  import opened Reassembly
  import opened Requests
  import opened Exchanges
  import opened FrameFacts
  import opened WireRequests
  import Download
  import Upload

  /** The frames of a run of frames. */
  function Frames(events: seq<Timed>): seq<Received> {
    if events == [] then []
    else
      var last := events[|events| - 1].event;
      Frames(events[..|events| - 1]) + if last.Frame? then [last.received] else []
  }

  /** A unicast exchange of a live user that does not observe. */
  ghost predicate Steady(ex: Exchange, user: ReplyId, target: Address) {
    && ex.userReply == Some(user) && ex.request.target == target && !target.Multicast?
    && !ex.request.IsObserve() && !ex.request.observeCancelled && Fit(ex.request)
  }

  /** The datagram asks for block `k` and carries no block. */
  predicate OnlyAsks(d: Datagram, k: nat) {
    Download.Asks(d, k) && Upload.Block1(Carried(d).value.message).None?
  }

  // One response

  lemma TurnedAsks(now: nat, ex: Exchange, number: nat, size: nat, freshId: uint16, answers: seq<Datagram>,
                   user: ReplyId, target: Address)
    requires Steady(ex, user, target) && IsBlockSize(size) && CheckBlockNumber(number)
    ensures var effect := SendNext(now, ex, SetToRequestBlock(ex.request, number, size), freshId, target, answers);
            && effect.next.Some? && Steady(effect.next.value, user, target) && effect.posts == []
            && effect.next.value.replies == ex.replies
            && exists d :: effect.sends == answers + [d] && OnlyAsks(d, number)
  {
    var turned := SetToRequestBlock(ex.request, number, size);
    RequestBlockAsks(ex.request, number, size);
    RequestBlockKeepsNamed(ex.request, number, size, OBSERVE);
    var renamed := turned.(message := turned.message.(id := freshId));
    var sent := Transmitted(renamed, now);
    TransmittedKeepsMessage(renamed, now);
    CarriedRequest(sent, target);
    assert OnlyAsks(Datagram(RequestFrame(sent), target), number);
  }

  lemma ResponseArrives(y: Download.Resource, s: Settings, now: nat, ex: Exchange, r: Received, freshId: uint16, i: nat,
                        user: ReplyId, target: Address)
    requires IsBlockSize(y.size) && Steady(ex, user, target) && r.sender == target
    requires Download.ServesBlock(y, r, i) && i + 1 < y.Count() && i + 1 < 0x10_0000
    ensures var effect := OnFrame(s, now, ex, r, freshId);
            && effect.next.Some? && Steady(effect.next.value, user, target) && effect.posts == []
            && effect.next.value.replies == ex.replies + [r]
            && exists d :: effect.sends == Answers(Accept(ex, r), r) + [d] && OnlyAsks(d, i + 1)
  {
    var accepted := Accept(ex, r);
    Download.ServedDecides(y, s, r, i);
    Download.FrameAsks(s, now, ex, r, freshId, i + 1, y.size);
    assert accepted.request.message == ex.request.message;
    TurnedAsks(now, accepted, i + 1, y.size, freshId, Answers(accepted, r), user, target);
  }

  lemma LastResponse(y: Download.Resource, s: Settings, now: nat, ex: Exchange, r: Received, freshId: uint16,
                     user: ReplyId, target: Address)
    requires IsBlockSize(y.size) && Steady(ex, user, target) && r.sender == target && ex.replies != []
    requires Download.ServesBlock(y, r, y.Count() - 1)
    ensures var effect := OnFrame(s, now, ex, r, freshId);
            && effect.next.None? && effect.sends == Answers(Accept(ex, r), r)
            && effect.posts == [Post(user, SetContent(target, r.reply.message.(payload := Merge(ex.replies + [r])),
                                                      r.reply.code)),
                                Post(user, SetFinished(Ok))]
  {
    var accepted := Accept(ex, r);
    FinalFrame(s, now, ex, r, freshId);
    assert Answers(accepted, r) + [] == Answers(accepted, r);
    MergedContent(accepted, r, user);
  }

  lemma MergedContent(ex: Exchange, r: Received, user: ReplyId)
    requires |ex.replies| > 1 && ex.replies[|ex.replies| - 1] == r && ex.userReply == Some(user)
    requires !ex.request.IsObserve() && !ex.request.IsMulticast() && r.reply.code != EMPTY_MESSAGE
    ensures OnLastMessage(ex)
         == Effect(None, [Post(user, SetContent(r.sender, r.reply.message.(payload := Merge(ex.replies)),
                                                r.reply.code)),
                          Post(user, SetFinished(Ok))], [], [])
  {
  }

  /** Answers and pure questions bring a server no block. */
  lemma NothingAssembled(ex: Exchange, r: Received, sends: seq<Datagram>, d: Datagram, k: nat)
    requires OnlyAsks(d, k)
    ensures Upload.Assemble(sends + (Answers(ex, r) + [d])) == Upload.Assemble(sends)
  {
    Upload.NothingMoreSent(Upload.Content([], 16), ex, r, sends);
    Upload.AssembleMore(sends + Answers(ex, r), d);
    assert sends + (Answers(ex, r) + [d]) == (sends + Answers(ex, r)) + [d];
  }

  // Phases

  /** Every echo but the last: the exchange is as the upload leaves it, and stores the echoes. */
  lemma {:induction false} EchoesStored(x: Upload.Content, h: History, echoes: seq<Timed>, target: Address,
                                        user: ReplyId)
    requires IsBlockSize(x.size) && Upload.HalfWay(x, h, h, 0, target, user) && Upload.InOrder(x, echoes, target)
    requires |echoes| < x.Count() <= 0x10_0000 && h.exchange.value.replies == []
    ensures var h' := Run(h, echoes);
            && Upload.HalfWay(x, h, h', |echoes|, target, user) && h'.exchange.value.replies == Frames(echoes)
  {
    Upload.UploadTakesCountRequests(x, h, echoes, target, user);
    if echoes != [] {
      var front, last := echoes[..|echoes| - 1], echoes[|echoes| - 1];
      EchoesStored(x, h, front, target, user);
      EchoStored(x, h, Run(h, front), last, |front|, target, user);
    }
  }

  lemma EchoStored(x: Upload.Content, h: History, h': History, e: Timed, k: nat, target: Address, user: ReplyId)
    requires IsBlockSize(x.size) && Upload.HalfWay(x, h, h', k, target, user) && k + 1 < x.Count() <= 0x10_0000
    requires e.event.Frame? && e.event.received.sender == target && e.settings.blockSize == x.size
    requires Upload.Echoes(x, e.event.received, k)
    ensures var ex := Step(h', e).exchange;
            ex.Some? && ex.value.replies == h'.exchange.value.replies + [e.event.received]
  {
    Upload.EchoArrives(x, e.settings, e.now, h'.exchange.value, h'.sends, e.event.received, e.event.freshId, k, k,
                       target);
  }

  /** After `n` responses: the whole payload has been sent, block `n` of the response has been asked for,
      nothing has been delivered. */
  ghost predicate Responding(x: Upload.Content, h: History, h': History, stored: seq<Received>, n: nat,
                             target: Address, user: ReplyId)
    requires IsBlockSize(x.size)
  {
    && h'.exchange.Some? && Steady(h'.exchange.value, user, target) && h'.exchange.value.replies == stored
    && Upload.AllSent(x, h'.sends) && h'.posts == h.posts
    && (n > 0 ==> exists d :: d in h'.sends && OnlyAsks(d, n))
  }

  /** The next block is asked for, and nothing else happens. */
  lemma AsksOn(x: Upload.Content, h: History, h': History, effect: Effect, stored: seq<Received>, r: Received, n: nat,
               target: Address, user: ReplyId)
    requires IsBlockSize(x.size) && Responding(x, h, h', stored, n, target, user) && effect.posts == []
    requires effect.next.Some? && Steady(effect.next.value, user, target)
    requires effect.next.value.replies == h'.exchange.value.replies + [r]
    requires exists d :: effect.sends == Answers(Accept(h'.exchange.value, r), r) + [d] && OnlyAsks(d, n + 1)
    ensures Responding(x, h, History(effect.next, h'.posts + effect.posts, h'.sends + effect.sends), stored + [r],
                       n + 1, target, user)
  {
    var accepted := Accept(h'.exchange.value, r);
    var d :| effect.sends == Answers(accepted, r) + [d] && OnlyAsks(d, n + 1);
    NothingAssembled(accepted, r, h'.sends, d, n + 1);
    assert effect.sends[|effect.sends| - 1] == d && d in h'.sends + effect.sends;
    assert h'.posts + [] == h'.posts;
  }

  lemma RespondingStep(x: Upload.Content, y: Download.Resource, h: History, h': History, stored: seq<Received>, n: nat,
                       e: Timed, target: Address, user: ReplyId)
    requires IsBlockSize(x.size) && IsBlockSize(y.size) && Responding(x, h, h', stored, n, target, user)
    requires e.event.Frame? && e.event.received.sender == target && Download.ServesBlock(y, e.event.received, n)
    requires n + 1 < y.Count() <= 0x10_0000
    ensures Responding(x, h, Step(h', e), stored + [e.event.received], n + 1, target, user)
  {
    var ex, r := h'.exchange.value, e.event.received;
    ResponseArrives(y, e.settings, e.now, ex, r, e.event.freshId, n, user, target);
    AsksOn(x, h, h', OnFrame(e.settings, e.now, ex, r, e.event.freshId), stored, r, n, target, user);
  }

  lemma {:induction false} ResponsesStored(x: Upload.Content, y: Download.Resource, h: History, mid: History,
                                           stored: seq<Received>, responses: seq<Timed>, target: Address,
                                           user: ReplyId)
    requires IsBlockSize(x.size) && IsBlockSize(y.size) && Download.InOrder(y, responses, target)
    requires Responding(x, h, mid, stored, 0, target, user) && |responses| < y.Count() <= 0x10_0000
    ensures Responding(x, h, Run(mid, responses), stored + Frames(responses), |responses|, target, user)
  {
    if responses == [] {
      assert stored + [] == stored;
    } else {
      var front, last := responses[..|responses| - 1], responses[|responses| - 1];
      ResponsesStored(x, y, h, mid, stored, front, target, user);
      RespondingStep(x, y, h, Run(mid, front), stored + Frames(front), |front|, last, target, user);
      Regrouped(stored, Frames(front), last.event.received);
    }
  }

  lemma Regrouped<T>(a: seq<T>, b: seq<T>, x: T)
    ensures a + b + [x] == a + (b + [x])
  {
  }

  // What the merge is

  lemma {:induction false} FramesAre(events: seq<Timed>)
    requires forall i :: 0 <= i < |events| ==> events[i].event.Frame?
    ensures |Frames(events)| == |events|
    ensures forall i :: 0 <= i < |events| ==> Frames(events)[i] == events[i].event.received
  {
    if events != [] {
      FramesAre(events[..|events| - 1]);
    }
  }

  lemma ResponsesMerge(y: Download.Resource, responses: seq<Timed>, target: Address)
    requires IsBlockSize(y.size) && Download.InOrder(y, responses, target)
    requires |responses| == y.Count() <= 0x10_0000
    ensures Merge(Frames(responses)) == y.body && Copy(Frames(responses), 0) == Slice(y.body, y.size, 0)
    ensures SmallNumbers(Frames(responses))
  {
    var frames := Frames(responses);
    FramesAre(responses);
    forall k: nat | k < y.Count() ensures HasBlock(frames, k) {
      assert frames[k] in frames && BlockNumber(frames[k]) == k;
    }
    assert forall r :: r in frames ==>
                         && 0 <= BlockNumber(r) < BlockCount(y.body, y.size)
                         && Payload(r) == Slice(y.body, y.size, BlockNumber(r));
    MergeIsBody(frames, y.body, y.size);
    CopyIsSlice(frames, y.body, y.size, 0);
  }

  /** Replies of block 0 ahead of others change the merge exactly when they carry something else. */
  lemma EchoesMatterExactly(echoes: seq<Received>, rest: seq<Received>)
    requires OneBlock(echoes, 0) && SmallNumbers(rest)
    ensures Merge(echoes + rest) == Merge(rest) <==>
              FirstPayload(echoes) == [] || FirstPayload(echoes) == Copy(rest, 0)
  {
    OnlyKey(echoes, 0);
    assert SmallNumbers(echoes);
    forall k ensures k != 0 ==> Copy(echoes, k) == [] {
      if k != 0 {
        NoneWithKey(BlockNumber, echoes, k);
      }
    }
    FrontMattersExactly(echoes, rest);
    OnlyFirst(echoes, rest);
  }

  lemma OnlyFirst(front: seq<Received>, rest: seq<Received>)
    requires forall k :: k != 0 ==> Copy(front, k) == []
    requires forall k :: Copy(front + rest, k) == if Copy(front, k) != [] then Copy(front, k) else Copy(rest, k)
    ensures Comparable(front, rest)
    ensures Settled(front, rest) <==> Copy(front, 0) == [] || Copy(front, 0) == Copy(rest, 0)
  {
    if |Copy(front + rest, 0)| >= |Copy(rest, 0)| {
      forall k ensures |Copy(front + rest, k)| >= |Copy(rest, k)| {
        assert k != 0 ==> Copy(front + rest, k) == Copy(rest, k);
      }
    } else {
      forall k ensures |Copy(front + rest, k)| <= |Copy(rest, k)| {
        assert k != 0 ==> Copy(front + rest, k) == Copy(rest, k);
      }
    }
  }

  // The transfer

  /** The success content a history ends with. */
  predicate EndsWith(h: History, h': History, user: ReplyId, payload: Bytes) {
    && h'.exchange.None? && |h'.posts| == |h.posts| + 2 && h'.posts[..|h.posts|] == h.posts
    && h'.posts[|h.posts|].reply == user && h'.posts[|h.posts|].slot.SetContent?
    && !IsError(h'.posts[|h.posts|].slot.code) && h'.posts[|h.posts|].slot.message.payload == payload
    && h'.posts[|h.posts| + 1] == Post(user, SetFinished(Ok))
  }

  lemma EndsWithPosts(h: History, h': History, content: Post, user: ReplyId, payload: Bytes)
    requires h'.exchange.None? && h'.posts == h.posts + [content, Post(user, SetFinished(Ok))]
    requires content.reply == user && content.slot.SetContent? && !IsError(content.slot.code)
    requires content.slot.message.payload == payload
    ensures EndsWith(h, h', user, payload)
  {
  }

  lemma LastStep(x: Upload.Content, y: Download.Resource, h: History, h': History, stored: seq<Received>, n: nat,
                 e: Timed, target: Address, user: ReplyId)
    requires IsBlockSize(x.size) && IsBlockSize(y.size) && Responding(x, h, h', stored, n, target, user)
    requires stored != [] && e.event.Frame? && e.event.received.sender == target
    requires Download.ServesBlock(y, e.event.received, y.Count() - 1)
    ensures EndsWith(h, Step(h', e), user, Merge(stored + [e.event.received])) && Upload.AllSent(x, Step(h', e).sends)
  {
    var ex, r := h'.exchange.value, e.event.received;
    var effect := OnFrame(e.settings, e.now, ex, r, e.event.freshId);
    LastResponse(y, e.settings, e.now, ex, r, e.event.freshId, user, target);
    Upload.NothingMoreSent(x, Accept(ex, r), r, h'.sends);
    EndsWithPosts(h, Step(h', e), effect.posts[0], user, Merge(stored + [r]));
  }

  /** Without loss and duplication: all blocks of the payload are sent, the blocks of the response asked
      for one after the other, and the user gets what echoes and response merge to. That is the body of
      the response if and only if the first echo that carries anything carries what the first block of
      the response does. */
  lemma CombinedTransferExactly(x: Upload.Content, y: Download.Resource, h: History, echoes: seq<Timed>,
                                responses: seq<Timed>, target: Address, user: ReplyId)
    requires IsBlockSize(x.size) && IsBlockSize(y.size) && Upload.HalfWay(x, h, h, 0, target, user)
    requires h.exchange.value.replies == []
    requires Upload.InOrder(x, echoes, target) && 0 < |echoes| == x.Count() - 1 < 0x10_0000
    requires Download.InOrder(y, responses, target) && |responses| == y.Count() <= 0x10_0000
    requires OneBlock(Frames(echoes), 0)
    ensures var h', merged := Run(Run(h, echoes), responses), Merge(Frames(echoes) + Frames(responses));
            && EndsWith(h, h', user, merged) && Upload.AllSent(x, h'.sends)
            && (merged == y.body <==> FirstPayload(Frames(echoes)) == []
                                      || FirstPayload(Frames(echoes)) == Slice(y.body, y.size, 0))
  {
    CombinedRun(x, y, h, echoes, responses, target, user);
    ResponsesMerge(y, responses, target);
    EchoesMatterExactly(Frames(echoes), Frames(responses));
  }

  lemma CombinedRun(x: Upload.Content, y: Download.Resource, h: History, echoes: seq<Timed>, responses: seq<Timed>,
                    target: Address, user: ReplyId)
    requires IsBlockSize(x.size) && IsBlockSize(y.size) && Upload.HalfWay(x, h, h, 0, target, user)
    requires h.exchange.value.replies == []
    requires Upload.InOrder(x, echoes, target) && 0 < |echoes| == x.Count() - 1 < 0x10_0000
    requires Download.InOrder(y, responses, target) && |responses| == y.Count() <= 0x10_0000
    ensures var h' := Run(Run(h, echoes), responses);
            EndsWith(h, h', user, Merge(Frames(echoes) + Frames(responses))) && Upload.AllSent(x, h'.sends)
  {
    EchoesStored(x, h, echoes, target, user);
    UploadedIsResponding(x, h, Run(h, echoes), Frames(echoes), target, user);
    FramesAre(echoes);
    ResponsesDelivered(x, y, h, Run(h, echoes), Frames(echoes), responses, target, user);
  }

  lemma ResponsesDelivered(x: Upload.Content, y: Download.Resource, h: History, mid: History, stored: seq<Received>,
                           responses: seq<Timed>, target: Address, user: ReplyId)
    requires IsBlockSize(x.size) && IsBlockSize(y.size) && Responding(x, h, mid, stored, 0, target, user)
    requires stored != [] && Download.InOrder(y, responses, target) && |responses| == y.Count() <= 0x10_0000
    ensures EndsWith(h, Run(mid, responses), user, Merge(stored + Frames(responses)))
    ensures Upload.AllSent(x, Run(mid, responses).sends)
  {
    var front, last := responses[..|responses| - 1], responses[|responses| - 1];
    ResponsesStored(x, y, h, mid, stored, front, target, user);
    LastStep(x, y, h, Run(mid, front), stored + Frames(front), |front|, last, target, user);
    Regrouped(stored, Frames(front), last.event.received);
  }

  lemma UploadedIsResponding(x: Upload.Content, h: History, mid: History, stored: seq<Received>, target: Address,
                             user: ReplyId)
    requires IsBlockSize(x.size) && Upload.HalfWay(x, h, mid, x.Count() - 1, target, user)
    requires mid.exchange.value.replies == stored
    ensures Responding(x, h, mid, stored, 0, target, user)
  {
    Upload.ExpectedWhole(x);
  }
}
