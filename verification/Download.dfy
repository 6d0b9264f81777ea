/** Blockwise download (section 2.4 of RFC 7959), end to end: a server answers the requests it
    reads on the wire, the exchange asks for block after block, and the user gets the body. */
module Download {
  import opened CoapTypes
  import opened StableOrder
  import opened OptionList
  import opened Blocks
  import opened Codec
  import opened CodecRoundTrip
  import opened Reassembly
  import opened Requests
  import opened Exchanges
  import opened FrameFacts
  import opened WireRequests

  /** The body a server holds and the block size it serves it in. */
  datatype Resource = Resource(body: Bytes, size: nat) {
    function Count(): nat
      requires IsBlockSize(size)
    {
      BlockCount(body, size)
    }
  }

  /** A success response that carries block `k`. */
  predicate ServesBlock(x: Resource, r: Received, k: nat)
    requires IsBlockSize(x.size)
  {
    && r.reply.block.number == k && r.reply.block.more == (k + 1 < x.Count())
    && (r.reply.block.more ==> r.reply.block.size == x.size)
    && Payload(r) == Slice(x.body, x.size, k)
    && !IsError(r.reply.code) && r.reply.code != EMPTY_MESSAGE
    && NextBlockToSend(r.reply.message.options) < 0
  }

  /** Some datagram asks for block `k`. */
  ghost predicate Requested(sends: seq<Datagram>, k: nat) {
    exists d :: d in sends && Asks(d, k)
  }

  predicate Asks(d: Datagram, k: nat) {
    Carried(d).Some? && Carried(d).value.block.number == k
  }

  /** What may arrive. From the target: a block that was asked for, now or earlier, as often as the
      network likes; an acknowledgment; a reset or another empty message; an error. From other hosts:
      anything. */
  ghost predicate MayArrive(x: Resource, h: History, r: Received, target: Address)
    requires IsBlockSize(x.size)
  {
    r.sender == target ==>
      || IsError(r.reply.code)
      || (IsEmptyAck(r) && Complete(r))
      || CutsShort(r)
      || exists k :: 0 <= k < x.Count() && Requested(h.sends, k) && ServesBlock(x, r, k)
  }

  /** A run against that server: frames as above, and timers, cancellations, aborts and the loss of
      the user's reply at any time. */
  ghost predicate Served(x: Resource, h: History, events: seq<Timed>, target: Address)
    requires IsBlockSize(x.size)
  {
    events == []
    || (var front, last := events[..|events| - 1], events[|events| - 1];
        && Served(x, h, front, target)
        && (last.event.Frame? ==> MayArrive(x, Run(h, front), last.event.received, target)))
  }

  // The invariant

  /** The stored replies are exactly blocks `0` to `k - 1` of the body. */
  ghost predicate Prefix(x: Resource, replies: seq<Received>, k: nat)
    requires IsBlockSize(x.size)
  {
    && (forall r :: r in replies ==> 0 <= BlockNumber(r) < k && Payload(r) == Slice(x.body, x.size, BlockNumber(r)))
    && (forall j :: 0 <= j < k ==> HasBlock(replies, j))
  }

  ghost predicate AsksUpTo(sends: seq<Datagram>, k: nat) {
    forall d :: d in sends && Carried(d).Some? ==>
      Carried(d).value.block.number <= k && Carried(d).value.block.number < 0x10_0000
  }

  /** A unicast exchange, not observing, that asks for at most block `k`. */
  ghost predicate Fetches(ex: Exchange, k: nat, target: Address) {
    && ex.request.target == target && !target.Multicast?
    && !ex.request.IsObserve() && !ex.request.observeCancelled
    && Fit(ex.request) && AskedBlock(ex.request) <= k && AskedBlock(ex.request) < 0x10_0000
  }

  ghost predicate Fetching(x: Resource, ex: Exchange, sends: seq<Datagram>, k: nat, target: Address)
    requires IsBlockSize(x.size)
  {
    && k < x.Count() && k <= 0x10_0000 && Fetches(ex, k, target) && Prefix(x, ex.replies, k) && AsksUpTo(sends, k)
  }

  /** Success contents are the whole body. */
  ghost predicate OnlyBody(x: Resource, posts: seq<Post>) {
    forall i :: 0 <= i < |posts| ==> IsBody(x, posts[i])
  }

  predicate IsBody(x: Resource, p: Post) {
    p.slot.SetContent? && !IsError(p.slot.code) ==> p.slot.message.payload == x.body
  }

  /** As long as the exchange is there, it stores a prefix of the blocks;
      and whatever success content the user got is the body. */
  ghost predicate Sound(x: Resource, h: History, target: Address)
    requires IsBlockSize(x.size)
  {
    && OnlyBody(x, h.posts)
    && (h.exchange.Some? ==> exists k :: Fetching(x, h.exchange.value, h.sends, k, target))
  }

  // One event

  lemma MoreSends(a: seq<Datagram>, b: seq<Datagram>, k: nat, k': nat)
    requires AsksUpTo(a, k) && AsksUpTo(b, k') && k <= k'
    ensures AsksUpTo(a + b, k')
  {
  }

  lemma MorePosts(x: Resource, a: seq<Post>, b: seq<Post>)
    requires OnlyBody(x, a) && OnlyBody(x, b)
    ensures OnlyBody(x, a + b)
  {
  }

  lemma SentRequestAsks(r: Request, host: Address, k: nat)
    requires Fit(r) && AskedBlock(r) <= k && AskedBlock(r) < 0x10_0000
    ensures AsksUpTo([Datagram(RequestFrame(r), host)], k)
    ensures Asks(Datagram(RequestFrame(r), host), AskedBlock(r))
  {
    CarriedRequest(r, host);
  }

  lemma AnswersAskNothing(ex: Exchange, r: Received, k: nat)
    ensures AsksUpTo(Answers(ex, r), k)
  {
    EmptyCarriesNothing(ex.request, r.reply.message.id, Reset);
    EmptyCarriesNothing(ex.request, r.reply.message.id, Acknowledgment);
  }

  lemma PrefixGrows(x: Resource, replies: seq<Received>, r: Received, j: nat, k: nat)
    requires IsBlockSize(x.size) && Prefix(x, replies, k) && j <= k && ServesBlock(x, r, j)
    ensures Prefix(x, replies + [r], if j == k then k + 1 else k)
  {
    forall i | 0 <= i < (if j == k then k + 1 else k) ensures HasBlock(replies + [r], i) {
      if i == j {
        assert (replies + [r])[|replies|] == r;
      } else {
        assert HasBlock(replies, i);
        var q :| q in replies && BlockNumber(q) == i;
        assert q in replies + [r];
      }
    }
  }

  lemma TurnedFetches(ex: Exchange, number: nat, size: nat, k: nat, target: Address)
    requires Fetches(ex, k, target) && IsBlockSize(size) && number <= k
    ensures Fetches(ex.(request := SetToRequestBlock(ex.request, number, size)), k, target)
    ensures CheckBlockNumber(number) ==> AskedBlock(SetToRequestBlock(ex.request, number, size)) == number
  {
    if CheckBlockNumber(number) {
      RequestBlockAsks(ex.request, number, size);
      RequestBlockKeepsNamed(ex.request, number, size, OBSERVE);
    }
  }

  /** The request goes out, under a fresh message id. */
  lemma RequestGoesOut(now: nat, ex: Exchange, r: Request, freshId: uint16, host: Address, answers: seq<Datagram>,
                       k: nat, target: Address)
    requires Fetches(ex.(request := r), k, target) && AsksUpTo(answers, k)
    ensures var effect := SendNext(now, ex, r, freshId, host, answers);
            && effect.next.Some? && effect.posts == [] && effect.next.value.replies == ex.replies
            && effect.next.value.userReply == ex.userReply
            && Fetches(effect.next.value, k, target) && AsksUpTo(effect.sends, k)
            && Requested(effect.sends, AskedBlock(r))
  {
    var renamed := r.(message := r.message.(id := freshId));
    var r' := Transmitted(renamed, now);
    TransmittedKeepsMessage(renamed, now);
    SentRequestAsks(r', host, k);
    MoreSends(answers, [Datagram(RequestFrame(r'), host)], k, k);
    assert (answers + [Datagram(RequestFrame(r'), host)])[|answers|] == Datagram(RequestFrame(r'), host);
  }

  lemma AcceptedFetches(ex: Exchange, r: Received, k: nat, target: Address)
    requires Fetches(ex, k, target)
    ensures Fetches(Accept(ex, r), k, target) && Answered(Accept(ex, r)) == Accept(ex, r)
    ensures Accept(ex, r).replies == ex.replies + [r] && Accept(ex, r).userReply == ex.userReply
  {
  }

  lemma FetchesMore(ex: Exchange, j: nat, k: nat, target: Address)
    requires Fetches(ex, j, target) && j <= k
    ensures Fetches(ex, k, target)
  {
  }

  lemma FrameAsks(s: Settings, now: nat, ex: Exchange, r: Received, freshId: uint16, number: nat, size: nat)
    requires Accepts(ex, r) && !IsError(r.reply.code) && !ex.request.observeCancelled
    requires Decide(s, r.reply) == AskForBlock(number, size)
    ensures var accepted := Accept(ex, r);
            OnFrame(s, now, ex, r, freshId)
            == SendNext(now, accepted, SetToRequestBlock(accepted.request, number, size), freshId, r.sender,
                        Answers(accepted, r))
  {
  }

  lemma ServedDecides(x: Resource, s: Settings, r: Received, j: nat)
    requires IsBlockSize(x.size) && ServesBlock(x, r, j) && j + 1 < x.Count() && j < 0x10_0000
    ensures Decide(s, r.reply) == AskForBlock(j + 1, x.size)
  {
  }

  function Advanced(j: nat, k: nat): nat {
    if j == k then k + 1 else k
  }

  /** A block with a successor: it is stored, and the successor is asked for. */
  lemma BlockArrives(x: Resource, s: Settings, now: nat, ex: Exchange, r: Received, freshId: uint16, j: nat, k: nat,
                     target: Address)
    requires IsBlockSize(x.size) && Fetches(ex, k, target) && r.sender == target
    requires j <= k && j < 0x10_0000 && ServesBlock(x, r, j) && j + 1 < x.Count()
    ensures var effect := OnFrame(s, now, ex, r, freshId);
            && effect.next.Some? && effect.posts == [] && effect.next.value.replies == ex.replies + [r]
            && effect.next.value.userReply == ex.userReply
            && Fetches(effect.next.value, Advanced(j, k), target) && AsksUpTo(effect.sends, Advanced(j, k))
            && (j + 1 < 0x10_0000 ==> Requested(effect.sends, j + 1))
  {
    var accepted := Accept(ex, r);
    ServedDecides(x, s, r, j);
    FrameAsks(s, now, ex, r, freshId, j + 1, x.size);
    AcceptedFetches(ex, r, k, target);
    NextBlockAsked(now, accepted, j, k, x.size, freshId, Answers(accepted, r), r, target);
  }

  lemma NextBlockAsked(now: nat, ex: Exchange, j: nat, k: nat, size: nat, freshId: uint16, answers: seq<Datagram>,
                       r: Received, target: Address)
    requires Fetches(ex, k, target) && IsBlockSize(size) && j <= k && answers == Answers(ex, r)
    ensures var effect := SendNext(now, ex, SetToRequestBlock(ex.request, j + 1, size), freshId, target, answers);
            && effect.next.Some? && effect.posts == [] && effect.next.value.replies == ex.replies
            && effect.next.value.userReply == ex.userReply
            && Fetches(effect.next.value, Advanced(j, k), target) && AsksUpTo(effect.sends, Advanced(j, k))
            && (j + 1 < 0x10_0000 ==> Requested(effect.sends, j + 1))
  {
    AnswersAskNothing(ex, r, Advanced(j, k));
    FetchesMore(ex, k, Advanced(j, k), target);
    TurnedFetches(ex, j + 1, size, Advanced(j, k), target);
    RequestGoesOut(now, ex, SetToRequestBlock(ex.request, j + 1, size), freshId, target, answers, Advanced(j, k),
                   target);
  }

  /** The last block: the merge is the body. */
  lemma MergedIsBody(x: Resource, replies: seq<Received>, r: Received)
    requires IsBlockSize(x.size) && x.Count() <= 0x10_0000
    requires Prefix(x, replies, x.Count() - 1) && ServesBlock(x, r, x.Count() - 1)
    ensures FinalPayload(false, replies + [r]) == x.body
  {
    var all := replies + [r];
    PrefixGrows(x, replies, r, x.Count() - 1, x.Count() - 1);
    MergeIsBody(all, x.body, x.size);
    if replies == [] {
      MergeSingle(r);
      assert all == [r];
    }
  }

  lemma LastBlockArrives(x: Resource, s: Settings, now: nat, ex: Exchange, r: Received, freshId: uint16,
                         target: Address)
    requires IsBlockSize(x.size) && x.Count() <= 0x10_0000 && Fetches(ex, x.Count() - 1, target) && r.sender == target
    requires Prefix(x, ex.replies, x.Count() - 1) && ServesBlock(x, r, x.Count() - 1)
    ensures var effect := OnFrame(s, now, ex, r, freshId);
            && effect.next.None? && OnlyBody(x, effect.posts)
            && (ex.userReply.Some? ==>
                  && |effect.posts| == 2
                  && effect.posts[0].reply == ex.userReply.value && effect.posts[0].slot.SetContent?
                  && effect.posts[0].slot.message.payload == x.body && effect.posts[0].slot.code == r.reply.code
                  && effect.posts[1] == Post(ex.userReply.value, SetFinished(Ok)))
  {
    FinalFrame(s, now, ex, r, freshId);
    AcceptedFetches(ex, r, x.Count() - 1, target);
    MergedIsBody(x, ex.replies, r);
    LastDelivered(x, Accept(ex, r), r);
  }

  lemma LastDelivered(x: Resource, ex: Exchange, r: Received)
    requires ex.replies != [] && ex.replies[|ex.replies| - 1] == r && FinalPayload(false, ex.replies) == x.body
    requires !ex.request.IsObserve() && !ex.request.IsMulticast() && !IsEmptyAck(r)
    ensures var effect := OnLastMessage(ex);
            && effect.next.None? && OnlyBody(x, effect.posts)
            && (ex.userReply.Some? ==>
                  && |effect.posts| == 2
                  && effect.posts[0].reply == ex.userReply.value && effect.posts[0].slot.SetContent?
                  && effect.posts[0].slot.message.payload == x.body && effect.posts[0].slot.code == r.reply.code
                  && effect.posts[1] == Post(ex.userReply.value, SetFinished(Ok)))
  {
  }

  /** An acknowledgment changes nothing, or drops an exchange without a user. */
  lemma AckArrives(s: Settings, now: nat, ex: Exchange, r: Received, freshId: uint16, k: nat, target: Address)
    requires Fetches(ex, k, target) && r.sender == target && IsEmptyAck(r) && Complete(r)
    ensures var effect := OnFrame(s, now, ex, r, freshId);
            && effect.posts == [] && AsksUpTo(effect.sends, k)
            && (effect.next.Some? ==> effect.next.value.replies == ex.replies && Fetches(effect.next.value, k, target))
  {
    FinalFrame(s, now, ex, r, freshId);
    AcceptedFetches(ex, r, k, target);
    AnswersAskNothing(Accept(ex, r), r, k);
    assert (ex.replies + [r])[..|ex.replies|] == ex.replies;
    assert Answers(Accept(ex, r), r) + [] == Answers(Accept(ex, r), r);
  }

  /** An error ends the exchange; its content is no success. */
  lemma ErrorArrives(x: Resource, s: Settings, now: nat, ex: Exchange, r: Received, freshId: uint16)
    requires IsError(r.reply.code)
    ensures var effect := OnFrame(s, now, ex, r, freshId);
            && OnlyBody(x, effect.posts) && effect.sends == []
            && (effect.next.Some? ==> effect.next.value == ex)
  {
  }

  lemma StoredMeansPositive(replies: seq<Received>, k: int)
    requires replies != [] && forall r :: r in replies ==> BlockNumber(r) < k
    ensures k > 0
  {
    assert replies[0] in replies;
  }

  /** What an empty message makes of the stored blocks: the part of the body they carry. */
  lemma CutPayload(x: Resource, replies: seq<Received>, r: Received, k: nat)
    requires IsBlockSize(x.size) && k <= 0x10_0000 && Prefix(x, replies, k) && CutsShort(r)
    ensures FinalPayload(false, replies + [r]) == Slices(x.body, x.size, k)
  {
    var all := replies + [r];
    if replies != [] {
      StoredMeansPositive(replies, k);
    }
    if k > 0 {
      assert HasBlock(replies, 0);
      MergeIsAscending(all, k);
      forall j: nat | j < k ensures Copy(all, j) == Slice(x.body, x.size, j) {
        CopyConcat(replies, r, j);
        CopyIsSlice(replies, x.body, x.size, j);
      }
      AscendingSlices(all, x.body, x.size, k, k);
    }
  }

  /** Less than all blocks are not the body, unless there is nothing to carry. */
  lemma PartIsNotBody(x: Resource, k: nat)
    requires IsBlockSize(x.size) && k < x.Count()
    ensures Slices(x.body, x.size, k) == x.body <==> x.body == []
  {
    if x.body != [] {
      BlockCountBounds(x.body, x.size);
      MulMonotone(k, x.Count() - 1, x.size);
      SlicesArePrefix(x.body, x.size, k);
    }
  }

  /** The exchange is over, and a live user gets the part as a success. */
  lemma CutArrives(x: Resource, s: Settings, now: nat, ex: Exchange, r: Received, freshId: uint16, k: nat,
                   target: Address)
    requires IsBlockSize(x.size) && k < x.Count() && k <= 0x10_0000 && Fetches(ex, k, target)
    requires Prefix(x, ex.replies, k) && r.sender == target && CutsShort(r)
    ensures var effect := OnFrame(s, now, ex, r, freshId);
            && effect.next.None?
            && (ex.userReply.None? ==> effect.posts == [])
            && (ex.userReply.Some? ==>
                  && |effect.posts| == 2 && effect.posts[0].reply == ex.userReply.value
                  && effect.posts[0].slot.SetContent? && effect.posts[0].slot.code == EMPTY_MESSAGE
                  && effect.posts[0].slot.message.payload == Slices(x.body, x.size, k)
                  && effect.posts[1] == Post(ex.userReply.value, SetFinished(Ok)))
  {
    FinalFrame(s, now, ex, r, freshId);
    AcceptedFetches(ex, r, k, target);
    CutPayload(x, ex.replies, r, k);
    PartDelivered(Accept(ex, r), r, Slices(x.body, x.size, k));
  }

  lemma PartDelivered(ex: Exchange, r: Received, payload: Bytes)
    requires ex.replies != [] && ex.replies[|ex.replies| - 1] == r && FinalPayload(false, ex.replies) == payload
    requires !ex.request.IsObserve() && !ex.request.IsMulticast() && CutsShort(r)
    ensures var effect := OnLastMessage(ex);
            && effect.next.None?
            && (ex.userReply.None? ==> effect.posts == [])
            && (ex.userReply.Some? ==>
                  && |effect.posts| == 2 && effect.posts[0].reply == ex.userReply.value
                  && effect.posts[0].slot.SetContent? && effect.posts[0].slot.code == EMPTY_MESSAGE
                  && effect.posts[0].slot.message.payload == payload
                  && effect.posts[1] == Post(ex.userReply.value, SetFinished(Ok)))
  {
  }

  /** Timers, cancellation, abort, loss of the reply: at most the same request again. */
  lemma OtherEvent(x: Resource, s: Settings, now: nat, ex: Exchange, e: LocalEvent, k: nat, target: Address)
    requires Fetches(ex, k, target) && !e.Frame?
    ensures var effect := Handle(s, now, ex, e);
            && OnlyBody(x, effect.posts) && AsksUpTo(effect.sends, k)
            && (effect.next.Some? ==> effect.next.value.replies == ex.replies && Fetches(effect.next.value, k, target))
  {
    if e.Timeout? {
      TransmittedKeepsMessage(ex.request, now);
      SentRequestAsks(Transmitted(ex.request, now), target, k);
    }
  }

  lemma KeepsFetching(x: Resource, h: History, effect: Effect, k: nat, k': nat, target: Address)
    requires IsBlockSize(x.size) && AsksUpTo(h.sends, k) && OnlyBody(x, h.posts) && k <= k' < x.Count()
    requires k' <= 0x10_0000
    requires OnlyBody(x, effect.posts) && AsksUpTo(effect.sends, k')
    requires effect.next.Some? ==> Fetches(effect.next.value, k', target) && Prefix(x, effect.next.value.replies, k')
    ensures Sound(x, History(effect.next, h.posts + effect.posts, h.sends + effect.sends), target)
  {
    MoreSends(h.sends, effect.sends, k, k');
    MorePosts(x, h.posts, effect.posts);
    if effect.next.Some? {
      assert Fetching(x, effect.next.value, h.sends + effect.sends, k', target);
    }
  }

  lemma RequestedUpTo(sends: seq<Datagram>, j: nat, k: nat)
    requires Requested(sends, j) && AsksUpTo(sends, k)
    ensures j <= k && j < 0x10_0000
  {
    var d :| d in sends && Asks(d, j);
  }

  lemma ServedBlockStep(x: Resource, h: History, s: Settings, now: nat, r: Received, freshId: uint16, j: nat, k: nat,
                        target: Address)
    requires IsBlockSize(x.size) && h.exchange.Some? && Fetching(x, h.exchange.value, h.sends, k, target)
    requires OnlyBody(x, h.posts) && r.sender == target && j < x.Count() && Requested(h.sends, j)
    requires ServesBlock(x, r, j)
    ensures var effect := OnFrame(s, now, h.exchange.value, r, freshId);
            Sound(x, History(effect.next, h.posts + effect.posts, h.sends + effect.sends), target)
  {
    var ex := h.exchange.value;
    var effect := OnFrame(s, now, ex, r, freshId);
    RequestedUpTo(h.sends, j, k);
    if j + 1 < x.Count() {
      BlockArrives(x, s, now, ex, r, freshId, j, k, target);
      PrefixGrows(x, ex.replies, r, j, k);
      KeepsFetching(x, h, effect, k, Advanced(j, k), target);
    } else {
      LastBlockArrives(x, s, now, ex, r, freshId, target);
      SoundAtEnd(x, h, effect, target);
    }
  }

  lemma SoundAtEnd(x: Resource, h: History, effect: Effect, target: Address)
    requires IsBlockSize(x.size) && OnlyBody(x, h.posts) && OnlyBody(x, effect.posts) && effect.next.None?
    ensures Sound(x, History(effect.next, h.posts + effect.posts, h.sends + effect.sends), target)
  {
    MorePosts(x, h.posts, effect.posts);
  }

  lemma FrameStep(x: Resource, h: History, s: Settings, now: nat, r: Received, freshId: uint16, k: nat, target: Address)
    requires IsBlockSize(x.size) && h.exchange.Some? && Fetching(x, h.exchange.value, h.sends, k, target)
    requires OnlyBody(x, h.posts) && MayArrive(x, h, r, target) && !(r.sender == target && CutsShort(r))
    ensures var effect := OnFrame(s, now, h.exchange.value, r, freshId);
            Sound(x, History(effect.next, h.posts + effect.posts, h.sends + effect.sends), target)
  {
    var ex := h.exchange.value;
    var effect := OnFrame(s, now, ex, r, freshId);
    if r.sender != target {
      KeepsFetching(x, h, effect, k, k, target);
    } else if IsError(r.reply.code) {
      ErrorArrives(x, s, now, ex, r, freshId);
      KeepsFetching(x, h, effect, k, k, target);
    } else if IsEmptyAck(r) && Complete(r) {
      AckArrives(s, now, ex, r, freshId, k, target);
      KeepsFetching(x, h, effect, k, k, target);
    } else {
      var j :| 0 <= j < x.Count() && Requested(h.sends, j) && ServesBlock(x, r, j);
      ServedBlockStep(x, h, s, now, r, freshId, j, k, target);
    }
  }

  lemma DownloadStep(x: Resource, h: History, e: Timed, target: Address)
    requires IsBlockSize(x.size) && Sound(x, h, target) && !CutBy(h, e, target)
    requires e.event.Frame? ==> MayArrive(x, h, e.event.received, target)
    ensures Sound(x, Step(h, e), target)
  {
    if h.exchange.Some? {
      var k :| Fetching(x, h.exchange.value, h.sends, k, target);
      if e.event.Frame? && e.event.received.sender == target && CutsShort(e.event.received) {
        CutArrives(x, e.settings, e.now, h.exchange.value, e.event.received, e.event.freshId, k, target);
        assert h.posts + [] == h.posts;
      } else if e.event.Frame? {
        FrameStep(x, h, e.settings, e.now, e.event.received, e.event.freshId, k, target);
      } else {
        OtherEvent(x, e.settings, e.now, h.exchange.value, e.event, k, target);
        KeepsFetching(x, h, Handle(e.settings, e.now, h.exchange.value, e.event), k, k, target);
      }
    }
  }

  /** An empty message from the target reaches an open exchange whose user is there. */
  predicate CutBy(h: History, e: Timed, target: Address) {
    && h.exchange.Some? && h.exchange.value.userReply.Some?
    && e.event.Frame? && e.event.received.sender == target && CutsShort(e.event.received)
  }

  /** That has happened in the run. */
  ghost predicate CutOff(h: History, events: seq<Timed>, target: Address) {
    events != []
    && (|| CutOff(h, events[..|events| - 1], target)
        || CutBy(Run(h, events[..|events| - 1]), events[|events| - 1], target))
  }

  lemma CutStep(x: Resource, h: History, e: Timed, target: Address)
    requires IsBlockSize(x.size) && Sound(x, h, target) && CutBy(h, e, target)
    ensures Step(h, e).exchange.None? && (OnlyBody(x, Step(h, e).posts) <==> x.body == [])
  {
    var k :| Fetching(x, h.exchange.value, h.sends, k, target);
    var effect := OnFrame(e.settings, e.now, h.exchange.value, e.event.received, e.event.freshId);
    CutArrives(x, e.settings, e.now, h.exchange.value, e.event.received, e.event.freshId, k, target);
    PartIsNotBody(x, k);
    assert (h.posts + effect.posts)[|h.posts|] == effect.posts[0];
    assert IsBody(x, effect.posts[0]) <==> x.body == [];
  }

  /** Where a run stands: sound; or cut off, with a part of the body delivered for good. */
  ghost predicate DownloadOutcome(x: Resource, h: History, cut: bool, target: Address)
    requires IsBlockSize(x.size)
  {
    if cut then h.exchange.None? && (OnlyBody(x, h.posts) <==> x.body == []) else Sound(x, h, target)
  }

  lemma {:induction false} DownloadRun(x: Resource, h: History, events: seq<Timed>, target: Address)
    requires IsBlockSize(x.size) && Sound(x, h, target) && Served(x, h, events, target)
    ensures DownloadOutcome(x, Run(h, events), CutOff(h, events, target), target)
  {
    if events != [] {
      var front, last := events[..|events| - 1], events[|events| - 1];
      DownloadRun(x, h, front, target);
      if CutOff(h, front, target) {
        assert Run(h, events) == Run(h, front);
      } else if CutBy(Run(h, front), last, target) {
        CutStep(x, Run(h, front), last, target);
      } else {
        DownloadStep(x, Run(h, front), last, target);
      }
    }
  }

  /** Every run, with any loss, duplication and delay of frames: what is stored is a prefix of the
      blocks and no success content is anything but the whole body, if and only if the target has not
      sent an empty message, such as a Reset, to the open exchange of a live user; an empty body
      aside. */
  lemma DownloadIsSound(x: Resource, h: History, events: seq<Timed>, target: Address)
    requires IsBlockSize(x.size) && Sound(x, h, target) && Served(x, h, events, target)
    ensures Sound(x, Run(h, events), target) <==> !CutOff(h, events, target) || x.body == []
  {
    DownloadRun(x, h, events, target);
  }

  // The first request

  lemma WithBlocksFits(s: Settings, r: Request)
    requires ValidSettings(s) && Fit(r) && Named(r.message.options, BLOCK2) == [] && !r.IsObserve()
    ensures var r' := WithBlockOptions(s, r);
            && Fit(r') && AskedBlock(r') == 0 && !r'.IsObserve()
            && r'.target == r.target && r'.observeCancelled == r.observeCancelled
  {
    DescribedByNamed(NO_BLOCK, r.message.options);
    if s.blockSize > 0 {
      var asking := SetToRequestBlock(r, 0, s.blockSize);
      RequestBlockAsks(r, 0, s.blockSize);
      RequestBlockKeepsNamed(r, 0, s.blockSize, OBSERVE);
      SendBlockKeepsAsked(asking, s.blockSize);
      SendBlockKeepsNamed(asking, 0, s.blockSize, OBSERVE);
    }
  }

  lemma SendBlockKeepsAsked(r: Request, size: nat)
    requires Fit(r) && IsBlockSize(size) && |Named(r.message.options, BLOCK2)| == 1 && AskedBlock(r) == 0
    ensures Fit(SetToSendBlock(r, 0, size)) && AskedBlock(SetToSendBlock(r, 0, size)) == 0
  {
    SendBlockFits(r, 0, size);
    SendBlockKeepsNamed(r, 0, size, BLOCK2);
    PlainMember(r.message.options);
    DescribedByNamed(NO_BLOCK, r.message.options);
    DescribedByNamed(NO_BLOCK, SetToSendBlock(r, 0, size).message.options);
  }

  lemma PlainMember(options: seq<CoapOption>)
    requires Plain(options) && |Named(options, BLOCK2)| == 1
    ensures Named(options, BLOCK2)[0].value != []
  {
    var o := Named(options, BLOCK2)[0];
    WithKeyMember(Number, options, BLOCK2, o);
  }

  /** A request for a body: any method, type, token and options that fit the wire, no Observe and no
      Block2 option of the user's own, to a unicast target. */
  ghost predicate FetchRequest(u: UserRequest) {
    && u.methodCode != 0 && !u.target.Multicast?
    && Sorted(u.message.options) && Plain(u.message.options) && u.message.version <= 3
    && Named(u.message.options, BLOCK2) == [] && !HasOption(u.message.options, OBSERVE)
  }

  lemma StartIsSound(x: Resource, s: Settings, now: nat, u: UserRequest, reply: ReplyId, token: Token, id: uint16,
                     randomTimeout: nat)
    requires IsBlockSize(x.size) && ValidSettings(s) && FetchRequest(u) && |token| <= 15
    ensures var h := Start(s, now, u, reply, token, id, randomTimeout);
            && Sound(x, h, u.target) && h.exchange.Some? && h.exchange.value.userReply == Some(reply)
            && Fetching(x, h.exchange.value, h.sends, 0, u.target) && Requested(h.sends, 0)
            && h.posts == [Post(reply, SetRunning(token, id))]
  {
    var r := InitialRequest(s, u, token, id, randomTimeout);
    InitialRequestFits(s, u, token, id, randomTimeout);
    var sent := Transmitted(r, now);
    TransmittedKeepsMessage(r, now);
    FirstRequest(x, sent, reply, u.target);
    assert Start(s, now, u, reply, token, id, randomTimeout)
        == History(Some(Exchange(Some(reply), sent, [])), [Post(reply, SetRunning(token, id))],
                   [Datagram(RequestFrame(sent), sent.target)]);
  }

  lemma InitialRequestFits(s: Settings, u: UserRequest, token: Token, id: uint16, randomTimeout: nat)
    requires ValidSettings(s) && FetchRequest(u) && |token| <= 15
    ensures var r := InitialRequest(s, u, token, id, randomTimeout);
            && Fit(r) && AskedBlock(r) == 0 && !r.IsObserve() && r.target == u.target && !r.observeCancelled
  {
    var r := Request(u.message.(token := token, id := id), u.methodCode, u.message.payload, u.target,
                     0, 0, false, false, MaximumTransmitWait(s), 0, None, None, None);
    WithBlocksFits(s, r);
  }

  lemma FirstRequest(x: Resource, r: Request, reply: ReplyId, target: Address)
    requires IsBlockSize(x.size) && Fit(r) && AskedBlock(r) == 0 && !r.IsObserve() && !r.observeCancelled
    requires r.target == target && !target.Multicast?
    ensures var sends := [Datagram(RequestFrame(r), r.target)];
            Fetching(x, Exchange(Some(reply), r, []), sends, 0, target) && Requested(sends, 0)
  {
    SentRequestAsks(r, r.target, 0);
    assert [Datagram(RequestFrame(r), r.target)][0] == Datagram(RequestFrame(r), r.target);
  }

  /** From the user's request on: a success content is the whole body, in every run against the
      server that no empty message cuts off, and in no other. */
  lemma DownloadDeliversOnlyTheBody(x: Resource, s: Settings, now: nat, u: UserRequest, reply: ReplyId, token: Token,
                                    id: uint16, randomTimeout: nat, events: seq<Timed>)
    requires IsBlockSize(x.size) && ValidSettings(s) && FetchRequest(u) && |token| <= 15
    requires Served(x, Start(s, now, u, reply, token, id, randomTimeout), events, u.target)
    ensures Sound(x, Run(Start(s, now, u, reply, token, id, randomTimeout), events), u.target)
            <==> !CutOff(Start(s, now, u, reply, token, id, randomTimeout), events, u.target) || x.body == []
  {
    StartIsSound(x, s, now, u, reply, token, id, randomTimeout);
    DownloadIsSound(x, Start(s, now, u, reply, token, id, randomTimeout), events, u.target);
  }

  // Without loss and duplication

  /** The blocks arrive one after the other. */
  ghost predicate InOrder(x: Resource, events: seq<Timed>, target: Address)
    requires IsBlockSize(x.size)
  {
    forall i :: 0 <= i < |events| ==>
      && events[i].event.Frame? && events[i].event.received.sender == target
      && ServesBlock(x, events[i].event.received, i)
  }

  /** After `k` replies: waiting for block `k`, which has been asked for, with nothing delivered. */
  ghost predicate HalfWay(x: Resource, h: History, h': History, k: nat, target: Address, user: ReplyId)
    requires IsBlockSize(x.size)
  {
    && h'.exchange.Some? && h'.exchange.value.userReply == Some(user)
    && Fetching(x, h'.exchange.value, h'.sends, k, target) && |h'.exchange.value.replies| == k
    && Requested(h'.sends, k) && h'.posts == h.posts
  }

  ghost predicate Delivered(x: Resource, h: History, h': History, user: ReplyId) {
    && h'.exchange.None? && |h'.posts| == |h.posts| + 2 && h'.posts[..|h.posts|] == h.posts
    && var content := h'.posts[|h.posts|];
       && content.reply == user && content.slot.SetContent? && !IsError(content.slot.code)
       && content.slot.message.payload == x.body
       && h'.posts[|h.posts| + 1] == Post(user, SetFinished(Ok))
  }

  lemma HalfWayStep(x: Resource, h: History, h': History, e: Timed, k: nat, target: Address, user: ReplyId)
    requires IsBlockSize(x.size) && HalfWay(x, h, h', k, target, user) && k + 1 < x.Count() <= 0x10_0000
    requires e.event.Frame? && e.event.received.sender == target && ServesBlock(x, e.event.received, k)
    ensures HalfWay(x, h, Step(h', e), k + 1, target, user)
  {
    var ex, r := h'.exchange.value, e.event.received;
    BlockArrives(x, e.settings, e.now, ex, r, e.event.freshId, k, k, target);
    PrefixGrows(x, ex.replies, r, k, k);
    var effect := OnFrame(e.settings, e.now, ex, r, e.event.freshId);
    MoreSends(h'.sends, effect.sends, k, k + 1);
    var d :| d in effect.sends && Asks(d, k + 1);
    assert d in h'.sends + effect.sends;
    assert h'.posts + [] == h'.posts;
  }

  lemma LastStep(x: Resource, h: History, h': History, e: Timed, target: Address, user: ReplyId)
    requires IsBlockSize(x.size) && x.Count() <= 0x10_0000 && HalfWay(x, h, h', x.Count() - 1, target, user)
    requires e.event.Frame? && e.event.received.sender == target && ServesBlock(x, e.event.received, x.Count() - 1)
    ensures Delivered(x, h, Step(h', e), user)
  {
    LastBlockArrives(x, e.settings, e.now, h'.exchange.value, e.event.received, e.event.freshId, target);
  }

  lemma {:induction false} HalfWayRun(x: Resource, h: History, events: seq<Timed>, target: Address, user: ReplyId)
    requires IsBlockSize(x.size) && HalfWay(x, h, h, 0, target, user) && InOrder(x, events, target)
    requires |events| < x.Count() <= 0x10_0000
    ensures HalfWay(x, h, Run(h, events), |events|, target, user)
  {
    if events != [] {
      var front, last := events[..|events| - 1], events[|events| - 1];
      HalfWayRun(x, h, front, target, user);
      HalfWayStep(x, h, Run(h, front), last, |front|, target, user);
    }
  }

  /** Without loss and duplication the body is delivered with reply number `Count()`, neither
      sooner nor later; before that, each reply has the next block asked for. */
  lemma DownloadTakesCountReplies(x: Resource, h: History, events: seq<Timed>, target: Address, user: ReplyId)
    requires IsBlockSize(x.size) && HalfWay(x, h, h, 0, target, user) && InOrder(x, events, target)
    requires |events| <= x.Count() <= 0x10_0000
    ensures |events| < x.Count() ==> HalfWay(x, h, Run(h, events), |events|, target, user)
    ensures |events| == x.Count() ==> Delivered(x, h, Run(h, events), user)
  {
    if |events| < x.Count() {
      HalfWayRun(x, h, events, target, user);
    } else {
      var front, last := events[..|events| - 1], events[|events| - 1];
      HalfWayRun(x, h, front, target, user);
      LastStep(x, h, Run(h, front), last, target, user);
    }
  }

  /** Such a run is one the server can cause: every block was asked for when it came. */
  lemma {:induction false} InOrderIsServed(x: Resource, h: History, events: seq<Timed>, target: Address, user: ReplyId)
    requires IsBlockSize(x.size) && HalfWay(x, h, h, 0, target, user) && InOrder(x, events, target)
    requires |events| <= x.Count() <= 0x10_0000
    ensures Served(x, h, events, target)
  {
    if events != [] {
      var front := events[..|events| - 1];
      InOrderIsServed(x, h, front, target, user);
      HalfWayRun(x, h, front, target, user);
    }
  }

  // A download cut off

  /** Behind `k` blocks a Reset makes the user believe that these are the body. */
  lemma TruncatedDownload(x: Resource, h: History, h': History, e: Timed, k: nat, target: Address, user: ReplyId)
    requires IsBlockSize(x.size) && HalfWay(x, h, h', k, target, user) && CutBy(h', e, target)
    ensures var posts := Step(h', e).posts;
            && Step(h', e).exchange.None? && |posts| == |h.posts| + 2 && posts[..|h.posts|] == h.posts
            && posts[|h.posts|].slot.SetContent? && !IsError(posts[|h.posts|].slot.code)
            && posts[|h.posts|].slot.message.payload == Slices(x.body, x.size, k)
            && posts[|h.posts| + 1] == Post(user, SetFinished(Ok))
            && (x.body != [] ==> posts[|h.posts|].slot.message.payload != x.body)
  {
    CutArrives(x, e.settings, e.now, h'.exchange.value, e.event.received, e.event.freshId, k, target);
    PartIsNotBody(x, k);
  }

  // Too many blocks

  /** No success content is the body. */
  ghost predicate NeverBody(x: Resource, posts: seq<Post>) {
    forall i :: 0 <= i < |posts| ==> IsOtherThanBody(x, posts[i])
  }

  predicate IsOtherThanBody(x: Resource, p: Post) {
    p.slot.SetContent? && !IsError(p.slot.code) ==> p.slot.message.payload != x.body
  }

  lemma FrameBeyond(x: Resource, h: History, s: Settings, now: nat, r: Received, freshId: uint16, k: nat,
                    target: Address)
    requires IsBlockSize(x.size) && x.Count() > 0x10_0000 && h.exchange.Some?
    requires Fetching(x, h.exchange.value, h.sends, k, target) && MayArrive(x, h, r, target)
    ensures NeverBody(x, OnFrame(s, now, h.exchange.value, r, freshId).posts)
  {
    var ex := h.exchange.value;
    if r.sender == target && !IsError(r.reply.code) {
      if IsEmptyAck(r) && Complete(r) {
        AckArrives(s, now, ex, r, freshId, k, target);
      } else if CutsShort(r) {
        CutArrives(x, s, now, ex, r, freshId, k, target);
        PartIsNotBody(x, k);
        assert x.body != [];
      } else {
        var j :| 0 <= j < x.Count() && Requested(h.sends, j) && ServesBlock(x, r, j);
        RequestedUpTo(h.sends, j, k);
        BlockArrives(x, s, now, ex, r, freshId, j, k, target);
      }
    }
  }

  lemma StepBeyond(x: Resource, h: History, e: Timed, target: Address)
    requires IsBlockSize(x.size) && x.Count() > 0x10_0000 && h.exchange.Some? && Sound(x, h, target)
    requires e.event.Frame? ==> MayArrive(x, h, e.event.received, target)
    ensures NeverBody(x, Handle(e.settings, e.now, h.exchange.value, e.event).posts)
  {
    var k :| Fetching(x, h.exchange.value, h.sends, k, target);
    if e.event.Frame? {
      FrameBeyond(x, h, e.settings, e.now, e.event.received, e.event.freshId, k, target);
    }
  }

  lemma NeverBodyConcat(x: Resource, a: seq<Post>, b: seq<Post>)
    requires NeverBody(x, a) && NeverBody(x, b)
    ensures NeverBody(x, a + b)
  {
  }

  /** A body of more blocks than the 20-bit numbers can name is never delivered, in no run. */
  lemma {:induction false} DownloadFailsBeyond(x: Resource, h: History, events: seq<Timed>, target: Address)
    requires IsBlockSize(x.size) && x.Count() > 0x10_0000 && Sound(x, h, target) && NeverBody(x, h.posts)
    requires Served(x, h, events, target)
    ensures NeverBody(x, Run(h, events).posts)
  {
    if events != [] {
      var front, last := events[..|events| - 1], events[|events| - 1];
      DownloadFailsBeyond(x, h, front, target);
      DownloadRun(x, h, front, target);
      var before := Run(h, front);
      if before.exchange.Some? {
        StepBeyond(x, before, last, target);
        NeverBodyConcat(x, before.posts, Handle(last.settings, last.now, before.exchange.value, last.event).posts);
      }
    }
  }

  // The server's side of the wire

  /** A response as a server encodes it: the slice, and one Block2 option that describes it. */
  ghost predicate ServerMessage(x: Resource, m: Message, k: nat)
    requires IsBlockSize(x.size) && k < 0x10_0000
  {
    && Sorted(m.options) && Plain(m.options) && m.version <= 3 && |m.token| <= 15
    && Named(m.options, BLOCK1) == []
    && Named(m.options, BLOCK2) == [CoapOption(BLOCK2, BlockBytes(BlockData(k, k + 1 < x.Count(), x.size)))]
    && m.payload == Slice(x.body, x.size, k)
  }

  /** Its frame is received as a block of the body. */
  lemma ServerFrameServes(x: Resource, m: Message, k: nat, code: byte, sender: Address)
    requires IsBlockSize(x.size) && k < 0x10_0000 && ServerMessage(x, m, k)
    requires !IsError(code) && code != EMPTY_MESSAGE
    ensures var decoded := Decode(Encode(m, code));
            decoded.Some? && ServesBlock(x, Received(decoded.value, sender), k)
  {
    PlainRoundTrip(m, code);
    DescribedByNamed(NO_BLOCK, m.options);
    BlockRoundTrip(k, k + 1 < x.Count(), x.size);
  }
}
