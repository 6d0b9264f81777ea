/** Blockwise upload (section 2.5 of RFC 7959), end to end: a server echoes the Block1 options of
    the requests it reads on the wire, and assembles the payload from their blocks. */
module Upload {
  import opened CoapTypes
  import opened StableOrder
  import opened OptionList
  import opened Blocks
  import opened Codec
  import opened CodecRoundTrip
  import opened Reassembly
  import opened Requests
  import opened Exchanges
  import opened FrameFacts
  import opened WireRequests

  /** The payload to upload and the block size in use. */
  datatype Content = Content(payload: Bytes, size: nat) {
    function Count(): nat
      requires IsBlockSize(size)
    {
      BlockCount(payload, size)
    }
  }

  // The server

  /** The Block1 option of a message. */
  function Block1(m: Message): Option<BlockState> {
    var named := Named(m.options, BLOCK1);
    if named == [] || named[0].value == [] then None else Some(DecodeBlock(named[0].value))
  }

  /** What a server has put together: how many blocks, their bytes, and whether the last is there. */
  datatype Assembly = Assembly(blocks: nat, body: Bytes, complete: bool)

  /** A block counts when it is the next one; all others are repetitions or come too early. */
  function AppendBlock(a: Assembly, m: Message): Assembly {
    match Block1(m)
    case None => a
    case Some(b) =>
      if b.number == a.blocks && !a.complete then Assembly(a.blocks + 1, a.body + m.payload, !b.more) else a
  }

  function AppendDatagram(a: Assembly, d: Datagram): Assembly {
    match Carried(d)
    case None => a
    case Some(q) => AppendBlock(a, q.message)
  }

  /** What a server that receives all these datagrams holds. */
  function Assemble(sends: seq<Datagram>): Assembly {
    if sends == [] then Assembly(0, [], false)
    else AppendDatagram(Assemble(sends[..|sends| - 1]), sends[|sends| - 1])
  }

  /** The response to block `j`: its Block1 option says which block it answers and, as the request
      did, whether more follow. */
  predicate Echoes(x: Content, r: Received, j: nat)
    requires IsBlockSize(x.size)
  {
    && Block1(r.reply.message).Some?
    && Block1(r.reply.message).value.number == j && Block1(r.reply.message).value.more == (j + 1 < x.Count())
    && !r.reply.block.more && !IsError(r.reply.code) && r.reply.code != EMPTY_MESSAGE
  }

  ghost predicate SentBlock(sends: seq<Datagram>, j: nat) {
    exists d :: d in sends && CarriesBlock(d, j)
  }

  predicate CarriesBlock(d: Datagram, j: nat) {
    Carried(d).Some? && Block1(Carried(d).value.message).Some? && Block1(Carried(d).value.message).value.number == j
  }

  /** What may arrive: echoes of blocks that were sent, as often as the network likes;
      acknowledgments; resets and other empty messages; errors; and anything from other hosts. */
  ghost predicate MayArrive(x: Content, h: History, r: Received, target: Address)
    requires IsBlockSize(x.size)
  {
    r.sender == target ==>
      || IsError(r.reply.code)
      || (IsEmptyAck(r) && Complete(r))
      || CutsShort(r)
      || exists j :: 0 <= j < x.Count() && SentBlock(h.sends, j) && Echoes(x, r, j)
  }

  /** A run against that server, the block size in the settings never changing. */
  ghost predicate Echoed(x: Content, h: History, events: seq<Timed>, target: Address)
    requires IsBlockSize(x.size)
  {
    events == []
    || (var front, last := events[..|events| - 1], events[|events| - 1];
        && Echoed(x, h, front, target) && last.settings.blockSize == x.size
        && (last.event.Frame? ==> MayArrive(x, Run(h, front), last.event.received, target)))
  }

  /** How many datagrams carry a request. */
  function RequestsIn(sends: seq<Datagram>): nat {
    if sends == [] then 0
    else RequestsIn(sends[..|sends| - 1]) + if Carried(sends[|sends| - 1]).Some? then 1 else 0
  }

  lemma {:induction false} RequestsInConcat(a: seq<Datagram>, b: seq<Datagram>)
    ensures RequestsIn(a + b) == RequestsIn(a) + RequestsIn(b)
    decreases |b|
  {
    if b == [] {
      assert a + b == a;
    } else {
      RequestsInConcat(a, b[..|b| - 1]);
      assert (a + b)[..|a + b| - 1] == a + b[..|b| - 1];
    }
  }

  lemma {:induction false} NoRequestsIn(sends: seq<Datagram>)
    requires forall d :: d in sends ==> Carried(d).None?
    ensures RequestsIn(sends) == 0
  {
    if sends != [] {
      NoRequestsIn(sends[..|sends| - 1]);
    }
  }

  // The invariant

  /** The message carries block `j`, marked as the last one exactly when it is. */
  ghost predicate CarriesSlice(x: Content, m: Message, j: nat)
    requires IsBlockSize(x.size)
  {
    && Block1(m) == Some(BlockState(j, j + 1 < x.Count(), x.size))
    && m.payload == Slice(x.payload, x.size, j)
  }

  /** The request carries some block up to `k`. */
  ghost predicate CarriesUpTo(x: Content, m: Message, k: nat)
    requires IsBlockSize(x.size)
  {
    exists j :: 0 <= j <= k && j < 0x10_0000 && CarriesSlice(x, m, j)
  }

  ghost predicate Uploads(x: Content, ex: Exchange, k: nat, target: Address)
    requires IsBlockSize(x.size)
  {
    && ex.request.target == target && !target.Multicast?
    && !ex.request.IsObserve() && !ex.request.observeCancelled
    && Fit(ex.request) && ex.request.fullPayload == x.payload && CarriesUpTo(x, ex.request.message, k)
  }

  /** Every datagram that carries a request carries a slice, up to block `k`. */
  ghost predicate OnlySlices(x: Content, sends: seq<Datagram>, k: nat)
    requires IsBlockSize(x.size)
  {
    forall d :: d in sends && Carried(d).Some? ==> CarriesUpTo(x, Carried(d).value.message, k)
  }

  /** Blocks `0` to `k`, in order, and nothing else. */
  function Expected(x: Content, k: nat): Assembly
    requires IsBlockSize(x.size)
  {
    Assembly(k + 1, Slices(x.payload, x.size, k + 1), k + 1 == x.Count())
  }

  ghost predicate Uploading(x: Content, ex: Exchange, sends: seq<Datagram>, k: nat, target: Address)
    requires IsBlockSize(x.size)
  {
    && k < x.Count() && k < 0x10_0000
    && Uploads(x, ex, k, target) && OnlySlices(x, sends, k) && Assemble(sends) == Expected(x, k)
  }

  predicate AllSent(x: Content, sends: seq<Datagram>)
    requires IsBlockSize(x.size)
  {
    Assemble(sends) == Assembly(x.Count(), x.payload, true)
  }

  /** While the exchange is there, the blocks sent are a prefix of the
      payload and nothing was delivered; a success has been delivered only when the server can hold
      the whole payload, its last block marked as such. */
  ghost predicate Sound(x: Content, h: History, target: Address)
    requires IsBlockSize(x.size)
  {
    && (NoSuccess(h.posts) || (AllSent(x, h.sends) && x.Count() <= 0x10_0000))
    && (h.exchange.Some? ==> NoSuccess(h.posts) && exists k :: Uploading(x, h.exchange.value, h.sends, k, target))
  }

  // What is sent

  lemma AssembleMore(a: seq<Datagram>, d: Datagram)
    ensures Assemble(a + [d]) == AppendDatagram(Assemble(a), d)
  {
    assert (a + [d])[..|a|] == a;
  }

  lemma AssembleSame(a: seq<Datagram>, d: Datagram)
    requires Carried(d).None?
    ensures Assemble(a + [d]) == Assemble(a)
  {
    AssembleMore(a, d);
  }

  lemma SplitLast<T>(a: seq<T>, b: seq<T>)
    requires b != []
    ensures a + b == (a + b[..|b| - 1]) + [b[|b| - 1]]
  {
    assert b == b[..|b| - 1] + [b[|b| - 1]];
  }

  lemma {:induction false} AssembleNothing(a: seq<Datagram>, b: seq<Datagram>)
    requires forall d :: d in b ==> Carried(d).None?
    ensures Assemble(a + b) == Assemble(a)
    decreases |b|
  {
    if b == [] {
      assert a + b == a;
    } else {
      AssembleNothing(a, b[..|b| - 1]);
      AssembleSame(a + b[..|b| - 1], b[|b| - 1]);
      SplitLast(a, b);
    }
  }

  lemma AnswersCarryNothing(ex: Exchange, r: Received)
    ensures forall d :: d in Answers(ex, r) ==> Carried(d).None?
  {
    EmptyCarriesNothing(ex.request, r.reply.message.id, Reset);
    EmptyCarriesNothing(ex.request, r.reply.message.id, Acknowledgment);
  }

  /** A slice that has been sent before changes nothing; the next one is appended. */
  lemma SliceAppended(x: Content, sends: seq<Datagram>, d: Datagram, j: nat, k: nat)
    requires IsBlockSize(x.size) && k < x.Count() && j < x.Count() && j <= k + 1
    requires Assemble(sends) == Expected(x, k)
    requires Carried(d).Some? && CarriesSlice(x, Carried(d).value.message, j)
    ensures Assemble(sends + [d]) == Expected(x, if j == k + 1 then k + 1 else k)
  {
    AssembleMore(sends, d);
  }

  lemma MoreSlices(x: Content, a: seq<Datagram>, b: seq<Datagram>, k: nat, k': nat)
    requires IsBlockSize(x.size) && k <= k' && OnlySlices(x, a, k) && OnlySlices(x, b, k')
    ensures OnlySlices(x, a + b, k')
  {
    forall d | d in a + b && Carried(d).Some? ensures CarriesUpTo(x, Carried(d).value.message, k') {
      if d in a {
        assert CarriesUpTo(x, Carried(d).value.message, k);
      }
    }
  }

  function Later(j: nat, k: nat): nat {
    if j == k + 1 then k + 1 else k
  }

  lemma SliceCounted(answers: seq<Datagram>, d: Datagram, j: nat)
    requires forall a :: a in answers ==> Carried(a).None?
    requires CarriesBlock(d, j)
    ensures SentBlock(answers + [d], j) && RequestsIn(answers + [d]) == 1
  {
    NoRequestsIn(answers);
    assert (answers + [d])[..|answers|] == answers;
    assert (answers + [d])[|answers|] == d;
  }

  lemma SliceOnly(x: Content, sends: seq<Datagram>, answers: seq<Datagram>, d: Datagram, k: nat, k': nat)
    requires IsBlockSize(x.size) && OnlySlices(x, sends, k) && k <= k'
    requires forall a :: a in answers ==> Carried(a).None?
    requires Carried(d).Some? && CarriesUpTo(x, Carried(d).value.message, k')
    ensures OnlySlices(x, sends + (answers + [d]), k')
  {
    assert OnlySlices(x, answers + [d], k');
    MoreSlices(x, sends, answers + [d], k, k');
  }

  /** A datagram with slice `j`, behind answers that carry nothing. */
  lemma SliceSent(x: Content, sends: seq<Datagram>, answers: seq<Datagram>, r: Request, host: Address, j: nat, k: nat)
    requires IsBlockSize(x.size) && k < x.Count() && j < x.Count() && j <= k + 1 && j < 0x10_0000
    requires Assemble(sends) == Expected(x, k) && OnlySlices(x, sends, k)
    requires forall d :: d in answers ==> Carried(d).None?
    requires Fit(r) && CarriesSlice(x, r.message, j)
    ensures var all := sends + (answers + [Datagram(RequestFrame(r), host)]);
            && Assemble(all) == Expected(x, Later(j, k)) && OnlySlices(x, all, Later(j, k))
            && SentBlock(answers + [Datagram(RequestFrame(r), host)], j)
            && RequestsIn(answers + [Datagram(RequestFrame(r), host)]) == 1
  {
    var d := Datagram(RequestFrame(r), host);
    CarriedRequest(r, host);
    AssembleNothing(sends, answers);
    SliceAppended(x, sends + answers, d, j, k);
    assert sends + (answers + [d]) == (sends + answers) + [d];
    assert CarriesUpTo(x, r.message, Later(j, k));
    SliceOnly(x, sends, answers, d, k, Later(j, k));
    SliceCounted(answers, d, j);
  }

  /** The request goes out, under a fresh message id. */
  lemma RequestGoesOut(x: Content, now: nat, ex: Exchange, r: Request, freshId: uint16, host: Address,
                       sends: seq<Datagram>, answers: seq<Datagram>, j: nat, k: nat, target: Address)
    requires IsBlockSize(x.size) && k < x.Count() && j < x.Count() && j <= k + 1 && j < 0x10_0000 && k < 0x10_0000
    requires Assemble(sends) == Expected(x, k) && OnlySlices(x, sends, k)
    requires forall d :: d in answers ==> Carried(d).None?
    requires Uploads(x, ex.(request := r), Later(j, k), target) && CarriesSlice(x, r.message, j)
    ensures var effect := SendNext(now, ex, r, freshId, host, answers);
            && effect.next.Some? && effect.posts == [] && effect.next.value.replies == ex.replies
            && effect.next.value.userReply == ex.userReply
            && Uploading(x, effect.next.value, sends + effect.sends, Later(j, k), target)
            && SentBlock(effect.sends, j) && RequestsIn(effect.sends) == 1
  {
    var renamed := r.(message := r.message.(id := freshId));
    var r' := Transmitted(renamed, now);
    TransmittedKeepsMessage(renamed, now);
    assert CarriesSlice(x, r'.message, j);
    SliceSent(x, sends, answers, r', host, j, k);
    assert CarriesUpTo(x, r'.message, Later(j, k));
  }

  /** Turning to block `j` succeeds below the limit of 20 bits, and changes nothing at it. */
  lemma TurnedUploads(x: Content, ex: Exchange, j: nat, k: nat, target: Address)
    requires IsBlockSize(x.size) && Uploads(x, ex, k, target) && j <= k && CheckBlockNumber(j)
    ensures var r := SetToSendBlock(ex.request, j, x.size);
            Uploads(x, ex.(request := r), k, target) && CarriesSlice(x, r.message, j)
  {
    var r := SetToSendBlock(ex.request, j, x.size);
    SendBlockCarries(ex.request, j, x.size);
    SendBlockKeepsNamed(ex.request, j, x.size, OBSERVE);
    assert CarriesSlice(x, r.message, j);
  }

  lemma UploadsMore(x: Content, ex: Exchange, j: nat, k: nat, target: Address)
    requires IsBlockSize(x.size) && Uploads(x, ex, j, target) && j <= k
    ensures Uploads(x, ex, k, target)
  {
    var i :| 0 <= i <= j && i < 0x10_0000 && CarriesSlice(x, ex.request.message, i);
  }

  lemma AcceptedUploads(x: Content, ex: Exchange, r: Received, k: nat, target: Address)
    requires IsBlockSize(x.size) && Uploads(x, ex, k, target)
    ensures Uploads(x, Accept(ex, r), k, target) && Answered(Accept(ex, r)) == Accept(ex, r)
    ensures Accept(ex, r).replies == ex.replies + [r] && Accept(ex, r).userReply == ex.userReply
  {
    var i :| 0 <= i <= k && i < 0x10_0000 && CarriesSlice(x, ex.request.message, i);
    assert Accept(ex, r).request.message == ex.request.message;
  }

  lemma EchoDecides(x: Content, s: Settings, r: Received, j: nat)
    requires IsBlockSize(x.size) && s.blockSize == x.size && Echoes(x, r, j) && j < 0x10_0000
    ensures j + 1 < x.Count() ==> Decide(s, r.reply) == SendBlock(j + 1, x.size)
    ensures j + 1 == x.Count() ==> Complete(r)
  {
  }

  lemma FrameSendsBlock(s: Settings, now: nat, ex: Exchange, r: Received, freshId: uint16, number: nat, size: nat)
    requires Accepts(ex, r) && !IsError(r.reply.code) && !ex.request.observeCancelled
    requires Decide(s, r.reply) == SendBlock(number, size)
    ensures var accepted := Accept(ex, r);
            OnFrame(s, now, ex, r, freshId)
            == SendNext(now, accepted, SetToSendBlock(accepted.request, number, size), freshId, accepted.request.target,
                        Answers(accepted, r))
  {
  }

  /** The echo of a block with a successor: the successor is sent. */
  lemma EchoArrives(x: Content, s: Settings, now: nat, ex: Exchange, sends: seq<Datagram>, r: Received, freshId: uint16,
                    j: nat, k: nat, target: Address)
    requires IsBlockSize(x.size) && s.blockSize == x.size && Uploading(x, ex, sends, k, target) && r.sender == target
    requires j <= k && j + 1 < x.Count() && CheckBlockNumber(j + 1) && Echoes(x, r, j)
    ensures var effect := OnFrame(s, now, ex, r, freshId);
            && effect.next.Some? && effect.posts == [] && effect.next.value.userReply == ex.userReply
            && effect.next.value.replies == ex.replies + [r]
            && Uploading(x, effect.next.value, sends + effect.sends, Later(j + 1, k), target)
            && SentBlock(effect.sends, j + 1) && RequestsIn(effect.sends) == 1
  {
    var accepted := Accept(ex, r);
    EchoDecides(x, s, r, j);
    FrameSendsBlock(s, now, ex, r, freshId, j + 1, x.size);
    AcceptedUploads(x, ex, r, k, target);
    UploadsMore(x, accepted, k, Later(j + 1, k), target);
    TurnedUploads(x, accepted, j + 1, Later(j + 1, k), target);
    AnswersCarryNothing(accepted, r);
    RequestGoesOut(x, now, accepted, SetToSendBlock(accepted.request, j + 1, x.size), freshId, accepted.request.target,
                   sends, Answers(accepted, r), j + 1, k, target);
  }

  /** At the last block number of 20 bits the same block is sent again. */
  lemma EchoAtLimit(x: Content, s: Settings, now: nat, ex: Exchange, sends: seq<Datagram>, r: Received, freshId: uint16,
                    j: nat, k: nat, target: Address)
    requires IsBlockSize(x.size) && s.blockSize == x.size && Uploading(x, ex, sends, k, target) && r.sender == target
    requires j <= k && j + 1 < x.Count() && j < 0x10_0000 && !CheckBlockNumber(j + 1) && Echoes(x, r, j)
    ensures var effect := OnFrame(s, now, ex, r, freshId);
            && effect.next.Some? && effect.posts == []
            && Uploading(x, effect.next.value, sends + effect.sends, k, target)
  {
    var accepted := Accept(ex, r);
    EchoDecides(x, s, r, j);
    FrameSendsBlock(s, now, ex, r, freshId, j + 1, x.size);
    AcceptedUploads(x, ex, r, k, target);
    AnswersCarryNothing(accepted, r);
    var i :| 0 <= i <= k && i < 0x10_0000 && CarriesSlice(x, accepted.request.message, i);
    RequestGoesOut(x, now, accepted, accepted.request, freshId, accepted.request.target,
                   sends, Answers(accepted, r), i, k, target);
  }

  lemma ExpectedWhole(x: Content)
    requires IsBlockSize(x.size)
    ensures Expected(x, x.Count() - 1) == Assembly(x.Count(), x.payload, true)
  {
    SlicesAreWhole(x.payload, x.size);
  }

  lemma NothingMoreSent(x: Content, ex: Exchange, r: Received, sends: seq<Datagram>)
    ensures Assemble(sends + Answers(ex, r)) == Assemble(sends)
  {
    AnswersCarryNothing(ex, r);
    AssembleNothing(sends, Answers(ex, r));
  }

  /** The echo of the last block ends the exchange, with everything sent. */
  lemma LastEchoArrives(x: Content, s: Settings, now: nat, ex: Exchange, sends: seq<Datagram>, r: Received,
                        freshId: uint16, target: Address)
    requires IsBlockSize(x.size) && s.blockSize == x.size && r.sender == target
    requires Uploading(x, ex, sends, x.Count() - 1, target) && Echoes(x, r, x.Count() - 1)
    ensures var effect := OnFrame(s, now, ex, r, freshId);
            && effect.next.None? && AllSent(x, sends + effect.sends)
            && (ex.userReply.Some? ==>
                  && |effect.posts| == 2 && effect.posts[0].reply == ex.userReply.value
                  && effect.posts[0].slot.SetContent? && effect.posts[0].slot.code == r.reply.code
                  && effect.posts[1] == Post(ex.userReply.value, SetFinished(Ok)))
            && (ex.userReply.None? ==> effect.posts == [])
  {
    var accepted := Accept(ex, r);
    EchoDecides(x, s, r, x.Count() - 1);
    FinalFrame(s, now, ex, r, freshId);
    AcceptedUploads(x, ex, r, x.Count() - 1, target);
    LastDelivered(accepted, r);
    assert Answers(accepted, r) + [] == Answers(accepted, r);
    NothingMoreSent(x, accepted, r, sends);
    ExpectedWhole(x);
  }

  lemma LastDelivered(ex: Exchange, r: Received)
    requires ex.replies != [] && ex.replies[|ex.replies| - 1] == r
    requires !ex.request.IsObserve() && !ex.request.IsMulticast() && !IsEmptyAck(r)
    ensures var effect := OnLastMessage(ex);
            && effect.next.None? && effect.sends == []
            && (ex.userReply.Some? ==>
                  && |effect.posts| == 2 && effect.posts[0].reply == ex.userReply.value
                  && effect.posts[0].slot.SetContent? && effect.posts[0].slot.code == r.reply.code
                  && effect.posts[1] == Post(ex.userReply.value, SetFinished(Ok)))
            && (ex.userReply.None? ==> effect.posts == [])
  {
  }

  /** An acknowledgment changes nothing, or drops an exchange without a user. */
  lemma AckArrives(x: Content, s: Settings, now: nat, ex: Exchange, sends: seq<Datagram>, r: Received, freshId: uint16,
                   k: nat, target: Address)
    requires IsBlockSize(x.size) && Uploading(x, ex, sends, k, target)
    requires r.sender == target && IsEmptyAck(r) && Complete(r)
    ensures var effect := OnFrame(s, now, ex, r, freshId);
            && effect.posts == [] && effect.sends == []
            && (effect.next.Some? ==> Uploading(x, effect.next.value, sends, k, target))
  {
    FinalFrame(s, now, ex, r, freshId);
    AcceptedUploads(x, ex, r, k, target);
    assert Answers(Accept(ex, r), r) == [];
  }

  /** An empty message ends the exchange, and a live user takes that for success. */
  lemma CutArrives(x: Content, s: Settings, now: nat, ex: Exchange, sends: seq<Datagram>, r: Received, freshId: uint16,
                   k: nat, target: Address)
    requires IsBlockSize(x.size) && Uploading(x, ex, sends, k, target) && r.sender == target && CutsShort(r)
    ensures var effect := OnFrame(s, now, ex, r, freshId);
            && effect.next.None? && Assemble(sends + effect.sends) == Assemble(sends)
            && (ex.userReply.None? ==> effect.posts == [])
            && (ex.userReply.Some? ==>
                  && |effect.posts| == 2 && effect.posts[0].reply == ex.userReply.value
                  && effect.posts[0].slot.SetContent? && effect.posts[0].slot.code == EMPTY_MESSAGE
                  && effect.posts[1] == Post(ex.userReply.value, SetFinished(Ok)))
  {
    var accepted := Accept(ex, r);
    FinalFrame(s, now, ex, r, freshId);
    AcceptedUploads(x, ex, r, k, target);
    LastDelivered(accepted, r);
    assert Answers(accepted, r) + [] == Answers(accepted, r);
    NothingMoreSent(x, accepted, r, sends);
  }

  lemma ErrorArrives(s: Settings, now: nat, ex: Exchange, r: Received, freshId: uint16)
    requires IsError(r.reply.code)
    ensures var effect := OnFrame(s, now, ex, r, freshId);
            && NoSuccess(effect.posts) && effect.sends == [] && (effect.next.Some? ==> effect.next.value == ex)
  {
  }

  /** Timers, cancellation, abort, loss of the reply: at most the same block again. */
  lemma OtherEvent(x: Content, s: Settings, now: nat, ex: Exchange, sends: seq<Datagram>, e: LocalEvent, k: nat,
                   target: Address)
    requires IsBlockSize(x.size) && Uploading(x, ex, sends, k, target) && !e.Frame?
    ensures var effect := Handle(s, now, ex, e);
            && NoSuccess(effect.posts)
            && (effect.next.Some? ==> Uploading(x, effect.next.value, sends + effect.sends, k, target))
  {
    if e.Timeout? {
      RetrySends(x, s, now, ex, sends, k, target);
    } else {
      assert sends + [] == sends;
    }
  }

  /** The same slice once more. */
  lemma SliceRepeated(x: Content, sends: seq<Datagram>, r: Request, host: Address, k: nat)
    requires IsBlockSize(x.size) && k < x.Count() && Assemble(sends) == Expected(x, k) && OnlySlices(x, sends, k)
    requires Fit(r) && CarriesUpTo(x, r.message, k)
    ensures var all := sends + [Datagram(RequestFrame(r), host)];
            Assemble(all) == Expected(x, k) && OnlySlices(x, all, k)
  {
    var j :| 0 <= j <= k && j < 0x10_0000 && CarriesSlice(x, r.message, j);
    SliceSent(x, sends, [], r, host, j, k);
    assert [] + [Datagram(RequestFrame(r), host)] == [Datagram(RequestFrame(r), host)];
  }

  lemma RetrySends(x: Content, s: Settings, now: nat, ex: Exchange, sends: seq<Datagram>, k: nat, target: Address)
    requires IsBlockSize(x.size) && Uploading(x, ex, sends, k, target)
    ensures var effect := OnTimeout(s, now, ex);
            && NoSuccess(effect.posts)
            && (effect.next.Some? ==> Uploading(x, effect.next.value, sends + effect.sends, k, target))
  {
    var r := Transmitted(ex.request, now);
    TransmittedKeepsMessage(ex.request, now);
    SliceRepeated(x, sends, r, r.target, k);
  }

  // Runs

  lemma NoSuccessConcat(a: seq<Post>, b: seq<Post>)
    requires NoSuccess(a) && NoSuccess(b)
    ensures NoSuccess(a + b)
  {
  }

  lemma KeepsUploading(x: Content, h: History, effect: Effect, k: nat, target: Address)
    requires IsBlockSize(x.size) && NoSuccess(h.posts) && NoSuccess(effect.posts)
    requires effect.next.Some? ==> Uploading(x, effect.next.value, h.sends + effect.sends, k, target)
    ensures Sound(x, History(effect.next, h.posts + effect.posts, h.sends + effect.sends), target)
  {
    NoSuccessConcat(h.posts, effect.posts);
  }

  lemma SentUpTo(x: Content, sends: seq<Datagram>, j: nat, k: nat)
    requires IsBlockSize(x.size) && SentBlock(sends, j) && OnlySlices(x, sends, k)
    ensures j <= k && j < 0x10_0000
  {
    var d :| d in sends && CarriesBlock(d, j);
    assert CarriesUpTo(x, Carried(d).value.message, k);
  }

  lemma EchoStep(x: Content, h: History, s: Settings, now: nat, r: Received, freshId: uint16, j: nat, k: nat,
                 target: Address)
    requires IsBlockSize(x.size) && h.exchange.Some? && Uploading(x, h.exchange.value, h.sends, k, target)
    requires s.blockSize == x.size && NoSuccess(h.posts) && r.sender == target
    requires j < x.Count() && SentBlock(h.sends, j) && Echoes(x, r, j)
    ensures var effect := OnFrame(s, now, h.exchange.value, r, freshId);
            Sound(x, History(effect.next, h.posts + effect.posts, h.sends + effect.sends), target)
  {
    var ex := h.exchange.value;
    var effect := OnFrame(s, now, ex, r, freshId);
    SentUpTo(x, h.sends, j, k);
    if j + 1 == x.Count() {
      LastEchoArrives(x, s, now, ex, h.sends, r, freshId, target);
    } else if CheckBlockNumber(j + 1) {
      EchoArrives(x, s, now, ex, h.sends, r, freshId, j, k, target);
      KeepsUploading(x, h, effect, Later(j + 1, k), target);
    } else {
      EchoAtLimit(x, s, now, ex, h.sends, r, freshId, j, k, target);
      KeepsUploading(x, h, effect, k, target);
    }
  }

  lemma FrameStep(x: Content, h: History, s: Settings, now: nat, r: Received, freshId: uint16, k: nat, target: Address)
    requires IsBlockSize(x.size) && h.exchange.Some? && Uploading(x, h.exchange.value, h.sends, k, target)
    requires s.blockSize == x.size && NoSuccess(h.posts) && MayArrive(x, h, r, target)
    requires !(r.sender == target && CutsShort(r))
    ensures var effect := OnFrame(s, now, h.exchange.value, r, freshId);
            Sound(x, History(effect.next, h.posts + effect.posts, h.sends + effect.sends), target)
  {
    var ex := h.exchange.value;
    var effect := OnFrame(s, now, ex, r, freshId);
    assert h.sends + [] == h.sends;
    if r.sender != target {
      KeepsUploading(x, h, effect, k, target);
    } else if IsError(r.reply.code) {
      ErrorArrives(s, now, ex, r, freshId);
      KeepsUploading(x, h, effect, k, target);
    } else if IsEmptyAck(r) && Complete(r) {
      AckArrives(x, s, now, ex, h.sends, r, freshId, k, target);
      KeepsUploading(x, h, effect, k, target);
    } else {
      var j :| 0 <= j < x.Count() && SentBlock(h.sends, j) && Echoes(x, r, j);
      EchoStep(x, h, s, now, r, freshId, j, k, target);
    }
  }

  lemma UploadStep(x: Content, h: History, e: Timed, target: Address)
    requires IsBlockSize(x.size) && Sound(x, h, target) && e.settings.blockSize == x.size
    requires !CutEarlyBy(x, h, e, target)
    requires e.event.Frame? ==> MayArrive(x, h, e.event.received, target)
    ensures Sound(x, Step(h, e), target)
  {
    if h.exchange.Some? {
      var k :| Uploading(x, h.exchange.value, h.sends, k, target);
      if e.event.Frame? && e.event.received.sender == target && CutsShort(e.event.received) {
        CutSoundly(x, h, e, k, target);
      } else if e.event.Frame? {
        FrameStep(x, h, e.settings, e.now, e.event.received, e.event.freshId, k, target);
      } else {
        OtherEvent(x, e.settings, e.now, h.exchange.value, h.sends, e.event, k, target);
        KeepsUploading(x, h, Handle(e.settings, e.now, h.exchange.value, e.event), k, target);
      }
    }
  }

  /** An empty message from the target reaches an open exchange whose user is there, with blocks still
      to send. */
  predicate CutEarlyBy(x: Content, h: History, e: Timed, target: Address)
    requires IsBlockSize(x.size)
  {
    && h.exchange.Some? && h.exchange.value.userReply.Some?
    && e.event.Frame? && e.event.received.sender == target && CutsShort(e.event.received)
    && !AllSent(x, h.sends)
  }

  /** That has happened in the run. */
  ghost predicate CutEarly(x: Content, h: History, events: seq<Timed>, target: Address)
    requires IsBlockSize(x.size)
  {
    events != []
    && (|| CutEarly(x, h, events[..|events| - 1], target)
        || CutEarlyBy(x, Run(h, events[..|events| - 1]), events[|events| - 1], target))
  }

  lemma CutSoundly(x: Content, h: History, e: Timed, k: nat, target: Address)
    requires IsBlockSize(x.size) && Sound(x, h, target) && !CutEarlyBy(x, h, e, target)
    requires h.exchange.Some? && Uploading(x, h.exchange.value, h.sends, k, target)
    requires e.event.Frame? && e.event.received.sender == target && CutsShort(e.event.received)
    ensures Sound(x, Step(h, e), target)
  {
    CutArrives(x, e.settings, e.now, h.exchange.value, h.sends, e.event.received, e.event.freshId, k, target);
    if h.exchange.value.userReply.None? {
      assert h.posts + [] == h.posts;
    }
  }

  lemma CutStep(x: Content, h: History, e: Timed, target: Address)
    requires IsBlockSize(x.size) && Sound(x, h, target) && CutEarlyBy(x, h, e, target)
    ensures var h' := Step(h, e); h'.exchange.None? && !NoSuccess(h'.posts) && !AllSent(x, h'.sends)
  {
    var k :| Uploading(x, h.exchange.value, h.sends, k, target);
    var effect := OnFrame(e.settings, e.now, h.exchange.value, e.event.received, e.event.freshId);
    CutArrives(x, e.settings, e.now, h.exchange.value, h.sends, e.event.received, e.event.freshId, k, target);
    assert (h.posts + effect.posts)[|h.posts|] == effect.posts[0];
  }

  /** Where a run stands: sound; or cut off early, with success reported for good. */
  ghost predicate UploadOutcome(x: Content, h: History, cut: bool, target: Address)
    requires IsBlockSize(x.size)
  {
    if cut then h.exchange.None? && !NoSuccess(h.posts) && !AllSent(x, h.sends) else Sound(x, h, target)
  }

  lemma {:induction false} UploadRun(x: Content, h: History, events: seq<Timed>, target: Address)
    requires IsBlockSize(x.size) && Sound(x, h, target) && Echoed(x, h, events, target)
    ensures UploadOutcome(x, Run(h, events), CutEarly(x, h, events, target), target)
  {
    if events != [] {
      var front, last := events[..|events| - 1], events[|events| - 1];
      UploadRun(x, h, front, target);
      if CutEarly(x, h, front, target) {
        assert Run(h, events) == Run(h, front);
      } else if CutEarlyBy(x, Run(h, front), last, target) {
        CutStep(x, Run(h, front), last, target);
      } else {
        UploadStep(x, Run(h, front), last, target);
      }
    }
  }

  /** Every run, with any loss, duplication and delay: what has been sent assembles to a prefix of the
      payload, and a success is reported only after all of it has been sent, if and only if the target
      has not sent an empty message, such as a Reset, while blocks were left to send. */
  lemma UploadIsSound(x: Content, h: History, events: seq<Timed>, target: Address)
    requires IsBlockSize(x.size) && Sound(x, h, target) && Echoed(x, h, events, target)
    ensures Sound(x, Run(h, events), target) <==> !CutEarly(x, h, events, target)
  {
    UploadRun(x, h, events, target);
  }

  /** A payload of more blocks than the 20-bit numbers can name is reported as uploaded only when an
      empty message cuts the transfer off. */
  lemma UploadFailsBeyond(x: Content, h: History, events: seq<Timed>, target: Address)
    requires IsBlockSize(x.size) && Sound(x, h, target) && Echoed(x, h, events, target)
    requires x.Count() > 0x10_0000
    ensures NoSuccess(Run(h, events).posts) <==> !CutEarly(x, h, events, target)
  {
    UploadRun(x, h, events, target);
  }

  /** Behind any block but the last a Reset makes the user believe that all has been uploaded. */
  lemma TruncatedUpload(x: Content, h: History, h': History, e: Timed, k: nat, target: Address, user: ReplyId)
    requires IsBlockSize(x.size) && HalfWay(x, h, h', k, target, user) && k + 1 < x.Count()
    requires e.event.Frame? && e.event.received.sender == target && CutsShort(e.event.received)
    ensures var h'' := Step(h', e);
            && h''.exchange.None? && Assemble(h''.sends) == Expected(x, k) && !AllSent(x, h''.sends)
            && |h''.posts| == |h.posts| + 2 && h''.posts[|h.posts|].slot.SetContent?
            && !IsError(h''.posts[|h.posts|].slot.code) && h''.posts[|h.posts| + 1] == Post(user, SetFinished(Ok))
  {
    CutArrives(x, e.settings, e.now, h'.exchange.value, h'.sends, e.event.received, e.event.freshId, k, target);
  }

  // The first request

  /** A request with a payload larger than the block size, to a unicast target. */
  ghost predicate UploadRequest(u: UserRequest, size: nat) {
    && u.methodCode != 0 && !u.target.Multicast? && |u.message.payload| > size
    && Sorted(u.message.options) && Plain(u.message.options) && u.message.version <= 3
    && !HasOption(u.message.options, OBSERVE)
  }

  lemma InitialRequestUploads(s: Settings, u: UserRequest, token: Token, id: uint16, randomTimeout: nat)
    requires IsBlockSize(s.blockSize) && UploadRequest(u, s.blockSize) && |token| <= 15
    ensures var r := InitialRequest(s, u, token, id, randomTimeout);
            var x := Content(u.message.payload, s.blockSize);
            && Fit(r) && !r.IsObserve() && !r.observeCancelled && r.target == u.target
            && r.fullPayload == u.message.payload && CarriesSlice(x, r.message, 0)
  {
    var x := Content(u.message.payload, s.blockSize);
    var r := Request(u.message.(token := token, id := id), u.methodCode, u.message.payload, u.target,
                     0, 0, false, false, MaximumTransmitWait(s), 0, None, None, None);
    WithBlocksUploads(s, r);
  }

  lemma WithBlocksUploads(s: Settings, r: Request)
    requires IsBlockSize(s.blockSize) && Fit(r) && !r.IsObserve() && r.fullPayload == r.message.payload
    requires |r.message.payload| > s.blockSize
    ensures var r' := WithBlockOptions(s, r);
            && Fit(r') && !r'.IsObserve() && r'.observeCancelled == r.observeCancelled && r'.target == r.target
            && r'.fullPayload == r.fullPayload
            && CarriesSlice(Content(r.fullPayload, s.blockSize), r'.message, 0)
  {
    var asking := SetToRequestBlock(r, 0, s.blockSize);
    RequestBlockFits(r, 0, s.blockSize);
    RequestBlockKeepsNamed(r, 0, s.blockSize, OBSERVE);
    SendBlockCarries(asking, 0, s.blockSize);
    SendBlockKeepsNamed(asking, 0, s.blockSize, OBSERVE);
  }

  lemma FirstSlice(x: Content, r: Request, reply: ReplyId, target: Address)
    requires IsBlockSize(x.size) && Fit(r) && !r.IsObserve() && !r.observeCancelled && r.target == target
    requires !target.Multicast? && r.fullPayload == x.payload && CarriesSlice(x, r.message, 0)
    ensures var sends := [Datagram(RequestFrame(r), r.target)];
            && Uploading(x, Exchange(Some(reply), r, []), sends, 0, target)
            && SentBlock(sends, 0) && RequestsIn(sends) == 1
  {
    var d := Datagram(RequestFrame(r), r.target);
    CarriedRequest(r, r.target);
    AssembleMore([], d);
    assert [] + [d] == [d] && [d][..0] == [];
    assert Slices(x.payload, x.size, 1) == Slices(x.payload, x.size, 0) + Slice(x.payload, x.size, 0);
    assert CarriesUpTo(x, r.message, 0);
    assert [d][0] == d && CarriesBlock(d, 0);
  }

  lemma StartIsSound(s: Settings, now: nat, u: UserRequest, reply: ReplyId, token: Token, id: uint16,
                     randomTimeout: nat)
    requires IsBlockSize(s.blockSize) && UploadRequest(u, s.blockSize) && |token| <= 15
    ensures var h := Start(s, now, u, reply, token, id, randomTimeout);
            var x := Content(u.message.payload, s.blockSize);
            && Sound(x, h, u.target) && HalfWay(x, h, h, 0, u.target, reply)
  {
    var x := Content(u.message.payload, s.blockSize);
    var r := InitialRequest(s, u, token, id, randomTimeout);
    InitialRequestUploads(s, u, token, id, randomTimeout);
    var sent := Transmitted(r, now);
    TransmittedKeepsMessage(r, now);
    FirstSlice(x, sent, reply, u.target);
    StartSends(s, now, u, reply, token, id, randomTimeout);
  }

  // Without loss and duplication

  /** The echoes arrive one after the other. */
  ghost predicate InOrder(x: Content, events: seq<Timed>, target: Address)
    requires IsBlockSize(x.size)
  {
    forall i :: 0 <= i < |events| ==>
      && events[i].event.Frame? && events[i].event.received.sender == target && events[i].settings.blockSize == x.size
      && Echoes(x, events[i].event.received, i)
  }

  /** After `k` echoes: `k + 1` requests sent, with blocks `0` to `k`, and nothing delivered. */
  ghost predicate HalfWay(x: Content, h: History, h': History, k: nat, target: Address, user: ReplyId)
    requires IsBlockSize(x.size)
  {
    && h'.exchange.Some? && h'.exchange.value.userReply == Some(user)
    && Uploading(x, h'.exchange.value, h'.sends, k, target)
    && SentBlock(h'.sends, k) && RequestsIn(h'.sends) == k + 1
    && h'.posts == h.posts && NoSuccess(h'.posts)
  }

  /** Every block sent once, then success. */
  ghost predicate Uploaded(x: Content, h: History, h': History, user: ReplyId)
    requires IsBlockSize(x.size)
  {
    && h'.exchange.None? && AllSent(x, h'.sends) && RequestsIn(h'.sends) == x.Count()
    && |h'.posts| == |h.posts| + 2 && h'.posts[..|h.posts|] == h.posts
    && h'.posts[|h.posts|].reply == user && h'.posts[|h.posts|].slot.SetContent?
    && !IsError(h'.posts[|h.posts|].slot.code) && h'.posts[|h.posts| + 1] == Post(user, SetFinished(Ok))
  }

  lemma HalfWayStep(x: Content, h: History, h': History, e: Timed, k: nat, target: Address, user: ReplyId)
    requires IsBlockSize(x.size) && HalfWay(x, h, h', k, target, user) && k + 1 < x.Count() <= 0x10_0000
    requires e.event.Frame? && e.event.received.sender == target && e.settings.blockSize == x.size
    requires Echoes(x, e.event.received, k)
    ensures HalfWay(x, h, Step(h', e), k + 1, target, user)
  {
    var ex, r := h'.exchange.value, e.event.received;
    EchoArrives(x, e.settings, e.now, ex, h'.sends, r, e.event.freshId, k, k, target);
    FurtherOn(x, h, h', OnFrame(e.settings, e.now, ex, r, e.event.freshId), k, target, user);
  }

  lemma FurtherOn(x: Content, h: History, h': History, effect: Effect, k: nat, target: Address, user: ReplyId)
    requires IsBlockSize(x.size) && HalfWay(x, h, h', k, target, user)
    requires effect.next.Some? && effect.posts == [] && effect.next.value.userReply == Some(user)
    requires Uploading(x, effect.next.value, h'.sends + effect.sends, k + 1, target)
    requires SentBlock(effect.sends, k + 1) && RequestsIn(effect.sends) == 1
    ensures HalfWay(x, h, History(effect.next, h'.posts + effect.posts, h'.sends + effect.sends), k + 1, target, user)
  {
    RequestsInConcat(h'.sends, effect.sends);
    var d :| d in effect.sends && CarriesBlock(d, k + 1);
    assert d in h'.sends + effect.sends;
    assert h'.posts + [] == h'.posts;
  }

  lemma LastStep(x: Content, h: History, h': History, e: Timed, target: Address, user: ReplyId)
    requires IsBlockSize(x.size) && HalfWay(x, h, h', x.Count() - 1, target, user)
    requires e.event.Frame? && e.event.received.sender == target && e.settings.blockSize == x.size
    requires Echoes(x, e.event.received, x.Count() - 1)
    ensures Uploaded(x, h, Step(h', e), user)
  {
    var ex, r := h'.exchange.value, e.event.received;
    LastEchoArrives(x, e.settings, e.now, ex, h'.sends, r, e.event.freshId, target);
    LastAnswers(e.settings, e.now, ex, r, e.event.freshId);
    RequestsInConcat(h'.sends, OnFrame(e.settings, e.now, ex, r, e.event.freshId).sends);
  }

  lemma LastAnswers(s: Settings, now: nat, ex: Exchange, r: Received, freshId: uint16)
    requires Accepts(ex, r) && !IsError(r.reply.code) && !ex.request.observeCancelled && Complete(r)
    requires !IsEmptyAck(r)
    ensures RequestsIn(OnFrame(s, now, ex, r, freshId).sends) == 0
  {
    FinalFrame(s, now, ex, r, freshId);
    AnswersCarryNothing(Accept(ex, r), r);
    NoRequestsIn(Answers(Accept(ex, r), r));
    assert Answers(Accept(ex, r), r) + [] == Answers(Accept(ex, r), r);
  }

  lemma {:induction false} HalfWayRun(x: Content, h: History, events: seq<Timed>, target: Address, user: ReplyId)
    requires IsBlockSize(x.size) && HalfWay(x, h, h, 0, target, user) && InOrder(x, events, target)
    requires |events| < x.Count() <= 0x10_0000
    ensures HalfWay(x, h, Run(h, events), |events|, target, user)
  {
    if events != [] {
      var front, last := events[..|events| - 1], events[|events| - 1];
      HalfWayRun(x, h, front, target, user);
      HalfWayStep(x, h, Run(h, front), last, |front|, target, user);
    }
  }

  /** Without loss and duplication: exactly `Count()` requests, one per block and in order, and
      success with the echo of the last. */
  lemma UploadTakesCountRequests(x: Content, h: History, events: seq<Timed>, target: Address, user: ReplyId)
    requires IsBlockSize(x.size) && HalfWay(x, h, h, 0, target, user) && InOrder(x, events, target)
    requires |events| <= x.Count() <= 0x10_0000
    ensures |events| < x.Count() ==> HalfWay(x, h, Run(h, events), |events|, target, user)
    ensures |events| == x.Count() ==> Uploaded(x, h, Run(h, events), user)
  {
    if |events| < x.Count() {
      HalfWayRun(x, h, events, target, user);
    } else {
      var front, last := events[..|events| - 1], events[|events| - 1];
      HalfWayRun(x, h, front, target, user);
      LastStep(x, h, Run(h, front), last, target, user);
    }
  }

  /** Such a run is one the server can cause. */
  lemma {:induction false} InOrderIsEchoed(x: Content, h: History, events: seq<Timed>, target: Address, user: ReplyId)
    requires IsBlockSize(x.size) && HalfWay(x, h, h, 0, target, user) && InOrder(x, events, target)
    requires |events| <= x.Count() <= 0x10_0000
    ensures Echoed(x, h, events, target)
  {
    if events != [] {
      var front := events[..|events| - 1];
      InOrderIsEchoed(x, h, front, target, user);
      HalfWayRun(x, h, front, target, user);
    }
  }

  /** The products the library computes in 32 bits stay below 2^30. */
  lemma ProductsFit(number: nat, size: nat)
    requires CheckBlockNumber(number) && IsBlockSize(size)
    ensures number * size < 0x4000_0000 && (number + 1) * size <= 0x4000_0000
  {
    MulMonotone(number + 1, 0x10_0000, size);
  }

  /** An unasked Block1 option with M set makes a client without a block size of its own send an empty
      block in place of its payload; with one it sends the slice that comes next. */
  lemma EchoSetsPayload(s: Settings, now: nat, ex: Exchange, r: Received, freshId: uint16, j: nat)
    requires Accepts(ex, r) && !IsError(r.reply.code) && !ex.request.observeCancelled
    requires Block1(r.reply.message).Some? && Block1(r.reply.message).value.more
    requires Block1(r.reply.message).value.number == j && CheckBlockNumber(j + 1)
    ensures var next := OnFrame(s, now, ex, r, freshId).next;
            && next.Some?
            && next.value.request.message.payload == Slice(ex.request.fullPayload, s.blockSize, j + 1)
            && (s.blockSize == 0 ==> next.value.request.message.payload == [])
  {
    UnaskedDecides(s, r, j);
    FrameSendsBlock(s, now, ex, r, freshId, j + 1, s.blockSize);
    var turned := SetToSendBlock(Accept(ex, r).request, j + 1, s.blockSize);
    TransmittedKeepsMessage(turned.(message := turned.message.(id := freshId)), now);
  }

  lemma UnaskedDecides(s: Settings, r: Received, j: nat)
    requires Block1(r.reply.message).Some? && Block1(r.reply.message).value.more
    requires Block1(r.reply.message).value.number == j && CheckBlockNumber(j + 1)
    ensures Decide(s, r.reply) == SendBlock(j + 1, s.blockSize)
  {
  }

  // The server's side of the wire

  /** A response as a server encodes it: one Block1 option that repeats the block's number and M. */
  ghost predicate EchoMessage(x: Content, m: Message, j: nat)
    requires IsBlockSize(x.size) && j < 0x10_0000
  {
    && Sorted(m.options) && Plain(m.options) && m.version <= 3 && |m.token| <= 15
    && Named(m.options, BLOCK2) == []
    && Named(m.options, BLOCK1) == [CoapOption(BLOCK1, BlockBytes(BlockData(j, j + 1 < x.Count(), x.size)))]
  }

  /** Its frame is received as the echo of that block. */
  lemma EchoFrameEchoes(x: Content, m: Message, j: nat, code: byte, sender: Address)
    requires IsBlockSize(x.size) && j < 0x10_0000 && EchoMessage(x, m, j)
    requires !IsError(code) && code != EMPTY_MESSAGE
    ensures var decoded := Decode(Encode(m, code));
            decoded.Some? && Echoes(x, Received(decoded.value, sender), j)
  {
    PlainRoundTrip(m, code);
    DescribedByNamed(NO_BLOCK, m.options);
    BlockRoundTrip(j, j + 1 < x.Count(), x.size);
  }
}
