/** Blockwise upload over a network that loses, repeats, delays and reorders datagrams: the server
    echoes only blocks it has received, and at success it holds the payload. */
module UploadDelivery {
  import opened CoapTypes
  import opened Blocks
  import opened Codec
  import opened Reassembly
  import opened Requests
  import opened Exchanges
  import opened FrameFacts
  import opened WireRequests
  import opened Upload

  /** The exchange with its record, and the datagrams the server has received so far. */
  datatype Net = Net(h: History, received: seq<Datagram>)

  /** Something happens to the client, or the network delivers a datagram sent at any time before. */
  datatype NetStep = Client(e: Timed) | Delivery(i: nat)

  function NetNext(n: Net, step: NetStep): Net {
    match step
    case Client(e) => n.(h := Step(n.h, e))
    case Delivery(i) => if i < |n.h.sends| then n.(received := n.received + [n.h.sends[i]]) else n
  }

  function NetRun(n: Net, steps: seq<NetStep>): Net {
    if steps == [] then n else NetNext(NetRun(n, steps[..|steps| - 1]), steps[|steps| - 1])
  }

  /** What may arrive: echoes of blocks the server has received; acknowledgments; resets and other empty
      messages; errors; and anything from other hosts. */
  ghost predicate MayEcho(x: Content, received: seq<Datagram>, r: Received, target: Address)
    requires IsBlockSize(x.size)
  {
    r.sender == target ==>
      || IsError(r.reply.code)
      || (IsEmptyAck(r) && Complete(r))
      || CutsShort(r)
      || exists j :: 0 <= j < x.Count() && SentBlock(received, j) && Echoes(x, r, j)
  }

  ghost predicate Allowed(x: Content, n: Net, step: NetStep, target: Address)
    requires IsBlockSize(x.size)
  {
    step.Client? ==>
      && step.e.settings.blockSize == x.size
      && (step.e.event.Frame? ==> MayEcho(x, n.received, step.e.event.received, target))
  }

  ghost predicate AllAllowed(x: Content, n: Net, steps: seq<NetStep>, target: Address)
    requires IsBlockSize(x.size)
  {
    steps == []
    || (var front := steps[..|steps| - 1];
        AllAllowed(x, n, front, target) && Allowed(x, NetRun(n, front), steps[|steps| - 1], target))
  }

  predicate HoldsAll(x: Content, received: seq<Datagram>)
    requires IsBlockSize(x.size)
  {
    Assemble(received) == Assembly(x.Count(), x.payload, true)
  }

  /** A success has been reported only if the server holds the payload. */
  ghost predicate Honest(x: Content, n: Net)
    requires IsBlockSize(x.size)
  {
    NoSuccess(n.h.posts) || HoldsAll(x, n.received)
  }

  /** That is so throughout the run. */
  ghost predicate AlwaysHonest(x: Content, n: Net, steps: seq<NetStep>)
    requires IsBlockSize(x.size)
  {
    Honest(x, NetRun(n, steps)) && (steps != [] ==> AlwaysHonest(x, n, steps[..|steps| - 1]))
  }

  /** An empty message from the target reaches an open exchange whose user is there, before the server
      holds the payload. */
  predicate CutsUnheld(x: Content, n: Net, step: NetStep, target: Address)
    requires IsBlockSize(x.size)
  {
    && step.Client? && n.h.exchange.Some? && n.h.exchange.value.userReply.Some?
    && step.e.event.Frame? && step.e.event.received.sender == target && CutsShort(step.e.event.received)
    && !HoldsAll(x, n.received)
  }

  ghost predicate CutUnheld(x: Content, n: Net, steps: seq<NetStep>, target: Address)
    requires IsBlockSize(x.size)
  {
    steps != []
    && (|| CutUnheld(x, n, steps[..|steps| - 1], target)
        || CutsUnheld(x, NetRun(n, steps[..|steps| - 1]), steps[|steps| - 1], target))
  }

  // The invariant

  /** Blocks `0` to `m - 1`, in order, and nothing else. */
  function Prefix(x: Content, m: nat): Assembly
    requires IsBlockSize(x.size)
  {
    Assembly(m, Slices(x.payload, x.size, m), m == x.Count())
  }

  /** The server holds all blocks before `k`, which the client is sending, and perhaps that one. */
  ghost predicate Holds(x: Content, received: seq<Datagram>, k: nat, m: nat)
    requires IsBlockSize(x.size)
  {
    k <= m <= k + 1 && Assemble(received) == Prefix(x, m) && Below(received, m)
  }

  /** All blocks among the datagrams are numbered below `m`. */
  ghost predicate Below(received: seq<Datagram>, m: nat) {
    forall j: nat :: SentBlock(received, j) ==> j < m
  }

  ghost predicate Delivering(x: Content, n: Net, k: nat, m: nat, target: Address)
    requires IsBlockSize(x.size)
  {
    && n.h.exchange.Some? && NoSuccess(n.h.posts)
    && Uploading(x, n.h.exchange.value, n.h.sends, k, target) && Holds(x, n.received, k, m)
    && forall d :: d in n.received ==> d in n.h.sends
  }

  ghost predicate NetInvariant(x: Content, n: Net, target: Address)
    requires IsBlockSize(x.size)
  {
    && Honest(x, n)
    && (n.h.exchange.Some? ==> exists k, m :: Delivering(x, n, k, m, target))
  }

  lemma PrefixWhole(x: Content)
    requires IsBlockSize(x.size)
    ensures Prefix(x, x.Count()) == Assembly(x.Count(), x.payload, true)
  {
    SlicesAreWhole(x.payload, x.size);
  }

  // Deliveries

  lemma BelowMore(received: seq<Datagram>, d: Datagram, m: nat, m': nat)
    requires Below(received, m) && m <= m' && forall j: nat :: CarriesBlock(d, j) ==> j < m'
    ensures Below(received + [d], m')
  {
    forall j: nat | SentBlock(received + [d], j) ensures j < m' {
      var c :| c in received + [d] && CarriesBlock(c, j);
      assert c in received ==> SentBlock(received, j);
    }
  }

  /** The next slice is appended, any other changes nothing. */
  lemma SliceAssembled(x: Content, a: Assembly, d: Datagram, j: nat, m: nat)
    requires IsBlockSize(x.size) && a == Prefix(x, m) && j <= m <= x.Count() && j < x.Count()
    requires Carried(d).Some? && CarriesSlice(x, Carried(d).value.message, j)
    ensures AppendDatagram(a, d) == Prefix(x, if j == m then m + 1 else m)
  {
  }

  /** A slice up to the one being sent is appended if it is the next, and otherwise changes nothing. */
  lemma SliceReceived(x: Content, received: seq<Datagram>, d: Datagram, j: nat, k: nat, m: nat)
    requires IsBlockSize(x.size) && Holds(x, received, k, m) && k < x.Count() && j <= k
    requires Carried(d).Some? && CarriesSlice(x, Carried(d).value.message, j)
    ensures Holds(x, received + [d], k, if j == m then m + 1 else m)
  {
    AssembleMore(received, d);
    SliceAssembled(x, Assemble(received), d, j, m);
    BelowMore(received, d, m, if j == m then m + 1 else m);
  }

  lemma NothingReceived(x: Content, received: seq<Datagram>, d: Datagram, k: nat, m: nat)
    requires IsBlockSize(x.size) && Holds(x, received, k, m) && Carried(d).None?
    ensures Holds(x, received + [d], k, m)
  {
    AssembleSame(received, d);
    BelowMore(received, d, m, m);
  }

  lemma DeliveryStep(x: Content, n: Net, n': Net, d: Datagram, k: nat, m: nat, target: Address)
    returns (m': nat)
    requires IsBlockSize(x.size) && Delivering(x, n, k, m, target) && d in n.h.sends
    requires n'.h == n.h && n'.received == n.received + [d]
    ensures Delivering(x, n', k, m', target)
  {
    m' := OneMoreReceived(x, n.received, n.h.sends, d, k, m);
    StillDelivering(x, n, n', d, k, m, m', target);
  }

  lemma StillDelivering(x: Content, n: Net, n': Net, d: Datagram, k: nat, m: nat, m': nat, target: Address)
    requires IsBlockSize(x.size) && Delivering(x, n, k, m, target) && d in n.h.sends
    requires n'.h == n.h && n'.received == n.received + [d] && Holds(x, n'.received, k, m')
    ensures Delivering(x, n', k, m', target)
  {
    assert forall c :: c in n'.received ==> c in n.received || c == d;
  }

  lemma OneMoreReceived(x: Content, received: seq<Datagram>, sends: seq<Datagram>, d: Datagram, k: nat, m: nat)
    returns (m': nat)
    requires IsBlockSize(x.size) && Holds(x, received, k, m) && k < x.Count() && OnlySlices(x, sends, k) && d in sends
    ensures Holds(x, received + [d], k, m')
  {
    m' := m;
    if Carried(d).None? {
      NothingReceived(x, received, d, k, m);
    } else {
      var j :| 0 <= j <= k && j < 0x10_0000 && CarriesSlice(x, Carried(d).value.message, j);
      SliceReceived(x, received, d, j, k, m);
      m' := if j == m then m + 1 else m;
    }
  }

  /** What is complete stays as it is. */
  lemma CompleteStays(x: Content, received: seq<Datagram>, d: Datagram)
    requires IsBlockSize(x.size) && HoldsAll(x, received)
    ensures HoldsAll(x, received + [d])
  {
    AssembleMore(received, d);
  }

  // Frames

  lemma ReceivedWasSent(x: Content, n: Net, j: nat, k: nat, m: nat, target: Address)
    requires IsBlockSize(x.size) && Delivering(x, n, k, m, target) && SentBlock(n.received, j)
    ensures SentBlock(n.h.sends, j) && j <= k && j < 0x10_0000 && j < m
  {
    var d :| d in n.received && CarriesBlock(d, j);
    assert d in n.h.sends;
    SentUpTo(x, n.h.sends, j, k);
  }

  /** The exchange goes on with block `k'`. */
  lemma GoesOn(x: Content, n: Net, effect: Effect, k: nat, m: nat, k': nat, target: Address)
    requires IsBlockSize(x.size) && Delivering(x, n, k, m, target) && k <= k' && (k' == k || m == k' == k + 1)
    requires NoSuccess(effect.posts)
    requires effect.next.Some? ==> Uploading(x, effect.next.value, n.h.sends + effect.sends, k', target)
    ensures NetInvariant(x, Net(History(effect.next, n.h.posts + effect.posts, n.h.sends + effect.sends), n.received),
                         target)
  {
    var n' := Net(History(effect.next, n.h.posts + effect.posts, n.h.sends + effect.sends), n.received);
    NoSuccessConcat(n.h.posts, effect.posts);
    assert forall d :: d in n.received ==> d in n'.h.sends;
    if effect.next.Some? {
      assert Delivering(x, n', k', m, target);
    }
  }

  lemma LastEchoReceived(x: Content, n: Net, s: Settings, now: nat, r: Received, freshId: uint16, m: nat,
                         target: Address)
    requires IsBlockSize(x.size) && Delivering(x, n, x.Count() - 1, m, target) && s.blockSize == x.size
    requires r.sender == target && x.Count() <= m && Echoes(x, r, x.Count() - 1)
    ensures var effect := OnFrame(s, now, n.h.exchange.value, r, freshId);
            NetInvariant(x, Net(History(effect.next, n.h.posts + effect.posts, n.h.sends + effect.sends), n.received),
                         target)
  {
    LastEchoArrives(x, s, now, n.h.exchange.value, n.h.sends, r, freshId, target);
    PrefixWhole(x);
    EndsHonestly(x, n, OnFrame(s, now, n.h.exchange.value, r, freshId), target);
  }

  lemma EchoReceived(x: Content, n: Net, s: Settings, now: nat, r: Received, freshId: uint16, j: nat, k: nat, m: nat,
                     target: Address)
    requires IsBlockSize(x.size) && Delivering(x, n, k, m, target) && s.blockSize == x.size && r.sender == target
    requires j < x.Count() && SentBlock(n.received, j) && Echoes(x, r, j)
    ensures var effect := OnFrame(s, now, n.h.exchange.value, r, freshId);
            NetInvariant(x, Net(History(effect.next, n.h.posts + effect.posts, n.h.sends + effect.sends), n.received),
                         target)
  {
    var ex := n.h.exchange.value;
    var effect := OnFrame(s, now, ex, r, freshId);
    ReceivedWasSent(x, n, j, k, m, target);
    if j + 1 == x.Count() {
      LastEchoReceived(x, n, s, now, r, freshId, m, target);
    } else if CheckBlockNumber(j + 1) {
      EchoArrives(x, s, now, ex, n.h.sends, r, freshId, j, k, target);
      GoesOn(x, n, effect, k, m, Later(j + 1, k), target);
    } else {
      EchoAtLimit(x, s, now, ex, n.h.sends, r, freshId, j, k, target);
      GoesOn(x, n, effect, k, m, k, target);
    }
  }

  lemma CutHonestly(x: Content, n: Net, e: Timed, k: nat, m: nat, target: Address)
    requires IsBlockSize(x.size) && Delivering(x, n, k, m, target) && !CutsUnheld(x, n, Client(e), target)
    requires e.event.Frame? && e.event.received.sender == target && CutsShort(e.event.received)
    ensures NetInvariant(x, NetNext(n, Client(e)), target)
  {
    CutArrives(x, e.settings, e.now, n.h.exchange.value, n.h.sends, e.event.received, e.event.freshId, k, target);
    EndsHonestly(x, n, OnFrame(e.settings, e.now, n.h.exchange.value, e.event.received, e.event.freshId), target);
  }

  lemma EndsHonestly(x: Content, n: Net, effect: Effect, target: Address)
    requires IsBlockSize(x.size) && NoSuccess(n.h.posts) && effect.next.None?
    requires effect.posts == [] || HoldsAll(x, n.received)
    ensures NetInvariant(x, Net(History(effect.next, n.h.posts + effect.posts, n.h.sends + effect.sends), n.received),
                         target)
  {
    if effect.posts == [] {
      assert n.h.posts + effect.posts == n.h.posts;
    }
  }

  lemma FrameReceivedStep(x: Content, n: Net, e: Timed, k: nat, m: nat, target: Address)
    requires IsBlockSize(x.size) && Delivering(x, n, k, m, target) && e.settings.blockSize == x.size && e.event.Frame?
    requires MayEcho(x, n.received, e.event.received, target)
    requires !(e.event.received.sender == target && CutsShort(e.event.received))
    ensures NetInvariant(x, NetNext(n, Client(e)), target)
  {
    var r, ex := e.event.received, n.h.exchange.value;
    var effect := OnFrame(e.settings, e.now, ex, r, e.event.freshId);
    assert n.h.sends + [] == n.h.sends;
    if r.sender != target {
      GoesOn(x, n, effect, k, m, k, target);
    } else if IsError(r.reply.code) {
      ErrorArrives(e.settings, e.now, ex, r, e.event.freshId);
      GoesOn(x, n, effect, k, m, k, target);
    } else if IsEmptyAck(r) && Complete(r) {
      AckArrives(x, e.settings, e.now, ex, n.h.sends, r, e.event.freshId, k, target);
      GoesOn(x, n, effect, k, m, k, target);
    } else {
      var j :| 0 <= j < x.Count() && SentBlock(n.received, j) && Echoes(x, r, j);
      EchoReceived(x, n, e.settings, e.now, r, e.event.freshId, j, k, m, target);
    }
  }

  lemma ClientStep(x: Content, n: Net, e: Timed, target: Address)
    requires IsBlockSize(x.size) && NetInvariant(x, n, target) && Allowed(x, n, Client(e), target)
    requires !CutsUnheld(x, n, Client(e), target)
    ensures NetInvariant(x, NetNext(n, Client(e)), target)
  {
    if n.h.exchange.Some? {
      var k, m :| Delivering(x, n, k, m, target);
      if e.event.Frame? && e.event.received.sender == target && CutsShort(e.event.received) {
        CutHonestly(x, n, e, k, m, target);
      } else if e.event.Frame? {
        FrameReceivedStep(x, n, e, k, m, target);
      } else {
        OtherEvent(x, e.settings, e.now, n.h.exchange.value, n.h.sends, e.event, k, target);
        GoesOn(x, n, Handle(e.settings, e.now, n.h.exchange.value, e.event), k, m, k, target);
      }
    }
  }

  lemma NetDelivery(x: Content, n: Net, i: nat, target: Address)
    requires IsBlockSize(x.size) && NetInvariant(x, n, target)
    ensures NetInvariant(x, NetNext(n, Delivery(i)), target)
  {
    if i < |n.h.sends| {
      if n.h.exchange.Some? {
        var k, m :| Delivering(x, n, k, m, target);
        var m' := DeliveryStep(x, n, NetNext(n, Delivery(i)), n.h.sends[i], k, m, target);
      } else if !NoSuccess(n.h.posts) {
        CompleteStays(x, n.received, n.h.sends[i]);
      }
    }
  }

  lemma CutDishonestly(x: Content, n: Net, step: NetStep, target: Address)
    requires IsBlockSize(x.size) && NetInvariant(x, n, target) && CutsUnheld(x, n, step, target)
    ensures !Honest(x, NetNext(n, step))
  {
    var e := step.e;
    var k, m :| Delivering(x, n, k, m, target);
    var effect := OnFrame(e.settings, e.now, n.h.exchange.value, e.event.received, e.event.freshId);
    CutArrives(x, e.settings, e.now, n.h.exchange.value, n.h.sends, e.event.received, e.event.freshId, k, target);
    assert (n.h.posts + effect.posts)[|n.h.posts|] == effect.posts[0];
  }

  // Every run

  lemma {:induction false} HonestRun(x: Content, n: Net, steps: seq<NetStep>, target: Address)
    requires IsBlockSize(x.size) && NetInvariant(x, n, target) && AllAllowed(x, n, steps, target)
    ensures !CutUnheld(x, n, steps, target) ==> NetInvariant(x, NetRun(n, steps), target)
    ensures AlwaysHonest(x, n, steps) <==> !CutUnheld(x, n, steps, target)
  {
    if steps != [] {
      var front, last := steps[..|steps| - 1], steps[|steps| - 1];
      HonestRun(x, n, front, target);
      if !CutUnheld(x, n, front, target) {
        if CutsUnheld(x, NetRun(n, front), last, target) {
          CutDishonestly(x, NetRun(n, front), last, target);
        } else if last.Client? {
          ClientStep(x, NetRun(n, front), last.e, target);
        } else {
          NetDelivery(x, NetRun(n, front), last.i, target);
        }
      }
    }
  }

  /** From the user's request on, over any network: at every moment at which a success has been reported,
      the server holds the whole payload from the datagrams it has received, if and only if no empty
      message of the target has ended the exchange before. */
  lemma UploadReachesServer(s: Settings, now: nat, u: UserRequest, reply: ReplyId, token: Token, id: uint16,
                            randomTimeout: nat, steps: seq<NetStep>)
    requires IsBlockSize(s.blockSize) && UploadRequest(u, s.blockSize) && |token| <= 15
    requires AllAllowed(Content(u.message.payload, s.blockSize),
                        Net(Start(s, now, u, reply, token, id, randomTimeout), []), steps, u.target)
    ensures var x := Content(u.message.payload, s.blockSize);
            var n := Net(Start(s, now, u, reply, token, id, randomTimeout), []);
            AlwaysHonest(x, n, steps) <==> !CutUnheld(x, n, steps, u.target)
  {
    var x := Content(u.message.payload, s.blockSize);
    var n := Net(Start(s, now, u, reply, token, id, randomTimeout), []);
    NetStarts(s, now, u, reply, token, id, randomTimeout);
    HonestRun(x, n, steps, u.target);
  }

  lemma NetStarts(s: Settings, now: nat, u: UserRequest, reply: ReplyId, token: Token, id: uint16, randomTimeout: nat)
    requires IsBlockSize(s.blockSize) && UploadRequest(u, s.blockSize) && |token| <= 15
    ensures NetInvariant(Content(u.message.payload, s.blockSize),
                         Net(Start(s, now, u, reply, token, id, randomTimeout), []), u.target)
  {
    var x := Content(u.message.payload, s.blockSize);
    var n := Net(Start(s, now, u, reply, token, id, randomTimeout), []);
    StartIsSound(s, now, u, reply, token, id, randomTimeout);
    assert Uploading(x, n.h.exchange.value, n.h.sends, 0, u.target);
    assert Prefix(x, 0) == Assembly(0, [], false);
    assert Delivering(x, n, 0, 0, u.target);
  }
}
