/** The connection's queue of outgoing frames. Binding the transport, writing to it and closing it
    are the environment's part; what is modelled is which frames get written, and in which order. */
module Connection {
  import opened CoapTypes

  datatype CoapFrame = CoapFrame(pdu: Bytes, host: nat, port: uint16)

  datatype ConnectionState = Unconnected | Bound

  /** The queue, with the record of all frames ever enqueued, written and dropped. */
  datatype Transport = Transport(state: ConnectionState, framesToSend: seq<CoapFrame>,
                                 enqueued: seq<CoapFrame>, written: seq<CoapFrame>, dropped: seq<CoapFrame>)

  /** `boundAtOnce` says whether binding, if it is needed, reports success before it returns; a
      secure transport reports it after the handshake, as a `BoundLater` event of its own. */
  datatype Event =
    | Send(frame: CoapFrame, boundAtOnce: bool)
    | BoundLater
    | Disconnect

  const IDLE := Transport(Unconnected, [], [], [], [])

  function Enqueue(q: Transport, frame: CoapFrame): Transport {
    q.(framesToSend := q.framesToSend + [frame], enqueued := q.enqueued + [frame])
  }

  function Flushed(q: Transport): Transport {
    q.(framesToSend := [], written := q.written + q.framesToSend)
  }

  function Next(q: Transport, e: Event): Transport {
    match e
    case Send(frame, boundAtOnce) =>
      var q' := Enqueue(q, frame);
      if q.state.Bound? then Flushed(q')
      else if boundAtOnce then Flushed(q'.(state := Bound))
      else q'
    case BoundLater => Flushed(q.(state := Bound))
    case Disconnect => q.(framesToSend := [], dropped := q.dropped + q.framesToSend, state := Unconnected)
  }

  /** The bound handler asserts that frames are pending. */
  predicate Enabled(q: Transport, e: Event) {
    e.BoundLater? ==> q.framesToSend != []
  }

  function Run(q: Transport, events: seq<Event>): Transport {
    if events == [] then q else Next(Run(q, events[..|events| - 1]), events[|events| - 1])
  }

  predicate Legal(q: Transport, events: seq<Event>) {
    events == []
    || (Legal(q, events[..|events| - 1]) && Enabled(Run(q, events[..|events| - 1]), events[|events| - 1]))
  }

  class QCoapConnection {
    var state: ConnectionState
    var framesToSend: seq<CoapFrame>
    ghost var enqueued: seq<CoapFrame>
    var written: seq<CoapFrame>
    ghost var dropped: seq<CoapFrame>

    constructor ()
      ensures State() == IDLE
    {
      state := Unconnected;
      framesToSend, enqueued, written, dropped := [], [], [], [];
    }

    ghost function State(): Transport
      reads this
    {
      Transport(state, framesToSend, enqueued, written, dropped)
    }

    /** Writes the frames one by one, first in first out. */
    method StartToSendRequest()
      requires framesToSend != []
      modifies this
      ensures State() == Flushed(old(State()))
    {
      while framesToSend != []
        invariant state == old(state) && enqueued == old(enqueued) && dropped == old(dropped)
        invariant written + framesToSend == old(written) + old(framesToSend)
        decreases |framesToSend|
      {
        var frame := framesToSend[0];
        framesToSend := framesToSend[1..];
        written := written + [frame];
      }
    }

    method SendRequest(frame: CoapFrame, boundAtOnce: bool)
      modifies this
      ensures State() == Next(old(State()), Send(frame, boundAtOnce))
    {
      framesToSend := framesToSend + [frame];
      enqueued := enqueued + [frame];
      if state.Unconnected? {
        if boundAtOnce {
          OnBound();
        }
      } else {
        StartToSendRequest();
      }
    }

    method OnBound()
      requires Enabled(State(), BoundLater)
      modifies this
      ensures State() == Next(old(State()), BoundLater)
    {
      state := Bound;
      StartToSendRequest();
    }

    method Disconnect()
      modifies this
      ensures State() == Next(old(State()), Event.Disconnect)
    {
      dropped := dropped + framesToSend;
      framesToSend := [];
      state := Unconnected;
    }
  }

  // Conservation

  /** `c` is made of `a` and `b`, each in its order, and nothing else. */
  ghost predicate Interleaves<T(!new)>(a: seq<T>, b: seq<T>, c: seq<T>)
    decreases |c|
  {
    if c == [] then a == [] && b == []
    else
      || (a != [] && a[|a| - 1] == c[|c| - 1] && Interleaves(a[..|a| - 1], b, c[..|c| - 1]))
      || (b != [] && b[|b| - 1] == c[|c| - 1] && Interleaves(a, b[..|b| - 1], c[..|c| - 1]))
  }

  lemma {:induction false} InterleavesMoreLeft<T(!new)>(a: seq<T>, b: seq<T>, c: seq<T>, more: seq<T>)
    requires Interleaves(a, b, c)
    ensures Interleaves(a + more, b, c + more)
    decreases |more|
  {
    if more == [] {
      assert a + more == a && c + more == c;
    } else {
      InterleavesMoreLeft(a, b, c, more[..|more| - 1]);
      assert (a + more)[..|a + more| - 1] == a + more[..|more| - 1];
      assert (c + more)[..|c + more| - 1] == c + more[..|more| - 1];
    }
  }

  lemma {:induction false} InterleavesMoreRight<T(!new)>(a: seq<T>, b: seq<T>, c: seq<T>, more: seq<T>)
    requires Interleaves(a, b, c)
    ensures Interleaves(a, b + more, c + more)
    decreases |more|
  {
    if more == [] {
      assert b + more == b && c + more == c;
    } else {
      InterleavesMoreRight(a, b, c, more[..|more| - 1]);
      assert (b + more)[..|b + more| - 1] == b + more[..|more| - 1];
      assert (c + more)[..|c + more| - 1] == c + more[..|more| - 1];
    }
  }

  /** Interleaving loses nothing, adds nothing and keeps both orders. */
  lemma {:induction false} InterleavingCounts<T(!new)>(a: seq<T>, b: seq<T>, c: seq<T>)
    requires Interleaves(a, b, c)
    ensures multiset(c) == multiset(a) + multiset(b) && |c| == |a| + |b|
    decreases |c|
  {
    if c != [] {
      var c' := c[..|c| - 1];
      assert c == c' + [c[|c| - 1]];
      if a != [] && a[|a| - 1] == c[|c| - 1] && Interleaves(a[..|a| - 1], b, c') {
        InterleavingCounts(a[..|a| - 1], b, c');
        assert a == a[..|a| - 1] + [a[|a| - 1]];
      } else {
        InterleavingCounts(a, b[..|b| - 1], c');
        assert b == b[..|b| - 1] + [b[|b| - 1]];
      }
    }
  }

  /** What was enqueued is what was written or dropped, each in order, followed by what still
      waits; and while the connection is bound nothing waits. */
  ghost predicate Conserved(q: Transport) {
    && |q.framesToSend| <= |q.enqueued|
    && q.enqueued[|q.enqueued| - |q.framesToSend|..] == q.framesToSend
    && Interleaves(q.written, q.dropped, q.enqueued[..|q.enqueued| - |q.framesToSend|])
    && (q.state.Bound? ==> q.framesToSend == [])
  }

  ghost predicate Accounted(q: Transport, done: seq<CoapFrame>) {
    q.enqueued == done + q.framesToSend && Interleaves(q.written, q.dropped, done)
  }

  lemma AccountedIsConserved(q: Transport, done: seq<CoapFrame>)
    requires Accounted(q, done) && (q.state.Bound? ==> q.framesToSend == [])
    ensures Conserved(q)
  {
    assert q.enqueued[..|q.enqueued| - |q.framesToSend|] == done;
  }

  lemma FlushKeepsAccount(q: Transport, done: seq<CoapFrame>)
    requires Accounted(q, done)
    ensures Accounted(Flushed(q), q.enqueued)
  {
    InterleavesMoreLeft(q.written, q.dropped, done, q.framesToSend);
    assert q.enqueued + [] == q.enqueued;
  }

  lemma NextConserves(q: Transport, e: Event)
    requires Conserved(q) && Enabled(q, e)
    ensures Conserved(Next(q, e))
  {
    var done := q.enqueued[..|q.enqueued| - |q.framesToSend|];
    assert q.enqueued == done + q.framesToSend;
    match e {
      case Send(frame, boundAtOnce) =>
        var q' := Enqueue(q, frame);
        assert q'.enqueued == done + q'.framesToSend;
        FlushKeepsAccount(q', done);
        AccountedIsConserved(Next(q, e), if Next(q, e).state.Bound? then q'.enqueued else done);
      case BoundLater =>
        FlushKeepsAccount(q, done);
        AccountedIsConserved(Next(q, e), q.enqueued);
      case Disconnect =>
        InterleavesMoreRight(q.written, q.dropped, done, q.framesToSend);
        assert q.enqueued + [] == q.enqueued;
        AccountedIsConserved(Next(q, e), q.enqueued);
    }
  }

  /** Over every run of sending, binding and disconnecting: every frame is written, dropped or still
      queued, exactly once; written frames keep the order in which they were enqueued; and the queue
      is empty after every step that ends bound. */
  lemma {:induction false} RunConserves(events: seq<Event>)
    requires Legal(IDLE, events)
    ensures Conserved(Run(IDLE, events))
    ensures var q := Run(IDLE, events);
            multiset(q.enqueued) == multiset(q.written) + multiset(q.dropped) + multiset(q.framesToSend)
  {
    if events == [] {
      assert IDLE.enqueued[..0] == [];
    } else {
      RunConserves(events[..|events| - 1]);
      NextConserves(Run(IDLE, events[..|events| - 1]), events[|events| - 1]);
    }
    ConservedCounts(Run(IDLE, events));
  }

  lemma ConservedCounts(q: Transport)
    requires Conserved(q)
    ensures multiset(q.enqueued) == multiset(q.written) + multiset(q.dropped) + multiset(q.framesToSend)
  {
    var done := q.enqueued[..|q.enqueued| - |q.framesToSend|];
    InterleavingCounts(q.written, q.dropped, done);
    assert q.enqueued == done + q.framesToSend;
  }

  /** Without a disconnect nothing is lost: the frames written and those still waiting are all the
      frames, in order. */
  lemma {:induction false} NothingLostWithoutDisconnect(events: seq<Event>)
    requires Legal(IDLE, events) && forall e :: e in events ==> !e.Disconnect?
    ensures var q := Run(IDLE, events);
            q.written + q.framesToSend == q.enqueued && q.dropped == []
  {
    if events != [] {
      var front, last := events[..|events| - 1], events[|events| - 1];
      NothingLostWithoutDisconnect(front);
      assert last in events;
      var q := Run(IDLE, front);
      if last.Send? {
        assert (q.written + q.framesToSend) + [last.frame] == q.written + (q.framesToSend + [last.frame]);
      }
    }
  }

  // What becomes of every frame, read off the events

  /** Binding is reported: at once, when a frame is handed over, or later. */
  predicate ReportsBind(e: Event) {
    e.BoundLater? || (e.Send? && e.boundAtOnce)
  }

  /** No disconnect from event `i` to event `j`, whichever comes first. */
  predicate Together(events: seq<Event>, i: int, j: int) {
    forall k :: 0 <= k < |events| && (i <= k <= j || j <= k <= i) ==> !events[k].Disconnect?
  }

  /** A bind has been reported since the last disconnect. */
  ghost predicate BoundSince(events: seq<Event>) {
    exists i :: 0 <= i < |events| && ReportsBind(events[i]) && Together(events, i, |events| - 1)
  }

  /** A bind is reported at some time between the same two disconnects as event `k`. */
  ghost predicate MeetsBind(events: seq<Event>, k: int) {
    exists i :: 0 <= i < |events| && ReportsBind(events[i]) && Together(events, i, k)
  }

  datatype Fate = Written | Dropped | Waiting

  /** What has become of the frame handed over with event `k`. */
  ghost function FateOf(events: seq<Event>, k: nat): Fate
    requires k < |events|
  {
    if MeetsBind(events, k) then Written
    else if !Together(events, k, |events| - 1) then Dropped
    else Waiting
  }

  /** The frames with that fate among the first `n` events, in the order in which they were handed over. */
  ghost function FramesWith(events: seq<Event>, n: nat, fate: Fate): seq<CoapFrame>
    requires n <= |events|
  {
    if n == 0 then []
    else
      var e := events[n - 1];
      FramesWith(events, n - 1, fate) + if e.Send? && FateOf(events, n - 1) == fate then [e.frame] else []
  }

  function FramesOf(events: seq<Event>): seq<CoapFrame> {
    if events == [] then []
    else
      var e := events[|events| - 1];
      FramesOf(events[..|events| - 1]) + if e.Send? then [e.frame] else []
  }

  lemma TogetherMore(events: seq<Event>, e: Event, i: nat, j: nat)
    requires i < |events| && j < |events|
    ensures Together(events + [e], i, j) <==> Together(events, i, j)
    ensures Together(events + [e], i, |events|) <==> Together(events, i, |events| - 1) && !e.Disconnect?
  {
    var all := events + [e];
    assert all[|events|] == e;
    assert forall k :: 0 <= k < |events| ==> all[k] == events[k];
  }

  lemma BoundSinceMore(events: seq<Event>, e: Event)
    ensures BoundSince(events + [e]) <==> ReportsBind(e) || (BoundSince(events) && !e.Disconnect?)
  {
    var all := events + [e];
    if i :| 0 <= i < |events| && ReportsBind(events[i]) && Together(events, i, |events| - 1) && !e.Disconnect? {
      TogetherMore(events, e, i, i);
      assert ReportsBind(all[i]) && Together(all, i, |events|);
    }
    if ReportsBind(e) {
      assert ReportsBind(all[|events|]) && Together(all, |events|, |events|);
    }
    if i :| 0 <= i < |all| && ReportsBind(all[i]) && Together(all, i, |events|) && !ReportsBind(e) {
      TogetherMore(events, e, i, i);
    }
  }

  lemma MeetsBindMore(events: seq<Event>, e: Event, k: nat)
    requires k < |events|
    ensures MeetsBind(events + [e], k)
       <==> MeetsBind(events, k) || (ReportsBind(e) && Together(events, k, |events| - 1))
  {
    var all := events + [e];
    if i :| 0 <= i < |events| && ReportsBind(events[i]) && Together(events, i, k) {
      TogetherMore(events, e, i, k);
      assert ReportsBind(all[i]) && Together(all, i, k);
    }
    TogetherMore(events, e, k, k);
    assert Together(all, |events|, k) <==> Together(all, k, |events|);
    if ReportsBind(e) && Together(events, k, |events| - 1) {
      assert ReportsBind(all[|events|]) && Together(all, |events|, k);
    }
    if i :| 0 <= i < |all| && ReportsBind(all[i]) && Together(all, i, k) && i < |events| {
      TogetherMore(events, e, i, k);
    }
  }

  /** What an event makes of a fate. */
  function Decided(fate: Fate, e: Event): Fate {
    if fate != Waiting then fate
    else if ReportsBind(e) then Written
    else if e.Disconnect? then Dropped
    else Waiting
  }

  /** The fate of a frame is decided at the next bind or disconnect, and for good. */
  lemma FateMore(events: seq<Event>, e: Event, k: nat)
    requires k < |events|
    ensures FateOf(events + [e], k) == Decided(FateOf(events, k), e)
  {
    MeetsBindMore(events, e, k);
    TogetherMore(events, e, k, k);
  }

  /** The fate of the frame that comes last. */
  lemma FateOfLast(events: seq<Event>, e: Event)
    requires e.Send?
    ensures FateOf(events + [e], |events|) == if BoundSince(events + [e]) then Written else Waiting
  {
    var all := events + [e];
    assert Together(all, |events|, |events|);
  }

  /** While the connection is bound nothing waits. */
  lemma NoneWaitsBound(events: seq<Event>, k: nat)
    requires k < |events| && BoundSince(events)
    ensures FateOf(events, k) != Waiting
  {
    var i :| 0 <= i < |events| && ReportsBind(events[i]) && Together(events, i, |events| - 1);
    if Together(events, k, |events| - 1) {
      assert Together(events, i, k);
    }
  }

  /** Nothing is written past a frame that waits. */
  lemma NoneOvertakes(events: seq<Event>, j: nat, k: nat)
    requires j < k < |events| && FateOf(events, j) == Waiting
    ensures FateOf(events, k) == Waiting
  {
    if i :| 0 <= i < |events| && ReportsBind(events[i]) && Together(events, i, k) {
      assert Together(events, i, j);
    }
  }

  lemma {:induction false} SameFates(events: seq<Event>, e: Event, n: nat, fate: Fate)
    requires n <= |events|
    requires forall k :: 0 <= k < n ==> (FateOf(events + [e], k) == fate <==> FateOf(events, k) == fate)
    ensures FramesWith(events + [e], n, fate) == FramesWith(events, n, fate)
  {
    if n > 0 {
      SameFates(events, e, n - 1, fate);
      assert (events + [e])[n - 1] == events[n - 1];
    }
  }

  lemma {:induction false} NoneWith(events: seq<Event>, n: nat, fate: Fate)
    requires n <= |events| && forall k :: 0 <= k < n ==> FateOf(events, k) != fate
    ensures FramesWith(events, n, fate) == []
  {
    if n > 0 {
      NoneWith(events, n - 1, fate);
    }
  }

  lemma NoneWaitsAhead(events: seq<Event>, n: nat)
    requires n < |events| && FateOf(events, n) != Waiting
    ensures FramesWith(events, n, Waiting) == []
  {
    forall k | 0 <= k < n ensures FateOf(events, k) != Waiting {
      if FateOf(events, k) == Waiting {
        NoneOvertakes(events, k, n);
      }
    }
    NoneWith(events, n, Waiting);
  }

  /** Those that waited follow those with the fate they now get, if no frame with that fate came later. */
  lemma {:induction false} WaitingFollow(events: seq<Event>, e: Event, n: nat, fate: Fate)
    requires n <= |events| && fate != Waiting
    requires forall k :: 0 <= k < n ==>
               FateOf(events + [e], k) == if FateOf(events, k) == Waiting then fate else FateOf(events, k)
    ensures FramesWith(events + [e], n, fate) == FramesWith(events, n, fate) + FramesWith(events, n, Waiting)
  {
    if n > 0 {
      WaitingFollow(events, e, n - 1, fate);
      assert (events + [e])[n - 1] == events[n - 1];
      if FateOf(events, n - 1) == Waiting {
        Associates(FramesWith(events, n - 1, fate), FramesWith(events, n - 1, Waiting), events[n - 1]);
      } else {
        NoneWaitsAhead(events, n - 1);
      }
    }
  }

  lemma Associates(a: seq<CoapFrame>, b: seq<CoapFrame>, e: Event)
    ensures var more := if e.Send? then [e.frame] else [];
            (a + b) + more == a + (b + more) && a + [] == a
  {
  }

  lemma FramesBefore(events: seq<Event>, e: Event)
    ensures var n, waiting := |events|, FramesWith(events, |events|, Waiting);
            && FramesWith(events + [e], n, Written)
               == FramesWith(events, n, Written) + (if ReportsBind(e) then waiting else [])
            && FramesWith(events + [e], n, Dropped)
               == FramesWith(events, n, Dropped) + (if e.Disconnect? then waiting else [])
            && FramesWith(events + [e], n, Waiting) == if ReportsBind(e) || e.Disconnect? then [] else waiting
  {
    var n := |events|;
    forall k | 0 <= k < n ensures FateOf(events + [e], k) == Decided(FateOf(events, k), e) {
      FateMore(events, e, k);
    }
    SameFates(events, e, n, if e.Disconnect? then Written else Dropped);
    if ReportsBind(e) || e.Disconnect? {
      WaitingFollow(events, e, n, if e.Disconnect? then Dropped else Written);
      NoneWith(events + [e], n, Waiting);
    } else {
      SameFates(events, e, n, Written);
      SameFates(events, e, n, Waiting);
    }
  }

  /** The queue and the records after a run, all from the events. */
  ghost predicate FollowsFates(q: Transport, events: seq<Event>) {
    && (q.state.Bound? <==> BoundSince(events))
    && q.enqueued == FramesOf(events)
    && q.written == FramesWith(events, |events|, Written)
    && q.dropped == FramesWith(events, |events|, Dropped)
    && q.framesToSend == FramesWith(events, |events|, Waiting)
  }

  /** Over every run: the connection is bound exactly if a bind has been reported since the last disconnect;
      a frame has been written exactly if a bind was reported between the same two disconnects, ahead of it or
      behind it, and dropped exactly if a disconnect came and no such bind; written, dropped and waiting frames
      are each in order. */
  lemma {:induction false} FatesExactly(events: seq<Event>)
    ensures FollowsFates(Run(IDLE, events), events)
  {
    if events != [] {
      var front, e := events[..|events| - 1], events[|events| - 1];
      assert events == front + [e];
      FatesExactly(front);
      BoundSinceMore(front, e);
      FramesBefore(front, e);
      NoneWaitsWhileBound(front);
      LastOf(front, e);
      NextFollows(Run(IDLE, front), e, FramesWith(front, |front|, Written), FramesWith(front, |front|, Dropped),
                  FramesWith(front, |front|, Waiting));
    }
  }

  lemma NoneWaitsWhileBound(events: seq<Event>)
    ensures BoundSince(events) ==> FramesWith(events, |events|, Waiting) == []
  {
    if BoundSince(events) {
      forall k | 0 <= k < |events| ensures FateOf(events, k) != Waiting {
        NoneWaitsBound(events, k);
      }
      NoneWith(events, |events|, Waiting);
    }
  }

  lemma NextFollows(q: Transport, e: Event, written: seq<CoapFrame>, dropped: seq<CoapFrame>, waiting: seq<CoapFrame>)
    requires q.written == written && q.dropped == dropped && q.framesToSend == waiting
    requires q.state.Bound? ==> waiting == []
    ensures var q', bound := Next(q, e), ReportsBind(e) || (q.state.Bound? && !e.Disconnect?);
            var last := if e.Send? then [e.frame] else [];
            && (q'.state.Bound? <==> bound)
            && q'.enqueued == q.enqueued + last
            && q'.written == (written + if ReportsBind(e) then waiting else []) + (if bound then last else [])
            && q'.dropped == (dropped + if e.Disconnect? then waiting else []) + []
            && q'.framesToSend == (if ReportsBind(e) || e.Disconnect? then [] else waiting) + if bound then [] else last
  {
  }

  /** The frame of the last event. */
  lemma LastOf(events: seq<Event>, e: Event)
    ensures FramesOf(events + [e]) == FramesOf(events) + if e.Send? then [e.frame] else []
    ensures var all, last := events + [e], if e.Send? then [e.frame] else [];
            && FramesWith(all, |all|, Written)
               == FramesWith(all, |events|, Written) + (if BoundSince(all) then last else [])
            && FramesWith(all, |all|, Dropped) == FramesWith(all, |events|, Dropped) + []
            && FramesWith(all, |all|, Waiting)
               == FramesWith(all, |events|, Waiting) + if BoundSince(all) then [] else last
  {
    assert (events + [e])[..|events|] == events;
    if e.Send? {
      FateOfLast(events, e);
    }
  }

  /** What has been written stays written, and a frame that has been dropped is never written afterwards. */
  lemma {:induction false} FateIsFinal(events: seq<Event>, more: seq<Event>, k: nat)
    requires k < |events| && FateOf(events, k) != Waiting
    ensures FateOf(events + more, k) == FateOf(events, k)
    decreases |more|
  {
    if more == [] {
      assert events + more == events;
    } else {
      var front, e := more[..|more| - 1], more[|more| - 1];
      FateIsFinal(events, front, k);
      FateMore(events + front, e, k);
      assert events + more == (events + front) + [e];
    }
  }
}
