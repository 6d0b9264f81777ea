/** Reliable transmission (sections 4.2 and 4.8.2 of RFC 7252): how often, when and for how long an
    unanswered Confirmable request is sent, and whether that fits MAX_TRANSMIT_SPAN and
    MAX_TRANSMIT_WAIT. */
module Retransmission {
  import opened CoapTypes
  import opened StableOrder
  import opened OptionList
  import opened Blocks
  import opened Codec
  import opened Reassembly
  import opened Requests
  import opened Exchanges

  // The schedule

  /** Wait number `k`: the first one, doubled `k` times. */
  function Wait(t0: nat, k: nat): nat {
    if k == 0 then t0 else 2 * Wait(t0, k - 1)
  }

  /** Time from the first transmission to retransmission `k`. */
  function Elapsed(t0: nat, k: nat): nat {
    if k == 0 then 0 else Elapsed(t0, k - 1) + Wait(t0, k - 1)
  }

  lemma {:induction false} WaitFormula(t0: nat, k: nat)
    ensures Wait(t0, k) == t0 * Pow2(k)
  {
    if k > 0 {
      WaitFormula(t0, k - 1);
      assert t0 * Pow2(k) == 2 * (t0 * Pow2(k - 1));
    }
  }

  lemma {:induction false} ElapsedFormula(t0: nat, k: nat)
    ensures Elapsed(t0, k) == t0 * (Pow2(k) - 1)
  {
    if k > 0 {
      ElapsedFormula(t0, k - 1);
      WaitFormula(t0, k - 1);
      assert t0 * (Pow2(k) - 1) == t0 * (Pow2(k - 1) - 1) + t0 * Pow2(k - 1);
    }
  }

  lemma {:induction false} WaitGrows(t0: nat, j: nat, k: nat)
    requires j <= k
    ensures t0 <= Wait(t0, j) <= Wait(t0, k)
  {
    if j < k {
      WaitGrows(t0, j, k - 1);
    } else if j > 0 {
      WaitGrows(t0, j - 1, j - 1);
    }
  }

  lemma {:induction false} ElapsedGrows(t0: nat, j: nat, k: nat)
    requires j <= k
    ensures Elapsed(t0, j) <= Elapsed(t0, k)
    ensures t0 > 0 && j < k ==> Elapsed(t0, j) < Elapsed(t0, k)
  {
    if j < k {
      ElapsedGrows(t0, j, k - 1);
      WaitGrows(t0, k - 1, k - 1);
    }
  }

  lemma {:induction false} Pow2Grows(j: nat, k: nat)
    requires j <= k
    ensures Pow2(j) <= Pow2(k)
  {
    if j < k {
      Pow2Grows(j, k - 1);
    }
  }

  // Runs in which nothing is received

  /** The timer that runs out first fires, at its deadline; of two with the same deadline, any. */
  predicate Fires(ex: Exchange, e: Timed) {
    var retry, wait := ex.request.timeoutTimer, ex.request.maxTransmitWaitTimer;
    match e.event
    case Timeout => retry == Some(e.now) && (wait.Some? ==> e.now <= wait.value)
    case WaitExpired => wait == Some(e.now) && (retry.Some? ==> e.now <= retry.value)
    case _ => false
  }

  /** A run in which the timers fire on time, under fixed settings, and nothing else happens. */
  ghost predicate Unanswered(s: Settings, h: History, events: seq<Timed>) {
    events == []
    || (var front, last := events[..|events| - 1], events[|events| - 1];
        && Unanswered(s, h, front) && last.settings == s
        && Run(h, front).exchange.Some? && Fires(Run(h, front).exchange.value, last))
  }

  function Copies(d: Datagram, n: nat): (r: seq<Datagram>)
    ensures |r| == n && forall i :: 0 <= i < n ==> r[i] == d
  {
    if n == 0 then [] else Copies(d, n - 1) + [d]
  }

  /** A Confirmable unicast request just transmitted at `start`, with first timeout `t0`. */
  ghost predicate JustSent(h: History, start: nat, t0: nat, user: ReplyId) {
    && h.exchange.Some? && h.exchange.value.userReply == Some(user)
    && var r := h.exchange.value.request;
       && r.message.mtype.Confirmable? && !r.IsMulticast() && r.transmissionInProgress
       && r.timeout == t0 && 0 < t0 < 0x1_0000_0000 && r.retransmissionCounter == 0
       && r.maxTransmitWait < 0x1_0000_0000
       && r.timeoutTimer == Armed(start, t0) && r.maxTransmitWaitTimer == Armed(start, r.maxTransmitWait)
       && h.sends == [Datagram(RequestFrame(r), r.target)]
  }

  lemma StartIsJustSent(s: Settings, now: nat, u: UserRequest, reply: ReplyId, token: Token, id: uint16,
                        randomTimeout: nat)
    requires u.message.mtype.Confirmable? && !u.target.Multicast?
    requires 0 < InitialTimeout(s, Confirmable, randomTimeout) < 0x1_0000_0000
    ensures var h := Start(s, now, u, reply, token, id, randomTimeout);
            && JustSent(h, now, InitialTimeout(s, Confirmable, randomTimeout), reply)
            && h.posts == [Post(reply, SetRunning(token, id))]
            && h.exchange.value.request.maxTransmitWait == MaximumTransmitWait(s)
  {
    var r := InitialRequest(s, u, token, id, randomTimeout);
    assert !r.IsMulticast() && !r.transmissionInProgress && r.message.mtype.Confirmable?;
  }

  /** The retry timer runs during wait `k`: its interval fits an `int`. */
  predicate RetryRuns(t0: nat, k: nat) {
    Wait(t0, k) < 0x8000_0000
  }

  /** So does the interval of the transmit-wait timer. */
  predicate WaitRuns(wait: nat) {
    wait < 0x8000_0000
  }

  /** Retransmission `k` happens only if the retry timer ran before it. */
  predicate Reached(t0: nat, k: nat) {
    k == 0 || RetryRuns(t0, k - 1)
  }

  /** The request after `k` retransmissions: wait `k` is `t0` doubled `k` times. */
  function Retried(r: Request, start: nat, t0: nat, k: nat): Request {
    r.(retransmissionCounter := k, timeout := Wait(t0, k), timeoutTimer := Armed(start + Elapsed(t0, k), Wait(t0, k)))
  }

  lemma RetriedNever(r: Request, start: nat, t0: nat)
    requires r.retransmissionCounter == 0 && r.timeout == t0 && r.timeoutTimer == Armed(start, t0)
    ensures Retried(r, start, t0, 0) == r
  {
    assert Elapsed(t0, 0) == 0 && Wait(t0, 0) == t0;
  }

  lemma DoubledFits(t0: nat, k: nat)
    requires RetryRuns(t0, k) && t0 > 0
    ensures Wrap32(Wait(t0, k) * 2) == Wait(t0, k + 1) > 0
    ensures Armed(0, Wait(t0, k)) == Some(Wait(t0, k))
  {
    WaitGrows(t0, k, k);
  }

  lemma TransmittedAgain(r: Request, now: nat, doubled: nat)
    requires r.transmissionInProgress && !r.IsMulticast() && Wrap32(r.timeout * 2) == doubled > 0
    ensures Transmitted(r, now) == r.(retransmissionCounter := r.retransmissionCounter + 1, timeout := doubled,
                                      timeoutTimer := Armed(now, doubled))
    ensures RequestFrame(Transmitted(r, now)) == RequestFrame(r)
  {
  }

  /** One more retransmission, at the deadline: the same bytes to the same host, and the wait
      doubles. */
  lemma RetryOnce(s: Settings, now: nat, ex: Exchange, first: Request, start: nat, t0: nat, k: nat)
    requires ex.request == Retried(first, start, t0, k) && now == start + Elapsed(t0, k + 1)
    requires k < s.maximumRetransmitCount && t0 > 0 && RetryRuns(t0, k)
    requires first.message.mtype.Confirmable? && !first.IsMulticast() && first.transmissionInProgress
    ensures OnTimeout(s, now, ex)
         == Effect(Some(ex.(request := Retried(first, start, t0, k + 1))), [],
                   [Datagram(RequestFrame(first), first.target)], [])
  {
    DoubledFits(t0, k);
    TransmittedAgain(ex.request, now, Wait(t0, k + 1));
  }

  ghost predicate Trying(s: Settings, h: History, h': History, start: nat, t0: nat, k: nat)
    requires h.exchange.Some?
  {
    && k <= s.maximumRetransmitCount && Reached(t0, k)
    && h' == History(Some(h.exchange.value.(request := Retried(h.exchange.value.request, start, t0, k))), h.posts,
                     Copies(FirstDatagram(h), k + 1))
  }

  function FirstDatagram(h: History): Datagram
    requires h.exchange.Some?
  {
    Datagram(RequestFrame(h.exchange.value.request), h.exchange.value.request.target)
  }

  ghost predicate GivenUp(h: History, h': History, user: ReplyId, sent: nat)
    requires h.exchange.Some?
  {
    h' == History(None, h.posts + [Post(user, SetError(TimeOut)), Post(user, SetFinished(Ok))],
                  Copies(FirstDatagram(h), sent))
  }

  /** The retry timer ends the exchange: all retransmissions have been made. */
  predicate EndedByRetry(s: Settings, e: Timed, start: nat, t0: nat, wait: nat, k: nat) {
    && k == s.maximumRetransmitCount && e.now == start + Elapsed(t0, k + 1) && RetryRuns(t0, k)
    && (WaitRuns(wait) ==> Elapsed(t0, k + 1) <= wait)
  }

  /** The transmit-wait timer ends it: it is the first to run out, or the only one to run. */
  predicate EndedByWait(e: Timed, start: nat, t0: nat, wait: nat, k: nat) {
    WaitRuns(wait) && e.now == start + wait && (RetryRuns(t0, k) ==> wait <= Elapsed(t0, k + 1))
  }

  lemma TryingStep(s: Settings, h: History, h': History, e: Timed, start: nat, t0: nat, k: nat, user: ReplyId)
    requires JustSent(h, start, t0, user) && Trying(s, h, h', start, t0, k)
    requires e.settings == s && Fires(h'.exchange.value, e)
    ensures var wait := h.exchange.value.request.maxTransmitWait;
            || (&& e.event.Timeout? && k < s.maximumRetransmitCount && e.now == start + Elapsed(t0, k + 1)
                && Trying(s, h, Step(h', e), start, t0, k + 1))
            || (&& GivenUp(h, Step(h', e), user, k + 1)
                && (EndedByRetry(s, e, start, t0, wait, k) || EndedByWait(e, start, t0, wait, k)))
  {
    var ex := h'.exchange.value;
    DeadlineOf(start, t0, k);
    DeadlineOfWait(start, h.exchange.value.request.maxTransmitWait);
    if e.event.Timeout? && k < s.maximumRetransmitCount {
      RetryOnce(s, e.now, ex, h.exchange.value.request, start, t0, k);
      assert h.posts + [] == h.posts;
    } else {
      TimeOutEffect(s, e, ex, user);
      assert Copies(FirstDatagram(h), k + 1) + [] == Copies(FirstDatagram(h), k + 1);
    }
  }

  lemma DeadlineOf(start: nat, t0: nat, k: nat)
    requires 0 < t0 < 0x1_0000_0000 && Reached(t0, k)
    ensures Armed(start + Elapsed(t0, k), Wait(t0, k))
         == if RetryRuns(t0, k) then Some(start + Elapsed(t0, k + 1)) else None
  {
    if k > 0 {
      assert Wait(t0, k) == 2 * Wait(t0, k - 1);
    }
    assert Wrap32(Wait(t0, k)) == Wait(t0, k);
  }

  lemma DeadlineOfWait(start: nat, wait: nat)
    requires wait < 0x1_0000_0000
    ensures Armed(start, wait) == if WaitRuns(wait) then Some(start + wait) else None
  {
  }

  lemma TimeOutEffect(s: Settings, e: Timed, ex: Exchange, user: ReplyId)
    requires ex.userReply == Some(user)
    requires e.event.WaitExpired?
             || (e.event.Timeout? && ex.request.retransmissionCounter >= e.settings.maximumRetransmitCount)
    ensures Handle(e.settings, e.now, ex, e.event)
         == Effect(None, [Post(user, SetError(TimeOut)), Post(user, SetFinished(Ok))], [],
                   [ErrorSignal(Some(user), TimeOut)])
  {
  }

  /** Retransmissions only, each `Elapsed` after the first transmission. */
  ghost predicate OnSchedule(events: seq<Timed>, start: nat, t0: nat) {
    forall k :: 0 <= k < |events| ==> Retries(events[k], start, t0, k)
  }

  ghost predicate Retries(e: Timed, start: nat, t0: nat, k: nat) {
    e.event.Timeout? && e.now == start + Elapsed(t0, k + 1)
  }

  lemma OneMoreRetry(events: seq<Timed>, start: nat, t0: nat)
    requires events != [] && OnSchedule(events[..|events| - 1], start, t0)
    requires Retries(events[|events| - 1], start, t0, |events| - 1)
    ensures OnSchedule(events, start, t0)
  {
    forall k | 0 <= k < |events| ensures Retries(events[k], start, t0, k) {
      if k < |events| - 1 {
        assert events[k] == events[..|events| - 1][k];
      }
    }
  }

  /** How the events have left the exchange. While it goes on, `k` events mean `k` retransmissions of
      the same bytes, on schedule; it ends with the error TimeOut, by one timer or the other. */
  ghost predicate Outcome(s: Settings, h: History, h': History, events: seq<Timed>, start: nat, t0: nat, user: ReplyId)
    requires h.exchange.Some?
  {
    var wait, k := h.exchange.value.request.maxTransmitWait, |events| - 1;
    && (h'.exchange.Some? ==> Trying(s, h, h', start, t0, |events|) && OnSchedule(events, start, t0))
    && (h'.exchange.None? ==>
          && 0 <= k <= s.maximumRetransmitCount
          && OnSchedule(events[..k], start, t0) && GivenUp(h, h', user, k + 1)
          && (EndedByRetry(s, events[k], start, t0, wait, k) || EndedByWait(events[k], start, t0, wait, k)))
  }

  /** Every run of an unanswered Confirmable request, with timers that fire on time. */
  lemma {:induction false} UnansweredRun(s: Settings, h: History, events: seq<Timed>, start: nat, t0: nat,
                                         user: ReplyId)
    requires JustSent(h, start, t0, user) && Unanswered(s, h, events)
    ensures Outcome(s, h, Run(h, events), events, start, t0, user)
  {
    if events == [] {
      RetriedNever(h.exchange.value.request, start, t0);
      assert Copies(FirstDatagram(h), 0) == [];
    } else {
      var front, last := events[..|events| - 1], events[|events| - 1];
      UnansweredRun(s, h, front, start, t0, user);
      TryingStep(s, h, Run(h, front), last, start, t0, |front|, user);
      if Run(h, events).exchange.Some? {
        OneMoreRetry(events, start, t0);
      }
    }
  }

  // The timing bounds

  /** The first timeouts section 4.8 of RFC 7252 permits. */
  predicate Permitted(s: Settings, t0: nat) {
    s.ackTimeout <= t0 <= Scaled(s.ackTimeout, s.ackRandomFactor)
  }

  /** The timeout drawn is permitted whenever the library's own assertion holds, that the smallest
      timeout does not exceed the largest; which it does if the largest fits 32 bits. */
  lemma InitialTimeoutIsPermitted(s: Settings, randomTimeout: nat)
    requires s.ackTimeout < MaximumTimeout(s) ==> s.ackTimeout <= randomTimeout < MaximumTimeout(s)
    requires ValidSettings(s)
    ensures s.ackTimeout <= MaximumTimeout(s) ==> Permitted(s, InitialTimeout(s, Confirmable, randomTimeout))
    ensures Scaled(s.ackTimeout, s.ackRandomFactor) < 0x1_0000_0000 ==> s.ackTimeout <= MaximumTimeout(s)
  {
    AtLeast(s.ackTimeout, s.ackRandomFactor);
    WrapIsLess(Scaled(s.ackTimeout, s.ackRandomFactor));
  }

  lemma WrapIsLess(x: nat)
    ensures Wrap32(x) <= x && Wrap32(x) < 0x1_0000_0000
    ensures x < 0x1_0000_0000 ==> Wrap32(x) == x
    ensures x >= 0x1_0000_0000 ==> Wrap32(x) <= x - 0x1_0000_0000
  {
  }

  lemma AtLeast(a: nat, f: real)
    requires f >= 1.0
    ensures a <= Scaled(a, f)
  {
    RealProduct(a as real, f);
    assert (a as real * f).Floor >= a;
  }

  lemma RealProduct(a: real, f: real)
    requires a >= 0.0 && f >= 1.0
    ensures a * f >= a
  {
    assert a * f == a + a * (f - 1.0);
  }

  lemma RealMonotone(a: real, b: real, f: real)
    requires a <= b && f >= 0.0
    ensures a * f <= b * f && f * a <= f * b
  {
    assert (b - a) * f >= 0.0;
  }

  /** Scaling first and multiplying then gives no more than multiplying first. */
  lemma ScaledProduct(a: nat, m: nat, f: real)
    requires f >= 1.0
    ensures Scaled(a, f) * m <= Scaled(a * m, f)
  {
    var p := a as real * f;
    RealProduct(a as real, f);
    RealMonotone(Scaled(a, f) as real, p, m as real);
    assert (Scaled(a, f) * m) as real == Scaled(a, f) as real * m as real;
    assert p * m as real == (a * m) as real * f;
    RealProduct((a * m) as real, f);
  }

  /** With the product wrapped, every value from one below the scaled timeout on exceeds it. */
  lemma WrappedProduct(a: nat, m: nat, f: real, t: nat)
    requires f >= 1.0 && a * m >= 0x1_0000_0000 && 2 * m < 0x1_0000_0000 && t + 1 >= Scaled(a, f)
    ensures t * m > Scaled(Wrap32(a * m), f)
  {
    var p, w := a as real * f, Wrap32(a * m);
    JustBelow(a, f, t);
    RealCommute(a as real, m as real, f);
    RealOfProduct(a, m);
    WrapIsLess(a * m);
    WrappedReal(p, t as real, m as real, f, (a * m) as real, w as real);
    RealOfProduct(t, m);
    FloorBelow(w, f, t * m);
  }

  lemma JustBelow(a: nat, f: real, t: nat)
    requires f >= 1.0 && t + 1 >= Scaled(a, f)
    ensures t as real > a as real * f - 2.0
  {
    RealProduct(a as real, f);
  }

  lemma FloorBelow(w: nat, f: real, t: nat)
    requires f >= 1.0 && t as real > w as real * f
    ensures t > Scaled(w, f)
  {
    RealProduct(w as real, f);
  }

  lemma RealOfProduct(a: nat, m: nat)
    ensures (a * m) as real == a as real * m as real
  {
  }

  lemma RealCommute(a: real, m: real, f: real)
    ensures a * f * m == a * m * f
  {
  }

  lemma WrappedReal(p: real, t: real, m: real, f: real, am: real, w: real)
    requires t > p - 2.0 && m > 0.0 && f >= 1.0 && 2.0 * m < 4294967296.0
    requires p * m == am * f && w <= am - 4294967296.0
    ensures t * m > w * f
  {
    RealMonotone(w, am - 4294967296.0, f);
    RealMinus(am, 4294967296.0, f);
    RealMonotone(p - 2.0, t, m);
    RealMinus(p, 2.0, m);
  }

  lemma RealMinus(a: real, b: real, f: real)
    ensures (a - b) * f == a * f - b * f
  {
  }

  lemma Powers()
    ensures Pow2(26) == 0x400_0000
  {
    assert Pow2(8) == 256;
    assert Pow2(16) == 65536 by { Doubled(8, 8); }
    assert Pow2(24) == 0x100_0000 by { Doubled(16, 8); }
    assert Pow2(26) == 4 * Pow2(24);
  }

  lemma {:induction false} Doubled(j: nat, k: nat)
    ensures Pow2(j + k) == Pow2(j) * Pow2(k)
  {
    if k > 0 {
      Doubled(j, k - 1);
      assert Pow2(j + k) == 2 * Pow2(j + (k - 1));
    }
  }

  /** What `k` waits may take in all: the formula of section 4.8.2 of RFC 7252, for `k = n` the transmit
      span and for `k = n + 1` the transmit wait. */
  function Bound(s: Settings, k: nat): nat {
    Scaled(s.ackTimeout * (Pow2(k) - 1), s.ackRandomFactor)
  }

  /** The same as the library computes it. */
  function Computed(s: Settings, k: nat): nat {
    ScaledUInt(Wrap32(s.ackTimeout * (Pow2(k) - 1)), s.ackRandomFactor)
  }

  lemma ComputedIsBound(s: Settings, k: nat)
    requires ValidSettings(s) && Bound(s, k) < 0x1_0000_0000
    ensures Computed(s, k) == Bound(s, k)
  {
    AtLeast(s.ackTimeout * (Pow2(k) - 1), s.ackRandomFactor);
    WrapIsLess(s.ackTimeout * (Pow2(k) - 1));
    WrapIsLess(Bound(s, k));
  }

  lemma WithinBound(s: Settings, t: nat, k: nat)
    requires ValidSettings(s) && Permitted(s, t)
    ensures Elapsed(t, k) <= Bound(s, k)
  {
    ElapsedFormula(t, k);
    ScaledProduct(s.ackTimeout, Pow2(k) - 1, s.ackRandomFactor);
    MulMonotone(t, Scaled(s.ackTimeout, s.ackRandomFactor), Pow2(k) - 1);
  }

  /** Below the bound by less than 2^32. */
  lemma NearBound(a: nat, m: nat, f: real)
    requires f >= 1.0 && 0 < m < 0x1_0000_0000
    ensures Scaled(a, f) * m > Scaled(a * m, f) - 0x1_0000_0000
  {
    var p, t := a as real * f, Scaled(a, f);
    CloseBelow(a, f);
    CloseBelow(a * m, f);
    RealCommute(a as real, m as real, f);
    RealOfProduct(a, m);
    RealOfProduct(t, m);
    NearReal(p, t as real, m as real);
  }

  lemma CloseBelow(a: nat, f: real)
    requires f >= 1.0
    ensures Scaled(a, f) as real <= a as real * f < Scaled(a, f) as real + 1.0
  {
    RealProduct(a as real, f);
  }

  lemma NearReal(p: real, t: real, m: real)
    requires t > p - 1.0 && 0.0 < m < 4294967296.0
    ensures t * m > p * m - 4294967296.0
  {
    RealMonotone(p - 1.0, t, m);
    RealMinus(p, 1.0, m);
  }

  lemma BeyondBound(s: Settings, k: nat)
    requires ValidSettings(s) && 0 < k <= 26 && Bound(s, k) >= 0x1_0000_0000
    ensures Elapsed(Scaled(s.ackTimeout, s.ackRandomFactor), k) > Computed(s, k)
  {
    var a, m, f := s.ackTimeout, Pow2(k) - 1, s.ackRandomFactor;
    ElapsedFormula(Scaled(a, f), k);
    Powers();
    Pow2Grows(k, 26);
    assert Pow2(k) == 2 * Pow2(k - 1);
    WrapIsLess(Scaled(Wrap32(a * m), f));
    if a * m >= 0x1_0000_0000 {
      WrappedProduct(a, m, f, Scaled(a, f));
    } else {
      WrapIsLess(a * m);
      WrapIsLess(Scaled(a * m, f));
      NearBound(a, m, f);
    }
  }

  /** Every permitted first timeout keeps within the computed bound exactly when the bound, scaled,
      fits 32 bits. */
  lemma BoundHoldsExactly(s: Settings, k: nat)
    requires ValidSettings(s) && k <= 26
    ensures (forall t0 :: Permitted(s, t0) ==> Elapsed(t0, k) <= Computed(s, k)) <==> Bound(s, k) < 0x1_0000_0000
  {
    AtLeast(s.ackTimeout, s.ackRandomFactor);
    if Bound(s, k) < 0x1_0000_0000 {
      ComputedIsBound(s, k);
      forall t0 | Permitted(s, t0) ensures Elapsed(t0, k) <= Computed(s, k) {
        WithinBound(s, t0, k);
      }
    } else {
      BoundOfNothing(s);
      BeyondBound(s, k);
      assert Permitted(s, Scaled(s.ackTimeout, s.ackRandomFactor));
    }
  }

  lemma BoundOfNothing(s: Settings)
    ensures Bound(s, 0) == 0
  {
    assert s.ackTimeout * (Pow2(0) - 1) == 0;
  }

  /** The last retransmission comes within MAX_TRANSMIT_SPAN and giving up within MAX_TRANSMIT_WAIT,
      for every permitted first timeout, exactly when the respective scaled value fits 32 bits. */
  lemma SpanAndWaitHoldExactly(s: Settings)
    requires ValidSettings(s)
    ensures var n := s.maximumRetransmitCount;
            && ((forall t0 :: Permitted(s, t0) ==> Elapsed(t0, n) <= MaximumTransmitSpan(s))
                <==> Bound(s, n) < 0x1_0000_0000)
            && ((forall t0 :: Permitted(s, t0) ==> Elapsed(t0, n + 1) <= MaximumTransmitWait(s))
                <==> Bound(s, n + 1) < 0x1_0000_0000)
  {
    var n := s.maximumRetransmitCount;
    assert Computed(s, n) == MaximumTransmitSpan(s) && Computed(s, n + 1) == MaximumTransmitWait(s);
    BoundHoldsExactly(s, n);
    BoundHoldsExactly(s, n + 1);
  }

  /** What reaches the timer must fit 31 bits: a first transmission starts the transmit-wait timer with
      the value of the formula exactly when that value does. */
  lemma WaitTimerRunsExactly(s: Settings, r: Request, now: nat)
    requires ValidSettings(s) && !r.IsMulticast() && !r.transmissionInProgress
    requires r.maxTransmitWait == MaximumTransmitWait(s)
    ensures Transmitted(r, now).maxTransmitWaitTimer == Some(now + Bound(s, s.maximumRetransmitCount + 1))
            <==> Bound(s, s.maximumRetransmitCount + 1) < 0x8000_0000
  {
    var k := s.maximumRetransmitCount + 1;
    WaitTimerArmed(r, now);
    if Bound(s, k) < 0x8000_0000 {
      ComputedIsBound(s, k);
    }
    assert MaximumTransmitWait(s) == Computed(s, k);
  }

  lemma WaitTimerArmed(r: Request, now: nat)
    requires !r.IsMulticast() && !r.transmissionInProgress
    ensures Transmitted(r, now).maxTransmitWaitTimer == Armed(now, r.maxTransmitWait)
  {
  }

  // Full tries

  /** The request is sent exactly `maximumRetransmitCount + 1` times, the same bytes each time,
      retransmission `k` at `t0 * (2^k - 1)`; then, at `t0 * (2^(n+1) - 1)`, the reply gets TimeOut
      and is finished. */
  ghost predicate FullyTried(s: Settings, h: History, h': History, events: seq<Timed>, start: nat, t0: nat,
                             user: ReplyId)
    requires h.exchange.Some?
  {
    var n := s.maximumRetransmitCount;
    && (|events| <= n ==> Trying(s, h, h', start, t0, |events|) && OnSchedule(events, start, t0))
    && (|events| > n ==>
          && |events| == n + 1 && GivenUp(h, h', user, n + 1)
          && OnSchedule(events[..n], start, t0)
          && events[n].now == start + Elapsed(t0, n + 1))
  }

  /** The retry timer runs throughout, and the transmit-wait timer is not shorter. */
  predicate TimersSuffice(s: Settings, t0: nat, wait: nat) {
    && RetryRuns(t0, s.maximumRetransmitCount)
    && (WaitRuns(wait) ==> Elapsed(t0, s.maximumRetransmitCount + 1) <= wait)
  }

  lemma EarlyOutcome(s: Settings, h: History, h': History, events: seq<Timed>, start: nat, t0: nat, user: ReplyId)
    requires h.exchange.Some? && Outcome(s, h, h', events, start, t0, user) && t0 > 0
    requires TimersSuffice(s, t0, h.exchange.value.request.maxTransmitWait)
    requires |events| <= s.maximumRetransmitCount
    ensures Trying(s, h, h', start, t0, |events|) && OnSchedule(events, start, t0)
  {
    ElapsedGrows(t0, |events|, s.maximumRetransmitCount + 1);
    if |events| > 0 {
      WaitGrows(t0, |events| - 1, s.maximumRetransmitCount);
    }
  }

  lemma FullOutcome(s: Settings, h: History, h': History, events: seq<Timed>, start: nat, t0: nat, user: ReplyId)
    requires h.exchange.Some? && Outcome(s, h, h', events, start, t0, user) && t0 > 0
    requires TimersSuffice(s, t0, h.exchange.value.request.maxTransmitWait)
    ensures FullyTried(s, h, h', events, start, t0, user)
  {
    if |events| <= s.maximumRetransmitCount {
      EarlyOutcome(s, h, h', events, start, t0, user);
    } else {
      assert h'.exchange.None?;
    }
  }

  lemma LongEnoughWait(s: Settings, h: History, events: seq<Timed>, start: nat, t0: nat, user: ReplyId)
    requires JustSent(h, start, t0, user) && Unanswered(s, h, events)
    requires TimersSuffice(s, t0, h.exchange.value.request.maxTransmitWait)
    ensures FullyTried(s, h, Run(h, events), events, start, t0, user)
  {
    UnansweredRun(s, h, events, start, t0, user);
    FullOutcome(s, h, Run(h, events), events, start, t0, user);
  }

  /** Progress: an unanswered run of at most `maximumRetransmitCount` events can go on, with the retry
      timer firing on schedule. */
  lemma NextOnSchedule(s: Settings, h: History, events: seq<Timed>, start: nat, t0: nat, user: ReplyId)
    requires JustSent(h, start, t0, user) && Unanswered(s, h, events) && |events| <= s.maximumRetransmitCount
    requires TimersSuffice(s, t0, h.exchange.value.request.maxTransmitWait)
    ensures Unanswered(s, h, events + [Timed(start + Elapsed(t0, |events| + 1), s, Timeout)])
  {
    UnansweredRun(s, h, events, start, t0, user);
    OutcomeFires(s, h, Run(h, events), events, start, t0, user);
    OneMoreFires(s, h, events, Timed(start + Elapsed(t0, |events| + 1), s, Timeout));
  }

  lemma OneMoreFires(s: Settings, h: History, events: seq<Timed>, e: Timed)
    requires Unanswered(s, h, events) && e.settings == s
    requires Run(h, events).exchange.Some? && Fires(Run(h, events).exchange.value, e)
    ensures Unanswered(s, h, events + [e])
  {
    assert (events + [e])[..|events + [e]| - 1] == events;
  }

  lemma OutcomeFires(s: Settings, h: History, h': History, events: seq<Timed>, start: nat, t0: nat, user: ReplyId)
    requires h.exchange.Some? && Outcome(s, h, h', events, start, t0, user) && 0 < t0 < 0x1_0000_0000
    requires var r := h.exchange.value.request;
             && TimersSuffice(s, t0, r.maxTransmitWait) && r.maxTransmitWait < 0x1_0000_0000
             && r.maxTransmitWaitTimer == Armed(start, r.maxTransmitWait)
    requires |events| <= s.maximumRetransmitCount
    ensures h'.exchange.Some? && Fires(h'.exchange.value, Timed(start + Elapsed(t0, |events| + 1), s, Timeout))
  {
    EarlyOutcome(s, h, h', events, start, t0, user);
    RetryFires(s, h, h', start, t0, |events|);
  }

  lemma RetryFires(s: Settings, h: History, h': History, start: nat, t0: nat, k: nat)
    requires h.exchange.Some? && Trying(s, h, h', start, t0, k) && 0 < t0 < 0x1_0000_0000
    requires var r := h.exchange.value.request;
             && TimersSuffice(s, t0, r.maxTransmitWait) && r.maxTransmitWait < 0x1_0000_0000
             && r.maxTransmitWaitTimer == Armed(start, r.maxTransmitWait)
    ensures h'.exchange.Some? && Fires(h'.exchange.value, Timed(start + Elapsed(t0, k + 1), s, Timeout))
  {
    var ex, wait := h'.exchange.value, h.exchange.value.request.maxTransmitWait;
    assert ex.request.timeoutTimer == Armed(start + Elapsed(t0, k), Wait(t0, k));
    assert ex.request.maxTransmitWaitTimer == Armed(start, wait);
    FirstToFire(s, ex, start, t0, wait, k);
  }

  lemma FirstToFire(s: Settings, ex: Exchange, start: nat, t0: nat, wait: nat, k: nat)
    requires ex.request.timeoutTimer == Armed(start + Elapsed(t0, k), Wait(t0, k))
    requires ex.request.maxTransmitWaitTimer == Armed(start, wait)
    requires k <= s.maximumRetransmitCount && Reached(t0, k) && 0 < t0 < 0x1_0000_0000
    requires TimersSuffice(s, t0, wait) && wait < 0x1_0000_0000
    ensures Fires(ex, Timed(start + Elapsed(t0, k + 1), s, Timeout))
  {
    ElapsedGrows(t0, k + 1, s.maximumRetransmitCount + 1);
    WaitGrows(t0, k, s.maximumRetransmitCount);
    DeadlineOf(start, t0, k);
    DeadlineOfWait(start, wait);
  }

  lemma {:induction false} ScheduledRun(s: Settings, h: History, start: nat, t0: nat, user: ReplyId, k: nat)
    returns (events: seq<Timed>)
    requires JustSent(h, start, t0, user) && k <= s.maximumRetransmitCount + 1
    requires TimersSuffice(s, t0, h.exchange.value.request.maxTransmitWait)
    ensures |events| == k && Unanswered(s, h, events)
  {
    if k == 0 {
      events := [];
    } else {
      var front := ScheduledRun(s, h, start, t0, user, k - 1);
      NextOnSchedule(s, h, front, start, t0, user);
      events := front + [Timed(start + Elapsed(t0, |front| + 1), s, Timeout)];
    }
  }

  /** Some unanswered run tries all the way. */
  ghost predicate CanBeFullyTried(s: Settings, h: History, start: nat, t0: nat, user: ReplyId)
    requires h.exchange.Some?
  {
    exists events: seq<Timed> :: |events| == s.maximumRetransmitCount + 1 && Unanswered(s, h, events)
                                 && FullyTried(s, h, Run(h, events), events, start, t0, user)
  }

  lemma FullyTriedNeedsTimers(s: Settings, h: History, h': History, events: seq<Timed>, start: nat, t0: nat,
                              user: ReplyId)
    requires h.exchange.Some? && Outcome(s, h, h', events, start, t0, user)
    requires |events| == s.maximumRetransmitCount + 1 && FullyTried(s, h, h', events, start, t0, user)
    ensures TimersSuffice(s, t0, h.exchange.value.request.maxTransmitWait)
  {
    var n := s.maximumRetransmitCount;
    assert Elapsed(t0, n + 1) == Elapsed(t0, n) + Wait(t0, n);
  }

  /** An unanswered request is tried all the way, in some run and then in every run, exactly when the
      retry timer runs throughout and the transmit-wait timer, if it runs, is not shorter. */
  lemma FullyTriedExactly(s: Settings, h: History, start: nat, t0: nat, user: ReplyId)
    requires JustSent(h, start, t0, user)
    ensures CanBeFullyTried(s, h, start, t0, user)
            <==> TimersSuffice(s, t0, h.exchange.value.request.maxTransmitWait)
  {
    if TimersSuffice(s, t0, h.exchange.value.request.maxTransmitWait) {
      var events := ScheduledRun(s, h, start, t0, user, s.maximumRetransmitCount + 1);
      LongEnoughWait(s, h, events, start, t0, user);
    }
    if events: seq<Timed> :| |events| == s.maximumRetransmitCount + 1 && Unanswered(s, h, events)
                             && FullyTried(s, h, Run(h, events), events, start, t0, user) {
      UnansweredRun(s, h, events, start, t0, user);
      FullyTriedNeedsTimers(s, h, Run(h, events), events, start, t0, user);
    }
  }

  /** The timers suffice for every permitted first timeout exactly when the longest last wait fits 31
      bits and the transmit wait, if what the library computes starts its timer, fits them too. */
  lemma TimersSufficeExactly(s: Settings)
    requires ValidSettings(s)
    ensures var n := s.maximumRetransmitCount;
            (forall t0 :: Permitted(s, t0) ==> TimersSuffice(s, t0, MaximumTransmitWait(s)))
            <==> && Scaled(s.ackTimeout, s.ackRandomFactor) * Pow2(n) < 0x8000_0000
                 && (MaximumTransmitWait(s) < 0x8000_0000 ==> Bound(s, n + 1) < 0x8000_0000)
  {
    var n, longest := s.maximumRetransmitCount, Scaled(s.ackTimeout, s.ackRandomFactor);
    AtLeast(s.ackTimeout, s.ackRandomFactor);
    WaitFormula(longest, n);
    if RetryRuns(longest, n) && (WaitRuns(MaximumTransmitWait(s)) ==> WaitRuns(Bound(s, n + 1))) {
      forall t0 | Permitted(s, t0) ensures TimersSuffice(s, t0, MaximumTransmitWait(s)) {
        ShorterSuffices(s, t0);
      }
    } else if RetryRuns(longest, n) {
      if Bound(s, n + 1) < 0x1_0000_0000 {
        ComputedIsBound(s, n + 1);
      } else {
        BeyondBound(s, n + 1);
      }
      assert Permitted(s, longest) && !TimersSuffice(s, longest, MaximumTransmitWait(s));
    } else {
      assert Permitted(s, longest) && !TimersSuffice(s, longest, MaximumTransmitWait(s));
    }
  }

  lemma ShorterSuffices(s: Settings, t0: nat)
    requires ValidSettings(s) && Permitted(s, t0)
    requires RetryRuns(Scaled(s.ackTimeout, s.ackRandomFactor), s.maximumRetransmitCount)
    requires WaitRuns(MaximumTransmitWait(s)) ==> WaitRuns(Bound(s, s.maximumRetransmitCount + 1))
    ensures TimersSuffice(s, t0, MaximumTransmitWait(s))
  {
    var n, longest := s.maximumRetransmitCount, Scaled(s.ackTimeout, s.ackRandomFactor);
    WaitFormula(t0, n);
    WaitFormula(longest, n);
    MulMonotone(t0, longest, Pow2(n));
    if WaitRuns(MaximumTransmitWait(s)) {
      ComputedIsBound(s, n + 1);
      WithinBound(s, t0, n + 1);
    }
  }

  /** A Confirmable request that is never answered, with settings whose transmit wait fits 31 bits:
      however the timers fire, it is fully tried, the last retransmission comes within
      MAX_TRANSMIT_SPAN and giving up within MAX_TRANSMIT_WAIT. */
  lemma ReliableTransmission(s: Settings, now: nat, u: UserRequest, reply: ReplyId, token: Token, id: uint16,
                             randomTimeout: nat, events: seq<Timed>)
    requires ValidSettings(s) && u.message.mtype.Confirmable? && !u.target.Multicast?
    requires s.ackTimeout < MaximumTimeout(s) ==> s.ackTimeout <= randomTimeout < MaximumTimeout(s)
    requires s.ackTimeout > 0 && Bound(s, s.maximumRetransmitCount + 1) < 0x8000_0000
    requires Unanswered(s, Start(s, now, u, reply, token, id, randomTimeout), events)
    ensures var h, t0, n := Start(s, now, u, reply, token, id, randomTimeout),
                            InitialTimeout(s, Confirmable, randomTimeout), s.maximumRetransmitCount;
            && h.exchange.Some? && FullyTried(s, h, Run(h, events), events, now, t0, reply)
            && Permitted(s, t0)
            && Elapsed(t0, n) <= MaximumTransmitSpan(s) && Elapsed(t0, n + 1) <= MaximumTransmitWait(s)
  {
    var t0 := InitialTimeout(s, Confirmable, randomTimeout);
    FirstTimeoutFits(s, randomTimeout);
    WithinSpanAndWait(s, t0);
    StartIsJustSent(s, now, u, reply, token, id, randomTimeout);
    LongEnoughWait(s, Start(s, now, u, reply, token, id, randomTimeout), events, now, t0, reply);
  }

  lemma FirstTimeoutFits(s: Settings, randomTimeout: nat)
    requires ValidSettings(s) && s.ackTimeout > 0 && Bound(s, s.maximumRetransmitCount + 1) < 0x8000_0000
    requires s.ackTimeout < MaximumTimeout(s) ==> s.ackTimeout <= randomTimeout < MaximumTimeout(s)
    ensures var t0 := InitialTimeout(s, Confirmable, randomTimeout);
            Permitted(s, t0) && 0 < t0 < 0x8000_0000
  {
    var longest, k := Scaled(s.ackTimeout, s.ackRandomFactor), s.maximumRetransmitCount + 1;
    AtLeast(s.ackTimeout, s.ackRandomFactor);
    assert Permitted(s, longest);
    WithinBound(s, longest, k);
    ElapsedGrows(longest, 1, k);
    assert Elapsed(longest, 1) == Elapsed(longest, 0) + Wait(longest, 0);
    InitialTimeoutIsPermitted(s, randomTimeout);
  }

  lemma WithinSpanAndWait(s: Settings, t0: nat)
    requires ValidSettings(s) && Permitted(s, t0) && Bound(s, s.maximumRetransmitCount + 1) < 0x8000_0000
    ensures Elapsed(t0, s.maximumRetransmitCount) <= MaximumTransmitSpan(s)
    ensures Elapsed(t0, s.maximumRetransmitCount + 1) <= MaximumTransmitWait(s)
    ensures TimersSuffice(s, t0, MaximumTransmitWait(s))
  {
    WithinComputed(s, t0, s.maximumRetransmitCount + 1);
    BoundGrows(s, s.maximumRetransmitCount);
    WithinComputed(s, t0, s.maximumRetransmitCount);
    assert Wait(t0, s.maximumRetransmitCount) <= Elapsed(t0, s.maximumRetransmitCount + 1);
  }

  lemma WithinComputed(s: Settings, t0: nat, k: nat)
    requires ValidSettings(s) && Permitted(s, t0) && Bound(s, k) < 0x8000_0000
    ensures Elapsed(t0, k) <= Computed(s, k) < 0x8000_0000
  {
    ComputedIsBound(s, k);
    WithinBound(s, t0, k);
  }

  lemma BoundGrows(s: Settings, n: nat)
    requires ValidSettings(s)
    ensures Bound(s, n) <= Bound(s, n + 1)
  {
    Pow2Grows(n, n + 1);
    MulMonotone(Pow2(n) - 1, Pow2(n + 1) - 1, s.ackTimeout);
    ScaledGrows(s.ackTimeout * (Pow2(n) - 1), s.ackTimeout * (Pow2(n + 1) - 1), s.ackRandomFactor);
  }

  lemma ScaledGrows(a: nat, b: nat, f: real)
    requires a <= b && f >= 1.0
    ensures Scaled(a, f) <= Scaled(b, f)
  {
    RealMonotone(a as real, b as real, f);
    RealProduct(a as real, f);
  }

  // Settings that fail

  lemma SmallPowers()
    ensures Pow2(19) == 0x8_0000 && Pow2(20) == 0x10_0000 && Pow2(21) == 0x20_0000 && Pow2(22) == 0x40_0000
  {
    assert Pow2(11) == 2048 && Pow2(8) == 256;
    Doubled(11, 8);
    assert Pow2(20) == 2 * Pow2(19) && Pow2(21) == 2 * Pow2(20) && Pow2(22) == 2 * Pow2(21);
  }

  /** 21 retransmissions from 2000 ms on: the 32-bit product wraps, and giving up comes later than the
      computed transmit wait. */
  lemma WaitOverflows()
    ensures var s := Settings(0, 21, 2000, 1.0, 250_000, 4);
            ValidSettings(s) && Permitted(s, 2000) && Elapsed(2000, 22) > MaximumTransmitWait(s)
  {
    var s := Settings(0, 21, 2000, 1.0, 250_000, 4);
    SmallPowers();
    assert Scaled(2000, 1.0) == 2000;
    assert Bound(s, 22) == 2000 * 0x3F_FFFF;
    BeyondBound(s, 22);
  }

  /** 20 retransmissions with factor 1.5: no product wraps, but the transmit wait converts to a third of
      its value, and wait 20 would be negative as an `int`. */
  lemma ScaledWaitOverflows()
    ensures var s := Settings(0, 20, 2000, 1.5, 250_000, 4);
            && ValidSettings(s) && Permitted(s, 2500) && s.ackTimeout * (Pow2(21) - 1) < 0x1_0000_0000
            && Bound(s, 21) == 6_291_453_000 && MaximumTransmitWait(s) == 1_996_485_704
            && Wait(2500, 20) == 2_621_440_000
            && Armed(0, Wait(2500, 20)) == None
            && !TimersSuffice(s, 2500, MaximumTransmitWait(s))
  {
    SmallPowers();
    WaitFormula(2500, 20);
    assert Wrap32(2000 * 0x1F_FFFF) == 2000 * 0x1F_FFFF;
    assert Scaled(2000 * 0x1F_FFFF, 1.5) == 6_291_453_000;
    assert Scaled(2000, 1.5) == 3000;
  }

  /** 19 retransmissions with factor 1.5: the formula is computed right, and no timer is started
      with it. */
  lemma WaitTimerNeverStarts(r: Request, now: nat)
    requires !r.IsMulticast() && !r.transmissionInProgress
    requires r.maxTransmitWait == MaximumTransmitWait(Settings(0, 19, 2000, 1.5, 250_000, 4))
    ensures r.maxTransmitWait == 3_145_725_000 && Transmitted(r, now).maxTransmitWaitTimer == None
  {
    SmallPowers();
    assert Wrap32(2000 * 0xF_FFFF) == 2000 * 0xF_FFFF;
    assert Scaled(2000 * 0xF_FFFF, 1.5) == 3_145_725_000;
  }

  // Later transmissions

  /** Stopping resets the counter but not the timeout: the next block of a transfer starts with the
      wait its predecessor had got to. */
  lemma NextBlockWaitsDoubled(s: Settings, now: nat, ex: Exchange, r: Received, freshId: uint16, first: Request,
                              start: nat, t0: nat, k: nat)
    requires ex.request == Retried(first, start, t0, k) && !first.IsMulticast() && t0 > 0
    requires Accepts(ex, r) && !IsError(r.reply.code) && !Decide(s, r.reply).Finish?
    ensures var next := OnFrame(s, now, ex, r, freshId).next;
            && next.Some? && next.value.request.retransmissionCounter == 0
            && next.value.request.timeout == Wait(t0, k)
            && next.value.request.timeoutTimer == Armed(now, Wait(t0, k))
            && next.value.request.maxTransmitWaitTimer == Armed(now, first.maxTransmitWait)
  {
    WaitGrows(t0, k, k);
    var stopped := Answered(Accept(ex, r));
    AcceptStops(ex, r);
    NextBlockTimers(now, stopped, r.sender, Decide(s, r.reply), freshId, Answers(Accept(ex, r), r));
  }

  lemma AcceptStops(ex: Exchange, r: Received)
    requires !ex.request.IsMulticast()
    ensures var request := Answered(Accept(ex, r)).request;
            && !request.transmissionInProgress && request.retransmissionCounter == 0
            && request.timeout == ex.request.timeout && request.maxTransmitWait == ex.request.maxTransmitWait
            && !request.IsMulticast()
  {
  }

  lemma NextBlockTimers(now: nat, ex: Exchange, sender: Address, c: Continuation, freshId: uint16,
                        answers: seq<Datagram>)
    requires ex.replies != [] && !c.Finish? && !ex.request.IsMulticast() && !ex.request.transmissionInProgress
    requires ex.request.timeout > 0
    ensures var next := Proceed(now, ex, sender, c, freshId, answers).next;
            && next.Some? && next.value.request.retransmissionCounter == ex.request.retransmissionCounter
            && next.value.request.timeout == ex.request.timeout
            && next.value.request.timeoutTimer == Armed(now, ex.request.timeout)
            && next.value.request.maxTransmitWaitTimer == Armed(now, ex.request.maxTransmitWait)
  {
    var r := Turned(ex.request, c);
    assert r == ex.request.(message := r.message);
  }

  // Requests that are not Confirmable

  function Earlier(a: Option<nat>, b: Option<nat>): Option<nat> {
    if a.None? then b else if b.None? then a else Some(if a.value <= b.value then a.value else b.value)
  }

  /** How long such a request waits for an answer: until the first of its timers that run runs out. */
  function Patience(s: Settings): Option<nat> {
    var timeout, wait := MaximumTimeout(s), MaximumTransmitWait(s);
    Earlier(if 0 < timeout && WaitRuns(timeout) then Some(timeout) else None,
            if WaitRuns(wait) then Some(wait) else None)
  }

  lemma NonConfirmableStarts(s: Settings, now: nat, u: UserRequest, reply: ReplyId, token: Token, id: uint16,
                             randomTimeout: nat)
    requires !u.message.mtype.Confirmable? && !u.target.Multicast?
    ensures var ex := Start(s, now, u, reply, token, id, randomTimeout).exchange;
            && ex.Some? && ex.value.userReply == Some(reply) && !ex.value.request.message.mtype.Confirmable?
            && ex.value.request.timeoutTimer
               == (if MaximumTimeout(s) > 0 then Armed(now, MaximumTimeout(s)) else None)
            && ex.value.request.maxTransmitWaitTimer == Armed(now, MaximumTransmitWait(s))
  {
    var r := InitialRequest(s, u, token, id, randomTimeout);
    assert !r.IsMulticast() && !r.transmissionInProgress && !r.message.mtype.Confirmable?;
  }

  lemma PatienceIsFirst(s: Settings, now: nat, ex: Exchange, e: Timed)
    requires ex.request.timeoutTimer == if MaximumTimeout(s) > 0 then Armed(now, MaximumTimeout(s)) else None
    requires ex.request.maxTransmitWaitTimer == Armed(now, MaximumTransmitWait(s))
    ensures Fires(ex, e) ==> Patience(s).Some? && e.now == now + Patience(s).value
  {
    DeadlineOfWait(now, MaximumTimeout(s));
    DeadlineOfWait(now, MaximumTransmitWait(s));
  }

  lemma EndsAtOnce(s: Settings, ex: Exchange, e: Timed)
    requires !ex.request.message.mtype.Confirmable? && Fires(ex, e)
    ensures Handle(s, e.now, ex, e.event) == OnError(ex, TimeOut, None)
  {
  }

  /** An unanswered request to one host that is not Confirmable is sent once, whatever the settings, and given up
      with a time-out when its patience is over. */
  lemma NonConfirmableRun(s: Settings, now: nat, u: UserRequest, reply: ReplyId, token: Token, id: uint16,
                          randomTimeout: nat, events: seq<Timed>)
    requires !u.message.mtype.Confirmable? && !u.target.Multicast?
    requires Unanswered(s, Start(s, now, u, reply, token, id, randomTimeout), events)
    ensures var h := Start(s, now, u, reply, token, id, randomTimeout);
            && |events| <= 1 && Run(h, events).sends == h.sends
            && (events != [] ==>
                  && Run(h, events).exchange.None?
                  && Patience(s).Some? && events[0].now == now + Patience(s).value
                  && Run(h, events).posts
                     == h.posts + [Post(reply, SetError(TimeOut)), Post(reply, SetFinished(Ok))])
  {
    if events != [] {
      var h := Start(s, now, u, reply, token, id, randomTimeout);
      FirstEvent(s, h, events);
      NonConfirmableStarts(s, now, u, reply, token, id, randomTimeout);
      PatienceIsFirst(s, now, h.exchange.value, events[0]);
      EndsAtOnce(s, h.exchange.value, events[0]);
      OnlyEvent(s, h, events);
      assert h.sends + [] == h.sends;
    }
  }

  lemma {:induction false} FirstEvent(s: Settings, h: History, events: seq<Timed>)
    requires events != [] && Unanswered(s, h, events)
    ensures events[0].settings == s && h.exchange.Some? && Fires(h.exchange.value, events[0])
  {
    if |events| > 1 {
      FirstEvent(s, h, events[..|events| - 1]);
    } else {
      assert events[..0] == [];
    }
  }

  lemma {:induction false} OnlyEvent(s: Settings, h: History, events: seq<Timed>)
    requires events != [] && Unanswered(s, h, events) && Step(h, events[0]).exchange.None?
    ensures events == [events[0]] && Run(h, events) == Step(h, events[0])
  {
    var front := events[..|events| - 1];
    if front != [] {
      OnlyEvent(s, h, front);
      assert false;
    } else {
      assert events == [events[0]] && [events[0]][..0] == [];
    }
  }
}
