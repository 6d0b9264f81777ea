/** Multicast requests that observe: every complete response, of whatever host, is a notification,
    and clears what has been stored for all hosts. */
module MulticastObservation {
  import opened CoapTypes
  import opened StableOrder
  import opened OptionList
  import opened Blocks
  import opened Codec
  import opened Reassembly
  import opened Requests
  import opened Exchanges
  import opened FrameFacts
  import opened Observation
  import opened Retransmission
  import opened TransmissionTimers
  import opened Multicasting
  import opened HostResponses

  /** A multicast exchange that observes for a live user. */
  ghost predicate Watches(ex: Exchange, user: ReplyId) {
    && ex.userReply == Some(user) && ex.request.IsMulticast()
    && ex.request.IsObserve() && !ex.request.observeCancelled && Sorted(ex.request.message.options)
  }

  /** A multicast request with an Observe option starts like that. */
  lemma WatchStarts(s: Settings, now: nat, u: UserRequest, reply: ReplyId, token: Token, id: uint16,
                    randomTimeout: nat)
    requires ValidSettings(s) && u.target.Multicast? && randomTimeout < 0x1_0000_0000
    requires Sorted(u.message.options) && HasOption(u.message.options, OBSERVE)
    ensures var h := Start(s, now, u, reply, token, id, randomTimeout);
            && h.exchange.Some? && Watches(h.exchange.value, reply) && h.exchange.value.replies == []
            && TimersMatch(h.exchange.value.request)
  {
    var r := Request(u.message.(token := token, id := id), u.methodCode, u.message.payload, u.target,
                     0, 0, false, false, MaximumTransmitWait(s), MulticastTimeout(s), None, None, None);
    RequestBlockKeepsNamed(r, 0, s.blockSize, OBSERVE);
    SendBlockKeepsNamed(SetToRequestBlock(r, 0, s.blockSize), 0, s.blockSize, OBSERVE);
    StartTimers(s, now, u, reply, token, id, randomTimeout);
  }

  // What is merged

  /** For every complete response of `host`, the frames it is merged from: those of the host among the
      frames since the last complete response of any host. */
  function Delivered(kind: Received -> Kind, frames: seq<Received>, host: Address): seq<seq<Received>> {
    if frames == [] then []
    else
      var front, f := frames[..|frames| - 1], frames[|frames| - 1];
      Delivered(kind, front, host)
      + if kind(f).Last? && f.sender == host then [FromSender(SinceLast(kind, front), host) + [f]] else []
  }

  lemma OneMoreDelivered(kind: Received -> Kind, frames: seq<Received>, f: Received, host: Address)
    ensures Delivered(kind, frames + [f], host)
         == Delivered(kind, frames, host)
            + if kind(f).Last? && f.sender == host then [FromSender(SinceLast(kind, frames), host) + [f]] else []
  {
    assert (frames + [f])[..|frames|] == frames;
  }

  /** The frames of the host's present response that a response of another host has cleared. */
  function Lost(kind: Received -> Kind, frames: seq<Received>, host: Address): seq<Received> {
    if frames == [] then []
    else
      var front, f := frames[..|frames| - 1], frames[|frames| - 1];
      if !kind(f).Last? then Lost(kind, front, host)
      else if f.sender == host then []
      else SinceLast(kind, FromSender(front, host))
  }

  lemma OneMoreOwn(kind: Received -> Kind, front: seq<Received>, f: Received, host: Address)
    ensures FromSender(front + [f], host) == FromSender(front, host) + if f.sender == host then [f] else []
    ensures SinceLast(kind, FromSender(front + [f], host))
         == (if f.sender != host || kind(f).Ignored? then SinceLast(kind, FromSender(front, host))
             else if kind(f).Last? then [] else SinceLast(kind, FromSender(front, host)) + [f])
    ensures Responses(kind, FromSender(front + [f], host))
         == Responses(kind, FromSender(front, host))
            + if kind(f).Last? && f.sender == host then [SinceLast(kind, FromSender(front, host)) + [f]] else []
  {
    var own := FromSender(front, host);
    FromSenderConcat(front, [f], host);
    FromSenderOne(f, host);
    OneMoreFrame(kind, own, f);
    assert own + [] == own && Responses(kind, own) + [] == Responses(kind, own);
  }

  /** What waits for the end of the host's response was lost, or is still stored. */
  lemma {:induction false} LostAndStored(kind: Received -> Kind, frames: seq<Received>, host: Address)
    ensures SinceLast(kind, FromSender(frames, host))
         == Lost(kind, frames, host) + FromSender(SinceLast(kind, frames), host)
  {
    if frames != [] {
      var front, f := frames[..|frames| - 1], frames[|frames| - 1];
      assert frames == front + [f];
      LostAndStored(kind, front, host);
      OneMoreOwn(kind, front, f, host);
      if kind(f).Middle? {
        FromSenderConcat(SinceLast(kind, front), [f], host);
        FromSenderOne(f, host);
        Appended(Lost(kind, front, host), FromSender(SinceLast(kind, front), host), f);
      }
    }
  }

  lemma Appended<T>(a: seq<T>, b: seq<T>, x: T)
    ensures a + b + [x] == a + (b + [x]) && b + [] == b
  {
  }

  // When something is lost

  /** Frame `i` belongs to a response of the host that is not complete yet. */
  ghost predicate Waits(kind: Received -> Kind, frames: seq<Received>, host: Address, i: int) {
    && 0 <= i < |frames| && frames[i].sender == host && kind(frames[i]).Middle?
    && forall k :: i <= k < |frames| ==> !(kind(frames[k]).Last? && frames[k].sender == host)
  }

  /** A complete response of another host came behind such a frame. */
  ghost predicate Interrupted(kind: Received -> Kind, frames: seq<Received>, host: Address) {
    exists i, j :: Waits(kind, frames, host, i) && i < j < |frames| && kind(frames[j]).Last? && frames[j].sender != host
  }

  lemma WaitsLater(kind: Received -> Kind, front: seq<Received>, f: Received, host: Address, i: int)
    ensures Waits(kind, front + [f], host, i) <==>
              if i == |front| then f.sender == host && kind(f).Middle?
              else Waits(kind, front, host, i) && !(kind(f).Last? && f.sender == host)
  {
    var all := front + [f];
    assert all[|front|] == f && forall k :: 0 <= k < |front| ==> all[k] == front[k];
    if Waits(kind, all, host, i) && i != |front| {
      assert forall k :: i <= k < |front| ==> !(kind(all[k]).Last? && all[k].sender == host);
    }
  }

  lemma {:induction false} WaitingExactly(kind: Received -> Kind, frames: seq<Received>, host: Address)
    ensures SinceLast(kind, FromSender(frames, host)) != [] <==> exists i :: Waits(kind, frames, host, i)
  {
    if frames != [] {
      var front, f := frames[..|frames| - 1], frames[|frames| - 1];
      assert frames == front + [f];
      WaitingExactly(kind, front, host);
      OneMoreOwn(kind, front, f, host);
      forall i ensures Waits(kind, frames, host, i) <==>
                         if i == |front| then f.sender == host && kind(f).Middle?
                         else Waits(kind, front, host, i) && !(kind(f).Last? && f.sender == host) {
        WaitsLater(kind, front, f, host, i);
      }
      if kind(f).Middle? && f.sender == host {
        assert Waits(kind, frames, host, |front|);
      } else if !(kind(f).Last? && f.sender == host) {
        assert forall i :: Waits(kind, front, host, i) ==> Waits(kind, frames, host, i);
        assert forall i :: Waits(kind, frames, host, i) ==> Waits(kind, front, host, i);
      }
    }
  }

  lemma {:induction false} LostExactly(kind: Received -> Kind, frames: seq<Received>, host: Address)
    ensures Lost(kind, frames, host) != [] <==> Interrupted(kind, frames, host)
  {
    if frames != [] {
      var front, f := frames[..|frames| - 1], frames[|frames| - 1];
      assert frames == front + [f];
      LostExactly(kind, front, host);
      forall i ensures Waits(kind, frames, host, i) <==>
                         if i == |front| then f.sender == host && kind(f).Middle?
                         else Waits(kind, front, host, i) && !(kind(f).Last? && f.sender == host) {
        WaitsLater(kind, front, f, host, i);
      }
      if kind(f).Last? && f.sender != host {
        WaitingExactly(kind, front, host);
        InterruptedNow(kind, front, f, host);
      } else {
        InterruptedBefore(kind, front, f, host);
      }
    }
  }

  lemma InterruptedNow(kind: Received -> Kind, front: seq<Received>, f: Received, host: Address)
    requires kind(f).Last? && f.sender != host
    requires forall i :: Waits(kind, front + [f], host, i) <==> i != |front| && Waits(kind, front, host, i)
    ensures Interrupted(kind, front + [f], host) <==> exists i :: Waits(kind, front, host, i)
  {
    var all := front + [f];
    if i :| Waits(kind, front, host, i) {
      assert Waits(kind, all, host, i) && all[|front|] == f;
    }
  }

  lemma InterruptedBefore(kind: Received -> Kind, front: seq<Received>, f: Received, host: Address)
    requires !(kind(f).Last? && f.sender != host)
    requires forall i :: Waits(kind, front + [f], host, i) <==>
                           if i == |front| then f.sender == host && kind(f).Middle?
                           else Waits(kind, front, host, i) && !(kind(f).Last? && f.sender == host)
    ensures Interrupted(kind, front + [f], host)
            <==> Interrupted(kind, front, host) && !(kind(f).Last? && f.sender == host)
  {
    var all := front + [f];
    assert all[|front|] == f && forall k :: 0 <= k < |front| ==> all[k] == front[k];
    if Interrupted(kind, all, host) {
      var i, j :| Waits(kind, all, host, i) && i < j < |all| && kind(all[j]).Last? && all[j].sender != host;
      assert j != |front| && Waits(kind, front, host, i);
    }
  }

  /** Some response of the host was complete only after a complete response of another host had come
      behind its first frame. */
  ghost predicate Interleaved(kind: Received -> Kind, frames: seq<Received>, host: Address) {
    frames != []
    && (var front, f := frames[..|frames| - 1], frames[|frames| - 1];
        || Interleaved(kind, front, host)
        || (kind(f).Last? && f.sender == host && Interrupted(kind, front, host)))
  }

  /** The host's responses are merged from exactly their own frames if and only if none of them is
      interleaved with a complete response of another host. */
  lemma {:induction false} DeliveredIsOwnExactly(kind: Received -> Kind, frames: seq<Received>, host: Address)
    ensures |Delivered(kind, frames, host)| == |Responses(kind, FromSender(frames, host))|
    ensures Delivered(kind, frames, host) == Responses(kind, FromSender(frames, host))
            <==> !Interleaved(kind, frames, host)
  {
    if frames != [] {
      var front, f := frames[..|frames| - 1], frames[|frames| - 1];
      assert frames == front + [f];
      DeliveredIsOwnExactly(kind, front, host);
      OneMoreOwn(kind, front, f, host);
      OneMoreDelivered(kind, front, f, host);
      if kind(f).Last? && f.sender == host {
        LostAndStored(kind, front, host);
        LostExactly(kind, front, host);
        var stored := FromSender(SinceLast(kind, front), host);
        NothingAhead(Lost(kind, front, host), stored, f);
        LastAlike(Delivered(kind, front, host), stored + [f],
                  Responses(kind, FromSender(front, host)), Lost(kind, front, host) + stored + [f]);
      } else {
        assert Delivered(kind, front, host) + [] == Delivered(kind, front, host);
        assert Responses(kind, FromSender(front, host)) + [] == Responses(kind, FromSender(front, host));
      }
    }
  }

  lemma NothingAhead<T>(a: seq<T>, b: seq<T>, x: T)
    ensures b + [x] == a + b + [x] <==> a == []
  {
    assert |a + b + [x]| == |a| + |b| + 1;
    if a == [] {
      assert a + b == b;
    }
  }

  // What that means for the contents

  /** Whenever a response of the host is complete, the blocks it has lost have come again. */
  ghost predicate AllRecovered(frames: seq<Received>, host: Address) {
    frames == []
    || (var front, f := frames[..|frames| - 1], frames[|frames| - 1];
        && AllRecovered(front, host)
        && (Classify(f).Last? && f.sender == host ==>
              Settled(Lost(Classify, front, host), FromSender(SinceLast(Classify, front), host) + [f])))
  }

  ghost predicate LossesComparable(frames: seq<Received>, host: Address) {
    frames == []
    || (var front, f := frames[..|frames| - 1], frames[|frames| - 1];
        && LossesComparable(front, host)
        && (Classify(f).Last? && f.sender == host ==>
              Comparable(Lost(Classify, front, host), FromSender(SinceLast(Classify, front), host) + [f])))
  }

  lemma {:induction false} SinceLastSmall(frames: seq<Received>)
    requires SmallNumbers(frames)
    ensures SmallNumbers(SinceLast(Classify, frames))
  {
    if frames != [] {
      var front, f := frames[..|frames| - 1], frames[|frames| - 1];
      assert f in frames && forall r :: r in front ==> r in frames;
      SinceLastSmall(front);
    }
  }

  lemma LostSmall(front: seq<Received>, f: Received, host: Address)
    requires SmallNumbers(front + [f])
    ensures SmallNumbers(Lost(Classify, front, host))
    ensures SmallNumbers(FromSender(SinceLast(Classify, front), host) + [f])
  {
    var lost, stored := Lost(Classify, front, host), FromSender(SinceLast(Classify, front), host);
    SmallFront(front, [f]);
    SmallFromSender(front, host);
    SinceLastSmall(FromSender(front, host));
    LostAndStored(Classify, front, host);
    SmallFront(lost, stored);
    SinceLastSmall(front);
    SmallFromSender(SinceLast(Classify, front), host);
    assert f in front + [f];
    BothSmall(stored, [f]);
  }

  lemma RecoveredStep(front: seq<Received>, f: Received, host: Address, user: ReplyId)
    requires SmallNumbers(front + [f]) && Classify(f).Last? && f.sender == host
    ensures var lost, kept := Lost(Classify, front, host), FromSender(SinceLast(Classify, front), host) + [f];
            && (ContentPosts(user, Messages(Merge, Delivered(Classify, front + [f], host)))
                == ContentPosts(user, Messages(Merge, Responses(Classify, FromSender(front + [f], host))))
                <==> ContentPosts(user, Messages(Merge, Delivered(Classify, front, host)))
                     == ContentPosts(user, Messages(Merge, Responses(Classify, FromSender(front, host))))
                     && Merge(lost + kept) == Merge(kept))
            && (Settled(lost, kept) ==> Merge(lost + kept) == Merge(kept))
            && (Comparable(lost, kept) ==> (Merge(lost + kept) == Merge(kept) <==> Settled(lost, kept)))
  {
    var lost, stored := Lost(Classify, front, host), FromSender(SinceLast(Classify, front), host);
    LostSmall(front, f, host);
    FrontMattersExactly(lost, stored + [f]);
    LostAndStored(Classify, front, host);
    assert (lost + stored) + [f] == lost + (stored + [f]);
    MessagesGrow(front, f, host, user);
  }

  lemma MessagesGrow(front: seq<Received>, f: Received, host: Address, user: ReplyId)
    requires Classify(f).Last? && f.sender == host
    ensures var stored := FromSender(SinceLast(Classify, front), host);
            var waiting := SinceLast(Classify, FromSender(front, host));
            ContentPosts(user, Messages(Merge, Delivered(Classify, front + [f], host)))
            == ContentPosts(user, Messages(Merge, Responses(Classify, FromSender(front + [f], host))))
            <==> ContentPosts(user, Messages(Merge, Delivered(Classify, front, host)))
                 == ContentPosts(user, Messages(Merge, Responses(Classify, FromSender(front, host))))
                 && Merge(stored + [f]) == Merge(waiting + [f])
  {
    var stored, waiting := FromSender(SinceLast(Classify, front), host), SinceLast(Classify, FromSender(front, host));
    var delivered, own := Delivered(Classify, front, host), Responses(Classify, FromSender(front, host));
    OneMoreOwn(Classify, front, f, host);
    OneMoreDelivered(Classify, front, f, host);
    OneMoreMessage(Merge, delivered, stored, f);
    OneMoreMessage(Merge, own, waiting, f);
    PostsGrowAlike(user, Messages(Merge, delivered), Messages(Merge, own), f, Merge(stored + [f]),
                   Merge(waiting + [f]));
  }

  /** All frames, of all hosts: the responses of `host` are delivered with the merges of their own
      frames if the blocks they have lost have come again every time; with comparable copies, only
      then. */
  lemma {:induction false} OwnContentsExactly(frames: seq<Received>, host: Address, user: ReplyId)
    requires SmallNumbers(frames)
    ensures var delivered := ContentPosts(user, Messages(Merge, Delivered(Classify, frames, host)));
            var own := ContentPosts(user, Messages(Merge, Responses(Classify, FromSender(frames, host))));
            && (AllRecovered(frames, host) ==> delivered == own)
            && (LossesComparable(frames, host) ==> (delivered == own <==> AllRecovered(frames, host)))
  {
    if frames != [] {
      var front, f := frames[..|frames| - 1], frames[|frames| - 1];
      assert frames == front + [f];
      SmallFront(front, [f]);
      OwnContentsExactly(front, host, user);
      if Classify(f).Last? && f.sender == host {
        RecoveredStep(front, f, host, user);
      } else {
        OneMoreOwn(Classify, front, f, host);
        assert Delivered(Classify, front, host) + [] == Delivered(Classify, front, host);
        assert Responses(Classify, FromSender(front, host)) + [] == Responses(Classify, FromSender(front, host));
      }
    }
  }

  // Responses in which no block comes twice

  /** No block is empty and none comes twice. */
  ghost predicate Distinct(response: seq<Received>) {
    && (forall i :: 0 <= i < |response| ==> Payload(response[i]) != [])
    && (forall i, j :: 0 <= i < j < |response| ==> BlockNumber(response[i]) != BlockNumber(response[j]))
  }

  ghost predicate AllDistinct(frames: seq<Received>, host: Address) {
    forall response :: response in Responses(Classify, FromSender(frames, host)) ==> Distinct(response)
  }

  lemma DistinctParts(a: seq<Received>, b: seq<Received>)
    requires Distinct(a + b)
    ensures Comparable(a, b) && (Settled(a, b) <==> a == [])
  {
    var all := a + b;
    forall x, y | x in a && y in b ensures BlockNumber(x) != BlockNumber(y) {
      var i :| 0 <= i < |a| && a[i] == x;
      var j :| 0 <= j < |b| && b[j] == y;
      assert all[i] == x && all[|a| + j] == y;
    }
    forall k ensures Copy(a, k) == [] || Copy(b, k) == [] {
      CopyExists(a, k);
      CopyExists(b, k);
    }
    forall k ensures |Copy(a + b, k)| >= |Copy(b, k)| {
      CopyOfBoth(a, b, k);
    }
    if a != [] {
      assert all[0] == a[0] && a[0] in a;
      CopyExists(a, BlockNumber(a[0]));
    } else {
      assert forall k :: Copy(a, k) == [];
    }
  }

  lemma {:induction false} DistinctExactly(frames: seq<Received>, host: Address)
    requires AllDistinct(frames, host)
    ensures LossesComparable(frames, host) && (AllRecovered(frames, host) <==> !Interleaved(Classify, frames, host))
  {
    if frames != [] {
      var front, f := frames[..|frames| - 1], frames[|frames| - 1];
      assert frames == front + [f];
      OneMoreOwn(Classify, front, f, host);
      var own := Responses(Classify, FromSender(front, host));
      assert forall response :: response in own ==> response in Responses(Classify, FromSender(frames, host));
      DistinctExactly(front, host);
      if Classify(f).Last? && f.sender == host {
        var response := SinceLast(Classify, FromSender(front, host)) + [f];
        assert response in own + [response];
        DistinctStep(front, f, host);
      }
    }
  }

  lemma DistinctStep(front: seq<Received>, f: Received, host: Address)
    requires Distinct(SinceLast(Classify, FromSender(front, host)) + [f])
    ensures var lost, kept := Lost(Classify, front, host), FromSender(SinceLast(Classify, front), host) + [f];
            Comparable(lost, kept) && (Settled(lost, kept) <==> !Interrupted(Classify, front, host))
  {
    var lost, stored := Lost(Classify, front, host), FromSender(SinceLast(Classify, front), host);
    LostAndStored(Classify, front, host);
    LostExactly(Classify, front, host);
    assert (lost + stored) + [f] == lost + (stored + [f]);
    DistinctParts(lost, stored + [f]);
  }

  // The posts of an observing exchange

  /** The success contents of `host` the user is notified of. */
  function Heard(posts: seq<Post>, host: Address): seq<Post> {
    if posts == [] then []
    else
      var n := |posts| - 1;
      Heard(posts[..n], host)
      + if posts[n].slot.SetNotified? && n > 0 && IsSuccessOf(posts[n - 1], host) then [posts[n - 1]] else []
  }

  lemma {:induction false} HeardMore(a: seq<Post>, b: seq<Post>, host: Address)
    requires b != [] ==> !b[0].slot.SetNotified?
    ensures Heard(a + b, host) == Heard(a, host) + Heard(b, host)
    decreases |b|
  {
    if b == [] {
      assert a + b == a;
    } else {
      var front, n := b[..|b| - 1], |b| - 1;
      HeardMore(a, front, host);
      assert (a + b)[..|a + b| - 1] == a + front && (a + b)[|a + b| - 1] == b[n];
      assert n > 0 ==> (a + b)[|a + b| - 2] == b[n - 1];
    }
  }

  lemma {:induction false} NothingHeard(posts: seq<Post>, host: Address)
    requires NoNotification(posts)
    ensures Heard(posts, host) == []
  {
    if posts != [] {
      NothingHeard(posts[..|posts| - 1], host);
    }
  }

  lemma NotifiedPair(user: ReplyId, m: Received, host: Address)
    requires !IsError(m.reply.code)
    ensures Heard([ContentOf(user, m), Post(user, SetNotified)], host)
         == if m.sender == host then [ContentOf(user, m)] else []
  {
    var posts := [ContentOf(user, m), Post(user, SetNotified)];
    var first := posts[..1];
    assert posts[..|posts| - 1] == first && first[..|first| - 1] == [];
    assert Heard(first, host) == [] + [];
    assert IsSuccessOf(posts[0], host) <==> m.sender == host;
  }

  lemma WatchedLast(ex: Exchange, before: seq<Received>, r: Received, user: ReplyId)
    requires Watches(ex, user) && ex.replies == before + [r] && BlockNumber(r) < MAX_BLOCK
    ensures var effect := OnLastMessage(ex);
            && effect.next == Some(ex.(replies := if IsEmptyAck(r) then before else []))
            && effect.posts == (if IsEmptyAck(r) then []
                                else [ContentOf(user, Completed(Merge, before, r)), Post(user, SetNotified)])
  {
    assert ex.replies[..|ex.replies| - 1] == before;
    FromSenderConcat(before, [r], r.sender);
    FromSenderOne(r, r.sender);
    if before == [] {
      MergeSingle(r);
      assert FromSender(before, r.sender) + [r] == [r];
    }
    assert FinalPayload(true, ex.replies) == Merge(FromSender(before, r.sender) + [r]);
  }

  lemma WatchedFrame(s: Settings, now: nat, ex: Exchange, r: Received, freshId: uint16, user: ReplyId)
    requires Watches(ex, user) && !IsError(r.reply.code) && BlockNumber(r) < MAX_BLOCK
    ensures var effect := OnFrame(s, now, ex, r, freshId);
            && effect.next.Some? && Watches(effect.next.value, user)
            && effect.next.value.replies == (match Classify(r)
                                             case Middle => ex.replies + [r]
                                             case Last => []
                                             case Ignored => ex.replies)
            && effect.posts == (if Classify(r).Last?
                                then [ContentOf(user, Completed(Merge, ex.replies, r)), Post(user, SetNotified)]
                                else [])
  {
    if Complete(r) {
      FinalFrame(s, now, ex, r, freshId);
      WatchedLast(Accept(ex, r), ex.replies, r, user);
    } else {
      MiddleFrame(s, now, ex, r, freshId);
    }
  }

  // What ends a multicast observation

  /** A disturbance, or the cancellation. */
  predicate EndsWatch(e: LocalEvent, user: ReplyId) {
    Disturbs(e, user) || e.Cancel?
  }

  /** The events before that. */
  function Watched(events: seq<Timed>, user: ReplyId): (r: seq<Timed>)
    ensures r <= events
  {
    if events == [] then []
    else
      var front := Watched(events[..|events| - 1], user);
      if |front| == |events| - 1 && !EndsWatch(events[|events| - 1].event, user) then events else front
  }

  /** Exactly these events end the observation, and they bring no notification. */
  lemma WatchEndsExactly(s: Settings, now: nat, ex: Exchange, e: LocalEvent, user: ReplyId)
    requires Watches(ex, user) && TimersMatch(ex.request) && TimersAllow(ex, now, e)
    requires SmallNumbers(AnyFrame(e))
    ensures var effect := Handle(s, now, ex, e);
            && (StillObserving(effect.next) <==> !EndsWatch(e, user))
            && (EndsWatch(e, user) ==> NoNotification(effect.posts) && Ended(effect.next))
  {
    if AnyFrame(e) != [] {
      assert e.received in AnyFrame(e);
      WatchedFrame(s, now, ex, e.received, e.freshId, user);
    }
  }

  // Every run

  /** The exchange while it observes: stored are the frames since the last complete response, of
      whatever host, and of every host the user has heard what they merge to. */
  ghost predicate Watching(h: History, posts: seq<Post>, user: ReplyId, frames: seq<Received>) {
    && h.exchange.Some? && Watches(h.exchange.value, user) && TimersMatch(h.exchange.value.request)
    && h.exchange.value.replies == SinceLast(Classify, frames) && posts <= h.posts
    && forall host :: HeardOf(h, posts, user, frames, host)
  }

  ghost predicate HeardOf(h: History, posts: seq<Post>, user: ReplyId, frames: seq<Received>, host: Address) {
    && posts <= h.posts
    && Heard(h.posts[|posts|..], host) == ContentPosts(user, Messages(Merge, Delivered(Classify, frames, host)))
  }

  lemma HeardStep(h: History, posts: seq<Post>, user: ReplyId, frames: seq<Received>, r: Received, host: Address,
                  more: seq<Post>, h': History)
    requires HeardOf(h, posts, user, frames, host) && !IsError(r.reply.code) && h'.posts == h.posts + more
    requires more == if Classify(r).Last?
                     then [ContentOf(user, Completed(Merge, SinceLast(Classify, frames), r)), Post(user, SetNotified)]
                     else []
    ensures HeardOf(h', posts, user, frames + [r], host)
  {
    assert (h.posts + more)[|posts|..] == h.posts[|posts|..] + more;
    HeardMore(h.posts[|posts|..], more, host);
    DeliveredPosts(frames, r, host, user);
    if Classify(r).Last? {
      NotifiedPair(user, Completed(Merge, SinceLast(Classify, frames), r), host);
    }
  }

  lemma DeliveredPosts(frames: seq<Received>, r: Received, host: Address, user: ReplyId)
    ensures ContentPosts(user, Messages(Merge, Delivered(Classify, frames + [r], host)))
         == ContentPosts(user, Messages(Merge, Delivered(Classify, frames, host)))
            + if Classify(r).Last? && r.sender == host
              then [ContentOf(user, Completed(Merge, SinceLast(Classify, frames), r))] else []
  {
    var stored := FromSender(SinceLast(Classify, frames), host);
    var delivered := Delivered(Classify, frames, host);
    OneMoreDelivered(Classify, frames, r, host);
    OneMoreMessage(Merge, delivered, stored, r);
    OneMoreContent(user, Messages(Merge, delivered), WithPayload(r, Merge(stored + [r])));
    NothingAdded(ContentPosts(user, Messages(Merge, delivered)), delivered);
  }

  lemma WatchingStep(h: History, e: Timed, posts: seq<Post>, user: ReplyId, frames: seq<Received>)
    requires Watching(h, posts, user, frames) && !EndsWatch(e.event, user)
    requires TimersAllow(h.exchange.value, e.now, e.event) && SmallNumbers(AnyFrame(e.event))
    ensures Watching(Step(h, e), posts, user, frames + AnyFrame(e.event))
  {
    var ex := h.exchange.value;
    var effect := Handle(e.settings, e.now, ex, e.event);
    HandleTimers(e.settings, e.now, ex, e.event);
    if AnyFrame(e.event) == [] {
      WatchEndsExactly(e.settings, e.now, ex, e.event, user);
      SilentWatchEvent(e.settings, e.now, ex, e.event, user);
      NothingAdded(h.posts, frames);
      forall host ensures HeardOf(Step(h, e), posts, user, frames, host) {
        assert HeardOf(h, posts, user, frames, host);
      }
    } else {
      var r := e.event.received;
      assert r in AnyFrame(e.event);
      WatchedFrame(e.settings, e.now, ex, r, e.event.freshId, user);
      OneMoreFrame(Classify, frames, r);
      forall host ensures HeardOf(Step(h, e), posts, user, frames + [r], host) {
        assert HeardOf(h, posts, user, frames, host);
        HeardStep(h, posts, user, frames, r, host, effect.posts, Step(h, e));
      }
    }
  }

  lemma SilentWatchEvent(s: Settings, now: nat, ex: Exchange, e: LocalEvent, user: ReplyId)
    requires Watches(ex, user) && AnyFrame(e) == [] && StillObserving(Handle(s, now, ex, e).next)
    ensures var effect := Handle(s, now, ex, e);
            Watches(effect.next.value, user) && effect.next.value.replies == ex.replies && effect.posts == []
  {
    if !e.Frame? {
      FlagsAreFinal(s, now, ex, e);
      QuietEvent(s, now, ex, e);
    }
  }

  /** What a run has come to: up to its end the observation is as described, and from then on nobody is
      notified of anything. */
  ghost predicate WatchOutcome(h: History, h': History, events: seq<Timed>, user: ReplyId) {
    var clear := Watched(events, user);
    && (if clear == events then Watching(h', h.posts, user, AllFrames(events)) else Ended(h'.exchange))
    && forall host :: HeardOf(h', h.posts, user, AllFrames(clear), host)
  }

  lemma HeardNoMore(h: History, h': History, posts: seq<Post>, user: ReplyId, frames: seq<Received>, host: Address)
    requires HeardOf(h, posts, user, frames, host) && h.posts <= h'.posts && NoNotification(h'.posts[|h.posts|..])
    ensures HeardOf(h', posts, user, frames, host)
  {
    var more := h'.posts[|h.posts|..];
    assert h'.posts[|posts|..] == h.posts[|posts|..] + more;
    HeardMore(h.posts[|posts|..], more, host);
    NothingHeard(more, host);
    NothingAdded(Heard(h.posts[|posts|..], host), frames);
  }

  lemma EndStep(h: History, e: Timed, posts: seq<Post>, user: ReplyId, frames: seq<Received>)
    requires Watching(h, posts, user, frames) && EndsWatch(e.event, user)
    requires TimersAllow(h.exchange.value, e.now, e.event) && SmallNumbers(AnyFrame(e.event))
    ensures Ended(Step(h, e).exchange) && forall host :: HeardOf(Step(h, e), posts, user, frames, host)
  {
    var effect := Handle(e.settings, e.now, h.exchange.value, e.event);
    WatchEndsExactly(e.settings, e.now, h.exchange.value, e.event, user);
    assert (h.posts + effect.posts)[|h.posts|..] == effect.posts;
    forall host ensures HeardOf(Step(h, e), posts, user, frames, host) {
      assert HeardOf(h, posts, user, frames, host);
      HeardNoMore(h, Step(h, e), posts, user, frames, host);
    }
  }

  lemma QuietStep(h: History, e: Timed, posts: seq<Post>, user: ReplyId, frames: seq<Received>)
    requires Ended(h.exchange) && forall host :: HeardOf(h, posts, user, frames, host)
    ensures Ended(Step(h, e).exchange) && forall host :: HeardOf(Step(h, e), posts, user, frames, host)
  {
    EndedStaysQuiet(h, e);
    forall host ensures HeardOf(Step(h, e), posts, user, frames, host) {
      assert HeardOf(h, posts, user, frames, host);
      HeardNoMore(h, Step(h, e), posts, user, frames, host);
    }
  }

  lemma WatchOutcomeStep(h: History, h': History, events: seq<Timed>, e: Timed, user: ReplyId)
    requires WatchOutcome(h, h', events, user) && SmallNumbers(AnyFrame(e.event))
    requires h'.exchange.Some? ==> TimersAllow(h'.exchange.value, e.now, e.event)
    ensures WatchOutcome(h, Step(h', e), events + [e], user)
  {
    assert (events + [e])[..|events + [e]| - 1] == events;
    var clear := Watched(events, user);
    if clear != events {
      assert Watched(events + [e], user) == clear && clear != events + [e];
      QuietStep(h', e, h.posts, user, AllFrames(clear));
    } else if EndsWatch(e.event, user) {
      assert Watched(events + [e], user) == events && events != events + [e];
      EndStep(h', e, h.posts, user, AllFrames(events));
    } else {
      assert Watched(events + [e], user) == events + [e];
      WatchingStep(h', e, h.posts, user, AllFrames(events));
    }
  }

  /** Every run of a multicast observation. */
  lemma {:induction false} EveryWatch(h: History, events: seq<Timed>, user: ReplyId)
    requires h.exchange.Some? && Watches(h.exchange.value, user) && h.exchange.value.replies == []
    requires TimersMatch(h.exchange.value.request)
    requires SmallNumbers(AllFrames(events)) && TimersFair(h, events)
    ensures WatchOutcome(h, Run(h, events), events, user)
  {
    if events == [] {
      assert h.posts[|h.posts|..] == [];
      assert forall host :: HeardOf(h, h.posts, user, [], host);
    } else {
      var front, last := events[..|events| - 1], events[|events| - 1];
      SmallFront(AllFrames(front), AnyFrame(last.event));
      assert forall r :: r in AnyFrame(last.event) ==> r in AllFrames(events);
      EveryWatch(h, front, user);
      WatchOutcomeStep(h, Run(h, front), front, last, user);
      assert events == front + [last];
    }
  }

  // What each host gets

  /** The frames of a host behind the end of the observation. */
  function Missed(events: seq<Timed>, user: ReplyId, host: Address): seq<Received> {
    FromSender(AllFrames(events[|Watched(events, user)|..]), host)
  }

  /** The responses a host has completed, in the whole run. */
  function OwnResponses(events: seq<Timed>, host: Address): seq<seq<Received>> {
    Responses(Classify, FromSender(AllFrames(events), host))
  }

  ghost predicate HearsItsOwn(h: History, h': History, events: seq<Timed>, user: ReplyId, host: Address) {
    && h.posts <= h'.posts
    && Heard(h'.posts[|h.posts|..], host) == ContentPosts(user, Messages(Merge, OwnResponses(events, host)))
  }

  /** Every run of a multicast observation, with any number of hosts. What the user is notified of for
      a host is merged from exactly the host's own responses if and only if none is complete after the
      observation has ended and none is interleaved with a complete response of another host. The
      payloads are those of its own responses also where the blocks lost by that have come again, and,
      with comparable copies, only there; where no block comes twice, only without interleaving. */
  lemma WatchedHostGetsItsOwnExactly(h: History, events: seq<Timed>, user: ReplyId, host: Address)
    requires h.exchange.Some? && Watches(h.exchange.value, user) && h.exchange.value.replies == []
    requires TimersMatch(h.exchange.value.request)
    requires SmallNumbers(AllFrames(events)) && TimersFair(h, events)
    ensures var frames := AllFrames(Watched(events, user));
            HeardOf(Run(h, events), h.posts, user, frames, host)
    ensures var frames := AllFrames(Watched(events, user));
            var intime := CountLast(Classify, Missed(events, user, host)) == 0;
            var own := HearsItsOwn(h, Run(h, events), events, user, host);
            && (Delivered(Classify, frames, host) == OwnResponses(events, host)
                <==> intime && !Interleaved(Classify, frames, host))
            && (intime && AllRecovered(frames, host) ==> own)
            && (LossesComparable(frames, host) ==> (own <==> intime && AllRecovered(frames, host)))
            && (AllDistinct(frames, host) ==> (own <==> intime && !Interleaved(Classify, frames, host)))
  {
    EveryWatch(h, events, user);
    assert HeardOf(Run(h, events), h.posts, user, AllFrames(Watched(events, user)), host);
    HearsExactly(h, Run(h, events), events, user, host);
  }

  lemma HearsExactly(h: History, h': History, events: seq<Timed>, user: ReplyId, host: Address)
    requires SmallNumbers(AllFrames(events)) && HeardOf(h', h.posts, user, AllFrames(Watched(events, user)), host)
    ensures var frames := AllFrames(Watched(events, user));
            var intime := CountLast(Classify, Missed(events, user, host)) == 0;
            var own := HearsItsOwn(h, h', events, user, host);
            && (Delivered(Classify, frames, host) == OwnResponses(events, host)
                <==> intime && !Interleaved(Classify, frames, host))
            && (intime && AllRecovered(frames, host) ==> own)
            && (LossesComparable(frames, host) ==> (own <==> intime && AllRecovered(frames, host)))
            && (AllDistinct(frames, host) ==> (own <==> intime && !Interleaved(Classify, frames, host)))
  {
    var clear := Watched(events, user);
    assert events[..|clear|] == clear;
    SplitFrames(events, |clear|, host);
    SmallClear(events, |clear|);
    GetsItsOwnExactly(AllFrames(clear), Missed(events, user, host), host, user);
  }

  lemma SmallClear(events: seq<Timed>, n: nat)
    requires n <= |events| && SmallNumbers(AllFrames(events))
    ensures SmallNumbers(AllFrames(events[..n]))
  {
    assert events == events[..n] + events[n..];
    AllFramesConcat(events[..n], events[n..]);
    SmallFront(AllFrames(events[..n]), AllFrames(events[n..]));
  }

  lemma GetsItsOwnExactly(frames: seq<Received>, late: seq<Received>, host: Address, user: ReplyId)
    requires SmallNumbers(frames)
    ensures var responses := Responses(Classify, FromSender(frames, host) + late);
            var intime := CountLast(Classify, late) == 0;
            var own := ContentPosts(user, Messages(Merge, Delivered(Classify, frames, host)))
                       == ContentPosts(user, Messages(Merge, responses));
            && (Delivered(Classify, frames, host) == responses <==> intime && !Interleaved(Classify, frames, host))
            && (intime && AllRecovered(frames, host) ==> own)
            && (LossesComparable(frames, host) ==> (own <==> intime && AllRecovered(frames, host)))
            && (AllDistinct(frames, host) ==> (own <==> intime && !Interleaved(Classify, frames, host)))
  {
    var early, delivered := FromSender(frames, host), Delivered(Classify, frames, host);
    if CountLast(Classify, late) == 0 {
      NoLastNoResponse(Classify, early, late);
      InTimeExactly(frames, host, user);
    } else {
      DeliveredIsOwnExactly(Classify, frames, host);
      TooFew(early, delivered, late, user);
    }
  }

  lemma InTimeExactly(frames: seq<Received>, host: Address, user: ReplyId)
    requires SmallNumbers(frames)
    ensures var responses := Responses(Classify, FromSender(frames, host));
            var own := ContentPosts(user, Messages(Merge, Delivered(Classify, frames, host)))
                       == ContentPosts(user, Messages(Merge, responses));
            && (Delivered(Classify, frames, host) == responses <==> !Interleaved(Classify, frames, host))
            && (AllRecovered(frames, host) ==> own)
            && (LossesComparable(frames, host) ==> (own <==> AllRecovered(frames, host)))
            && (AllDistinct(frames, host) ==> (own <==> !Interleaved(Classify, frames, host)))
  {
    DeliveredIsOwnExactly(Classify, frames, host);
    OwnContentsExactly(frames, host, user);
    if AllDistinct(frames, host) {
      DistinctExactly(frames, host);
    }
  }

  lemma TooFew(early: seq<Received>, delivered: seq<seq<Received>>, late: seq<Received>, user: ReplyId)
    requires |delivered| == |Responses(Classify, early)| && CountLast(Classify, late) > 0
    ensures delivered != Responses(Classify, early + late)
    ensures ContentPosts(user, Messages(Merge, delivered))
            != ContentPosts(user, Messages(Merge, Responses(Classify, early + late)))
  {
    CountLastConcat(Classify, early, late);
    ResponsesCount(Classify, early);
    ResponsesCount(Classify, early + late);
    OwnCount(Classify, Merge, early + late, user);
    AtMostOneEach(Merge, delivered, user);
  }

  lemma {:induction false} ResponsesCount(kind: Received -> Kind, frames: seq<Received>)
    ensures |Responses(kind, frames)| == CountLast(kind, frames)
  {
    if frames != [] {
      ResponsesCount(kind, frames[..|frames| - 1]);
    }
  }

  lemma {:induction false} AtMostOneEach(merge: seq<Received> -> Bytes, responses: seq<seq<Received>>, user: ReplyId)
    ensures |ContentPosts(user, Messages(merge, responses))| <= |responses|
  {
    if responses != [] {
      var front, last := responses[..|responses| - 1], responses[|responses| - 1];
      AtMostOneEach(merge, front, user);
      if last != [] {
        OneMoreContent(user, Messages(merge, front), WithPayload(last[|last| - 1], merge(last)));
      } else {
        NothingAdded(Messages(merge, front), last);
      }
    }
  }

  // The failing input

  /** Two hosts: a response of one comes between the two blocks of the other. The user is notified of
      the second block alone; without the first host, of both. */
  lemma ResponseOfAnotherHostCuts(h: History, first: Timed, between: Timed, second: Timed, user: ReplyId)
    requires h.exchange.Some? && Watches(h.exchange.value, user) && h.exchange.value.replies == []
    requires TimersMatch(h.exchange.value.request) && OnlyFrames([first, between, second])
    requires var a0, b, a1 := first.event.received, between.event.received, second.event.received;
             && a0.sender == a1.sender != b.sender
             && Classify(a0).Middle? && Classify(a1).Last? && Classify(b).Last? && BlockNumber(b) < MAX_BLOCK
             && BlockNumber(a0) == 0 && BlockNumber(a1) == 1 && Payload(a0) != []
    ensures var a0, a1 := first.event.received, second.event.received;
            var cut, whole := Run(h, [first, between, second]), Run(h, [first, second]);
            && h.posts <= cut.posts && h.posts <= whole.posts
            && Heard(cut.posts[|h.posts|..], a0.sender) == [ContentOf(user, a1)]
            && Heard(whole.posts[|h.posts|..], a0.sender)
               == [ContentOf(user, WithPayload(a1, Payload(a0) + Payload(a1)))]
            && Payload(a1) != Payload(a0) + Payload(a1)
  {
    var a0, b, a1 := first.event.received, between.event.received, second.event.received;
    var three, two := [first, between, second], [first, second];
    assert first in three && between in three && second in three;
    assert OnlyFrames(two);
    ThreeFrames(first, between, second);
    TwoFrames(first, second);
    FramesAreHeard(h, three, user, a0.sender);
    FramesAreHeard(h, two, user, a0.sender);
    CutMessages(a0, a1, b, user);
  }

  lemma FramesAreHeard(h: History, events: seq<Timed>, user: ReplyId, host: Address)
    requires h.exchange.Some? && Watches(h.exchange.value, user) && h.exchange.value.replies == []
    requires TimersMatch(h.exchange.value.request) && OnlyFrames(events) && SmallNumbers(AllFrames(events))
    ensures HeardOf(Run(h, events), h.posts, user, AllFrames(events), host)
  {
    OnlyFramesWatched(h, events, user);
    EveryWatch(h, events, user);
  }

  lemma ThreeFrames(a: Timed, b: Timed, c: Timed)
    requires OnlyFrames([a, b, c])
    ensures AllFrames([a, b, c]) == [a.event.received, b.event.received, c.event.received]
  {
    assert a in [a, b, c] && b in [a, b, c] && c in [a, b, c];
    assert [a, b, c][..2] == [a, b];
    TwoFrames(a, b);
  }

  lemma {:induction false} OnlyFramesWatched(h: History, events: seq<Timed>, user: ReplyId)
    requires OnlyFrames(events)
    ensures Watched(events, user) == events && TimersFair(h, events)
  {
    if events != [] {
      var front, last := events[..|events| - 1], events[|events| - 1];
      assert last in events && forall e :: e in front ==> e in events;
      OnlyFramesWatched(h, front, user);
    }
  }

  lemma CutMessages(a0: Received, a1: Received, b: Received, user: ReplyId)
    requires a0.sender == a1.sender != b.sender
    requires Classify(a0).Middle? && Classify(a1).Last? && Classify(b).Last?
    requires BlockNumber(a0) == 0 && BlockNumber(a1) == 1 && Payload(a0) != []
    ensures ContentPosts(user, Messages(Merge, Delivered(Classify, [a0, b, a1], a0.sender))) == [ContentOf(user, a1)]
    ensures ContentPosts(user, Messages(Merge, Delivered(Classify, [a0, a1], a0.sender)))
         == [ContentOf(user, WithPayload(a1, Payload(a0) + Payload(a1)))]
    ensures Payload(a1) != Payload(a0) + Payload(a1)
  {
    FramesOfTwo(Classify, a0, a1, b);
    OneMoreMessage(Merge, [], [], a1);
    OneMoreMessage(Merge, [], [a0], a1);
    MergeSingle(a1);
    MergeTwo(a0, a1);
    assert [] + [a1] == [a1] && [a0] + [a1] == [a0, a1];
    assert WithPayload(a1, Payload(a1)) == a1;
    OneMoreContent(user, [], a1);
    OneMoreContent(user, [], WithPayload(a1, Payload(a0) + Payload(a1)));
    assert |Payload(a0) + Payload(a1)| == |Payload(a0)| + |Payload(a1)|;
  }

  lemma FramesOfTwo(kind: Received -> Kind, a0: Received, a1: Received, b: Received)
    requires a0.sender == a1.sender != b.sender && kind(a0).Middle? && kind(a1).Last? && kind(b).Last?
    ensures Delivered(kind, [a0, b, a1], a0.sender) == [[a1]] && Delivered(kind, [a0, a1], a0.sender) == [[a0, a1]]
  {
    var host := a0.sender;
    OneMoreDelivered(kind, [], a0, host);
    OneMoreFrame(kind, [], a0);
    assert [] + [a0] == [a0] && [a0] + [b] == [a0, b] && [a0, b] + [a1] == [a0, b, a1] && [a0] + [a1] == [a0, a1];
    assert [] + [a1] == [a1];
    OneMoreDelivered(kind, [a0], b, host);
    OneMoreFrame(kind, [a0], b);
    OneMoreDelivered(kind, [a0, b], a1, host);
    OneMoreDelivered(kind, [a0], a1, host);
    FromSenderOne(a0, host);
  }

  lemma CopiesOfTwo(a0: Received, a1: Received, k: int)
    requires BlockNumber(a0) == 0 && BlockNumber(a1) == 1
    ensures Copy([a0] + [a1], k) == if k == 0 then Payload(a0) else if k == 1 then Payload(a1) else []
  {
    CopyConcat([a0], a1, k);
    CopyConcat([], a0, k);
    assert [] + [a0] == [a0];
  }

  lemma MergeTwo(a0: Received, a1: Received)
    requires BlockNumber(a0) == 0 && BlockNumber(a1) == 1
    ensures Merge([a0, a1]) == Payload(a0) + Payload(a1)
  {
    var both := [a0] + [a1];
    assert both == [a0, a1] && SmallNumbers(both);
    forall k ensures Copy(both, k) == if k == 0 then Payload(a0) else if k == 1 then Payload(a1) else [] {
      CopiesOfTwo(a0, a1, k);
    }
    MergeIsAscending(both, 2);
    LastTwo(both);
  }

  lemma LastTwo(replies: seq<Received>)
    ensures Ascending(replies, 0, 2) == Copy(replies, 0) + Copy(replies, 1)
  {
    assert Ascending(replies, 2, 2) == [];
    assert Ascending(replies, 1, 2) == Copy(replies, 1) + [];
  }
}
