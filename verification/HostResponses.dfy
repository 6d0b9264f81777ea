/** What a multicast request that does not observe delivers for one host: the first complete
    response, and those that come later, which are merged with everything stored before. */
module HostResponses {
  import opened CoapTypes
  import opened StableOrder
  import opened OptionList
  import opened Blocks
  import opened Codec
  import opened Reassembly
  import opened Requests
  import opened Exchanges
  import opened FrameFacts
  import opened Observation
  import opened Retransmission
  import opened TransmissionTimers
  import opened Multicasting

  // What one host gets

  /** Until a host has completed a response its frames are stored as they came. */
  lemma {:induction false} RawUntilComplete(kind: Received -> Kind, merge: seq<Received> -> Bytes,
                                            frames: seq<Received>)
    requires forall f :: f in frames ==> kind(f).Middle?
    ensures HostReplies(kind, merge, frames) == frames && HostMessages(kind, merge, frames) == []
  {
    if frames != [] {
      var front, f := frames[..|frames| - 1], frames[|frames| - 1];
      assert frames == front + [f];
      RawUntilComplete(kind, merge, front);
      assert kind(f).Middle?;
    }
  }

  /** The first complete response of a host is delivered with the merge of its frames. */
  lemma FirstResponse(frames: seq<Received>, last: Received)
    requires forall f :: f in frames ==> Classify(f).Middle?
    requires Classify(last).Last?
    ensures HostMessages(Classify, Merge, frames + [last]) == [WithPayload(last, Merge(frames + [last]))]
    ensures HostReplies(Classify, Merge, frames + [last]) == frames + [WithPayload(last, Merge(frames + [last]))]
  {
    RawUntilComplete(Classify, Merge, frames);
    OneMoreHostFrame(Classify, Merge, frames, last);
  }

  // A repeated last block

  lemma {:induction false} AscendingSplit(replies: seq<Received>, lo: int, n: int, hi: int)
    requires lo <= n < hi
    ensures Ascending(replies, lo, hi)
         == Ascending(replies, lo, n) + (Copy(replies, n) + Ascending(replies, n + 1, hi))
    decreases n - lo
  {
    if lo < n {
      AscendingSplit(replies, lo + 1, n, hi);
      ConcatIs(Copy(replies, lo), Ascending(replies, lo + 1, n), Copy(replies, n) + Ascending(replies, n + 1, hi));
    }
  }

  /** Replies whose blocks other than `n` are those of `front`. */
  lemma MergeAround(front: seq<Received>, replies: seq<Received>, n: int)
    requires SmallNumbers(replies) && 0 <= n < MAX_BLOCK
    requires forall k :: k != n ==> Copy(replies, k) == Copy(front, k)
    ensures Merge(replies)
         == Ascending(front, 0, n) + (Copy(replies, n) + Ascending(front, n + 1, MAX_BLOCK))
  {
    MergeIsAscending(replies, MAX_BLOCK);
    AscendingSplit(replies, 0, n, MAX_BLOCK);
    AscendingCongruent(replies, front, 0, n);
    AscendingCongruent(replies, front, n + 1, MAX_BLOCK);
  }

  ghost predicate NoCopies(replies: seq<Received>, lo: int, hi: int) {
    forall k :: lo <= k < hi ==> Copy(replies, k) == []
  }

  lemma NoCopiesSplit(replies: seq<Received>, lo: int, n: int, hi: int)
    requires lo <= n < hi
    ensures NoCopies(replies, lo, hi)
            <==> NoCopies(replies, lo, n) && Copy(replies, n) == [] && NoCopies(replies, n + 1, hi)
  {
  }

  lemma {:induction false} AscendingEmpty(replies: seq<Received>, lo: int, hi: int)
    ensures Ascending(replies, lo, hi) == [] <==> NoCopies(replies, lo, hi)
    decreases hi - lo
  {
    if lo < hi {
      AscendingEmpty(replies, lo + 1, hi);
    }
  }

  lemma NoCopyNoPayload(replies: seq<Received>)
    requires SmallNumbers(replies)
    ensures NoCopies(replies, 0, MAX_BLOCK) <==> forall r :: r in replies ==> Payload(r) == []
  {
    forall k ensures (k, Copy(replies, k)) in BlockSet(replies) || forall p :: (k, p) !in BlockSet(replies) {
      CopyInBlockSet(replies, k);
    }
    if r :| r in replies && Payload(r) != [] {
      assert (BlockNumber(r), Payload(r)) in BlockSet(replies);
      CopyInBlockSet(replies, BlockNumber(r));
    } else {
      forall k ensures Copy(replies, k) == [] {
        CopyInBlockSet(replies, k);
      }
    }
  }

  lemma SumWithRepeat(a: Bytes, d: Bytes, c: Bytes, b: Bytes)
    requires d == a + (c + b)
    ensures a + (if d != [] then d else c) + b == d <==> a == [] && b == []
  {
    if d != [] && a + d + b == d {
      assert |a + d + b| == |a| + |d| + |b|;
    }
  }

  /** The last frame of a response comes a second time: the stored copy, carrying the merged
      payload by then, is merged again. The user gets the same content twice exactly when the
      response was carried by its last block alone, or that block had arrived before. */
  lemma RepeatedLastFrame(frames: seq<Received>, last: Received)
    requires forall f :: f in frames ==> Classify(f).Middle?
    requires Classify(last).Last?
    requires SmallNumbers(frames + [last])
    ensures var messages := HostMessages(Classify, Merge, frames + [last] + [last]);
            && |messages| == 2 && messages[0] == WithPayload(last, Merge(frames + [last]))
            && (messages[1] == messages[0] <==>
                  || (forall f :: f in frames ==> Payload(f) == [])
                  || (exists f :: f in frames && BlockNumber(f) == BlockNumber(last) && Payload(f) != []))
  {
    RepeatedLastMessages(frames, last);
    RepeatedMerge(frames, last);
  }

  lemma RepeatedLastMessages(frames: seq<Received>, last: Received)
    requires forall f :: f in frames ==> Classify(f).Middle?
    requires Classify(last).Last?
    ensures var messages := HostMessages(Classify, Merge, frames + [last] + [last]);
            var whole := Merge(frames + [last]);
            var again := Merge(frames + [WithPayload(last, whole)] + [last]);
            && |messages| == 2 && messages[0] == WithPayload(last, whole)
            && (messages[1] == messages[0] <==> again == whole)
  {
    FirstResponse(frames, last);
    OneMoreHostFrame(Classify, Merge, frames + [last], last);
  }

  /** The merge of `frames`, a reply with the number of `last`, and `last`. */
  lemma MergeBehind(frames: seq<Received>, stored: seq<Received>, last: Received)
    requires SmallNumbers(frames + [last])
    requires |stored| <= 1 && forall r :: r in stored ==> BlockNumber(r) == BlockNumber(last)
    ensures var n := BlockNumber(last);
            var own := if Copy(frames, n) != [] then Copy(frames, n)
                       else if stored != [] && Payload(stored[0]) != [] then Payload(stored[0])
                       else Payload(last);
            Merge(frames + stored + [last])
            == Ascending(frames, 0, n) + (own + Ascending(frames, n + 1, MAX_BLOCK))
  {
    var n := BlockNumber(last);
    assert forall r :: r in frames + stored + [last] ==> r in frames + [last] || r in stored;
    assert last in frames + [last];
    assert SmallNumbers(frames + stored + [last]);
    forall k ensures Copy(frames + stored, k)
                  == if Copy(frames, k) != [] || stored == [] || k != n then Copy(frames, k) else Payload(stored[0]) {
      if stored == [] {
        assert frames + stored == frames;
      } else {
        assert stored == [stored[0]];
        CopyConcat(frames, stored[0], k);
      }
    }
    forall k ensures k != n ==> Copy(frames + stored + [last], k) == Copy(frames, k) {
      CopyConcat(frames + stored, last, k);
    }
    CopyConcat(frames + stored, last, n);
    MergeAround(frames, frames + stored + [last], n);
  }

  /** Apart from block `n`, nothing was carried. */
  lemma NothingAround(frames: seq<Received>, n: int)
    requires SmallNumbers(frames) && 0 <= n < MAX_BLOCK && Copy(frames, n) == []
    ensures Ascending(frames, 0, n) == [] && Ascending(frames, n + 1, MAX_BLOCK) == []
            <==> forall r :: r in frames ==> Payload(r) == []
  {
    AscendingEmpty(frames, 0, n);
    AscendingEmpty(frames, n + 1, MAX_BLOCK);
    NoCopiesSplit(frames, 0, n, MAX_BLOCK);
    NoCopyNoPayload(frames);
  }

  lemma CopyExists(frames: seq<Received>, n: int)
    ensures Copy(frames, n) != [] <==> exists r :: r in frames && BlockNumber(r) == n && Payload(r) != []
  {
    CopyInBlockSet(frames, n);
    if r :| r in frames && BlockNumber(r) == n && Payload(r) != [] {
      assert (n, Payload(r)) in BlockSet(frames);
    }
  }

  lemma RepeatedMerge(frames: seq<Received>, last: Received)
    requires SmallNumbers(frames + [last])
    ensures var whole := Merge(frames + [last]);
            Merge(frames + [WithPayload(last, whole)] + [last]) == whole <==>
              || (forall f :: f in frames ==> Payload(f) == [])
              || (exists f :: f in frames && BlockNumber(f) == BlockNumber(last) && Payload(f) != [])
  {
    var n := BlockNumber(last);
    assert last in frames + [last];
    assert forall f :: f in frames ==> f in frames + [last];
    var whole := Merge(frames + [last]);
    assert frames + [] + [last] == frames + [last];
    MergeBehind(frames, [], last);
    MergeBehind(frames, [WithPayload(last, whole)], last);
    CopyExists(frames, n);
    if Copy(frames, n) == [] {
      var before, after := Ascending(frames, 0, n), Ascending(frames, n + 1, MAX_BLOCK);
      SumWithRepeat(before, whole, Payload(last), after);
      ConcatIs(before, if whole != [] then whole else Payload(last), after);
      NothingAround(frames, n);
    }
  }

  lemma ConcatIs(a: Bytes, b: Bytes, c: Bytes)
    ensures a + (b + c) == a + b + c
  {
  }

  /** Two blocks, the second of which comes twice: the content doubles its beginning. */
  lemma RepeatedLastBlockCorrupts(first: Received, last: Received)
    requires first.reply.block == BlockState(0, true, 16) && Payload(first) != [] && Classify(first).Middle?
    requires last.reply.block == BlockState(1, false, 16) && Classify(last).Last?
    ensures var messages := HostMessages(Classify, Merge, [first] + [last] + [last]);
            |messages| == 2 && messages[1] != messages[0]
  {
    RepeatedLastFrame([first], last);
  }

  // Later responses

  /** A response as it should be delivered: its last frame with the merge of its own frames. */
  function Message(merge: seq<Received> -> Bytes, response: seq<Received>): seq<Received> {
    if response == [] then [] else [WithPayload(response[|response| - 1], merge(response))]
  }

  function Messages(merge: seq<Received> -> Bytes, responses: seq<seq<Received>>): seq<Received> {
    if responses == [] then []
    else Messages(merge, responses[..|responses| - 1]) + Message(merge, responses[|responses| - 1])
  }

  lemma OneMoreMessage(merge: seq<Received> -> Bytes, responses: seq<seq<Received>>, front: seq<Received>, f: Received)
    ensures Messages(merge, responses + [front + [f]])
         == Messages(merge, responses) + [WithPayload(f, merge(front + [f]))]
  {
    assert (responses + [front + [f]])[..|responses|] == responses;
  }

  /** What is stored from the responses that are complete. */
  function Past(kind: Received -> Kind, merge: seq<Received> -> Bytes, frames: seq<Received>): seq<Received> {
    if frames == [] then []
    else if kind(frames[|frames| - 1]).Last? then HostReplies(kind, merge, frames)
    else Past(kind, merge, frames[..|frames| - 1])
  }

  lemma {:induction false} StoredBehindPast(kind: Received -> Kind, merge: seq<Received> -> Bytes,
                                            frames: seq<Received>)
    ensures HostReplies(kind, merge, frames) == Past(kind, merge, frames) + SinceLast(kind, frames)
  {
    if frames != [] {
      var front, f := frames[..|frames| - 1], frames[|frames| - 1];
      StoredBehindPast(kind, merge, front);
      if kind(f).Middle? {
        assert Past(kind, merge, front) + SinceLast(kind, front) + [f]
            == Past(kind, merge, front) + (SinceLast(kind, front) + [f]);
      }
    }
  }

  lemma {:induction false} StoredSmall(frames: seq<Received>)
    requires SmallNumbers(frames)
    ensures SmallNumbers(HostReplies(Classify, Merge, frames)) && SmallNumbers(SinceLast(Classify, frames))
  {
    if frames != [] {
      var front, f := frames[..|frames| - 1], frames[|frames| - 1];
      assert f in frames && forall r :: r in front ==> r in frames;
      StoredSmall(front);
    }
  }

  lemma PastSmall(frames: seq<Received>)
    requires SmallNumbers(frames)
    ensures SmallNumbers(Past(Classify, Merge, frames)) && SmallNumbers(SinceLast(Classify, frames))
  {
    StoredSmall(frames);
    StoredBehindPast(Classify, Merge, frames);
    var past, rest := Past(Classify, Merge, frames), SinceLast(Classify, frames);
    assert forall r :: r in past ==> r in past + rest;
  }

  /** One frame, merged behind others. */
  lemma SingleBehindExactly(past: seq<Received>, f: Received)
    requires SmallNumbers(past) && BlockNumber(f) < MAX_BLOCK
    ensures Merge(past + [f]) == Payload(f) <==>
              if Copy(past, BlockNumber(f)) != [] then Merge(past) == Payload(f)
              else forall r :: r in past ==> Payload(r) == []
  {
    var n := BlockNumber(f);
    BothSmall(past, [f]);
    forall k ensures k != n ==> Copy(past + [f], k) == Copy(past, k) {
      CopyConcat(past, f, k);
    }
    CopyConcat(past, f, n);
    MergeAround(past, past + [f], n);
    MergeAround(past, past, n);
    if Copy(past, n) == [] {
      var before, after := Ascending(past, 0, n), Ascending(past, n + 1, MAX_BLOCK);
      NothingAround(past, n);
      OnlyMiddle(before, Payload(f), after);
    }
  }

  lemma OnlyMiddle(a: Bytes, b: Bytes, c: Bytes)
    ensures a + (b + c) == b <==> a == [] && c == []
  {
    assert |a + (b + c)| == |a| + |b| + |c|;
    if a == [] && c == [] {
      assert a + (b + c) == b;
    }
  }

  /** Every complete response of a host, after any frames of that host: what is delivered, block by
      block, is the copy stored with the responses before it, where there is one, and its own copy
      otherwise. These are its own blocks exactly when what is stored is settled; for a response in
      one frame, when nothing was stored, or a copy of that block and all in all the same payload. */
  lemma LaterResponseExactly(front: seq<Received>, f: Received)
    requires SmallNumbers(front + [f]) && Classify(f).Last?
    ensures var past, response := Past(Classify, Merge, front), SinceLast(Classify, front) + [f];
            && HostMessages(Classify, Merge, front + [f])
               == HostMessages(Classify, Merge, front) + [WithPayload(f, Merge(past + response))]
            && Responses(Classify, front + [f]) == Responses(Classify, front) + [response]
            && (forall k ::
                  Copy(past + response, k) == if Copy(past, k) != [] then Copy(past, k) else Copy(response, k))
            && (SameBlocks(past + response, response) <==> Settled(past, response))
            && (Settled(past, response) ==> Merge(past + response) == Merge(response))
            && (Comparable(past, response) ==>
                  (Merge(past + response) == Merge(response) <==> Settled(past, response)))
            && (|response| == 1 ==>
                  (Merge(past + response) == Payload(f) <==>
                     if Copy(past, BlockNumber(f)) != [] then Merge(past) == Payload(f)
                     else forall r :: r in past ==> Payload(r) == []))
  {
    var past, rest := Past(Classify, Merge, front), SinceLast(Classify, front);
    SmallParts(front, f);
    DeliveredMerge(Classify, Merge, front, f);
    OneMoreFrame(Classify, front, f);
    FrontMattersExactly(past, rest + [f]);
    if rest == [] {
      assert rest + [f] == [f];
      SingleBehindExactly(past, f);
    }
  }

  lemma SmallParts(front: seq<Received>, f: Received)
    requires SmallNumbers(front + [f])
    ensures SmallNumbers(Past(Classify, Merge, front)) && SmallNumbers(SinceLast(Classify, front) + [f])
    ensures SmallNumbers(front) && BlockNumber(f) < MAX_BLOCK
  {
    assert f in front + [f] && forall r :: r in front ==> r in front + [f];
    PastSmall(front);
    BothSmall(SinceLast(Classify, front), [f]);
  }

  lemma DeliveredMerge(kind: Received -> Kind, merge: seq<Received> -> Bytes, front: seq<Received>, f: Received)
    requires kind(f).Last?
    ensures HostMessages(kind, merge, front + [f])
         == HostMessages(kind, merge, front)
            + [WithPayload(f, merge(Past(kind, merge, front) + (SinceLast(kind, front) + [f])))]
  {
    var past, rest := Past(kind, merge, front), SinceLast(kind, front);
    OneMoreHostFrame(kind, merge, front, f);
    StoredBehindPast(kind, merge, front);
    assert (past + rest) + [f] == past + (rest + [f]);
  }

  // All responses of a host

  /** Whenever a response of the host is complete, what is stored before it is settled. */
  ghost predicate AllSettled(frames: seq<Received>) {
    frames == []
    || (var front, f := frames[..|frames| - 1], frames[|frames| - 1];
        && AllSettled(front)
        && (Classify(f).Last? ==> Settled(Past(Classify, Merge, front), SinceLast(Classify, front) + [f])))
  }

  ghost predicate AllComparable(frames: seq<Received>) {
    frames == []
    || (var front, f := frames[..|frames| - 1], frames[|frames| - 1];
        && AllComparable(front)
        && (Classify(f).Last? ==> Comparable(Past(Classify, Merge, front), SinceLast(Classify, front) + [f])))
  }

  lemma PostsGrowAlike(user: ReplyId, a: seq<Received>, b: seq<Received>, f: Received, p: Bytes, q: Bytes)
    ensures ContentPosts(user, a + [WithPayload(f, p)]) == ContentPosts(user, b + [WithPayload(f, q)])
            <==> ContentPosts(user, a) == ContentPosts(user, b) && p == q
  {
    OneMoreContent(user, a, WithPayload(f, p));
    OneMoreContent(user, b, WithPayload(f, q));
    LastAlike(ContentPosts(user, a), ContentOf(user, WithPayload(f, p)),
              ContentPosts(user, b), ContentOf(user, WithPayload(f, q)));
  }

  lemma LastAlike<T>(a: seq<T>, x: T, b: seq<T>, y: T)
    ensures a + [x] == b + [y] <==> a == b && x == y
  {
    if a + [x] == b + [y] {
      assert a == (a + [x])[..|a + [x]| - 1] && b == (b + [y])[..|b + [y]| - 1];
      assert x == (a + [x])[|a + [x]| - 1];
    }
  }

  /** All frames of a host: each complete response is delivered with the merge of its own frames if
      what is stored before is settled every time, and, with comparable copies, only then. */
  lemma {:induction false} OwnMessagesExactly(frames: seq<Received>, user: ReplyId)
    requires SmallNumbers(frames)
    ensures var delivered, own := HostMessages(Classify, Merge, frames), Messages(Merge, Responses(Classify, frames));
            && (AllSettled(frames) ==> ContentPosts(user, delivered) == ContentPosts(user, own))
            && (AllComparable(frames) ==>
                  (ContentPosts(user, delivered) == ContentPosts(user, own) <==> AllSettled(frames)))
  {
    if frames != [] {
      var front, f := frames[..|frames| - 1], frames[|frames| - 1];
      assert frames == front + [f];
      SmallParts(front, f);
      OwnMessagesExactly(front, user);
      if Classify(f).Last? {
        OwnMessagesStep(front, f, user);
      } else {
        OneMoreHostFrame(Classify, Merge, front, f);
        assert HostMessages(Classify, Merge, front) + [] == HostMessages(Classify, Merge, front);
      }
    }
  }

  lemma OwnMessagesStep(front: seq<Received>, f: Received, user: ReplyId)
    requires SmallNumbers(front + [f]) && Classify(f).Last?
    ensures var delivered, own := HostMessages(Classify, Merge, front), Messages(Merge, Responses(Classify, front));
            var past, response := Past(Classify, Merge, front), SinceLast(Classify, front) + [f];
            && (ContentPosts(user, HostMessages(Classify, Merge, front + [f]))
                == ContentPosts(user, Messages(Merge, Responses(Classify, front + [f])))
                <==> ContentPosts(user, delivered) == ContentPosts(user, own)
                     && Merge(past + response) == Merge(response))
            && (Settled(past, response) ==> Merge(past + response) == Merge(response))
            && (Comparable(past, response) ==>
                  (Merge(past + response) == Merge(response) <==> Settled(past, response)))
  {
    var past, rest := Past(Classify, Merge, front), SinceLast(Classify, front);
    LaterResponseExactly(front, f);
    OneMoreMessage(Merge, Responses(Classify, front), rest, f);
    PostsGrowAlike(user, HostMessages(Classify, Merge, front), Messages(Merge, Responses(Classify, front)), f,
                   Merge(past + (rest + [f])), Merge(rest + [f]));
  }

  lemma {:induction false} OwnCount(kind: Received -> Kind, merge: seq<Received> -> Bytes, frames: seq<Received>,
                                    user: ReplyId)
    ensures |ContentPosts(user, Messages(merge, Responses(kind, frames)))| == CountLast(kind, frames)
  {
    if frames != [] {
      var front, f := frames[..|frames| - 1], frames[|frames| - 1];
      OwnCount(kind, merge, front, user);
      if kind(f).Last? {
        var rest := SinceLast(kind, front);
        OneMoreMessage(merge, Responses(kind, front), rest, f);
        OneMoreContent(user, Messages(merge, Responses(kind, front)), WithPayload(f, merge(rest + [f])));
      }
    }
  }

  lemma {:induction false} NoLastNoResponse(kind: Received -> Kind, a: seq<Received>, b: seq<Received>)
    requires CountLast(kind, b) == 0
    ensures Responses(kind, a + b) == Responses(kind, a)
    decreases |b|
  {
    if b == [] {
      assert a + b == a;
    } else {
      NoLastNoResponse(kind, a, b[..|b| - 1]);
      OneMoreFrame(kind, a + b[..|b| - 1], b[|b| - 1]);
      assert a + b == (a + b[..|b| - 1]) + [b[|b| - 1]];
    }
  }

  /** The user gets each complete response of the host with the merge of its own frames. */
  ghost predicate ToldItsOwn(h: History, h': History, events: seq<Timed>, user: ReplyId, host: Address) {
    && h.posts <= h'.posts
    && Contents(h'.posts[|h.posts|..], host)
       == ContentPosts(user, Messages(Merge, Responses(Classify, FromSender(AllFrames(events), host))))
  }

  /** Every run. Each complete response of a host is delivered with the merge of its own frames if none
      comes after a disturbance and what is stored before is settled every time; with comparable
      copies, only then. */
  lemma EachResponseIsOwnExactly(h: History, events: seq<Timed>, user: ReplyId, host: Address)
    requires h.exchange.Some? && Multicasts(h.exchange.value, user) && h.exchange.value.replies == []
    requires TimersMatch(h.exchange.value.request)
    requires SmallNumbers(AllFrames(events)) && TimersFair(h, events)
    ensures var early := FromSender(AllFrames(Undisturbed(events, user)), host);
            var own := CountLast(Classify, LateFrames(events, user, host)) == 0 && AllSettled(early);
            && (own ==> ToldItsOwn(h, Run(h, events), events, user, host))
            && (AllComparable(early) ==> (ToldItsOwn(h, Run(h, events), events, user, host) <==> own))
  {
    HostsAreSeparated(h, events, user);
    ItsOwnExactly(h, Run(h, events), events, user, host);
  }

  lemma ItsOwnExactly(h: History, h': History, events: seq<Timed>, user: ReplyId, host: Address)
    requires SmallNumbers(AllFrames(events)) && Told(h, h', Undisturbed(events, user), user, host)
    ensures var early := FromSender(AllFrames(Undisturbed(events, user)), host);
            var own := CountLast(Classify, LateFrames(events, user, host)) == 0 && AllSettled(early);
            && (own ==> ToldItsOwn(h, h', events, user, host))
            && (AllComparable(early) ==> (ToldItsOwn(h, h', events, user, host) <==> own))
  {
    var clear := Undisturbed(events, user);
    var early, late := FromSender(AllFrames(clear), host), LateFrames(events, user, host);
    assert events[..|clear|] == clear;
    SplitFrames(events, |clear|, host);
    SmallFromSender(AllFrames(events), host);
    OwnPostsExactly(early, late, user);
  }

  lemma OwnPostsExactly(early: seq<Received>, late: seq<Received>, user: ReplyId)
    requires SmallNumbers(early + late)
    ensures var own := CountLast(Classify, late) == 0 && AllSettled(early);
            var told := ContentPosts(user, HostMessages(Classify, Merge, early));
            var due := ContentPosts(user, Messages(Merge, Responses(Classify, early + late)));
            (own ==> told == due) && (AllComparable(early) ==> (told == due <==> own))
  {
    SmallFront(early, late);
    OwnMessagesExactly(early, user);
    OwnWithLate(early, late, user);
  }

  lemma SmallFront(a: seq<Received>, b: seq<Received>)
    requires SmallNumbers(a + b)
    ensures SmallNumbers(a)
  {
    assert forall r :: r in a ==> r in a + b;
  }

  lemma SplitFrames(events: seq<Timed>, n: nat, host: Address)
    requires n <= |events|
    ensures FromSender(AllFrames(events), host)
         == FromSender(AllFrames(events[..n]), host) + FromSender(AllFrames(events[n..]), host)
  {
    assert events == events[..n] + events[n..];
    AllFramesConcat(events[..n], events[n..]);
    FromSenderConcat(AllFrames(events[..n]), AllFrames(events[n..]), host);
  }

  lemma {:induction false} SmallFromSender(replies: seq<Received>, host: Address)
    requires SmallNumbers(replies)
    ensures SmallNumbers(FromSender(replies, host))
  {
    if replies != [] {
      assert replies[0] in replies && forall r :: r in replies[1..] ==> r in replies;
      SmallFromSender(replies[1..], host);
    }
  }

  /** With complete responses behind them, the posts for `early` are too few. */
  lemma OwnWithLate(early: seq<Received>, late: seq<Received>, user: ReplyId)
    ensures CountLast(Classify, late) == 0 ==> Responses(Classify, early + late) == Responses(Classify, early)
    ensures CountLast(Classify, late) > 0 ==>
              ContentPosts(user, HostMessages(Classify, Merge, early))
              != ContentPosts(user, Messages(Merge, Responses(Classify, early + late)))
  {
    if CountLast(Classify, late) == 0 {
      NoLastNoResponse(Classify, early, late);
    } else {
      MessagesCount(Classify, Merge, early, user);
      OwnCount(Classify, Merge, early + late, user);
      CountLastConcat(Classify, early, late);
    }
  }

  // Responses in one frame

  lemma MergeOfOneBlock(replies: seq<Received>, n: int)
    requires OneBlock(replies, n) && 0 <= n < MAX_BLOCK
    ensures Merge(replies) == FirstPayload(replies)
  {
    OnlyKey(replies, n);
    MergeAround(replies, replies, n);
    NothingElse(replies, n);
    assert FirstPayload(replies) + [] == FirstPayload(replies);
  }

  lemma NothingElse(replies: seq<Received>, n: int)
    requires OneBlock(replies, n) && 0 <= n < MAX_BLOCK
    ensures Ascending(replies, 0, n) == [] && Ascending(replies, n + 1, MAX_BLOCK) == []
  {
    forall k ensures k != n ==> Copy(replies, k) == [] {
      if k != n {
        NoneWithKey(BlockNumber, replies, k);
      }
    }
    AscendingSkips(replies, 0, n, n);
    AscendingSkips(replies, n + 1, MAX_BLOCK, MAX_BLOCK);
  }

  /** Complete responses of a host in one frame each, all with the same block number: each is
      delivered with the first payload that was not empty. */
  lemma {:induction false} SingleResponses(frames: seq<Received>, n: int)
    requires OneBlock(frames, n) && 0 <= n < MAX_BLOCK && forall f :: f in frames ==> Classify(f).Last?
    ensures var stored := HostReplies(Classify, Merge, frames);
            OneBlock(stored, n) && FirstPayload(stored) == FirstPayload(frames)
    ensures frames != [] ==>
              var front, f := frames[..|frames| - 1], frames[|frames| - 1];
              HostMessages(Classify, Merge, frames)
              == HostMessages(Classify, Merge, front) + [WithPayload(f, FirstPayload(frames))]
  {
    if frames != [] {
      var front, f := frames[..|frames| - 1], frames[|frames| - 1];
      assert frames == front + [f] && f in frames && forall r :: r in front ==> r in frames;
      SingleResponses(front, n);
      OneMoreHostFrame(Classify, Merge, front, f);
      SingleStep(HostReplies(Classify, Merge, front), front, f, n);
    }
  }

  lemma FirstPayloadOne(r: Received)
    ensures FirstPayload([r]) == Payload(r)
  {
    assert [r][1..] == [];
  }

  lemma SingleStep(stored: seq<Received>, front: seq<Received>, f: Received, n: int)
    requires OneBlock(stored, n) && BlockNumber(f) == n && 0 <= n < MAX_BLOCK
    requires FirstPayload(stored) == FirstPayload(front)
    ensures Merge(stored + [f]) == FirstPayload(front + [f])
    ensures var m := WithPayload(f, Merge(stored + [f]));
            OneBlock(stored + [m], n) && FirstPayload(stored + [m]) == FirstPayload(front + [f])
  {
    var m := WithPayload(f, Merge(stored + [f]));
    MergeOfOneBlock(stored + [f], n);
    FirstPayloadConcat(stored, [f]);
    FirstPayloadConcat(front, [f]);
    FirstPayloadConcat(stored, [m]);
    FirstPayloadOne(f);
    FirstPayloadOne(m);
  }

  /** Every payload is empty or the same as all later ones. */
  ghost predicate Alike(frames: seq<Received>) {
    forall i, j :: 0 <= i < j < |frames| ==> Payload(frames[i]) == [] || Payload(frames[i]) == Payload(frames[j])
  }

  /** Such responses are delivered with their own payloads exactly when every earlier payload is empty
      or the same. */
  lemma {:induction false} SingleResponsesExactly(frames: seq<Received>, n: int, user: ReplyId)
    requires OneBlock(frames, n) && 0 <= n < MAX_BLOCK && forall f :: f in frames ==> Classify(f).Last?
    ensures ContentPosts(user, HostMessages(Classify, Merge, frames)) == ContentPosts(user, frames)
            <==> Alike(frames)
  {
    if frames != [] {
      var front, f := frames[..|frames| - 1], frames[|frames| - 1];
      assert frames == front + [f] && forall r :: r in front ==> r in frames;
      SingleResponsesExactly(front, n, user);
      SingleResponses(frames, n);
      assert WithPayload(f, Payload(f)) == f;
      PostsGrowAlike(user, HostMessages(Classify, Merge, front), front, f, FirstPayload(frames), Payload(f));
      AllAlike(front, f);
    }
  }

  lemma AllAlike(front: seq<Received>, f: Received)
    ensures Alike(front + [f]) <==> Alike(front) && FirstPayload(front + [f]) == Payload(f)
  {
    FirstPayloadConcat(front, [f]);
    FirstPayloadMember(front);
    var all := front + [f];
    assert all[|front|] == f && forall i :: 0 <= i < |front| ==> all[i] == front[i];
    if Alike(all) {
      assert forall i :: 0 <= i < |front| ==> Payload(all[i]) == [] || Payload(all[i]) == Payload(all[|front|]);
      if FirstPayload(front) != [] {
        var i :| 0 <= i < |front| && Payload(front[i]) == FirstPayload(front);
      }
    } else if Alike(front) {
      FirstCounts(front);
      var i, j :| 0 <= i < j < |all| && !(Payload(all[i]) == [] || Payload(all[i]) == Payload(all[j]));
      assert j == |front| && Payload(front[i]) != Payload(f);
    }
  }

  lemma FirstCounts(replies: seq<Received>)
    requires Alike(replies)
    ensures forall r :: r in replies ==> Payload(r) == [] || Payload(r) == FirstPayload(replies)
  {
    FirstPayloadMember(replies);
    if FirstPayload(replies) != [] {
      var i :| 0 <= i < |replies| && Payload(replies[i]) == FirstPayload(replies);
      forall r | r in replies ensures Payload(r) == [] || Payload(r) == FirstPayload(replies) {
        var j :| 0 <= j < |replies| && replies[j] == r;
      }
    }
  }

  /** A run in which nothing but frames arrives, none of them an error. */
  predicate OnlyFrames(events: seq<Timed>) {
    forall e :: e in events ==> e.event.Frame? && !IsError(e.event.received.reply.code)
  }

  lemma {:induction false} OnlyFramesRun(h: History, events: seq<Timed>, user: ReplyId)
    requires OnlyFrames(events)
    ensures Undisturbed(events, user) == events && TimersFair(h, events)
  {
    if events != [] {
      var front, last := events[..|events| - 1], events[|events| - 1];
      assert last in events && forall e :: e in front ==> e in events;
      OnlyFramesRun(h, front, user);
    }
  }

  lemma TwoFrames(a: Timed, b: Timed)
    requires OnlyFrames([a, b])
    ensures AllFrames([a, b]) == [a.event.received, b.event.received]
  {
    assert a in [a, b] && b in [a, b];
    assert [a, b][..1] == [a] && [a][..0] == [];
    assert AllFrames([a]) == [] + [a.event.received];
  }

  /** Two different responses of one host in one frame each: the second is lost, and the user gets the
      first one twice. */
  lemma SecondResponseIsLost(h: History, first: Timed, second: Timed, user: ReplyId)
    requires h.exchange.Some? && Multicasts(h.exchange.value, user) && h.exchange.value.replies == []
    requires TimersMatch(h.exchange.value.request) && OnlyFrames([first, second])
    requires var a, b := first.event.received, second.event.received;
             && Classify(a).Last? && Classify(b).Last? && a.sender == b.sender
             && BlockNumber(a) == BlockNumber(b) < MAX_BLOCK && Payload(a) != [] && Payload(a) != Payload(b)
    ensures var a, b := first.event.received, second.event.received;
            var h' := Run(h, [first, second]);
            h.posts <= h'.posts
            && Contents(h'.posts[|h.posts|..], a.sender)
               == [ContentOf(user, a), ContentOf(user, WithPayload(b, Payload(a)))]
  {
    var a, b := first.event.received, second.event.received;
    OnlyFramesRun(h, [first, second], user);
    TwoFrames(first, second);
    HostsAreSeparated(h, [first, second], user);
    assert Told(h, Run(h, [first, second]), [first, second], user, a.sender);
    FromSenderBoth(a, b);
    SecondIsTheFirst(a, b, user);
  }

  lemma FromSenderBoth(a: Received, b: Received)
    requires a.sender == b.sender
    ensures FromSender([a, b], a.sender) == [a, b]
  {
    assert [a, b] == [a] + [b];
    FromSenderConcat([a], [b], a.sender);
    FromSenderOne(a, a.sender);
    FromSenderOne(b, a.sender);
  }

  lemma SecondIsTheFirst(a: Received, b: Received, user: ReplyId)
    requires Classify(a).Last? && Classify(b).Last? && BlockNumber(a) == BlockNumber(b) < MAX_BLOCK
    requires Payload(a) != []
    ensures ContentPosts(user, HostMessages(Classify, Merge, [a, b]))
         == [ContentOf(user, a), ContentOf(user, WithPayload(b, Payload(a)))]
  {
    assert [a, b][..1] == [a] && [a][..0] == [];
    SingleResponses([a, b], BlockNumber(a));
    SingleResponses([a], BlockNumber(a));
    assert WithPayload(a, Payload(a)) == a;
    assert HostMessages(Classify, Merge, [a]) == [] + [a];
    PostsOfTwo(user, a, WithPayload(b, Payload(a)));
  }

  lemma PostsOfTwo(user: ReplyId, a: Received, b: Received)
    ensures ContentPosts(user, [a] + [b]) == [ContentOf(user, a), ContentOf(user, b)]
  {
    OneMoreContent(user, [a], b);
    OneMoreContent(user, [], a);
    assert [] + [a] == [a] && ContentPosts(user, []) == [];
  }
}
