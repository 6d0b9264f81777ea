/** Putting a blockwise payload back together: stable sort by block number, then one pass
    that skips empty and repeated blocks. */
module Reassembly {
  import opened CoapTypes
  import opened StableOrder
  import opened Blocks
  import opened Codec

  /** A reply together with the host that sent it. */
  datatype Received = Received(reply: Reply, sender: Address)

  function BlockNumber(r: Received): int {
    r.reply.block.number
  }

  function Payload(r: Received): Bytes {
    r.reply.message.payload
  }

  /** Block numbers are 32-bit values. */
  ghost predicate Numbered(replies: seq<Received>) {
    forall r :: r in replies ==> BlockNumber(r) < 0x1_0000_0000
  }

  /** The pass over the sorted replies, with the last block number appended so far. */
  function AppendNew(sorted: seq<Received>, lastBlockNumber: int): Bytes {
    if sorted == [] then []
    else if Payload(sorted[0]) == [] || ToInt32(BlockNumber(sorted[0])) <= lastBlockNumber then
      AppendNew(sorted[1..], lastBlockNumber)
    else
      Payload(sorted[0]) + AppendNew(sorted[1..], ToInt32(BlockNumber(sorted[0])))
  }

  function Merge(replies: seq<Received>): Bytes {
    AppendNew(SortBy(BlockNumber, replies), -1)
  }

  method MergePayloads(replies: seq<Received>) returns (finalPayload: Bytes)
    ensures finalPayload == Merge(replies)
  {
    var sorted := SortBy(BlockNumber, replies);
    finalPayload := [];
    var lastBlockNumber := -1;
    for i := 0 to |sorted|
      invariant finalPayload + AppendNew(sorted[i..], lastBlockNumber) == Merge(replies)
    {
      ghost var rest := sorted[i..];
      assert rest[0] == sorted[i] && rest[1..] == sorted[i + 1..];
      var currentBlock := ToInt32(BlockNumber(sorted[i]));
      var replyPayload := Payload(sorted[i]);
      if replyPayload == [] || currentBlock <= lastBlockNumber {
        continue;
      }
      finalPayload := finalPayload + replyPayload;
      lastBlockNumber := currentBlock;
    }
    assert sorted[|sorted|..] == [];
  }

  // What the pass computes, without sorting and without a running block number

  /** The first payload that is not empty. */
  function FirstPayload(replies: seq<Received>): Bytes {
    if replies == [] then []
    else if Payload(replies[0]) != [] then Payload(replies[0])
    else FirstPayload(replies[1..])
  }

  /** The copy of block `k` that counts: the first one to arrive with a payload. */
  function Copy(replies: seq<Received>, k: int): Bytes {
    FirstPayload(WithKey(BlockNumber, replies, k))
  }

  /** The copies of blocks `lo` to `hi - 1` in ascending order. */
  function Ascending(replies: seq<Received>, lo: int, hi: int): Bytes
    decreases hi - lo
  {
    if lo >= hi then [] else Copy(replies, lo) + Ascending(replies, lo + 1, hi)
  }

  const MAX_BLOCK := 0x8000_0000

  lemma {:induction false} AscendingCongruent(a: seq<Received>, b: seq<Received>, lo: int, hi: int)
    requires forall k :: lo <= k < hi ==> Copy(a, k) == Copy(b, k)
    ensures Ascending(a, lo, hi) == Ascending(b, lo, hi)
    decreases hi - lo
  {
    if lo < hi {
      AscendingCongruent(a, b, lo + 1, hi);
    }
  }

  lemma {:induction false} AscendingSkips(a: seq<Received>, lo: int, mid: int, hi: int)
    requires lo <= mid <= hi
    requires forall k :: lo <= k < mid ==> Copy(a, k) == []
    ensures Ascending(a, lo, hi) == Ascending(a, mid, hi)
    decreases mid - lo
  {
    if lo < mid {
      AscendingSkips(a, lo + 1, mid, hi);
      assert Copy(a, lo) == [];
    }
  }

  lemma SkippedHead(s: seq<Received>, k: int)
    requires s != []
    requires k != BlockNumber(s[0]) || Payload(s[0]) == []
    ensures Copy(s, k) == Copy(s[1..], k)
  {
    HeadWithKey(BlockNumber, s);
    if k == BlockNumber(s[0]) {
      assert ([s[0]] + WithKey(BlockNumber, s[1..], k))[1..] == WithKey(BlockNumber, s[1..], k);
    }
  }

  lemma NothingBelowHead(s: seq<Received>, k: int)
    requires s != [] && SortedBy(BlockNumber, s) && k < BlockNumber(s[0])
    ensures Copy(s, k) == []
  {
    forall r | r in s ensures BlockNumber(r) != k {
      var i :| 0 <= i < |s| && s[i] == r;
      assert BlockNumber(s[0]) <= BlockNumber(s[i]);
    }
    NoneWithKey(BlockNumber, s, k);
  }

  lemma {:induction false} AppendNewIsAscending(s: seq<Received>, last: int, hi: int)
    requires SortedBy(BlockNumber, s) && Numbered(s)
    requires -1 <= last < hi <= MAX_BLOCK
    requires forall r :: r in s && BlockNumber(r) < MAX_BLOCK ==> BlockNumber(r) < hi
    ensures AppendNew(s, last) == Ascending(s, last + 1, hi)
  {
    if s == [] {
      AscendingSkips(s, last + 1, hi, hi);
    } else {
      SortedTail(s, hi);
      SignedNumber(BlockNumber(s[0]), last);
      if Payload(s[0]) == [] || ToInt32(BlockNumber(s[0])) <= last {
        AppendNewIsAscending(s[1..], last, hi);
        DroppedHead(s, last, hi);
      } else {
        AppendNewIsAscending(s[1..], BlockNumber(s[0]), hi);
        TakenHead(s, last, hi);
      }
    }
  }

  lemma SortedTail(s: seq<Received>, hi: int)
    requires s != [] && SortedBy(BlockNumber, s) && Numbered(s)
    requires forall r :: r in s && BlockNumber(r) < MAX_BLOCK ==> BlockNumber(r) < hi
    ensures SortedBy(BlockNumber, s[1..]) && Numbered(s[1..])
    ensures forall r :: r in s[1..] && BlockNumber(r) < MAX_BLOCK ==> BlockNumber(r) < hi
    ensures 0 <= BlockNumber(s[0]) < 0x1_0000_0000
    ensures BlockNumber(s[0]) < MAX_BLOCK ==> BlockNumber(s[0]) < hi
  {
    assert s[0] in s;
    assert forall r :: r in s[1..] ==> r in s;
  }

  lemma SignedNumber(n: nat, last: int)
    requires n < 0x1_0000_0000 && last >= -1
    ensures ToInt32(n) > last ==> n < MAX_BLOCK && ToInt32(n) == n
    ensures ToInt32(n) <= last ==> n <= last || n >= MAX_BLOCK
  {
  }

  lemma DroppedHead(s: seq<Received>, last: int, hi: int)
    requires s != [] && hi <= MAX_BLOCK
    requires Payload(s[0]) == [] || BlockNumber(s[0]) <= last || BlockNumber(s[0]) >= MAX_BLOCK
    ensures Ascending(s, last + 1, hi) == Ascending(s[1..], last + 1, hi)
  {
    forall k | last + 1 <= k < hi ensures Copy(s, k) == Copy(s[1..], k) {
      SkippedHead(s, k);
    }
    AscendingCongruent(s, s[1..], last + 1, hi);
  }

  lemma TakenHead(s: seq<Received>, last: int, hi: int)
    requires s != [] && SortedBy(BlockNumber, s)
    requires last < BlockNumber(s[0]) < hi && Payload(s[0]) != []
    ensures Ascending(s, last + 1, hi)
         == Payload(s[0]) + Ascending(s[1..], BlockNumber(s[0]) + 1, hi)
  {
    var n := BlockNumber(s[0]);
    forall k | last + 1 <= k < n ensures Copy(s, k) == [] {
      NothingBelowHead(s, k);
    }
    AscendingSkips(s, last + 1, n, hi);
    HeadWithKey(BlockNumber, s);
    assert Copy(s, n) == Payload(s[0]);
    forall k | n + 1 <= k < hi ensures Copy(s, k) == Copy(s[1..], k) {
      SkippedHead(s, k);
    }
    AscendingCongruent(s, s[1..], n + 1, hi);
  }

  /** The sorted, single-pass merge is the concatenation, in ascending block number, of the
      first non-empty copy of every block: for all replies, in any order, with any repetition. */
  lemma MergeIsAscending(replies: seq<Received>, hi: int)
    requires Numbered(replies) && 0 <= hi <= MAX_BLOCK
    requires forall r :: r in replies && BlockNumber(r) < MAX_BLOCK ==> BlockNumber(r) < hi
    ensures Merge(replies) == Ascending(replies, 0, hi)
  {
    var sorted := SortBy(BlockNumber, replies);
    SortIsStable(BlockNumber, replies);
    forall r | r in sorted ensures r in replies {
      WithKeyMember(BlockNumber, sorted, BlockNumber(r), r);
      WithKeyMember(BlockNumber, replies, BlockNumber(r), r);
    }
    forall k ensures Copy(sorted, k) == Copy(replies, k) {
      assert WithKey(BlockNumber, sorted, k) == WithKey(BlockNumber, replies, k);
    }
    AppendNewIsAscending(sorted, -1, hi);
    AscendingCongruent(sorted, replies, 0, hi);
  }

  // Order of arrival and duplicates

  /** All numbered payloads that are not empty. */
  ghost function BlockSet(replies: seq<Received>): set<(int, Bytes)> {
    set r | r in replies && Payload(r) != [] :: (BlockNumber(r), Payload(r))
  }

  /** Copies of one block that carry anything carry the same. */
  ghost predicate Consistent(replies: seq<Received>) {
    forall p, q :: p in BlockSet(replies) && q in BlockSet(replies) && p.0 == q.0 ==> p.1 == q.1
  }

  lemma {:induction false} FirstPayloadMember(replies: seq<Received>)
    ensures FirstPayload(replies) != [] ==> exists r :: r in replies && Payload(r) == FirstPayload(replies)
    ensures FirstPayload(replies) == [] ==> forall r :: r in replies ==> Payload(r) == []
  {
    if replies != [] {
      FirstPayloadMember(replies[1..]);
      assert forall r :: r in replies <==> r == replies[0] || r in replies[1..];
    }
  }

  lemma CopyInBlockSet(replies: seq<Received>, k: int)
    ensures Copy(replies, k) != [] ==> (k, Copy(replies, k)) in BlockSet(replies)
    ensures Copy(replies, k) == [] ==> forall p :: (k, p) !in BlockSet(replies)
  {
    var copies := WithKey(BlockNumber, replies, k);
    FirstPayloadMember(copies);
    if Copy(replies, k) != [] {
      var r :| r in copies && Payload(r) == FirstPayload(copies);
      WithKeyMember(BlockNumber, replies, k, r);
    } else {
      forall r | r in replies && BlockNumber(r) == k ensures Payload(r) == [] {
        WithKeyMember(BlockNumber, replies, k, r);
      }
    }
  }

  lemma {:induction false} FirstPayloadConcat(a: seq<Received>, b: seq<Received>)
    ensures FirstPayload(a + b) == if FirstPayload(a) != [] then FirstPayload(a) else FirstPayload(b)
  {
    if a == [] {
      assert a + b == b;
    } else {
      assert (a + b)[1..] == a[1..] + b;
      FirstPayloadConcat(a[1..], b);
    }
  }

  lemma CopyConcat(a: seq<Received>, r: Received, k: int)
    ensures Copy(a + [r], k)
         == if Copy(a, k) != [] || BlockNumber(r) != k then Copy(a, k) else Payload(r)
  {
    WithKeyConcat(BlockNumber, a, [r], k);
    FirstPayloadConcat(WithKey(BlockNumber, a, k), WithKey(BlockNumber, [r], k));
    HeadWithKey(BlockNumber, [r]);
    assert [r][1..] == [];
    if BlockNumber(r) == k {
      assert WithKey(BlockNumber, [r], k) == [r];
    }
  }

  /** Two collections of replies with the same blocks merge to the same payload, whatever the
      order of arrival and however often a block is repeated; empty replies play no part. */
  lemma MergeIgnoresOrder(a: seq<Received>, b: seq<Received>)
    requires Numbered(a) && Numbered(b)
    requires Consistent(a) && BlockSet(a) == BlockSet(b)
    ensures Merge(a) == Merge(b)
  {
    MergeIsAscending(a, MAX_BLOCK);
    MergeIsAscending(b, MAX_BLOCK);
    forall k ensures Copy(a, k) == Copy(b, k) {
      CopyInBlockSet(a, k);
      CopyInBlockSet(b, k);
      if Copy(a, k) != [] && Copy(b, k) != [] {
        assert (k, Copy(a, k)) in BlockSet(a) && (k, Copy(b, k)) in BlockSet(a);
      }
    }
    AscendingCongruent(a, b, 0, MAX_BLOCK);
  }

  /** A single reply merges to its own payload. */
  lemma MergeSingle(r: Received)
    requires BlockNumber(r) < MAX_BLOCK
    ensures Merge([r]) == Payload(r)
  {
    var one := [r];
    assert one[..|one| - 1] == [];
    assert SortBy(BlockNumber, one[..|one| - 1]) == [];
    assert InsertBy(BlockNumber, [], r) == [r] + [] == one;
    assert SortBy(BlockNumber, one) == one;
    assert one[1..] == [];
    assert forall last :: AppendNew(one[1..], last) == [];
    assert ToInt32(BlockNumber(r)) == BlockNumber(r);
    assert AppendNew(one, -1) == if Payload(r) == [] then [] else Payload(r) + [];
  }

  ghost predicate HasBlock(replies: seq<Received>, k: int) {
    exists r :: r in replies && BlockNumber(r) == k
  }

  /** When the replies are exactly the slices of a body, the merge is the body. */
  lemma MergeIsBody(replies: seq<Received>, body: Bytes, size: nat)
    requires size > 0 && BlockCount(body, size) <= MAX_BLOCK
    requires forall r :: r in replies ==>
               && 0 <= BlockNumber(r) < BlockCount(body, size)
               && Payload(r) == Slice(body, size, BlockNumber(r))
    requires forall k :: 0 <= k < BlockCount(body, size) ==> HasBlock(replies, k)
    ensures Merge(replies) == body
  {
    var count := BlockCount(body, size);
    MergeIsAscending(replies, count);
    forall k: nat | k < count ensures Copy(replies, k) == Slice(body, size, k) {
      CopyIsSlice(replies, body, size, k);
    }
    AscendingSlices(replies, body, size, count, count);
    SlicesAreWhole(body, size);
  }

  lemma CopyIsSlice(replies: seq<Received>, body: Bytes, size: nat, k: nat)
    requires forall r :: r in replies ==> 0 <= BlockNumber(r) && Payload(r) == Slice(body, size, BlockNumber(r))
    requires HasBlock(replies, k)
    ensures Copy(replies, k) == Slice(body, size, k)
  {
    CopyInBlockSet(replies, k);
    var r :| r in replies && BlockNumber(r) == k;
    if Payload(r) != [] {
      assert (k, Payload(r)) in BlockSet(replies);
    }
  }

  lemma {:induction false} AscendingSlices(replies: seq<Received>, body: Bytes, size: nat, n: nat, count: nat)
    requires n <= count
    requires forall k: nat :: k < count ==> Copy(replies, k) == Slice(body, size, k)
    ensures Ascending(replies, 0, n) == Slices(body, size, n)
  {
    if n > 0 {
      AscendingSlices(replies, body, size, n - 1, count);
      AscendingLast(replies, 0, n);
    }
  }

  lemma {:induction false} AscendingLast(replies: seq<Received>, lo: int, hi: int)
    requires lo < hi
    ensures Ascending(replies, lo, hi) == Ascending(replies, lo, hi - 1) + Copy(replies, hi - 1)
    decreases hi - lo
  {
    if lo + 1 < hi {
      AscendingLast(replies, lo + 1, hi);
    }
  }

  // One collection ahead of another

  /** Block numbers fit into an int, as those of well-formed block options do. */
  ghost predicate SmallNumbers(replies: seq<Received>) {
    forall r :: r in replies ==> BlockNumber(r) < MAX_BLOCK
  }

  lemma CopyOfBoth(front: seq<Received>, rest: seq<Received>, k: int)
    ensures Copy(front + rest, k) == if Copy(front, k) != [] then Copy(front, k) else Copy(rest, k)
  {
    WithKeyConcat(BlockNumber, front, rest, k);
    FirstPayloadConcat(WithKey(BlockNumber, front, k), WithKey(BlockNumber, rest, k));
  }

  lemma NoCopyOutside(replies: seq<Received>, k: int)
    requires SmallNumbers(replies) && !(0 <= k < MAX_BLOCK)
    ensures Copy(replies, k) == []
  {
    NoneWithKey(BlockNumber, replies, k);
  }

  /** Every block of `a` counts as the same in `b`. */
  ghost predicate SameBlocks(a: seq<Received>, b: seq<Received>) {
    forall k :: Copy(a, k) == Copy(b, k)
  }

  /** What `front` carries, `rest` carries too. */
  ghost predicate Settled(front: seq<Received>, rest: seq<Received>) {
    forall k :: Copy(front, k) == [] || Copy(front, k) == Copy(rest, k)
  }

  /** The copies that count with `front` ahead are never shorter than those of `rest`, or never longer:
      so it is when copies of a block agree, or when blocks have one size. */
  ghost predicate Comparable(front: seq<Received>, rest: seq<Received>) {
    || (forall k :: |Copy(front + rest, k)| >= |Copy(rest, k)|)
    || (forall k :: |Copy(front + rest, k)| <= |Copy(rest, k)|)
  }

  lemma {:induction false} LongerBlocks(a: seq<Received>, b: seq<Received>, lo: int, hi: int)
    requires forall k :: lo <= k < hi ==> |Copy(a, k)| >= |Copy(b, k)|
    ensures |Ascending(a, lo, hi)| >= |Ascending(b, lo, hi)|
    ensures Ascending(a, lo, hi) == Ascending(b, lo, hi) ==> forall k :: lo <= k < hi ==> Copy(a, k) == Copy(b, k)
    decreases hi - lo
  {
    if lo < hi {
      LongerBlocks(a, b, lo + 1, hi);
      if Ascending(a, lo, hi) == Ascending(b, lo, hi) {
        SameParts(Copy(a, lo), Ascending(a, lo + 1, hi), Copy(b, lo), Ascending(b, lo + 1, hi));
      }
    }
  }

  lemma SameParts(a: Bytes, a': Bytes, b: Bytes, b': Bytes)
    requires a + a' == b + b' && |a| >= |b| && |a'| >= |b'|
    ensures a == b && a' == b'
  {
    assert |a + a'| == |b + b'|;
    assert a == (a + a')[..|a|] && b == (b + b')[..|b|];
    assert a' == (a + a')[|a|..] && b' == (b + b')[|b|..];
  }

  lemma MergeSameExactly(a: seq<Received>, b: seq<Received>)
    requires SmallNumbers(a) && SmallNumbers(b) && forall k :: |Copy(a, k)| >= |Copy(b, k)|
    ensures Merge(a) == Merge(b) <==> SameBlocks(a, b)
  {
    MergeIsAscending(a, MAX_BLOCK);
    MergeIsAscending(b, MAX_BLOCK);
    LongerBlocks(a, b, 0, MAX_BLOCK);
    if Merge(a) == Merge(b) {
      forall k ensures Copy(a, k) == Copy(b, k) {
        if !(0 <= k < MAX_BLOCK) {
          NoCopyOutside(a, k);
          NoCopyOutside(b, k);
        }
      }
    } else {
      NotSame(a, b);
    }
  }

  lemma NotSame(a: seq<Received>, b: seq<Received>)
    requires Ascending(a, 0, MAX_BLOCK) != Ascending(b, 0, MAX_BLOCK)
    ensures !SameBlocks(a, b)
  {
    if SameBlocks(a, b) {
      AscendingCongruent(a, b, 0, MAX_BLOCK);
    }
  }

  /** Replies ahead of others, block by block: the copy in front counts if it carries anything. They
      make no difference to the blocks exactly when they are settled, and no difference to the merge
      if they are settled, and only then if the copies are comparable. */
  lemma FrontMattersExactly(front: seq<Received>, rest: seq<Received>)
    requires SmallNumbers(front) && SmallNumbers(rest)
    ensures forall k :: Copy(front + rest, k) == if Copy(front, k) != [] then Copy(front, k) else Copy(rest, k)
    ensures SameBlocks(front + rest, rest) <==> Settled(front, rest)
    ensures Settled(front, rest) ==> Merge(front + rest) == Merge(rest)
    ensures Comparable(front, rest) ==> (Merge(front + rest) == Merge(rest) <==> Settled(front, rest))
  {
    forall k ensures Copy(front + rest, k) == if Copy(front, k) != [] then Copy(front, k) else Copy(rest, k) {
      CopyOfBoth(front, rest, k);
    }
    SettledIsSame(front, rest);
    BothSmall(front, rest);
    if Settled(front, rest) {
      MergeSameExactly(front + rest, rest);
    } else if forall k :: |Copy(front + rest, k)| >= |Copy(rest, k)| {
      MergeSameExactly(front + rest, rest);
    } else if Comparable(front, rest) {
      MergeSameExactly(rest, front + rest);
      assert SameBlocks(rest, front + rest) ==> SameBlocks(front + rest, rest);
    }
  }

  lemma SettledIsSame(front: seq<Received>, rest: seq<Received>)
    requires forall k :: Copy(front + rest, k) == if Copy(front, k) != [] then Copy(front, k) else Copy(rest, k)
    ensures SameBlocks(front + rest, rest) <==> Settled(front, rest)
  {
    if SameBlocks(front + rest, rest) {
      forall k ensures Copy(front, k) == [] || Copy(front, k) == Copy(rest, k) {
        assert Copy(front + rest, k) == Copy(rest, k);
      }
    }
  }

  lemma BothSmall(front: seq<Received>, rest: seq<Received>)
    requires SmallNumbers(front) && SmallNumbers(rest)
    ensures SmallNumbers(front + rest)
  {
    assert forall r :: r in front + rest ==> r in front || r in rest;
  }

  /** All replies carry the same block. */
  ghost predicate OneBlock(replies: seq<Received>, n: int) {
    forall r :: r in replies ==> BlockNumber(r) == n
  }

  lemma {:induction false} OnlyKey(replies: seq<Received>, n: int)
    requires OneBlock(replies, n)
    ensures WithKey(BlockNumber, replies, n) == replies
  {
    if replies != [] {
      assert replies[0] in replies && forall r :: r in replies[1..] ==> r in replies;
      OnlyKey(replies[1..], n);
    }
  }
}
