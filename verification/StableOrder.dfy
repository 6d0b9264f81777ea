/** Stable sorting by an integer key, with the characterization both the option list
    and the block merge rest on: a stable sort is the one sorted list that agrees with
    the original, element by element, on every single key. */
module StableOrder {

  ghost predicate SortedBy<T(!new)>(key: T -> int, s: seq<T>) {
    forall i, j :: 0 <= i < j < |s| ==> key(s[i]) <= key(s[j])
  }

  /** The elements of `s` that carry key `k`, in their order. */
  function WithKey<T>(key: T -> int, s: seq<T>, k: int): seq<T> {
    if s == [] then []
    else if key(s[0]) == k then [s[0]] + WithKey(key, s[1..], k)
    else WithKey(key, s[1..], k)
  }

  /** `sorted` is the stable sort of `s`. */
  ghost predicate IsStableSort<T(!new)>(key: T -> int, sorted: seq<T>, s: seq<T>) {
    SortedBy(key, sorted) && forall k :: WithKey(key, sorted, k) == WithKey(key, s, k)
  }

  /** Inserts `x` behind every element whose key is not larger. */
  function InsertBy<T>(key: T -> int, s: seq<T>, x: T): seq<T> {
    if s == [] || key(x) < key(s[0]) then [x] + s
    else [s[0]] + InsertBy(key, s[1..], x)
  }

  function SortBy<T>(key: T -> int, s: seq<T>): seq<T> {
    if s == [] then [] else InsertBy(key, SortBy(key, s[..|s| - 1]), s[|s| - 1])
  }

  lemma {:induction false} WithKeyConcat<T>(key: T -> int, a: seq<T>, b: seq<T>, k: int)
    ensures WithKey(key, a + b, k) == WithKey(key, a, k) + WithKey(key, b, k)
  {
    if a == [] {
      assert a + b == b;
    } else {
      assert (a + b)[1..] == a[1..] + b;
      WithKeyConcat(key, a[1..], b, k);
    }
  }

  lemma {:induction false} NoneWithKey<T(!new)>(key: T -> int, s: seq<T>, k: int)
    requires forall x :: x in s ==> key(x) != k
    ensures WithKey(key, s, k) == []
  {
    if s != [] {
      NoneWithKey(key, s[1..], k);
    }
  }

  lemma {:induction false} InsertMembers<T(!new)>(key: T -> int, s: seq<T>, x: T)
    ensures |InsertBy(key, s, x)| == |s| + 1
    ensures forall y :: y in InsertBy(key, s, x) <==> y in s || y == x
  {
    if s != [] && key(x) >= key(s[0]) {
      InsertMembers(key, s[1..], x);
      assert forall y :: y in s <==> y == s[0] || y in s[1..];
    }
  }

  lemma {:induction false} InsertKeepsSorted<T(!new)>(key: T -> int, s: seq<T>, x: T)
    requires SortedBy(key, s)
    ensures SortedBy(key, InsertBy(key, s, x))
  {
    if s != [] && key(x) >= key(s[0]) {
      var r := InsertBy(key, s[1..], x);
      InsertKeepsSorted(key, s[1..], x);
      InsertMembers(key, s[1..], x);
      forall i | 0 <= i < |r| ensures key(s[0]) <= key(r[i]) {
        assert r[i] in r;
      }
    }
  }

  /** Insertion puts `x` last among the elements with its key and moves nothing else. */
  lemma {:induction false} InsertWithKey<T(!new)>(key: T -> int, s: seq<T>, x: T, k: int)
    requires SortedBy(key, s)
    ensures WithKey(key, InsertBy(key, s, x), k)
         == WithKey(key, s, k) + (if key(x) == k then [x] else [])
  {
    if s == [] || key(x) < key(s[0]) {
      assert ([x] + s)[1..] == s;
      if key(x) == k {
        NoneWithKey(key, s, k);
      }
    } else {
      var r := InsertBy(key, s[1..], x);
      InsertWithKey(key, s[1..], x, k);
      assert ([s[0]] + r)[1..] == r;
    }
  }

  lemma {:induction false} SortIsStable<T(!new)>(key: T -> int, s: seq<T>)
    ensures IsStableSort(key, SortBy(key, s), s)
  {
    if s != [] {
      var front, x := s[..|s| - 1], s[|s| - 1];
      var sorted := SortBy(key, front);
      SortIsStable(key, front);
      InsertKeepsSorted(key, sorted, x);
      forall k ensures WithKey(key, InsertBy(key, sorted, x), k) == WithKey(key, s, k) {
        InsertWithKey(key, sorted, x, k);
        WithKeyConcat(key, front, [x], k);
        assert s == front + [x];
      }
    }
  }

  lemma {:induction false} HeadWithKey<T(!new)>(key: T -> int, s: seq<T>)
    requires s != []
    ensures WithKey(key, s, key(s[0])) == [s[0]] + WithKey(key, s[1..], key(s[0]))
    ensures forall k :: k != key(s[0]) ==> WithKey(key, s, k) == WithKey(key, s[1..], k)
  {
  }

  lemma {:induction false} WithKeyMember<T(!new)>(key: T -> int, s: seq<T>, k: int, x: T)
    ensures x in WithKey(key, s, k) <==> x in s && key(x) == k
  {
    if s != [] {
      WithKeyMember(key, s[1..], k, x);
    }
  }

  /** There is only one stable sort. */
  lemma {:induction false} StableSortUnique<T(!new)>(key: T -> int, a: seq<T>, b: seq<T>)
    requires SortedBy(key, a) && SortedBy(key, b)
    requires forall k :: WithKey(key, a, k) == WithKey(key, b, k)
    ensures a == b
  {
    if a != [] && b != [] {
      var k, j := key(a[0]), key(b[0]);
      HeadWithKey(key, a);
      HeadWithKey(key, b);
      WithKeyMember(key, b, k, a[0]);
      WithKeyMember(key, a, j, b[0]);
      assert WithKey(key, a, j) == WithKey(key, b, j);
      assert k == j;
      SameTails(key, a, b);
      StableSortUnique(key, a[1..], b[1..]);
    } else if a != [] {
      HeadWithKey(key, a);
    } else if b != [] {
      HeadWithKey(key, b);
    }
  }

  lemma {:induction false} SameTails<T(!new)>(key: T -> int, a: seq<T>, b: seq<T>)
    requires a != [] && b != [] && key(a[0]) == key(b[0])
    requires forall k :: WithKey(key, a, k) == WithKey(key, b, k)
    ensures a[0] == b[0]
    ensures forall k :: WithKey(key, a[1..], k) == WithKey(key, b[1..], k)
  {
    var h := key(a[0]);
    HeadWithKey(key, a);
    HeadWithKey(key, b);
    assert WithKey(key, a, h) == WithKey(key, b, h);
    assert WithKey(key, a, h)[0] == a[0] && WithKey(key, b, h)[0] == b[0];
    forall k ensures WithKey(key, a[1..], k) == WithKey(key, b[1..], k) {
      if k == h {
        assert WithKey(key, a[1..], h) == WithKey(key, a, h)[1..];
        assert WithKey(key, b[1..], h) == WithKey(key, b, h)[1..];
      } else {
        assert WithKey(key, a, k) == WithKey(key, b, k);
      }
    }
  }
}
