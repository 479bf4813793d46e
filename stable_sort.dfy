/**
 A stable sort into descending order of a real-valued key: the behaviour of
 `Array.prototype.sort` with the comparator `(a, b) => key(b) - key(a)`,
 which the language requires to be stable.

 It is an insertion sort: each element, taken in input order, is placed
 after every element already placed whose key is at least its own.
 */
module StableSort {

  /** Non-increasing by `key`. */
  ghost predicate SortedDescendingBy<T>(s: seq<T>, key: T -> real) {
    forall i, j :: 0 <= i < j < |s| ==> key(s[j]) <= key(s[i])
  }

  /** The elements of `s` whose key is exactly `k`, in their order in `s`. */
  function WithKey<T>(s: seq<T>, key: T -> real, k: real): (r: seq<T>)
    ensures |r| <= |s|
  {
    if s == [] then []
    else (if key(s[0]) == k then [s[0]] else []) + WithKey(s[1..], key, k)
  }

  /** Places `x` after every element of `sorted` whose key is at least `key(x)`. */
  function InsertBy<T>(sorted: seq<T>, x: T, key: T -> real): (r: seq<T>)
    ensures multiset(r) == multiset(sorted) + multiset{x}
  {
    if sorted == [] then [x]
    else if key(x) <= key(sorted[0]) then
      assert sorted == [sorted[0]] + sorted[1..];
      [sorted[0]] + InsertBy(sorted[1..], x, key)
    else [x] + sorted
  }

  /** Sorts `s` into descending order of `key`, keeping equal keys in input order. */
  function SortDescendingBy<T>(s: seq<T>, key: T -> real): (r: seq<T>)
    ensures multiset(r) == multiset(s)
  {
    if s == [] then []
    else
      assert s == s[..|s| - 1] + [s[|s| - 1]];
      InsertBy(SortDescendingBy(s[..|s| - 1], key), s[|s| - 1], key)
  }

  /** Sorting keeps any property that holds of every element. */
  lemma SortKeepsEvery<T>(s: seq<T>, key: T -> real, p: T -> bool)
    requires forall i :: 0 <= i < |s| ==> p(s[i])
    ensures forall i :: 0 <= i < |SortDescendingBy(s, key)| ==> p(SortDescendingBy(s, key)[i])
  {
    var r := SortDescendingBy(s, key);
    forall i | 0 <= i < |r|
      ensures p(r[i])
    {
      assert r[i] in multiset(s);
      var k :| 0 <= k < |s| && s[k] == r[i];
    }
  }

  lemma SortedTail<T>(s: seq<T>, key: T -> real)
    requires SortedDescendingBy(s, key) && s != []
    ensures SortedDescendingBy(s[1..], key)
  {
    forall i, j | 0 <= i < j < |s[1..]|
      ensures key(s[1..][j]) <= key(s[1..][i])
    {
      assert s[1..][i] == s[i + 1] && s[1..][j] == s[j + 1];
    }
  }

  /** Every element of `InsertBy(sorted, x, key)` is `x` or an element of `sorted`. */
  lemma InsertedFrom<T>(sorted: seq<T>, x: T, key: T -> real, i: int)
    requires 0 <= i < |InsertBy(sorted, x, key)|
    ensures InsertBy(sorted, x, key)[i] == x || InsertBy(sorted, x, key)[i] in sorted
  {
    var r := InsertBy(sorted, x, key);
    assert r[i] in multiset(r);
  }

  /** A head no smaller than every element of a sorted tail gives a sorted sequence. */
  lemma ConsSorted<T>(head: T, rest: seq<T>, key: T -> real)
    requires SortedDescendingBy(rest, key)
    requires forall i :: 0 <= i < |rest| ==> key(rest[i]) <= key(head)
    ensures SortedDescendingBy([head] + rest, key)
  {
    var r := [head] + rest;
    forall i, j | 0 <= i < j < |r|
      ensures key(r[j]) <= key(r[i])
    {
      assert r[j] == rest[j - 1];
      if 0 < i {
        assert r[i] == rest[i - 1];
      }
    }
  }

  lemma {:induction false} InsertKeepsSorted<T>(sorted: seq<T>, x: T, key: T -> real)
    requires SortedDescendingBy(sorted, key)
    ensures SortedDescendingBy(InsertBy(sorted, x, key), key)
  {
    if sorted == [] {
      assert InsertBy(sorted, x, key) == [x];
    } else if key(x) <= key(sorted[0]) {
      var head, rest := sorted[0], InsertBy(sorted[1..], x, key);
      SortedTail(sorted, key);
      InsertKeepsSorted(sorted[1..], x, key);
      forall i | 0 <= i < |rest|
        ensures key(rest[i]) <= key(head)
      {
        InsertedFrom(sorted[1..], x, key, i);
        if rest[i] != x {
          var k :| 0 <= k < |sorted[1..]| && sorted[1..][k] == rest[i];
          assert sorted[k + 1] == rest[i];
        }
      }
      ConsSorted(head, rest, key);
    } else {
      ConsSorted(x, sorted, key);
    }
  }

  /** The result of the sort is in descending order of the key. */
  lemma {:induction false} SortIsSorted<T>(s: seq<T>, key: T -> real)
    ensures SortedDescendingBy(SortDescendingBy(s, key), key)
  {
    if s != [] {
      SortIsSorted(s[..|s| - 1], key);
      InsertKeepsSorted(SortDescendingBy(s[..|s| - 1], key), s[|s| - 1], key);
    }
  }

  lemma {:induction false} WithKeyAppend<T>(a: seq<T>, b: seq<T>, key: T -> real, k: real)
    ensures WithKey(a + b, key, k) == WithKey(a, key, k) + WithKey(b, key, k)
  {
    if a == [] {
      assert a + b == b;
    } else {
      var ab := a + b;
      var head := if key(a[0]) == k then [a[0]] else [];
      assert ab[0] == a[0];
      assert ab[1..] == a[1..] + b;
      WithKeyAppend(a[1..], b, key, k);
      calc {
        WithKey(ab, key, k);
        head + WithKey(a[1..] + b, key, k);
        head + (WithKey(a[1..], key, k) + WithKey(b, key, k));
        (head + WithKey(a[1..], key, k)) + WithKey(b, key, k);
      }
    }
  }

  lemma WithKeySingleton<T>(x: T, key: T -> real, k: real)
    ensures WithKey([x], key, k) == if key(x) == k then [x] else []
  {
    assert [x][1..] == [];
  }

  /** In a sorted sequence whose first key is below `k`, no element has key `k`. */
  lemma {:induction false} NoneAboveFirst<T>(sorted: seq<T>, key: T -> real, k: real)
    requires SortedDescendingBy(sorted, key) && sorted != [] && key(sorted[0]) < k
    ensures WithKey(sorted, key, k) == []
  {
    if |sorted| > 1 {
      SortedTail(sorted, key);
      assert sorted[1..][0] == sorted[1];
      NoneAboveFirst(sorted[1..], key, k);
    }
  }

  /** Inserting `x` puts it after every element that shares its key. */
  lemma {:induction false} InsertIsStable<T>(sorted: seq<T>, x: T, key: T -> real, k: real)
    requires SortedDescendingBy(sorted, key)
    ensures WithKey(InsertBy(sorted, x, key), key, k)
         == WithKey(sorted, key, k) + (if key(x) == k then [x] else [])
  {
    WithKeySingleton(x, key, k);
    if sorted == [] {
      assert InsertBy(sorted, x, key) == [x];
    } else if key(x) <= key(sorted[0]) {
      SortedTail(sorted, key);
      InsertIsStable(sorted[1..], x, key, k);
      InsertBehindHeadIsStable(sorted, x, key, k);
    } else {
      WithKeyAppend([x], sorted, key, k);
      if key(x) == k {
        NoneAboveFirst(sorted, key, k);
      }
    }
  }

  /** The step of InsertIsStable where `x` goes behind the first element. */
  lemma InsertBehindHeadIsStable<T>(sorted: seq<T>, x: T, key: T -> real, k: real)
    requires sorted != [] && key(x) <= key(sorted[0])
    requires WithKey(InsertBy(sorted[1..], x, key), key, k)
          == WithKey(sorted[1..], key, k) + (if key(x) == k then [x] else [])
    ensures WithKey(InsertBy(sorted, x, key), key, k)
         == WithKey(sorted, key, k) + (if key(x) == k then [x] else [])
  {
    assert sorted == [sorted[0]] + sorted[1..];
    assert InsertBy(sorted, x, key) == [sorted[0]] + InsertBy(sorted[1..], x, key);
    PrefixKeepsSuffix([sorted[0]], InsertBy(sorted[1..], x, key), sorted[1..], key, k,
                      if key(x) == k then [x] else []);
  }

  /** Putting the same prefix in front of two sequences keeps a `WithKey` relation between them. */
  lemma PrefixKeepsSuffix<T>(a: seq<T>, longer: seq<T>, shorter: seq<T>, key: T -> real, k: real, tail: seq<T>)
    requires WithKey(longer, key, k) == WithKey(shorter, key, k) + tail
    ensures WithKey(a + longer, key, k) == WithKey(a + shorter, key, k) + tail
  {
    WithKeyAppend(a, longer, key, k);
    WithKeyAppend(a, shorter, key, k);
    ConcatAssociative(WithKey(a, key, k), WithKey(shorter, key, k), tail);
  }

  lemma ConcatAssociative<T>(a: seq<T>, b: seq<T>, c: seq<T>)
    ensures a + (b + c) == (a + b) + c
  {
  }

  /** The sort is stable: for every key value, the elements with that key keep their order. */
  lemma {:induction false} SortIsStable<T>(s: seq<T>, key: T -> real, k: real)
    ensures WithKey(SortDescendingBy(s, key), key, k) == WithKey(s, key, k)
  {
    if s != [] {
      var init, last := s[..|s| - 1], s[|s| - 1];
      assert s == init + [last];
      WithKeySingleton(last, key, k);
      WithKeyAppend(init, [last], key, k);
      SortIsStable(init, key, k);
      SortIsSorted(init, key);
      InsertIsStable(SortDescendingBy(init, key), last, key, k);
    }
  }
}
