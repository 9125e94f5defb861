/** A stable sort by a real-valued key, the behaviour of Python's
    `list.sort(key=...)`: the result is ordered by key and elements with
    equal keys keep their relative order. Written as insertion sort; the
    lemma `StableSortUnique` shows any stable sort returns the same list,
    so the algorithm Python uses internally does not matter. */
module StableSort {

  predicate SortedBy<T>(s: seq<T>, key: T -> real) {
    forall i, j :: 0 <= i < j < |s| ==> key(s[i]) <= key(s[j])
  }

  /** The elements of `s` whose key is `k`, in their order in `s`. Two lists
      with the same `WithKey` for every `k` hold the same elements, and
      elements with equal keys appear in the same relative order. */
  function WithKey<T>(s: seq<T>, key: T -> real, k: real): (r: seq<T>)
    ensures |r| <= |s|
    ensures forall i :: 0 <= i < |r| ==> r[i] in s && key(r[i]) == k
  {
    if |s| == 0 then []
    else (if key(s[0]) == k then [s[0]] else []) + WithKey(s[1..], key, k)
  }

  lemma {:induction false} WithKeyAppend<T>(a: seq<T>, b: seq<T>, key: T -> real, k: real)
    ensures WithKey(a + b, key, k) == WithKey(a, key, k) + WithKey(b, key, k)
  {
    if |a| > 0 {
      assert (a + b)[1..] == a[1..] + b;
      WithKeyAppend(a[1..], b, key, k);
    } else {
      assert a + b == b;
    }
  }

  /** Puts `x` into the list `s` after the leading run of elements whose key
      is not greater than its own. */
  function Insert<T>(s: seq<T>, x: T, key: T -> real): (r: seq<T>)
    ensures |r| == |s| + 1
  {
    if |s| == 0 then [x]
    else if key(x) < key(s[0]) then [x] + s
    else [s[0]] + Insert(s[1..], x, key)
  }

  /** Inserting adds `x` and loses nothing. */
  lemma {:induction false} InsertPermutes<T>(s: seq<T>, x: T, key: T -> real)
    ensures multiset(Insert(s, x, key)) == multiset(s) + multiset{x}
  {
    if |s| > 0 && key(x) >= key(s[0]) {
      InsertPermutes(s[1..], x, key);
      assert s == [s[0]] + s[1..];
    }
  }

  /** Inserting into a sorted list keeps it sorted. */
  lemma {:induction false} InsertSorted<T>(s: seq<T>, x: T, key: T -> real)
    requires SortedBy(s, key)
    ensures SortedBy(Insert(s, x, key), key)
  {
    var r := Insert(s, x, key);
    if |s| > 0 && key(x) >= key(s[0]) {
      var rest := Insert(s[1..], x, key);
      InsertSorted(s[1..], x, key);
      InsertPermutes(s[1..], x, key);
      assert r == [s[0]] + rest;
      forall j | 0 <= j < |rest|
        ensures key(s[0]) <= key(rest[j])
      {
        assert rest[j] in multiset(rest);
        assert rest[j] in multiset(s[1..]) || rest[j] == x;
      }
      forall i, j | 0 <= i < j < |r|
        ensures key(r[i]) <= key(r[j])
      {
        assert r[j] == rest[j - 1];
        if i > 0 {
          assert r[i] == rest[i - 1];
        }
      }
    }
  }

  /** Inserting into a sorted list puts `x` after every element with the
      same key and leaves the order among all others as it was. */
  lemma {:induction false} InsertWithKey<T>(s: seq<T>, x: T, key: T -> real, k: real)
    requires SortedBy(s, key)
    ensures WithKey(Insert(s, x, key), key, k) == WithKey(s, key, k) + (if key(x) == k then [x] else [])
    decreases |s|, 1
  {
    if |s| == 0 {
      assert Insert(s, x, key) == [x] + s;
      WithKeyCons(x, s, key, k);
    } else if key(x) < key(s[0]) {
      InsertBeforeHead(s, x, key, k);
    } else {
      InsertAfterHead(s, x, key, k);
    }
  }

  lemma InsertBeforeHead<T>(s: seq<T>, x: T, key: T -> real, k: real)
    requires SortedBy(s, key) && |s| > 0 && key(x) < key(s[0])
    ensures WithKey(Insert(s, x, key), key, k) == WithKey(s, key, k) + (if key(x) == k then [x] else [])
  {
    assert Insert(s, x, key) == [x] + s;
    WithKeyCons(x, s, key, k);
    if key(x) == k {
      NoneBelowHead(s, key, k);
    }
  }

  lemma {:induction false} InsertAfterHead<T>(s: seq<T>, x: T, key: T -> real, k: real)
    requires SortedBy(s, key) && |s| > 0 && key(s[0]) <= key(x)
    ensures WithKey(Insert(s, x, key), key, k) == WithKey(s, key, k) + (if key(x) == k then [x] else [])
    decreases |s|, 0
  {
    var rest := Insert(s[1..], x, key);
    var head, own := if key(s[0]) == k then [s[0]] else [], if key(x) == k then [x] else [];
    var tail := WithKey(s[1..], key, k);
    assert WithKey(Insert(s, x, key), key, k) == head + WithKey(rest, key, k) by {
      assert Insert(s, x, key) == [s[0]] + rest;
      WithKeyCons(s[0], rest, key, k);
    }
    assert WithKey(rest, key, k) == tail + own by {
      SortedTail(s, key);
      InsertWithKey(s[1..], x, key, k);
    }
    assert WithKey(s, key, k) == head + tail by {
      assert s == [s[0]] + s[1..];
      WithKeyCons(s[0], s[1..], key, k);
    }
    assert head + (tail + own) == head + tail + own;
  }

  lemma WithKeyCons<T>(h: T, rest: seq<T>, key: T -> real, k: real)
    ensures WithKey([h] + rest, key, k) == (if key(h) == k then [h] else []) + WithKey(rest, key, k)
  {
    assert ([h] + rest)[1..] == rest;
  }

  lemma SortedTail<T>(s: seq<T>, key: T -> real)
    requires SortedBy(s, key) && |s| > 0
    ensures SortedBy(s[1..], key)
  {
    forall i, j | 0 <= i < j < |s[1..]|
      ensures key(s[1..][i]) <= key(s[1..][j])
    {
      assert s[1..][i] == s[i + 1] && s[1..][j] == s[j + 1];
    }
  }

  /** In a sorted list no element has a key below the first one's. */
  lemma {:induction false} NoneBelowHead<T>(s: seq<T>, key: T -> real, k: real)
    requires SortedBy(s, key) && |s| > 0 && k < key(s[0])
    ensures WithKey(s, key, k) == []
  {
    if |s| > 1 {
      NoneBelowHead(s[1..], key, k);
    }
  }

  /** `sorted(s, key=key)`. */
  function Sort<T>(s: seq<T>, key: T -> real): (r: seq<T>)
    ensures |r| == |s|
    ensures multiset(r) == multiset(s)
    ensures SortedBy(r, key)
    ensures forall k :: WithKey(r, key, k) == WithKey(s, key, k)
  {
    if |s| == 0 then []
    else
      var init := s[..|s| - 1];
      var last := s[|s| - 1];
      assert s == init + [last];
      var r := Insert(Sort(init, key), last, key);
      InsertSorted(Sort(init, key), last, key);
      InsertPermutes(Sort(init, key), last, key);
      SortStable(Sort(init, key), init, last, key);
      r
  }

  lemma SortStable<T>(sorted: seq<T>, init: seq<T>, last: T, key: T -> real)
    requires SortedBy(sorted, key)
    requires forall k :: WithKey(sorted, key, k) == WithKey(init, key, k)
    ensures forall k :: WithKey(Insert(sorted, last, key), key, k) == WithKey(init + [last], key, k)
  {
    forall k
      ensures WithKey(Insert(sorted, last, key), key, k) == WithKey(init + [last], key, k)
    {
      InsertWithKey(sorted, last, key, k);
      WithKeyAppend(init, [last], key, k);
    }
  }

  lemma WithKeyHead<T>(s: seq<T>, key: T -> real)
    requires |s| > 0
    ensures WithKey(s, key, key(s[0])) != [] && WithKey(s, key, key(s[0]))[0] == s[0]
  {
  }

  /** Two lists that are both sorted and agree on every `WithKey` are
      equal: a stable sort has only one possible result. */
  lemma {:induction false} StableSortUnique<T>(a: seq<T>, b: seq<T>, key: T -> real)
    requires SortedBy(a, key) && SortedBy(b, key)
    requires forall k :: WithKey(a, key, k) == WithKey(b, key, k)
    ensures a == b
    decreases |a| + |b|
  {
    if |a| == 0 && |b| == 0 {
    } else if |a| == 0 {
      WithKeyHead(b, key);
      assert false;
    } else if |b| == 0 {
      WithKeyHead(a, key);
      assert false;
    } else {
      SameHead(a, b, key);
      TailsAgree(a, b, key);
      SortedTail(a, key);
      SortedTail(b, key);
      StableSortUnique(a[1..], b[1..], key);
      assert a == [a[0]] + a[1..];
      assert b == [b[0]] + b[1..];
    }
  }

  /** Sorted lists that agree on every `WithKey` start with the same
      element: each one's head is the first element with the smallest key. */
  lemma SameHead<T>(a: seq<T>, b: seq<T>, key: T -> real)
    requires SortedBy(a, key) && SortedBy(b, key) && |a| > 0 && |b| > 0
    requires forall k :: WithKey(a, key, k) == WithKey(b, key, k)
    ensures a[0] == b[0]
  {
    var ka, kb := key(a[0]), key(b[0]);
    WithKeyHead(a, key);
    WithKeyHead(b, key);
    assert WithKey(b, key, ka)[0] in b;
    assert kb <= ka;
    assert WithKey(a, key, kb)[0] in a;
    assert ka <= kb;
  }

  /** Removing the same head from two lists that agree on every `WithKey`
      leaves two lists that still agree. */
  lemma TailsAgree<T>(a: seq<T>, b: seq<T>, key: T -> real)
    requires |a| > 0 && |b| > 0 && a[0] == b[0]
    requires forall k :: WithKey(a, key, k) == WithKey(b, key, k)
    ensures forall k :: WithKey(a[1..], key, k) == WithKey(b[1..], key, k)
  {
    forall k
      ensures WithKey(a[1..], key, k) == WithKey(b[1..], key, k)
    {
      var wa, wb := WithKey(a, key, k), WithKey(b, key, k);
      if key(a[0]) == k {
        assert WithKey(a[1..], key, k) == wa[1..];
        assert WithKey(b[1..], key, k) == wb[1..];
      } else {
        assert WithKey(a[1..], key, k) == wa;
        assert WithKey(b[1..], key, k) == wb;
      }
    }
  }

  /** Any list that is sorted by `key` and keeps the per-key order of `s`
      is `Sort(s, key)`; in particular Python's `list.sort` returns it. */
  lemma SortIsUnique<T>(s: seq<T>, r: seq<T>, key: T -> real)
    requires SortedBy(r, key)
    requires forall k :: WithKey(r, key, k) == WithKey(s, key, k)
    ensures r == Sort(s, key)
  {
    StableSortUnique(r, Sort(s, key), key);
  }
}
