/**
 Stable sorting by an integer key: the behaviour of Python's `sorted(xs, key=f)`,
 which orders by `f` and keeps elements with equal keys in their input order.
 The sort is an insertion sort; `IsStableSortOf` is its independent
 specification, and `StableSortIsUnique` shows that the specification admits
 exactly one result.
 */
module StableSort {

  /** `s` is in non-decreasing key order. */
  ghost predicate SortedBy<T>(s: seq<T>, key: T -> int) {
    forall i, j :: 0 <= i < j < |s| ==> key(s[i]) <= key(s[j])
  }

  /** The elements of `s` whose key is `k`, in their order in `s`. */
  function WithKey<T>(s: seq<T>, key: T -> int, k: int): (r: seq<T>)
    ensures forall x :: x in r ==> x in s && key(x) == k
  {
    if |s| == 0 then []
    else if key(s[0]) == k then [s[0]] + WithKey(s[1..], key, k)
    else WithKey(s[1..], key, k)
  }

  /** `t` is `s` sorted by key, with every group of equal keys in its original order. */
  ghost predicate IsStableSortOf<T>(t: seq<T>, s: seq<T>, key: T -> int) {
    && SortedBy(t, key)
    && forall k :: WithKey(t, key, k) == WithKey(s, key, k)
  }

  /** Inserts `x` into the sorted `t` in front of the first element whose key is not smaller. */
  function Insert<T>(x: T, t: seq<T>, key: T -> int): (r: seq<T>)
    ensures multiset(r) == multiset(t) + multiset{x}
  {
    if |t| == 0 || key(x) <= key(t[0]) then [x] + t
    else
      assert t == [t[0]] + t[1..];
      [t[0]] + Insert(x, t[1..], key)
  }

  /** The stable sort of `s` by `key`: a rearrangement of `s` (see `SortByIsStableSort`). */
  function SortBy<T>(s: seq<T>, key: T -> int): (r: seq<T>)
    ensures multiset(r) == multiset(s)
    ensures |r| == |s|
  {
    if |s| == 0 then []
    else
      assert s == [s[0]] + s[1..];
      Insert(s[0], SortBy(s[1..], key), key)
  }

  lemma {:induction false} InsertSorted<T>(x: T, t: seq<T>, key: T -> int)
    requires SortedBy(t, key)
    ensures SortedBy(Insert(x, t, key), key)
  {
    if |t| == 0 || key(x) <= key(t[0]) {
    } else {
      var rest := Insert(x, t[1..], key);
      InsertSorted(x, t[1..], key);
      forall y | y in rest
        ensures key(t[0]) <= key(y)
      {
        assert y in multiset(rest);
        if y != x {
          assert y in multiset(t[1..]);
        }
      }
    }
  }

  lemma {:induction false} InsertWithKey<T>(x: T, t: seq<T>, key: T -> int, k: int)
    requires SortedBy(t, key)
    ensures WithKey(Insert(x, t, key), key, k)
         == (if key(x) == k then [x] else []) + WithKey(t, key, k)
  {
    if |t| == 0 || key(x) <= key(t[0]) {
      assert ([x] + t)[1..] == t;
    } else {
      var rest := Insert(x, t[1..], key);
      InsertWithKey(x, t[1..], key, k);
      assert ([t[0]] + rest)[1..] == rest;
    }
  }

  lemma {:induction false} SortBySorted<T>(s: seq<T>, key: T -> int)
    ensures SortedBy(SortBy(s, key), key)
  {
    if |s| > 0 {
      SortBySorted(s[1..], key);
      InsertSorted(s[0], SortBy(s[1..], key), key);
    }
  }

  lemma {:induction false} SortByWithKey<T>(s: seq<T>, key: T -> int, k: int)
    ensures WithKey(SortBy(s, key), key, k) == WithKey(s, key, k)
  {
    if |s| > 0 {
      SortBySorted(s[1..], key);
      SortByWithKey(s[1..], key, k);
      InsertWithKey(s[0], SortBy(s[1..], key), key, k);
    }
  }

  /** `SortBy` meets the stable-sort specification. */
  lemma SortByIsStableSort<T>(s: seq<T>, key: T -> int)
    ensures IsStableSortOf(SortBy(s, key), s, key)
    ensures multiset(SortBy(s, key)) == multiset(s)
  {
    SortBySorted(s, key);
    forall k {
      SortByWithKey(s, key, k);
    }
  }

  /** Sorting what is already in key order changes nothing. */
  lemma {:induction false} SortBySortedIsIdentity<T>(s: seq<T>, key: T -> int)
    requires SortedBy(s, key)
    ensures SortBy(s, key) == s
  {
    if |s| > 0 {
      SortBySortedIsIdentity(s[1..], key);
      assert s == [s[0]] + s[1..];
    }
  }

  /** Sorting twice is sorting once. */
  lemma SortByIdempotent<T>(s: seq<T>, key: T -> int)
    ensures SortBy(SortBy(s, key), key) == SortBy(s, key)
  {
    SortBySorted(s, key);
    SortBySortedIsIdentity(SortBy(s, key), key);
  }

  /** Two keys that agree on every element of `s` sort it the same way. */
  lemma {:induction false} SortByCongruent<T>(s: seq<T>, key1: T -> int, key2: T -> int)
    requires forall i :: 0 <= i < |s| ==> key1(s[i]) == key2(s[i])
    ensures SortBy(s, key1) == SortBy(s, key2)
  {
    if |s| > 0 {
      SortByCongruent(s[1..], key1, key2);
      var t := SortBy(s[1..], key1);
      forall y | y in t
        ensures key1(y) == key2(y)
      {
        assert y in multiset(s[1..]);
      }
      InsertCongruent(s[0], t, key1, key2);
    }
  }

  lemma {:induction false} InsertCongruent<T>(x: T, t: seq<T>, key1: T -> int, key2: T -> int)
    requires key1(x) == key2(x)
    requires forall y :: y in t ==> key1(y) == key2(y)
    ensures Insert(x, t, key1) == Insert(x, t, key2)
  {
    if |t| > 0 && key1(x) > key1(t[0]) {
      InsertCongruent(x, t[1..], key1, key2);
    }
  }

  lemma FirstKeyGroupNonEmpty<T>(s: seq<T>, key: T -> int)
    ensures |s| > 0 ==> WithKey(s, key, key(s[0])) != []
  {
  }

  /** Two key-ordered sequences that agree on every key group are equal. */
  lemma {:induction false} SortedGroupsDetermine<T>(a: seq<T>, b: seq<T>, key: T -> int)
    requires SortedBy(a, key) && SortedBy(b, key)
    requires forall k :: WithKey(a, key, k) == WithKey(b, key, k)
    ensures a == b
    decreases |a| + |b|
  {
    if |a| == 0 && |b| == 0 {
    } else if |a| == 0 || |b| == 0 {
      FirstKeyGroupNonEmpty(a, key);
      FirstKeyGroupNonEmpty(b, key);
      assert false;
    } else {
      SortedHeadsAgree(a, b, key);
      forall k ensures WithKey(a[1..], key, k) == WithKey(b[1..], key, k) {
        WithKeyTail(a, key, k);
        WithKeyTail(b, key, k);
      }
      SortedGroupsDetermine(a[1..], b[1..], key);
      assert a == [a[0]] + a[1..];
      assert b == [b[0]] + b[1..];
    }
  }

  /** Two non-empty key-ordered sequences with the same key groups start with the same element. */
  lemma SortedHeadsAgree<T>(a: seq<T>, b: seq<T>, key: T -> int)
    requires |a| > 0 && |b| > 0
    requires SortedBy(a, key) && SortedBy(b, key)
    requires forall k :: WithKey(a, key, k) == WithKey(b, key, k)
    ensures a[0] == b[0]
  {
    var k := key(a[0]);
    var kb := key(b[0]);
    var ga := WithKey(a, key, k);
    assert ga[0] == a[0];
    assert ga[0] in WithKey(b, key, k);
    assert kb <= k by {
      var j :| 0 <= j < |b| && b[j] == ga[0];
    }
    var gb := WithKey(b, key, kb);
    assert gb[0] == b[0];
    assert gb[0] in WithKey(a, key, kb);
    assert k <= kb by {
      var j :| 0 <= j < |a| && a[j] == gb[0];
    }
    assert ga == WithKey(b, key, k);
  }

  /** Dropping the first element drops it from its own key group and leaves the others alone. */
  lemma WithKeyTail<T>(s: seq<T>, key: T -> int, k: int)
    requires |s| > 0
    ensures key(s[0]) == k ==> WithKey(s[1..], key, k) == WithKey(s, key, k)[1..]
    ensures key(s[0]) != k ==> WithKey(s[1..], key, k) == WithKey(s, key, k)
  {
  }

  /** The stable sort is unique: any stable sort of `s` is `SortBy(s, key)`. */
  lemma StableSortIsUnique<T>(t: seq<T>, s: seq<T>, key: T -> int)
    requires IsStableSortOf(t, s, key)
    ensures t == SortBy(s, key)
  {
    SortByIsStableSort(s, key);
    SortedGroupsDetermine(t, SortBy(s, key), key);
  }
}
