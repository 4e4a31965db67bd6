/**
 * A stable sort by a two-part key, which is what `Array.prototype.sort`
 * computes (the sort is stable since ECMAScript 2019) for a comparator that
 * compares such keys: elements of equal key keep their input order.
 */
module Sorting {

  /** Compared lexicographically: first component, then second. */
  type Key = (int, int)

  predicate KeyLe(a: Key, b: Key)
  {
    a.0 < b.0 || (a.0 == b.0 && a.1 <= b.1)
  }

  predicate KeyLt(a: Key, b: Key)
  {
    a.0 < b.0 || (a.0 == b.0 && a.1 < b.1)
  }

  predicate Sorted<T(!new)>(s: seq<T>, key: T -> Key)
  {
    forall i, j :: 0 <= i < j < |s| ==> KeyLe(key(s[i]), key(s[j]))
  }

  /**
   * Inserts `x` in front of the first element of `s` whose key is not
   * smaller, so that `x` precedes the elements of equal key.
   */
  function Insert<T(!new)>(x: T, s: seq<T>, key: T -> Key): (r: seq<T>)
    ensures multiset(r) == multiset(s) + multiset{x}
  {
    if s == [] || !KeyLt(key(s[0]), key(x)) then
      [x] + s
    else
      assert s == [s[0]] + s[1..];
      [s[0]] + Insert(x, s[1..], key)
  }

  /** Inserting into a sorted sequence keeps it sorted. */
  lemma {:induction false} InsertSorted<T(!new)>(x: T, s: seq<T>, key: T -> Key)
    requires Sorted(s, key)
    ensures Sorted(Insert(x, s, key), key)
  {
    if s == [] || !KeyLt(key(s[0]), key(x)) {
      forall j | 0 <= j < |s| ensures KeyLe(key(x), key(s[j])) {
        assert j == 0 || KeyLe(key(s[0]), key(s[j]));
      }
    } else {
      var rest := Insert(x, s[1..], key);
      InsertSorted(x, s[1..], key);
      assert s == [s[0]] + s[1..];
      forall y | y in rest ensures KeyLe(key(s[0]), key(y)) {
        assert y in multiset(rest);
        if y != x {
          assert y in multiset(s[1..]);
          var j :| 0 <= j < |s[1..]| && s[1..][j] == y;
          assert s[j + 1] == y;
        }
      }
    }
  }

  /** Stable sort of `s` by `key`. */
  function SortBy<T(!new)>(s: seq<T>, key: T -> Key): (r: seq<T>)
    ensures Sorted(r, key)
    ensures multiset(r) == multiset(s)
    ensures |r| == |s|
  {
    if s == [] then []
    else
      assert s == [s[0]] + s[1..];
      var sorted := SortBy(s[1..], key);
      InsertSorted(s[0], sorted, key);
      Insert(s[0], sorted, key)
  }

  /** The elements of `s` whose key is `k`, in their order in `s`. */
  function WithKey<T(!new)>(s: seq<T>, key: T -> Key, k: Key): (r: seq<T>)
    ensures |r| <= |s|
  {
    if s == [] then []
    else (if key(s[0]) == k then [s[0]] else []) + WithKey(s[1..], key, k)
  }

  lemma {:induction false} WithKeyMembers<T(!new)>(s: seq<T>, key: T -> Key, k: Key)
    ensures forall y :: y in WithKey(s, key, k) <==> y in s && key(y) == k
  {
    if s != [] {
      WithKeyMembers(s[1..], key, k);
      assert s == [s[0]] + s[1..];
    }
  }

  lemma WithKeyHead<T(!new)>(s: seq<T>, key: T -> Key)
    ensures s != [] ==> WithKey(s, key, key(s[0])) != []
  {
  }

  lemma WithKeyCons<T(!new)>(y: T, t: seq<T>, key: T -> Key, k: Key)
    ensures WithKey([y] + t, key, k) == (if key(y) == k then [y] else []) + WithKey(t, key, k)
  {
    assert ([y] + t)[0] == y;
    assert ([y] + t)[1..] == t;
  }

  /** Inserting `x` adds it to its key's subsequence, in front. */
  lemma {:induction false} InsertWithKey<T(!new)>(x: T, s: seq<T>, key: T -> Key, k: Key)
    ensures WithKey(Insert(x, s, key), key, k) == (if key(x) == k then [x] else []) + WithKey(s, key, k)
  {
    if s == [] || !KeyLt(key(s[0]), key(x)) {
      assert Insert(x, s, key) == [x] + s;
      WithKeyCons(x, s, key, k);
    } else {
      var s0, tail := s[0], s[1..];
      var rest := Insert(x, tail, key);
      assert Insert(x, s, key) == [s0] + rest;
      assert s == [s0] + tail;
      InsertWithKey(x, tail, key, k);
      SwapPastOtherKey(s0, x, rest, tail, key, k);
    }
  }

  /** An element of another key can be moved past `x` without changing any key's subsequence. */
  lemma SwapPastOtherKey<T(!new)>(y: T, x: T, rest: seq<T>, tail: seq<T>, key: T -> Key, k: Key)
    requires key(y) != key(x)
    requires WithKey(rest, key, k) == (if key(x) == k then [x] else []) + WithKey(tail, key, k)
    ensures WithKey([y] + rest, key, k) == (if key(x) == k then [x] else []) + WithKey([y] + tail, key, k)
  {
    WithKeyCons(y, rest, key, k);
    WithKeyCons(y, tail, key, k);
  }

  /** The sort is stable: for each key, the elements with that key keep their order. */
  lemma {:induction false} SortByStable<T(!new)>(s: seq<T>, key: T -> Key, k: Key)
    ensures WithKey(SortBy(s, key), key, k) == WithKey(s, key, k)
  {
    if s != [] {
      SortByStable(s[1..], key, k);
      InsertWithKey(s[0], SortBy(s[1..], key), key, k);
    }
  }

  /**
   * A sorted sequence is determined by its per-key subsequences: two sorted
   * sequences that agree on every key's subsequence are equal.
   */
  lemma {:induction false} SortedUnique<T(!new)>(a: seq<T>, b: seq<T>, key: T -> Key)
    requires Sorted(a, key) && Sorted(b, key)
    requires forall k :: WithKey(a, key, k) == WithKey(b, key, k)
    ensures a == b
  {
    if a == [] || b == [] {
      if a != [] {
        WithKeyHead(a, key);
        assert false;
      } else if b != [] {
        WithKeyHead(b, key);
        assert false;
      }
    } else {
      var ka, kb := key(a[0]), key(b[0]);
      WithKeyMembers(a, key, kb);
      WithKeyMembers(b, key, ka);
      WithKeyMembers(b, key, kb);
      WithKeyMembers(a, key, ka);
      assert b[0] in WithKey(a, key, kb);
      assert a[0] in WithKey(b, key, ka);
      assert KeyLe(ka, kb) by {
        var i :| 0 <= i < |a| && a[i] == b[0];
        assert i == 0 || KeyLe(key(a[0]), key(a[i]));
      }
      assert KeyLe(kb, ka) by {
        var j :| 0 <= j < |b| && b[j] == a[0];
        assert j == 0 || KeyLe(key(b[0]), key(b[j]));
      }
      assert ka == kb;
      assert a[0] == b[0] by {
        assert WithKey(a, key, ka)[0] == a[0];
        assert WithKey(b, key, ka)[0] == b[0];
      }
      forall k
        ensures WithKey(a[1..], key, k) == WithKey(b[1..], key, k)
      {
        assert WithKey(a, key, k) == WithKey(b, key, k);
        if k == ka {
          assert WithKey(a, key, k) == [a[0]] + WithKey(a[1..], key, k);
          assert WithKey(b, key, k) == [b[0]] + WithKey(b[1..], key, k);
          assert WithKey(a[1..], key, k) == WithKey(a, key, k)[1..];
          assert WithKey(b[1..], key, k) == WithKey(b, key, k)[1..];
        } else {
          assert WithKey(a, key, k) == WithKey(a[1..], key, k);
          assert WithKey(b, key, k) == WithKey(b[1..], key, k);
        }
      }
      SortedUnique(a[1..], b[1..], key);
      assert a == [a[0]] + a[1..];
      assert b == [b[0]] + b[1..];
    }
  }

  /**
   * `SortBy` is THE stable sort: any sorted arrangement that keeps each
   * key's elements in their input order is exactly `SortBy(s, key)`.
   */
  lemma StableSortIsSortBy<T(!new)>(s: seq<T>, r: seq<T>, key: T -> Key)
    requires Sorted(r, key)
    requires forall k :: WithKey(r, key, k) == WithKey(s, key, k)
    ensures r == SortBy(s, key)
  {
    forall k
      ensures WithKey(r, key, k) == WithKey(SortBy(s, key), key, k)
    {
      SortByStable(s, key, k);
    }
    SortedUnique(r, SortBy(s, key), key);
  }
}
