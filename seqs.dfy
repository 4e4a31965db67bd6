/**
 * `Array.prototype.filter` over immutable sequences, with the counting
 * facts the task list and the report rely on.
 */
module Seqs {

  /** The elements of `s` that satisfy `p`, in their original order. */
  function Filter<T(!new)>(s: seq<T>, p: T -> bool): (r: seq<T>)
    ensures |r| <= |s|
    ensures forall x :: x in r ==> x in s && p(x)
  {
    if s == [] then []
    else
      assert s == [s[0]] + s[1..];
      (if p(s[0]) then [s[0]] else []) + Filter(s[1..], p)
  }

  /** `Array.prototype.map`: `f` applied to each element, in order. */
  function Map<A, B>(s: seq<A>, f: A -> B): (r: seq<B>)
    ensures |r| == |s|
    ensures forall i :: 0 <= i < |s| ==> r[i] == f(s[i])
  {
    seq(|s|, i requires 0 <= i < |s| => f(s[i]))
  }

  /** An element is kept exactly when it occurs and satisfies the predicate. */
  lemma {:induction false} FilterMembers<T(!new)>(s: seq<T>, p: T -> bool)
    ensures forall x :: x in Filter(s, p) <==> x in s && p(x)
  {
    if s != [] {
      FilterMembers(s[1..], p);
      assert s == [s[0]] + s[1..];
    }
  }

  /** Filtering by a predicate every element satisfies keeps the sequence as it is. */
  lemma {:induction false} FilterKeepsAll<T(!new)>(s: seq<T>, p: T -> bool)
    requires forall x :: x in s ==> p(x)
    ensures Filter(s, p) == s
  {
    if s != [] {
      FilterKeepsAll(s[1..], p);
    }
  }

  /**
   * Filtering by a weaker predicate first changes nothing: the result of the
   * stronger filter is the weaker filter's result filtered once more.
   */
  lemma {:induction false} FilterOfWeaker<T(!new)>(s: seq<T>, p: T -> bool, q: T -> bool)
    requires forall x :: x in s && p(x) ==> q(x)
    ensures Filter(Filter(s, q), p) == Filter(s, p)
    ensures multiset(Filter(s, p)) <= multiset(Filter(s, q))
    ensures |Filter(s, p)| <= |Filter(s, q)|
  {
    if s != [] {
      FilterOfWeaker(s[1..], p, q);
      var rest := Filter(s[1..], q);
      if q(s[0]) {
        assert Filter(s, q) == [s[0]] + rest;
        assert ([s[0]] + rest)[1..] == rest;
      } else {
        assert Filter(s, q) == rest;
      }
    }
    assert Filter(Filter(s, q), p) == Filter(s, p);
    FilterSubMultiset(Filter(s, q), p);
  }

  /** Filtering keeps each element at most as often as it occurs. */
  lemma {:induction false} FilterSubMultiset<T(!new)>(s: seq<T>, p: T -> bool)
    ensures multiset(Filter(s, p)) <= multiset(s)
  {
    if s != [] {
      var t := s[1..];
      FilterSubMultiset(t, p);
      assert s == [s[0]] + t;
      assert multiset(s) == multiset{s[0]} + multiset(t);
      if p(s[0]) {
        assert Filter(s, p) == [s[0]] + Filter(t, p);
        assert multiset(Filter(s, p)) == multiset{s[0]} + multiset(Filter(t, p));
      } else {
        assert Filter(s, p) == Filter(t, p);
      }
    }
  }

  /** Two complementary predicates split a sequence into two parts. */
  lemma {:induction false} FilterSplit<T(!new)>(s: seq<T>, p: T -> bool, q: T -> bool)
    requires forall i :: 0 <= i < |s| ==> (q(s[i]) <==> !p(s[i]))
    ensures |Filter(s, p)| + |Filter(s, q)| == |s|
  {
    if s != [] {
      var t := s[1..];
      assert forall i :: 0 <= i < |t| ==> t[i] == s[i + 1];
      FilterSplit(t, p, q);
      if p(s[0]) {
        assert Filter(s, p) == [s[0]] + Filter(t, p);
        assert Filter(s, q) == Filter(t, q);
      } else {
        assert Filter(s, p) == Filter(t, p);
        assert Filter(s, q) == [s[0]] + Filter(t, q);
      }
    }
  }

  /** One step of the filter, for the multiplicity of one value. */
  lemma FilterStepCount<T(!new)>(s: seq<T>, p: T -> bool, x: T)
    requires s != []
    ensures multiset(Filter(s, p))[x] == (if p(s[0]) && x == s[0] then 1 else 0) + multiset(Filter(s[1..], p))[x]
  {
    if p(s[0]) {
      assert Filter(s, p) == [s[0]] + Filter(s[1..], p);
    } else {
      assert Filter(s, p) == Filter(s[1..], p);
    }
  }

  /**
   * Three predicates of which each element satisfies exactly one split a
   * sequence into three parts: every value occurs in the three parts
   * together exactly as often as in the sequence.
   */
  lemma {:induction false} FilterSplit3Counts<T(!new)>(s: seq<T>, p: T -> bool, q: T -> bool, r: T -> bool)
    requires forall i :: 0 <= i < |s| ==> (p(s[i]) || q(s[i]) || r(s[i]))
    requires forall i :: 0 <= i < |s| ==> !(p(s[i]) && q(s[i])) && !(p(s[i]) && r(s[i])) && !(q(s[i]) && r(s[i]))
    ensures forall x :: multiset(Filter(s, p))[x] + multiset(Filter(s, q))[x] + multiset(Filter(s, r))[x] == multiset(s)[x]
  {
    if s != [] {
      var t := s[1..];
      assert forall i :: 0 <= i < |t| ==> t[i] == s[i + 1];
      FilterSplit3Counts(t, p, q, r);
      assert s == [s[0]] + t;
      forall x
        ensures multiset(Filter(s, p))[x] + multiset(Filter(s, q))[x] + multiset(Filter(s, r))[x] == multiset(s)[x]
      {
        FilterStepCount(s, p, x);
        FilterStepCount(s, q, x);
        FilterStepCount(s, r, x);
        assert multiset(s)[x] == (if x == s[0] then 1 else 0) + multiset(t)[x];
      }
    }
  }

  /** The three parts of `FilterSplit3Counts` are a partition of the sequence. */
  lemma FilterSplit3<T(!new)>(s: seq<T>, p: T -> bool, q: T -> bool, r: T -> bool)
    requires forall i :: 0 <= i < |s| ==> (p(s[i]) || q(s[i]) || r(s[i]))
    requires forall i :: 0 <= i < |s| ==> !(p(s[i]) && q(s[i])) && !(p(s[i]) && r(s[i])) && !(q(s[i]) && r(s[i]))
    ensures multiset(Filter(s, p)) + multiset(Filter(s, q)) + multiset(Filter(s, r)) == multiset(s)
    ensures |Filter(s, p)| + |Filter(s, q)| + |Filter(s, r)| == |s|
  {
    FilterSplit3Counts(s, p, q, r);
    var m := multiset(Filter(s, p)) + multiset(Filter(s, q)) + multiset(Filter(s, r));
    assert forall x :: m[x] == multiset(s)[x];
    assert m == multiset(s);
    assert |multiset(Filter(s, p))| == |Filter(s, p)|;
    assert |multiset(Filter(s, q))| == |Filter(s, q)|;
    assert |multiset(Filter(s, r))| == |Filter(s, r)|;
  }
}
