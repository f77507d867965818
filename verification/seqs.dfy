/**
 Generic sequence operations used by the store and the views: an order-preserving
 filter (`Array.prototype.filter`), an existence test (`Array.prototype.some`) and
 a first-match search (`Array.prototype.find` / `findIndex`), with the facts the
 rest of the model relies on.
 */
module Seqs {

  import opened Wrappers

  /* `a` can be obtained from `b` by deleting elements, keeping the rest in order. */
  predicate IsSubsequence<T(==)>(a: seq<T>, b: seq<T>)
    decreases |b|
  {
    |a| == 0 ||
    (|b| > 0 && ((a[0] == b[0] && IsSubsequence(a[1..], b[1..])) || IsSubsequence(a, b[1..])))
  }

  /* `r` keeps exactly the elements of `s` that satisfy `p` (every occurrence of
     them, and nothing else) in their original order. */
  ghost predicate IsFilterOf<T(!new)>(r: seq<T>, s: seq<T>, p: T -> bool)
  {
    && IsSubsequence(r, s)
    && forall x :: multiset(r)[x] == if p(x) then multiset(s)[x] else 0
  }

  /* The elements of `s` that satisfy `p`, in their original order. */
  function Filter<T(!new)>(s: seq<T>, p: T -> bool): (r: seq<T>)
    ensures |r| <= |s|
    ensures forall x :: x in r <==> x in s && p(x)
  {
    if |s| == 0 then []
    else
      var rest := Filter(s[1..], p);
      assert forall x :: x in s <==> x == s[0] || x in s[1..];
      (if p(s[0]) then [s[0]] else []) + rest
  }

  /* True iff some element of `s` satisfies `p`. */
  function Any<T>(s: seq<T>, p: T -> bool): (r: bool)
    ensures r <==> exists k :: 0 <= k < |s| && p(s[k])
  {
    if |s| == 0 then false
    else if p(s[0]) then true
    else
      var rest := Any(s[1..], p);
      assert forall k :: 1 <= k < |s| ==> s[k] == s[1..][k - 1];
      rest
  }

  /* `k` is the first position of `s` whose element satisfies `p`. */
  predicate IsFirstMatch<T>(s: seq<T>, p: T -> bool, k: int)
  {
    0 <= k < |s| && p(s[k]) && forall j :: 0 <= j < k ==> !p(s[j])
  }

  /* The first position at or after `from` whose element satisfies `p`. */
  function FindFrom<T>(s: seq<T>, p: T -> bool, from: nat): (r: Option<nat>)
    requires from <= |s|
    ensures r.None? <==> forall j :: from <= j < |s| ==> !p(s[j])
    ensures r.Some? ==>
              && from <= r.value < |s|
              && p(s[r.value])
              && forall j :: from <= j < r.value ==> !p(s[j])
    decreases |s| - from
  {
    if from == |s| then None
    else if p(s[from]) then Some(from)
    else FindFrom(s, p, from + 1)
  }

  /* The first position of `s` whose element satisfies `p`, if there is one. */
  function FindFirst<T>(s: seq<T>, p: T -> bool): (r: Option<nat>)
    ensures r.None? <==> forall j :: 0 <= j < |s| ==> !p(s[j])
    ensures r.Some? ==> IsFirstMatch(s, p, r.value)
  {
    FindFrom(s, p, 0)
  }

  lemma {:induction false} FilterIsSubsequence<T(!new)>(s: seq<T>, p: T -> bool)
    ensures IsSubsequence(Filter(s, p), s)
    decreases |s|
  {
    if |s| > 0 {
      FilterIsSubsequence(s[1..], p);
      if p(s[0]) {
        assert Filter(s, p)[1..] == Filter(s[1..], p);
      } else {
        assert Filter(s, p) == Filter(s[1..], p);
      }
    }
  }

  lemma {:induction false} FilterCounts<T(!new)>(s: seq<T>, p: T -> bool)
    ensures forall x :: multiset(Filter(s, p))[x] == if p(x) then multiset(s)[x] else 0
    decreases |s|
  {
    if |s| > 0 {
      FilterCounts(s[1..], p);
      assert s == [s[0]] + s[1..];
      assert multiset(s) == multiset{s[0]} + multiset(s[1..]);
    }
  }

  lemma {:induction false} FilterConcat<T(!new)>(a: seq<T>, b: seq<T>, p: T -> bool)
    ensures Filter(a + b, p) == Filter(a, p) + Filter(b, p)
    decreases |a|
  {
    if |a| > 0 {
      assert (a + b)[1..] == a[1..] + b;
      FilterConcat(a[1..], b, p);
    } else {
      assert a + b == b;
    }
  }

  lemma {:induction false} FilterKeepsAll<T(!new)>(s: seq<T>, p: T -> bool)
    requires forall k :: 0 <= k < |s| ==> p(s[k])
    ensures Filter(s, p) == s
    decreases |s|
  {
    if |s| > 0 {
      FilterKeepsAll(s[1..], p);
      assert s == [s[0]] + s[1..];
    }
  }

  /* The filter starts with the first element that passes the test. */
  lemma {:induction false} FilterHeadIsFirstMatch<T(!new)>(s: seq<T>, p: T -> bool, k: int)
    requires IsFirstMatch(s, p, k)
    ensures |Filter(s, p)| > 0 && Filter(s, p)[0] == s[k]
    decreases |s|
  {
    if k > 0 {
      assert !p(s[0]);
      assert IsFirstMatch(s[1..], p, k - 1) by {
        forall j | 0 <= j < k - 1
          ensures !p(s[1..][j])
        {
          assert s[1..][j] == s[j + 1];
        }
      }
      FilterHeadIsFirstMatch(s[1..], p, k - 1);
    }
  }

  lemma {:induction false} SubsequenceLength<T>(a: seq<T>, b: seq<T>)
    requires IsSubsequence(a, b)
    ensures |a| <= |b|
    decreases |b|
  {
    if |a| > 0 {
      if a[0] == b[0] && IsSubsequence(a[1..], b[1..]) {
        SubsequenceLength(a[1..], b[1..]);
      } else {
        SubsequenceLength(a, b[1..]);
      }
    }
  }

  lemma FilterIsFilterOf<T(!new)>(s: seq<T>, p: T -> bool)
    ensures IsFilterOf(Filter(s, p), s, p)
  {
    FilterIsSubsequence(s, p);
    FilterCounts(s, p);
  }

  lemma {:induction false} SubsequenceCount<T(!new)>(a: seq<T>, b: seq<T>, x: T)
    requires IsSubsequence(a, b)
    ensures multiset(a)[x] <= multiset(b)[x]
    decreases |b|
  {
    if |a| > 0 {
      assert b == [b[0]] + b[1..];
      if a[0] == b[0] && IsSubsequence(a[1..], b[1..]) {
        SubsequenceCount(a[1..], b[1..], x);
        assert a == [a[0]] + a[1..];
      } else {
        SubsequenceCount(a, b[1..], x);
      }
    }
  }

  /* `IsFilterOf` determines its result: `Filter` is the only sequence that
     keeps exactly the elements satisfying `p` in their original order. */
  lemma {:induction false} FilterOfIsUnique<T(!new)>(r: seq<T>, s: seq<T>, p: T -> bool)
    requires IsFilterOf(r, s, p)
    ensures r == Filter(s, p)
    decreases |s|
  {
    if |s| > 0 {
      var h, t := s[0], s[1..];
      assert s == [h] + t;
      assert multiset(s) == multiset{h} + multiset(t);
      if p(h) {
        if !(|r| > 0 && r[0] == h && IsSubsequence(r[1..], t)) {
          SubsequenceCount(r, t, h);
          assert false;
        }
        assert r == [h] + r[1..];
        assert multiset(r) == multiset{h} + multiset(r[1..]);
        assert IsFilterOf(r[1..], t, p);
        FilterOfIsUnique(r[1..], t, p);
      } else {
        if |r| > 0 {
          assert r[0] in multiset(r);
        }
        assert IsSubsequence(r, t);
        FilterOfIsUnique(r, t, p);
      }
    }
  }
}
