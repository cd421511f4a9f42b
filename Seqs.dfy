/** The JavaScript array operations the switcher uses on its lists:
    `filter`, `slice(0, n)` and the order-preserving subsequence they imply. */
module Seqs {

  /** `s.filter(p)`. */
  function Filter<T(!new)>(s: seq<T>, p: T -> bool): (r: seq<T>)
    ensures |r| <= |s|
    ensures forall i :: 0 <= i < |r| ==> p(r[i])
  {
    if s == [] then [] else (if p(s[0]) then [s[0]] else []) + Filter(s[1..], p)
  }

  /** `s.slice(0, n)` for a non-negative `n`: the first `n` elements, or all of them. */
  function Take<T>(s: seq<T>, n: nat): (r: seq<T>)
    ensures |r| == if n < |s| then n else |s|
    ensures forall i :: 0 <= i < |r| ==> r[i] == s[i]
  {
    if n < |s| then s[..n] else s
  }

  /** `a` is `b` with some elements dropped and the rest in the same order. */
  predicate Subsequence<T(==)>(a: seq<T>, b: seq<T>)
    decreases |b|
  {
    a == [] || (b != [] && ((a[0] == b[0] && Subsequence(a[1..], b[1..])) || Subsequence(a, b[1..])))
  }

  /** Filtering keeps each element satisfying `p` exactly as often as it
      occurs, drops the others, and keeps the original order. */
  lemma {:induction false} FilterCharacterized<T(!new)>(s: seq<T>, p: T -> bool)
    ensures Subsequence(Filter(s, p), s)
    ensures forall x :: multiset(Filter(s, p))[x] == if p(x) then multiset(s)[x] else 0
  {
    if s != [] {
      FilterCharacterized(s[1..], p);
      assert s == [s[0]] + s[1..];
      var rest := Filter(s[1..], p);
      if p(s[0]) {
        assert Filter(s, p) == [s[0]] + rest;
        assert Filter(s, p)[1..] == rest;
      } else {
        assert Filter(s, p) == rest;
      }
    }
  }

  /** The elements of a filter are exactly the elements that pass it. */
  lemma FilterMembers<T(!new)>(s: seq<T>, p: T -> bool)
    ensures forall x :: x in Filter(s, p) <==> x in s && p(x)
  {
    FilterCharacterized(s, p);
    forall x ensures x in Filter(s, p) <==> x in s && p(x) {
      assert x in Filter(s, p) <==> x in multiset(Filter(s, p));
      assert x in s <==> x in multiset(s);
    }
  }

  /** Filtering distributes over concatenation. */
  lemma {:induction false} FilterConcat<T(!new)>(a: seq<T>, b: seq<T>, p: T -> bool)
    ensures Filter(a + b, p) == Filter(a, p) + Filter(b, p)
  {
    if a != [] {
      assert (a + b)[0] == a[0] && (a + b)[1..] == a[1..] + b;
      FilterConcat(a[1..], b, p);
      assert Filter(a + b, p) == (if p(a[0]) then [a[0]] else []) + Filter(a[1..] + b, p);
    } else {
      assert a + b == b;
    }
  }

  /** A filter keeps a sequence whole when every element passes. */
  lemma {:induction false} FilterKeepsAll<T(!new)>(s: seq<T>, p: T -> bool)
    requires forall x :: x in s ==> p(x)
    ensures Filter(s, p) == s
  {
    if s != [] {
      FilterKeepsAll(s[1..], p);
    }
  }

  /** Filters of permutations are permutations. */
  lemma FilterPermutation<T(!new)>(s: seq<T>, t: seq<T>, p: T -> bool)
    requires multiset(s) == multiset(t)
    ensures multiset(Filter(s, p)) == multiset(Filter(t, p))
  {
    FilterCharacterized(s, p);
    FilterCharacterized(t, p);
  }

  /** A filter and its complement split a sequence's elements between them. */
  lemma FilterSplit<T(!new)>(s: seq<T>, p: T -> bool, q: T -> bool)
    requires forall x :: q(x) == !p(x)
    ensures multiset(Filter(s, p)) + multiset(Filter(s, q)) == multiset(s)
    ensures |Filter(s, p)| + |Filter(s, q)| == |s|
  {
    FilterCharacterized(s, p);
    FilterCharacterized(s, q);
    assert multiset(Filter(s, p)) + multiset(Filter(s, q)) == multiset(s);
    assert |multiset(Filter(s, p))| + |multiset(Filter(s, q))| == |multiset(s)|;
  }

  /** A filter that only one position passes yields just that element. */
  lemma {:induction false} FilterSingle<T(!new)>(s: seq<T>, p: T -> bool, k: nat)
    requires k < |s| && p(s[k])
    requires forall j :: 0 <= j < |s| && j != k ==> !p(s[j])
    ensures Filter(s, p) == [s[k]]
  {
    if k == 0 {
      FilterNone(s[1..], p);
    } else {
      assert !p(s[0]);
      FilterSingle(s[1..], p, k - 1);
    }
  }

  /** A filter that no element passes is empty. */
  lemma {:induction false} FilterNone<T(!new)>(s: seq<T>, p: T -> bool)
    requires forall j :: 0 <= j < |s| ==> !p(s[j])
    ensures Filter(s, p) == []
  {
    if s != [] {
      FilterNone(s[1..], p);
    }
  }

  /** Filtering a sequence with a given head. */
  lemma FilterCons<T(!new)>(x: T, s: seq<T>, p: T -> bool)
    ensures Filter([x] + s, p) == (if p(x) then [x] else []) + Filter(s, p)
  {
    assert ([x] + s)[0] == x && ([x] + s)[1..] == s;
  }

  /** Permutations with the same head have permuted tails. */
  lemma SameHeadTails<T>(a: seq<T>, b: seq<T>)
    requires a != [] && b != [] && a[0] == b[0]
    requires multiset(a) == multiset(b)
    ensures multiset(a[1..]) == multiset(b[1..])
  {
    assert a == [a[0]] + a[1..] && b == [b[0]] + b[1..];
    assert multiset(a) == multiset{a[0]} + multiset(a[1..]);
    assert multiset(b) == multiset{b[0]} + multiset(b[1..]);
    assert multiset(a[1..]) == multiset(a) - multiset{a[0]};
    assert multiset(b[1..]) == multiset(b) - multiset{b[0]};
  }

  lemma MultisetHeadTail<T>(s: seq<T>)
    requires s != []
    ensures multiset(s) == multiset{s[0]} + multiset(s[1..])
  {
    assert s == [s[0]] + s[1..];
  }

  /** Filters that agree on every element give the same result. */
  lemma {:induction false} FilterCongruent<T(!new)>(s: seq<T>, p: T -> bool, q: T -> bool)
    requires forall x :: p(x) == q(x)
    ensures Filter(s, p) == Filter(s, q)
  {
    if s != [] {
      FilterCongruent(s[1..], p, q);
    }
  }

  /** Sequences of the same length whose elements pass `p` position by
      position keep the same number of elements. */
  lemma {:induction false} FilterSameVerdicts<T(!new)>(s: seq<T>, t: seq<T>, p: T -> bool)
    requires |s| == |t| && forall i :: 0 <= i < |s| ==> p(s[i]) == p(t[i])
    ensures |Filter(s, p)| == |Filter(t, p)|
  {
    if s != [] {
      FilterSameVerdicts(s[1..], t[1..], p);
    }
  }

  /** Permutations of each other keep as many elements under a filter. */
  lemma FilterPermutationLength<T(!new)>(s: seq<T>, t: seq<T>, p: T -> bool)
    requires multiset(s) == multiset(t)
    ensures |Filter(s, p)| == |Filter(t, p)|
  {
    FilterPermutation(s, t, p);
    assert |multiset(Filter(s, p))| == |multiset(Filter(t, p))|;
  }

  /** Filtering twice is filtering once by both tests. */
  lemma {:induction false} FilterFilter<T(!new)>(s: seq<T>, p: T -> bool, q: T -> bool, pq: T -> bool)
    requires forall x :: pq(x) == (p(x) && q(x))
    ensures Filter(Filter(s, p), q) == Filter(s, pq)
  {
    if s != [] {
      FilterFilter(s[1..], p, q, pq);
      assert Filter(s, pq) == (if pq(s[0]) then [s[0]] else []) + Filter(s[1..], pq);
      if p(s[0]) {
        assert Filter(s, p) == [s[0]] + Filter(s[1..], p);
        FilterCons(s[0], Filter(s[1..], p), q);
      } else {
        assert Filter(s, p) == Filter(s[1..], p);
      }
    }
  }

  /** An element of the first `n` of `a + b` comes from `a` below `|a|`
      and from `b` after it. */
  lemma TakeConcatAt<T>(a: seq<T>, b: seq<T>, n: nat, i: nat)
    requires i < |Take(a + b, n)|
    ensures i < |a| ==> Take(a + b, n)[i] == a[i]
    ensures |a| <= i ==> i - |a| < |b| && Take(a + b, n)[i] == b[i - |a|]
  {
  }
}
