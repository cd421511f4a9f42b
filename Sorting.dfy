/** `Array.prototype.sort` with a comparator, over an abstract comparator
    `le` ("`a` may come before `b`"). JavaScript's sort is stable: elements
    the comparator ties keep their relative order. The model is an insertion
    sort with that outcome. */
module Sorting {
  import opened Seqs

  /** `le` compares every pair and is transitive. */
  ghost predicate TotalPreorder<T(!new)>(le: (T, T) -> bool) {
    (forall a, b :: le(a, b) || le(b, a)) &&
    (forall a, b, c :: le(a, b) && le(b, c) ==> le(a, c))
  }

  predicate Sorted<T>(s: seq<T>, le: (T, T) -> bool) {
    forall i, j :: 0 <= i < j < |s| ==> le(s[i], s[j])
  }

  /** Puts `x` in front of the first element it may come before. */
  function Insert<T(!new)>(x: T, s: seq<T>, le: (T, T) -> bool): (r: seq<T>)
    ensures multiset(r) == multiset(s) + multiset{x}
  {
    if s == [] then [x]
    else if le(x, s[0]) then [x] + s
    else
      MultisetHeadTail(s);
      [s[0]] + Insert(x, s[1..], le)
  }

  /** The sorted copy: a permutation of the input, in `le` order
      (`SortIsSorted`). */
  function Sort<T(!new)>(s: seq<T>, le: (T, T) -> bool): (r: seq<T>)
    ensures multiset(r) == multiset(s)
  {
    if s == [] then []
    else
      MultisetHeadTail(s);
      Insert(s[0], Sort(s[1..], le), le)
  }

  /** Insertion keeps a sequence sorted. */
  lemma {:induction false} InsertSorted<T(!new)>(x: T, s: seq<T>, le: (T, T) -> bool)
    requires TotalPreorder(le) && Sorted(s, le)
    ensures Sorted(Insert(x, s, le), le)
  {
    if s != [] && !le(x, s[0]) {
      InsertSorted(x, s[1..], le);
      var rest := Insert(x, s[1..], le);
      MultisetHeadTail(s);
      forall y | y in rest ensures le(s[0], y) {
        assert y in multiset(rest);
        if y != x {
          assert y in s[1..];
        }
      }
    }
  }

  /** The sort's output is in `le` order. */
  lemma {:induction false} SortIsSorted<T(!new)>(s: seq<T>, le: (T, T) -> bool)
    requires TotalPreorder(le)
    ensures Sorted(Sort(s, le), le)
  {
    if s != [] {
      SortIsSorted(s[1..], le);
      InsertSorted(s[0], Sort(s[1..], le), le);
    }
  }

  lemma {:induction false} InsertStable<T(!new)>(x: T, s: seq<T>, le: (T, T) -> bool, p: T -> bool)
    requires forall a, b :: p(a) && p(b) ==> le(a, b)
    ensures Filter(Insert(x, s, le), p) == (if p(x) then [x] else []) + Filter(s, p)
  {
    if s == [] {
      FilterCons(x, [], p);
      assert [x] + [] == [x];
    } else if le(x, s[0]) {
      FilterCons(x, s, p);
    } else {
      InsertStable(x, s[1..], le, p);
      assert p(s[0]) ==> !p(x);
      InsertPastHeadStable(x, s, le, p);
    }
  }

  lemma InsertPastHeadStable<T(!new)>(x: T, s: seq<T>, le: (T, T) -> bool, p: T -> bool)
    requires s != [] && !le(x, s[0]) && (p(s[0]) ==> !p(x))
    requires Filter(Insert(x, s[1..], le), p) == (if p(x) then [x] else []) + Filter(s[1..], p)
    ensures Filter(Insert(x, s, le), p) == (if p(x) then [x] else []) + Filter(s, p)
  {
    var rest := Insert(x, s[1..], le);
    assert Insert(x, s, le) == [s[0]] + rest;
    FilterCons(s[0], rest, p);
    var tail := Filter(s[1..], p);
    if p(s[0]) {
      assert Filter(rest, p) == tail;
      assert Filter(s, p) == [s[0]] + tail;
    } else {
      assert Filter(s, p) == tail;
    }
  }

  /** Stability: the elements picked out by `p`, which the comparator all
      ties, come out of the sort in their original order. */
  lemma {:induction false} SortStable<T(!new)>(s: seq<T>, le: (T, T) -> bool, p: T -> bool)
    requires forall a, b :: p(a) && p(b) ==> le(a, b)
    ensures Filter(Sort(s, le), p) == Filter(s, p)
  {
    if s != [] {
      SortStable(s[1..], le, p);
      InsertStable(s[0], Sort(s[1..], le), le, p);
    }
  }

  /** Two sorted permutations of each other are equal when `le` ties no two
      distinct elements: the sorted order is unique. */
  lemma {:induction false} SortedUnique<T(!new)>(a: seq<T>, b: seq<T>, le: (T, T) -> bool)
    requires Sorted(a, le) && Sorted(b, le)
    requires multiset(a) == multiset(b)
    requires forall x, y :: x in a && y in a && le(x, y) && le(y, x) ==> x == y
    ensures a == b
  {
    if a == [] {
      assert |multiset(b)| == 0;
    } else {
      assert a[0] in multiset(b);
      assert b[0] in multiset(a);
      var i :| 0 <= i < |a| && a[i] == b[0];
      var j :| 0 <= j < |b| && b[j] == a[0];
      assert a[0] == b[0];
      SameHeadTails(a, b);
      SortedUnique(a[1..], b[1..], le);
      assert a == [a[0]] + a[1..] && b == [b[0]] + b[1..];
    }
  }

  /** When `le` ties no two distinct elements, sorting forgets the input
      order: permutations of each other sort to the same sequence. */
  lemma SortForgetsOrder<T(!new)>(a: seq<T>, b: seq<T>, le: (T, T) -> bool)
    requires TotalPreorder(le)
    requires multiset(a) == multiset(b)
    requires forall x, y :: x in a && y in a && le(x, y) && le(y, x) ==> x == y
    ensures Sort(a, le) == Sort(b, le)
  {
    SortIsSorted(a, le);
    SortIsSorted(b, le);
    var sa := Sort(a, le);
    forall x, y | x in sa && y in sa && le(x, y) && le(y, x) ensures x == y {
      assert x in multiset(sa) && y in multiset(sa);
    }
    SortedUnique(sa, Sort(b, le), le);
  }
}
