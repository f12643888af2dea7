/** Sequence helpers shared by the model: comprehension filters, sums and de-duplication. */
module Seqs {

  /** The elements of `s` as a set (Python's `set(s)`). */
  function ToSet<T(!new)>(s: seq<T>): (r: set<T>)
    ensures forall x :: x in r <==> x in s
  {
    set x | x in s
  }

  /** True when `r` can be obtained from `s` by deleting elements, keeping the order. */
  predicate IsSubsequence<T(==)>(r: seq<T>, s: seq<T>)
  {
    if r == [] then true
    else if s == [] then false
    else if r[0] == s[0] then IsSubsequence(r[1..], s[1..])
    else IsSubsequence(r, s[1..])
  }

  /** The list comprehension `[x for x in s if p(x)]`. */
  function Filter<T(!new)>(s: seq<T>, p: T -> bool): (r: seq<T>)
    ensures |r| <= |s|
    ensures forall x :: x in r <==> x in s && p(x)
  {
    if s == [] then []
    else (if p(s[0]) then [s[0]] else []) + Filter(s[1..], p)
  }

  lemma {:induction false} FilterIsSubsequence<T(!new)>(s: seq<T>, p: T -> bool)
    ensures IsSubsequence(Filter(s, p), s)
  {
    if s != [] {
      FilterIsSubsequence(s[1..], p);
      if p(s[0]) {
        assert Filter(s, p) == [s[0]] + Filter(s[1..], p);
        assert Filter(s, p)[1..] == Filter(s[1..], p);
      } else {
        assert Filter(s, p) == Filter(s[1..], p);
      }
    }
  }

  /** A filter keeps every occurrence of a kept element and none of a dropped one. */
  lemma {:induction false} FilterCount<T(!new)>(s: seq<T>, p: T -> bool, x: T)
    ensures multiset(Filter(s, p))[x] == if p(x) then multiset(s)[x] else 0
  {
    if s != [] {
      FilterCount(s[1..], p, x);
      assert s == [s[0]] + s[1..];
      assert multiset(s) == multiset{s[0]} + multiset(s[1..]);
      var head := if p(s[0]) then [s[0]] else [];
      assert multiset(Filter(s, p)) == multiset(head) + multiset(Filter(s[1..], p));
    }
  }

  /** `FilterCount` for every element at once. */
  lemma FilterMultiset<T(!new)>(s: seq<T>, p: T -> bool)
    ensures forall x :: multiset(Filter(s, p))[x] == if p(x) then multiset(s)[x] else 0
  {
    forall x
      ensures multiset(Filter(s, p))[x] == if p(x) then multiset(s)[x] else 0
    {
      FilterCount(s, p, x);
    }
  }

  /** Filtering an already filtered sequence changes nothing. */
  lemma {:induction false} FilterIdempotent<T(!new)>(s: seq<T>, p: T -> bool)
    ensures Filter(Filter(s, p), p) == Filter(s, p)
  {
    if s != [] {
      FilterIdempotent(s[1..], p);
      var f := Filter(s, p);
      if p(s[0]) {
        assert f == [s[0]] + Filter(s[1..], p);
        assert f[0] == s[0] && f[1..] == Filter(s[1..], p);
        assert Filter(f, p) == [f[0]] + Filter(f[1..], p);
      } else {
        assert f == Filter(s[1..], p);
      }
    }
  }

  /** A filter that keeps every element returns its input. */
  lemma {:induction false} FilterKeepsAll<T(!new)>(s: seq<T>, p: T -> bool)
    requires forall x :: x in s ==> p(x)
    ensures Filter(s, p) == s
  {
    if s != [] {
      FilterKeepsAll(s[1..], p);
    }
  }

  /** Filtering distributes over appending one element at the end. */
  lemma {:induction false} FilterSnoc<T(!new)>(s: seq<T>, x: T, p: T -> bool)
    ensures Filter(s + [x], p) == Filter(s, p) + (if p(x) then [x] else [])
  {
    if s == [] {
      assert [x][1..] == [];
    } else {
      assert (s + [x])[0] == s[0];
      assert (s + [x])[1..] == s[1..] + [x];
      FilterSnoc(s[1..], x, p);
    }
  }

  /** Filtering a sequence without repeats gives a sequence without repeats. */
  lemma {:induction false} FilterDistinct<T(!new)>(s: seq<T>, p: T -> bool)
    requires Distinct(s)
    ensures Distinct(Filter(s, p))
  {
    if s != [] {
      DistinctTail(s);
      FilterDistinct(s[1..], p);
      var rest := Filter(s[1..], p);
      if p(s[0]) {
        assert Filter(s, p) == [s[0]] + rest;
        assert s[0] !in rest;
      } else {
        assert Filter(s, p) == rest;
      }
    }
  }

  /** A filter that keeps no element returns the empty sequence. */
  lemma {:induction false} FilterKeepsNone<T(!new)>(s: seq<T>, p: T -> bool)
    requires forall y :: y in s ==> !p(y)
    ensures Filter(s, p) == []
  {
    if s != [] {
      FilterKeepsNone(s[1..], p);
    }
  }

  /** A filter that keeps exactly one element of a sequence without repeats returns that element alone. */
  lemma {:induction false} FilterSingleton<T(!new)>(s: seq<T>, p: T -> bool, x: T)
    requires Distinct(s) && x in s && p(x)
    requires forall y :: y in s && p(y) ==> y == x
    ensures Filter(s, p) == [x]
  {
    DistinctTail(s);
    if s[0] == x {
      FilterKeepsNone(s[1..], p);
      assert Filter(s, p) == [x] + Filter(s[1..], p);
    } else {
      FilterSingleton(s[1..], p, x);
    }
  }

  /** Python's `sum(f(x) for x in s)`, with exact real arithmetic. */
  function Sum<T>(s: seq<T>, f: T -> real): real
  {
    if s == [] then 0.0 else f(s[0]) + Sum(s[1..], f)
  }

  /** A sum over non-negative terms is non-negative. */
  lemma {:induction false} SumNonnegative<T>(s: seq<T>, f: T -> real)
    requires forall x :: x in s ==> f(x) >= 0.0
    ensures Sum(s, f) >= 0.0
  {
    if s != [] {
      SumNonnegative(s[1..], f);
    }
  }

  /** A sum over a concatenation is the sum of the two sums. */
  lemma {:induction false} SumConcat<T>(a: seq<T>, b: seq<T>, f: T -> real)
    ensures Sum(a + b, f) == Sum(a, f) + Sum(b, f)
  {
    if a == [] {
      assert a + b == b;
    } else {
      assert (a + b)[1..] == a[1..] + b;
      SumConcat(a[1..], b, f);
    }
  }

  /** Taking one term out of a sum leaves the sum of the rest. */
  lemma SumRemove<T>(t: seq<T>, i: nat, f: T -> real)
    requires i < |t|
    ensures Sum(t, f) == f(t[i]) + Sum(t[..i] + t[i + 1..], f)
  {
    assert t == t[..i] + ([t[i]] + t[i + 1..]);
    SumConcat(t[..i], [t[i]] + t[i + 1..], f);
    SumConcat(t[..i], t[i + 1..], f);
    assert ([t[i]] + t[i + 1..])[1..] == t[i + 1..];
  }

  /** Removing the element at an index removes one occurrence of it from the multiset. */
  lemma MultisetRemoveAt<T>(t: seq<T>, i: nat)
    requires i < |t|
    ensures multiset(t[..i] + t[i + 1..]) == multiset(t) - multiset{t[i]}
  {
    assert t == t[..i] + [t[i]] + t[i + 1..];
    assert multiset(t) == multiset(t[..i]) + multiset{t[i]} + multiset(t[i + 1..]);
  }

  /** The first element of a sequence occurs in any permutation of it, with the rests permutations. */
  lemma PermutationHead<T>(s: seq<T>, t: seq<T>) returns (i: nat)
    requires s != [] && multiset(s) == multiset(t)
    ensures i < |t| && t[i] == s[0]
    ensures multiset(s[1..]) == multiset(t[..i] + t[i + 1..])
  {
    MultisetRemoveAt(s, 0);
    assert s[0] in multiset(t);
    i :| 0 <= i < |t| && t[i] == s[0];
    MultisetRemoveAt(t, i);
  }

  /** A sum does not depend on the order of its terms. */
  lemma {:induction false} SumPermutation<T>(s: seq<T>, t: seq<T>, f: T -> real)
    requires multiset(s) == multiset(t)
    ensures Sum(s, f) == Sum(t, f)
    decreases |s|
  {
    if s == [] {
      assert |t| == |multiset(t)| == 0;
    } else {
      var i := PermutationHead(s, t);
      SumPermutation(s[1..], t[..i] + t[i + 1..], f);
      SumRemove(t, i, f);
    }
  }

  /** Dropping non-negative terms can only lower a sum. */
  lemma {:induction false} SumFilterAtMost<T(!new)>(s: seq<T>, p: T -> bool, f: T -> real)
    requires forall x :: x in s ==> f(x) >= 0.0
    ensures 0.0 <= Sum(Filter(s, p), f) <= Sum(s, f)
  {
    if s != [] {
      SumFilterAtMost(s[1..], p, f);
      assert f(s[0]) >= 0.0;
      if p(s[0]) {
        assert Filter(s, p) == [s[0]] + Filter(s[1..], p);
        assert Filter(s, p)[1..] == Filter(s[1..], p);
        assert Sum(Filter(s, p), f) == f(s[0]) + Sum(Filter(s[1..], p), f);
      } else {
        assert Filter(s, p) == Filter(s[1..], p);
      }
    }
  }

  /** Each head followed by each tail, the heads varying slowest: one step of `itertools.product`. */
  function PrependEach<T(!new)>(heads: seq<T>, tails: seq<seq<T>>): (r: seq<seq<T>>)
    ensures forall t :: t in r <==> |t| > 0 && t[0] in heads && t[1..] in tails
  {
    if heads == [] then []
    else
      var front := seq(|tails|, j requires 0 <= j < |tails| => [heads[0]] + tails[j]);
      assert forall t: seq<T> :: t in front <==> |t| > 0 && t[0] == heads[0] && t[1..] in tails by {
        forall t: seq<T>
          ensures t in front <==> |t| > 0 && t[0] == heads[0] && t[1..] in tails
        {
          if t in front {
            var j :| 0 <= j < |tails| && front[j] == t;
            assert t[1..] == tails[j];
          }
          if |t| > 0 && t[0] == heads[0] && t[1..] in tails {
            var j :| 0 <= j < |tails| && tails[j] == t[1..];
            assert front[j] == t;
          }
        }
      }
      front + PrependEach(heads[1..], tails)
  }

  /**
   * `itertools.product(*lists)`: every way to pick one element from each list, in order,
   * with the last list varying fastest.
   */
  function Product<T(!new)>(lists: seq<seq<T>>): (r: seq<seq<T>>)
    ensures forall t :: t in r <==> |t| == |lists| && forall i :: 0 <= i < |t| ==> t[i] in lists[i]
  {
    if lists == [] then [[]]
    else
      var tails := Product(lists[1..]);
      ProductStep(lists, tails);
      PrependEach(lists[0], tails)
  }

  /** Picking from the first list and then from the rest is picking from every list. */
  lemma ProductStep<T>(lists: seq<seq<T>>, tails: seq<seq<T>>)
    requires lists != []
    requires forall t :: t in tails <==> |t| == |lists| - 1 && forall i :: 0 <= i < |t| ==> t[i] in lists[1..][i]
    ensures forall t: seq<T> :: (|t| > 0 && t[0] in lists[0] && t[1..] in tails) <==>
                                (|t| == |lists| && forall i :: 0 <= i < |t| ==> t[i] in lists[i])
  {
    forall t: seq<T>
      ensures (|t| > 0 && t[0] in lists[0] && t[1..] in tails) <==>
              (|t| == |lists| && forall i :: 0 <= i < |t| ==> t[i] in lists[i])
    {
      if |t| > 0 {
        assert forall i :: 1 <= i < |t| ==> t[i] == t[1..][i - 1];
        assert forall i :: 1 <= i < |lists| ==> lists[i] == lists[1..][i - 1];
      }
    }
  }

  /** The first element of every list. */
  function Heads<T>(lists: seq<seq<T>>): (r: seq<T>)
    requires forall i :: 0 <= i < |lists| ==> |lists[i]| > 0
    ensures |r| == |lists| && forall i :: 0 <= i < |r| ==> r[i] == lists[i][0]
  {
    if lists == [] then [] else [lists[0][0]] + Heads(lists[1..])
  }

  /** The product of one-element lists is the single tuple of their elements. */
  lemma {:induction false} ProductOfSingletons<T(!new)>(lists: seq<seq<T>>)
    requires forall i :: 0 <= i < |lists| ==> |lists[i]| == 1
    ensures Product(lists) == [Heads(lists)]
  {
    if lists != [] {
      ProductOfSingletons(lists[1..]);
      var tail := Heads(lists[1..]);
      var h := lists[0][0];
      assert lists[0] == [h];
      assert PrependEach(lists[0], [tail])
          == seq(1, j requires 0 <= j < 1 => [h] + [tail][j]) + PrependEach([], [tail]);
      assert PrependEach(lists[0], [tail]) == [[h] + tail];
    }
  }

  /** No element occurs twice. */
  predicate Distinct<T(==)>(s: seq<T>)
  {
    forall i, j :: 0 <= i < |s| && 0 <= j < |s| && i != j ==> s[i] != s[j]
  }

  lemma DistinctTail<T>(s: seq<T>)
    requires Distinct(s) && s != []
    ensures Distinct(s[1..]) && s[0] !in s[1..]
  {
    forall i, j | 0 <= i < |s[1..]| && 0 <= j < |s[1..]| && i != j
      ensures s[1..][i] != s[1..][j]
    {
      assert s[1..][i] == s[i + 1] && s[1..][j] == s[j + 1];
    }
  }

  /** `toolz.unique`: the first occurrence of every element, in order. */
  function Unique<T(==,!new)>(s: seq<T>): (r: seq<T>)
    ensures forall x :: x in r <==> x in s
    ensures Distinct(r)
  {
    if s == [] then []
    else
      var u := Unique(s[..|s| - 1]);
      assert forall x :: x in s <==> x in s[..|s| - 1] || x == s[|s| - 1];
      if s[|s| - 1] in u then u else u + [s[|s| - 1]]
  }
}
