/** List-comprehension shapes the helpdesk code is built from: filtering, mapping and flattening. */
module Seqs {

  /** `[x for x in s if p(x)]`. */
  function Filter<T>(p: T -> bool, s: seq<T>): (r: seq<T>)
    ensures |r| <= |s|
    ensures forall i | 0 <= i < |r| :: p(r[i])
  {
    if s == [] then []
    else if p(s[0]) then [s[0]] + Filter(p, s[1..])
    else Filter(p, s[1..])
  }

  /** `a` is `b` with some elements left out, the rest in their original order. */
  predicate IsSubsequence<T(==)>(a: seq<T>, b: seq<T>)
    decreases |b|
  {
    || a == []
    || (&& b != []
        && if a[0] == b[0] then IsSubsequence(a[1..], b[1..]) else IsSubsequence(a, b[1..]))
  }

  /** Filtering keeps exactly the elements that pass, with their multiplicities. */
  lemma {:induction false} FilterMembers<T>(p: T -> bool, s: seq<T>)
    ensures forall x :: x in Filter(p, s) <==> x in s && p(x)
    ensures forall x | p(x) :: multiset(Filter(p, s))[x] == multiset(s)[x]
  {
    if s != [] {
      FilterMembers(p, s[1..]);
      assert s == [s[0]] + s[1..];
    }
  }

  /** Filtering drops elements but never reorders the ones it keeps. */
  lemma {:induction false} FilterIsSubsequence<T>(p: T -> bool, s: seq<T>)
    ensures IsSubsequence(Filter(p, s), s)
  {
    if s != [] {
      FilterIsSubsequence(p, s[1..]);
    }
  }

  /** Two successive filters keep what passes both. */
  lemma {:induction false} FilterFilter<T>(p: T -> bool, q: T -> bool, both: T -> bool, s: seq<T>)
    requires forall x :: both(x) == (p(x) && q(x))
    ensures Filter(q, Filter(p, s)) == Filter(both, s)
  {
    if s != [] {
      FilterFilter(p, q, both, s[1..]);
    }
  }

  /** Each element of a filtered list sits at some position of the original. */
  lemma {:induction false} FilterOrigin<T>(p: T -> bool, s: seq<T>, j: int)
    requires 0 <= j < |Filter(p, s)|
    ensures exists m | 0 <= m < |s| :: s[m] == Filter(p, s)[j]
  {
    if p(s[0]) && j == 0 {
      assert s[0] == Filter(p, s)[0];
    } else {
      var k := if p(s[0]) then j - 1 else j;
      FilterOrigin(p, s[1..], k);
      var m :| 0 <= m < |s[1..]| && s[1..][m] == Filter(p, s[1..])[k];
      assert s[m + 1] == Filter(p, s)[j];
    }
  }

  /** Every earlier element stands in relation `r` to every later one. */
  predicate Pairwise<T>(r: (T, T) -> bool, s: seq<T>) {
    forall i, j | 0 <= i < j < |s| :: r(s[i], s[j])
  }

  /** A filtered list keeps every pairwise relation of the list it came from. */
  lemma {:induction false} FilterPairwise<T>(p: T -> bool, r: (T, T) -> bool, s: seq<T>)
    requires Pairwise(r, s)
    ensures Pairwise(r, Filter(p, s))
  {
    if s != [] {
      var tail := s[1..];
      assert Pairwise(r, tail) by {
        forall i, j | 0 <= i < j < |tail| ensures r(tail[i], tail[j]) {
          assert tail[i] == s[i + 1] && tail[j] == s[j + 1];
        }
      }
      FilterPairwise(p, r, tail);
      if p(s[0]) {
        var ft := Filter(p, tail);
        forall j | 0 <= j < |ft| ensures r(s[0], ft[j]) {
          FilterOrigin(p, tail, j);
          var m :| 0 <= m < |tail| && tail[m] == ft[j];
          assert s[m + 1] == ft[j];
        }
        assert Filter(p, s) == [s[0]] + ft;
      }
    }
  }

  /** `[f(x) for x in s]`. */
  function Map<A, B>(f: A -> B, s: seq<A>): (r: seq<B>)
    ensures |r| == |s|
    ensures forall i | 0 <= i < |s| :: r[i] == f(s[i])
  {
    if s == [] then [] else [f(s[0])] + Map(f, s[1..])
  }

  /** `[y for x in s for y in f(x)]`. */
  function FlatMap<A, B>(f: A -> seq<B>, s: seq<A>): seq<B> {
    if s == [] then [] else f(s[0]) + FlatMap(f, s[1..])
  }

  lemma FlatMapSingle<A, B>(f: A -> seq<B>, x: A)
    ensures FlatMap(f, [x]) == f(x)
  {
    assert [x][1..] == [];
  }

  lemma {:induction false} FlatMapAppend<A, B>(f: A -> seq<B>, a: seq<A>, b: seq<A>)
    ensures FlatMap(f, a + b) == FlatMap(f, a) + FlatMap(f, b)
  {
    if a == [] {
      assert a + b == b;
    } else {
      assert (a + b)[1..] == a[1..] + b;
      FlatMapAppend(f, a[1..], b);
    }
  }

  /** Flattening twice is flattening once with the composed expansion. */
  lemma {:induction false} FlatMapFlatMap<A, B, C>(f: A -> seq<B>, g: B -> seq<C>, s: seq<A>)
    ensures FlatMap(g, FlatMap(f, s)) == FlatMap(x => FlatMap(g, f(x)), s)
  {
    if s != [] {
      FlatMapAppend(g, f(s[0]), FlatMap(f, s[1..]));
      FlatMapFlatMap(f, g, s[1..]);
    }
  }
}
