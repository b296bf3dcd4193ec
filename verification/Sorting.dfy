/** Stable sorting by a total order, and what sorting means for rank. */
module Sorting {

  ghost predicate TotalOrder<T(!new)>(leq: (T, T) -> bool) {
    && (forall x, y :: leq(x, y) || leq(y, x))
    && (forall x, y, z :: leq(x, y) && leq(y, z) ==> leq(x, z))
  }

  ghost predicate SortedBy<T>(leq: (T, T) -> bool, s: seq<T>) {
    forall i, j | 0 <= i < j < |s| :: leq(s[i], s[j])
  }

  function Insert<T>(leq: (T, T) -> bool, x: T, s: seq<T>): seq<T> {
    if s == [] || leq(x, s[0]) then [x] + s else [s[0]] + Insert(leq, x, s[1..])
  }

  /** Elements that compare equal keep their order. */
  function Sort<T>(leq: (T, T) -> bool, s: seq<T>): seq<T> {
    if s == [] then [] else Insert(leq, s[0], Sort(leq, s[1..]))
  }

  lemma {:induction false} InsertPermutes<T>(leq: (T, T) -> bool, x: T, s: seq<T>)
    ensures multiset(Insert(leq, x, s)) == multiset(s) + multiset{x}
  {
    if !(s == [] || leq(x, s[0])) {
      InsertPermutes(leq, x, s[1..]);
      assert s == [s[0]] + s[1..];
    }
  }

  lemma {:induction false} SortPermutes<T>(leq: (T, T) -> bool, s: seq<T>)
    ensures multiset(Sort(leq, s)) == multiset(s)
    ensures |Sort(leq, s)| == |s|
  {
    if s != [] {
      SortPermutes(leq, s[1..]);
      InsertPermutes(leq, s[0], Sort(leq, s[1..]));
      assert s == [s[0]] + s[1..];
    }
    assert |multiset(Sort(leq, s))| == |Sort(leq, s)|;
  }

  lemma {:induction false} InsertSorts<T(!new)>(leq: (T, T) -> bool, x: T, s: seq<T>)
    requires TotalOrder(leq) && SortedBy(leq, s)
    ensures SortedBy(leq, Insert(leq, x, s))
  {
    if s != [] && !leq(x, s[0]) {
      InsertSorts(leq, x, s[1..]);
      InsertPermutes(leq, x, s[1..]);
      var rest := Insert(leq, x, s[1..]);
      forall y | y in rest
        ensures leq(s[0], y)
      {
        assert y in multiset(rest);
        assert y == x || y in s[1..];
      }
    }
  }

  lemma {:induction false} SortSorts<T(!new)>(leq: (T, T) -> bool, s: seq<T>)
    requires TotalOrder(leq)
    ensures SortedBy(leq, Sort(leq, s))
  {
    if s != [] {
      SortSorts(leq, s[1..]);
      InsertSorts(leq, s[0], Sort(leq, s[1..]));
    }
  }

  lemma SortKeepsElements<T>(leq: (T, T) -> bool, s: seq<T>)
    ensures forall x :: x in Sort(leq, s) <==> x in s
  {
    SortPermutes(leq, s);
    assert forall x :: x in s <==> x in multiset(s);
    assert forall x :: x in Sort(leq, s) <==> x in multiset(Sort(leq, s));
  }

  /** Rank: a collection of n elements taken from a sorted sequence, each at
      most m, forces the n-th smallest element of the sequence to be at most m. */
  lemma RankBound<T(!new)>(leq: (T, T) -> bool, s: seq<T>, m: T, chosen: multiset<T>)
    requires TotalOrder(leq) && SortedBy(leq, s)
    requires chosen <= multiset(s) && 0 < |chosen| <= |s|
    requires forall x | x in chosen :: leq(x, m)
    ensures leq(s[|chosen| - 1], m)
  {
    var k := |chosen| - 1;
    if !leq(s[k], m) {
      assert s == s[..k] + s[k..];
      assert forall x | x in s[k..] :: leq(s[k], x);
      assert forall x | x in chosen :: x !in s[k..];
      assert forall x | x in chosen :: multiset(s[k..])[x] == 0;
      assert chosen <= multiset(s[..k]);
      SubsetSize(chosen, multiset(s[..k]));
    }
  }

  lemma SubsetSize<T>(a: multiset<T>, b: multiset<T>)
    requires a <= b
    ensures |a| <= |b|
  {
    assert b == a + (b - a);
  }

  ghost predicate Pairwise<T>(rel: (T, T) -> bool, s: seq<T>) {
    forall i, j | 0 <= i < j < |s| :: rel(s[i], s[j])
  }

  lemma {:induction false} InsertKeepsPairwise<T(!new)>(
    leq: (T, T) -> bool, rel: (T, T) -> bool, x: T, s: seq<T>)
    requires forall a, b :: rel(a, b) ==> rel(b, a)
    requires Pairwise(rel, s) && forall y | y in s :: rel(x, y)
    ensures Pairwise(rel, Insert(leq, x, s))
  {
    if s != [] && !leq(x, s[0]) {
      InsertKeepsPairwise(leq, rel, x, s[1..]);
      InsertPermutes(leq, x, s[1..]);
      var rest := Insert(leq, x, s[1..]);
      forall y | y in rest
        ensures rel(s[0], y)
      {
        assert y in multiset(rest);
        assert y == x || y in s[1..];
      }
    }
  }

  /** A symmetric relation between all pairs survives sorting. */
  lemma {:induction false} SortKeepsPairwise<T(!new)>(leq: (T, T) -> bool, rel: (T, T) -> bool, s: seq<T>)
    requires forall a, b :: rel(a, b) ==> rel(b, a)
    requires Pairwise(rel, s)
    ensures Pairwise(rel, Sort(leq, s))
  {
    if s != [] {
      SortKeepsPairwise(leq, rel, s[1..]);
      SortKeepsElements(leq, s[1..]);
      InsertKeepsPairwise(leq, rel, s[0], Sort(leq, s[1..]));
    }
  }
}
