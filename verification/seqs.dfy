/** List comprehensions: with a condition, `[x for x in s if f(x)]`, and with a
    condition and a transformation, where `f(x)` is the empty list for a skipped element. */
module Seqs {

  /** The elements of `s` that satisfy `f`, in their order in `s`. */
  function Filter<T(!new)>(f: T -> bool, s: seq<T>): (r: seq<T>)
    ensures |r| <= |s|
    ensures forall x :: multiset(r)[x] == if f(x) then multiset(s)[x] else 0
    ensures forall i :: 0 <= i < |r| ==> f(r[i])
  {
    if s == [] then []
    else
      var rest := Filter(f, s[1..]);
      assert s == [s[0]] + s[1..];
      if f(s[0]) then [s[0]] + rest else rest
  }

  /** Filtering distributes over concatenation: the order of the kept elements is their order in `s`. */
  lemma {:induction false} FilterAppend<T(!new)>(f: T -> bool, a: seq<T>, b: seq<T>)
    ensures Filter(f, a + b) == Filter(f, a) + Filter(f, b)
  {
    if a == [] {
      assert a + b == b;
    } else {
      assert (a + b)[1..] == a[1..] + b;
      FilterAppend(f, a[1..], b);
    }
  }

  /** An element is kept exactly when it is in `s` and satisfies `f`. */
  lemma FilterMembership<T(!new)>(f: T -> bool, s: seq<T>, x: T)
    ensures x in Filter(f, s) <==> x in s && f(x)
  {
    assert x in Filter(f, s) <==> multiset(Filter(f, s))[x] > 0;
    assert x in s <==> multiset(s)[x] > 0;
  }

  /** The lists `f(x)` for the elements `x` of `s`, concatenated in order. */
  function FlatMap<T, U>(f: T -> seq<U>, s: seq<T>): (r: seq<U>)
    ensures forall y :: y in r ==> exists k :: 0 <= k < |s| && y in f(s[k])
  {
    if s == [] then []
    else
      var rest := FlatMap(f, s[1..]);
      forall y | y in f(s[0]) + rest
        ensures exists k :: 0 <= k < |s| && y in f(s[k])
      {
        if y !in f(s[0]) {
          var k :| 0 <= k < |s[1..]| && y in f(s[1..][k]);
          assert s[1..][k] == s[k + 1];
        }
      }
      f(s[0]) + rest
  }

  /** Mapping distributes over concatenation. */
  lemma {:induction false} FlatMapAppend<T, U>(f: T -> seq<U>, a: seq<T>, b: seq<T>)
    ensures FlatMap(f, a + b) == FlatMap(f, a) + FlatMap(f, b)
  {
    if a == [] {
      assert a + b == b;
    } else {
      assert (a + b)[1..] == a[1..] + b;
      assert (a + b)[0] == a[0];
      FlatMapAppend(f, a[1..], b);
    }
  }

  /** A single element contributes exactly its own list. */
  lemma FlatMapSingle<T, U>(f: T -> seq<U>, x: T)
    ensures FlatMap(f, [x]) == f(x)
  {
    assert [x][1..] == [];
  }
}
