/** Option and Result, and the two facts about finite sets that the counting arguments use. */
module Prelude {

  datatype Option<+T> = None | Some(value: T)

  datatype Result<+T, +E> = Success(value: T) | Failure(error: E)

  /** A subset of a finite set has no more elements, and exactly as many only when it is the whole set. */
  lemma {:induction false} SubsetCardinality<T>(a: set<T>, b: set<T>)
    requires a <= b
    ensures |a| <= |b|
    ensures |a| == |b| ==> a == b
  {
    assert b == a + (b - a);
    assert |b| == |a| + |b - a|;
  }

  /** A one-element set is the singleton of any of its members. */
  lemma SingletonOf<T>(s: set<T>, x: T)
    requires x in s
    ensures |s| <= 1 <==> s == {x}
  {
    SubsetCardinality({x}, s);
  }

  /** Two finite sets related by a pair of mutually inverse maps have the same number of elements. */
  lemma {:induction false} BijectionCardinality<A, B>(a: set<A>, b: set<B>, to: map<A, B>, from: map<B, A>)
    requires to.Keys == a && from.Keys == b
    requires forall x :: x in a ==> to[x] in b && from[to[x]] == x
    requires forall y :: y in b ==> from[y] in a && to[from[y]] == y
    ensures |a| == |b|
    decreases |a|
  {
    if a == {} {
      assert forall y :: y in b ==> from[y] in a;
      assert b == {};
    } else {
      var x :| x in a;
      var y := to[x];
      BijectionCardinality(a - {x}, b - {y}, to - {x}, from - {y});
      assert |b| == |b - {y}| + 1;
    }
  }
}
