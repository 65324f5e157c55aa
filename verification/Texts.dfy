/**
 Text as the program's strings hold it: a sequence of code points, surrogate code points included.
 Also the lexicographic orders that sorting uses, and sorting itself.
 */
module Texts {

  /** One code point of a string. A lone surrogate (0xD800 to 0xDFFF) is a legal code point of a string. */
  type CodePoint = c: int | 0 <= c < 0x11_0000

  type Text = seq<CodePoint>

  /** The code points of a literal. */
  function T(s: string): (t: Text)
    ensures |t| == |s|
    ensures forall i :: 0 <= i < |s| ==> t[i] == s[i] as int
  {
    seq(|s|, i requires 0 <= i < |s| => s[i] as int)
  }

  /** Different literals are different texts. */
  lemma LiteralsDiffer(a: string, b: string)
    requires a != b
    ensures T(a) != T(b)
  {
    if |a| == |b| {
      var i :| 0 <= i < |a| && a[i] != b[i];
      assert T(a)[i] != T(b)[i];
    }
  }

  /** The code points that stripping removes from either end. */
  predicate IsSpace(c: CodePoint) {
    || 0x09 <= c <= 0x0D
    || 0x1C <= c <= 0x20
    || c == 0x85 || c == 0xA0 || c == 0x1680
    || 0x2000 <= c <= 0x200A
    || c == 0x2028 || c == 0x2029 || c == 0x202F || c == 0x205F || c == 0x3000
  }

  /** Non-empty and unchanged by stripping: the "exact text" rule. */
  predicate ExactText(t: Text) {
    t != [] && !IsSpace(t[0]) && !IsSpace(t[|t| - 1])
  }

  /** The code points that stripping removes, one by one. */
  const BLANKS: set<int> := {
    0x09, 0x0A, 0x0B, 0x0C, 0x0D, 0x1C, 0x1D, 0x1E, 0x1F, 0x20, 0x85, 0xA0, 0x1680, 0x2000, 0x2001, 0x2002, 0x2003,
    0x2004, 0x2005, 0x2006, 0x2007, 0x2008, 0x2009, 0x200A, 0x2028, 0x2029, 0x202F, 0x205F, 0x3000}

  /** Not empty, and no blank at either end. */
  ghost predicate Stripped(t: Text) { |t| > 0 && t[0] !in BLANKS && t[|t| - 1] !in BLANKS }

  lemma StrippedExact(t: Text)
    ensures ExactText(t) <==> Stripped(t)
  {
  }

  /** Code-point order on texts. */
  predicate Less(a: seq<int>, b: seq<int>) {
    if b == [] then false
    else if a == [] then true
    else a[0] < b[0] || (a[0] == b[0] && Less(a[1..], b[1..]))
  }

  /** Order on tuples of texts, first component first. */
  predicate LessKey(a: seq<Text>, b: seq<Text>) {
    if b == [] then false
    else if a == [] then true
    else Less(a[0], b[0]) || (a[0] == b[0] && LessKey(a[1..], b[1..]))
  }

  lemma {:induction false} LessOrder(a: seq<int>, b: seq<int>, c: seq<int>)
    ensures !Less(a, a)
    ensures Less(a, b) && Less(b, c) ==> Less(a, c)
    ensures Less(a, b) || a == b || Less(b, a)
  {
    if a == [] {
    } else if b == [] {
      LessOrder(a[1..], [], []);
    } else {
      LessOrder(a[1..], b[1..], if c == [] then [] else c[1..]);
      if a[0] == b[0] && a[1..] == b[1..] {
        assert a == [a[0]] + a[1..] == b;
      }
    }
  }

  lemma {:induction false} LessKeyOrder(a: seq<Text>, b: seq<Text>, c: seq<Text>)
    ensures !LessKey(a, a)
    ensures LessKey(a, b) && LessKey(b, c) ==> LessKey(a, c)
    ensures LessKey(a, b) || a == b || LessKey(b, a)
  {
    if a == [] {
    } else if b == [] {
      LessOrder(a[0], a[0], a[0]);
      LessKeyOrder(a[1..], [], []);
    } else {
      LessOrder(a[0], a[0], a[0]);
      LessOrder(a[0], b[0], if c == [] then [] else c[0]);
      LessKeyOrder(a[1..], b[1..], if c == [] then [] else c[1..]);
      if a[0] == b[0] && a[1..] == b[1..] {
        assert a == [a[0]] + a[1..] == b;
      }
    }
  }

  /** The order of strings: a proper prefix comes first, otherwise the smaller code point where they first differ. */
  ghost predicate Precedes(a: seq<int>, b: seq<int>) {
    exists k :: 0 <= k <= |a| && k < |b| && a[..k] == b[..k] && (k == |a| || a[k] < b[k])
  }

  lemma {:induction false} LessExact(a: seq<int>, b: seq<int>)
    ensures Less(a, b) <==> Precedes(a, b)
  {
    if a == [] || b == [] {
      assert b != [] ==> a[..0] == b[..0];
    } else {
      LessExact(a[1..], b[1..]);
      PrecedesStep(a, b);
    }
  }

  lemma PrecedesStep(a: seq<int>, b: seq<int>)
    requires a != [] && b != []
    ensures Precedes(a, b) <==> a[0] < b[0] || (a[0] == b[0] && Precedes(a[1..], b[1..]))
  {
    if a[0] < b[0] {
      assert a[..0] == b[..0];
    }
    if a[0] == b[0] && Precedes(a[1..], b[1..]) {
      var k :| 0 <= k <= |a[1..]| && k < |b[1..]| && a[1..][..k] == b[1..][..k]
               && (k == |a[1..]| || a[1..][k] < b[1..][k]);
      assert a[..k + 1] == [a[0]] + a[1..][..k] && b[..k + 1] == [b[0]] + b[1..][..k];
    }
    if k :| 0 <= k <= |a| && k < |b| && a[..k] == b[..k] && (k == |a| || a[k] < b[k]) {
      if k > 0 {
        assert a[0] == a[..k][0] == b[..k][0] == b[0];
        assert a[1..][..k - 1] == a[..k][1..] && b[1..][..k - 1] == b[..k][1..];
      }
    }
  }

  /** Tuples come in the order of their first differing component; of tuples of one length none is a proper prefix. */
  lemma {:induction false} LessKeyExact(a: seq<Text>, b: seq<Text>)
    requires |a| == |b|
    ensures LessKey(a, b) <==> exists k :: 0 <= k < |a| && a[..k] == b[..k] && Precedes(a[k], b[k])
  {
    if a == [] {
    } else {
      LessKeyExact(a[1..], b[1..]);
      LessExact(a[0], b[0]);
      assert a == [a[0]] + a[1..] && b == [b[0]] + b[1..];
      if a[0] == b[0] && LessKey(a[1..], b[1..]) {
        var k :| 0 <= k < |a[1..]| && a[1..][..k] == b[1..][..k] && Precedes(a[1..][k], b[1..][k]);
        assert a[..k + 1] == [a[0]] + a[1..][..k] && b[..k + 1] == [b[0]] + b[1..][..k];
      }
      if Less(a[0], b[0]) {
        assert a[..0] == b[..0];
      }
      if k :| 0 <= k < |a| && a[..k] == b[..k] && Precedes(a[k], b[k]) {
        if k > 0 {
          assert a[0] == a[..k][0] == b[..k][0] == b[0];
          assert a[1..][..k - 1] == a[..k][1..] && b[1..][..k - 1] == b[..k][1..];
        }
      }
    }
  }

  /** Keys strictly increase: sorted, and no key twice. */
  predicate Increasing<A>(key: A -> seq<Text>, xs: seq<A>) {
    forall i, j :: 0 <= i < j < |xs| ==> LessKey(key(xs[i]), key(xs[j]))
  }

  /** No two positions share a key. */
  predicate DistinctKeys<A>(key: A -> seq<Text>, xs: seq<A>) {
    forall i, j :: 0 <= i < j < |xs| ==> key(xs[i]) != key(xs[j])
  }

  /** Stable sorting by key. */
  function Sort<A>(key: A -> seq<Text>, xs: seq<A>): (r: seq<A>)
    ensures |r| == |xs|
  {
    if xs == [] then [] else Insert(key, xs[0], Sort(key, xs[1..]))
  }

  function Insert<A>(key: A -> seq<Text>, x: A, ys: seq<A>): (r: seq<A>)
    ensures |r| == |ys| + 1
  {
    if ys == [] then [x]
    else if LessKey(key(ys[0]), key(x)) then [ys[0]] + Insert(key, x, ys[1..])
    else [x] + ys
  }

  lemma {:induction false} InsertMembers<A(!new)>(key: A -> seq<Text>, x: A, ys: seq<A>)
    ensures forall z :: z in Insert(key, x, ys) <==> z == x || z in ys
  {
    if ys == [] {
    } else if LessKey(key(ys[0]), key(x)) {
      InsertMembers(key, x, ys[1..]);
      assert ys == [ys[0]] + ys[1..];
    }
  }

  lemma {:induction false} InsertIncreasing<A(!new)>(key: A -> seq<Text>, x: A, ys: seq<A>)
    requires Increasing(key, ys)
    requires forall y :: y in ys ==> key(y) != key(x)
    ensures Increasing(key, Insert(key, x, ys))
  {
    if ys == [] {
    } else if LessKey(key(ys[0]), key(x)) {
      var tail := ys[1..];
      InsertIncreasing(key, x, tail);
      InsertMembers(key, x, tail);
      var rest := Insert(key, x, tail);
      forall j | 0 <= j < |rest|
        ensures LessKey(key(ys[0]), key(rest[j]))
      {
        assert rest[j] in rest;
        assert rest[j] == x || rest[j] in tail;
      }
    } else {
      LessKeyOrder(key(ys[0]), key(x), []);
      assert ys[0] in ys;
      forall j | 0 <= j < |ys|
        ensures LessKey(key(x), key(ys[j]))
      {
        LessKeyOrder(key(x), key(ys[0]), key(ys[j]));
      }
    }
  }

  /** Sorting keeps the members, and a list without a repeated key comes out strictly increasing. */
  lemma {:induction false} SortCorrect<A(!new)>(key: A -> seq<Text>, xs: seq<A>)
    ensures forall z :: z in Sort(key, xs) <==> z in xs
    ensures DistinctKeys(key, xs) ==> Increasing(key, Sort(key, xs))
  {
    if xs == [] {
    } else {
      SortCorrect(key, xs[1..]);
      InsertMembers(key, xs[0], Sort(key, xs[1..]));
      assert xs == [xs[0]] + xs[1..];
      if DistinctKeys(key, xs) {
        var tail := xs[1..];
        forall y | y in Sort(key, tail)
          ensures key(y) != key(xs[0])
        {
          assert y in tail;
        }
        InsertIncreasing(key, xs[0], Sort(key, tail));
      }
    }
  }

  /** A strictly increasing list is determined by its members. */
  lemma {:induction false} IncreasingUnique<A(!new)>(key: A -> seq<Text>, a: seq<A>, b: seq<A>)
    requires Increasing(key, a) && Increasing(key, b)
    requires forall z :: z in a <==> z in b
    ensures a == b
  {
    if a == [] {
      assert forall i :: 0 <= i < |b| ==> b[i] in b;
    } else {
      assert a[0] in b && (b != [] ==> b[0] in a);
      IncreasingHead(key, a, b[0]);
      IncreasingHead(key, b, a[0]);
      LessKeyOrder(key(a[0]), key(b[0]), key(a[0]));
      assert a[0] == b[0];
      forall z
        ensures z in a[1..] <==> z in b[1..]
      {
        IncreasingTail(key, a, z);
        IncreasingTail(key, b, z);
      }
      IncreasingUnique(key, a[1..], b[1..]);
      assert a == [a[0]] + a[1..] == b;
    }
  }

  lemma IncreasingHead<A(!new)>(key: A -> seq<Text>, a: seq<A>, z: A)
    requires Increasing(key, a) && z in a
    ensures z == a[0] || LessKey(key(a[0]), key(z))
  {
    var k :| 0 <= k < |a| && a[k] == z;
  }

  lemma IncreasingTail<A(!new)>(key: A -> seq<Text>, a: seq<A>, z: A)
    requires Increasing(key, a) && a != []
    ensures z in a[1..] <==> z in a && z != a[0]
  {
    LessKeyOrder(key(a[0]), [], []);
    if z in a[1..] {
      var k :| 0 <= k < |a[1..]| && a[1..][k] == z;
      assert a[k + 1] == z;
    }
    if z in a && z != a[0] {
      var k :| 0 <= k < |a| && a[k] == z;
      assert a[1..][k - 1] == z;
    }
  }

  /** A strictly increasing list has no repeated key, and sorting leaves it alone. */
  lemma SortFixedPoint<A(!new)>(key: A -> seq<Text>, xs: seq<A>)
    requires Increasing(key, xs)
    ensures DistinctKeys(key, xs) && Sort(key, xs) == xs
  {
    forall i, j | 0 <= i < j < |xs|
      ensures key(xs[i]) != key(xs[j])
    {
      LessKeyOrder(key(xs[i]), [], []);
    }
    SortCorrect(key, xs);
    IncreasingUnique(key, Sort(key, xs), xs);
  }
}
