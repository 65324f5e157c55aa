/** The shape of a subject's history: disjoint finite chains of rotations, and what their counts conserve. */
module RegistryChains {
  import opened Prelude
  import opened TrustRegistry
  import opened RegistryInvariant

  /** Each fingerprint of the list is the rotation that closed the one before it. */
  ghost predicate Linked(t: Tables, p: seq<Fingerprint>) {
    && (forall i :: 0 <= i < |p| ==> p[i] in t.enrolments)
    && (forall i :: 0 <= i < |p| - 1 ==> Succeeds(t, p[i + 1], p[i]))
  }

  ghost predicate StartsAtInitial(t: Tables, p: seq<Fingerprint>) {
    p != [] && p[0] in t.enrolments && t.enrolments[p[0]].supersedes.None?
  }

  /** The current root of its own subject, or revoked. */
  ghost predicate ChainEnd(t: Tables, f: Fingerprint) {
    && f in t.enrolments
    && (Current(t, t.enrolments[f].subject) == Some(f) || (f in t.closures && t.closures[f].kind == REVOKED))
  }

  /** A whole chain: from a row that supersedes nothing to a current or revoked fingerprint. */
  ghost predicate Chain(t: Tables, p: seq<Fingerprint>) {
    Linked(t, p) && StartsAtInitial(t, p) && ChainEnd(t, p[|p| - 1])
  }

  lemma {:induction false} Backwards(t: Tables, rank: map<Fingerprint, nat>, f: Fingerprint)
    returns (p: seq<Fingerprint>)
    requires LinksMatch(t) && Ranks(t, rank) && f in t.enrolments
    ensures Linked(t, p) && StartsAtInitial(t, p) && p[|p| - 1] == f
    decreases rank[f]
  {
    if t.enrolments[f].supersedes.None? {
      p := [f];
    } else {
      var g := t.enrolments[f].supersedes.value;
      assert Succeeds(t, f, g);
      var q := Backwards(t, rank, g);
      p := q + [f];
    }
  }

  lemma {:induction false} Forwards(t: Tables, rank: map<Fingerprint, nat>, p: seq<Fingerprint>)
    returns (q: seq<Fingerprint>)
    requires LinksMatch(t) && PointersExact(t) && Ranks(t, rank)
    requires Linked(t, p) && StartsAtInitial(t, p)
    ensures Chain(t, q) && p <= q
    decreases |set x | x in t.enrolments && rank[x] > rank[p[|p| - 1]]|
  {
    var f := p[|p| - 1];
    if IsOpen(t, f) || t.closures[f].kind == REVOKED {
      q := p;
    } else {
      var h := t.closures[f].supersededBy.value;
      assert Succeeds(t, h, f);
      var later := set x | x in t.enrolments && rank[x] > rank[f];
      var next := set x | x in t.enrolments && rank[x] > rank[h];
      assert next <= later && h in later - next;
      SubsetCardinality(next, later);
      q := Forwards(t, rank, p + [h]);
    }
  }

  /** Every enrolment lies on a chain. */
  lemma ChainsCover(t: Tables, f: Fingerprint)
    requires LinksMatch(t) && PointersExact(t) && Ranked(t) && f in t.enrolments
    ensures exists p :: Chain(t, p) && f in p
  {
    var rank :| Ranks(t, rank);
    var p := Backwards(t, rank, f);
    var q := Forwards(t, rank, p);
    assert q[|p| - 1] == f;
  }

  lemma {:induction false} RankGrows(t: Tables, rank: map<Fingerprint, nat>, p: seq<Fingerprint>, i: nat, j: nat)
    requires Ranks(t, rank) && Linked(t, p) && i < j < |p|
    ensures rank[p[i]] < rank[p[j]]
    ensures t.enrolments[p[i]].subject == t.enrolments[p[j]].subject
    decreases j - i
  {
    assert Succeeds(t, p[i + 1], p[i]);
    if i + 1 == j {
    } else {
      RankGrows(t, rank, p, i + 1, j);
    }
  }

  /** A chain is acyclic, stays within one subject, and everything before its end was rotated away. */
  lemma ChainShape(t: Tables, p: seq<Fingerprint>)
    requires Ranked(t) && Chain(t, p)
    ensures forall i, j :: 0 <= i < j < |p| ==> p[i] != p[j]
    ensures forall i, j :: 0 <= i < j < |p| ==> t.enrolments[p[i]].subject == t.enrolments[p[j]].subject
    ensures forall i :: 0 <= i < |p| - 1 ==> p[i] in t.closures && t.closures[p[i]].kind == SUPERSEDED
  {
    var rank :| Ranks(t, rank);
    forall i, j | 0 <= i < j < |p|
      ensures p[i] != p[j] && t.enrolments[p[i]].subject == t.enrolments[p[j]].subject
    {
      RankGrows(t, rank, p, i, j);
    }
    forall i | 0 <= i < |p| - 1
      ensures p[i] in t.closures && t.closures[p[i]].kind == SUPERSEDED
    {
      assert Succeeds(t, p[i + 1], p[i]);
    }
  }

  /** Two chains through one fingerprint have it at the same distance from their starts. */
  lemma {:induction false} SamePosition(t: Tables, p: seq<Fingerprint>, q: seq<Fingerprint>, i: nat, j: nat)
    requires Chain(t, p) && Chain(t, q)
    requires i < |p| && j < |q| && p[i] == q[j]
    ensures i == j
  {
    if i > 0 {
      assert Succeeds(t, p[i - 1 + 1], p[i - 1]);
    }
    if j > 0 {
      assert Succeeds(t, q[j - 1 + 1], q[j - 1]);
    }
    if i > 0 && j > 0 {
      SamePosition(t, p, q, i - 1, j - 1);
    }
  }

  lemma {:induction false} SameBefore(t: Tables, p: seq<Fingerprint>, q: seq<Fingerprint>, i: nat)
    requires Chain(t, p) && Chain(t, q)
    requires i < |p| && i < |q| && p[i] == q[i]
    ensures p[..i + 1] == q[..i + 1]
  {
    if i == 0 {
    } else {
      assert Succeeds(t, p[i - 1 + 1], p[i - 1]) && Succeeds(t, q[i - 1 + 1], q[i - 1]);
      SameBefore(t, p, q, i - 1);
      assert p[..i + 1] == p[..i] + [p[i]] && q[..i + 1] == q[..i] + [q[i]];
    }
  }

  /** What has been rotated away ends no chain. */
  lemma SucceededIsNoEnd(t: Tables, f: Fingerprint, h: Fingerprint)
    requires PointersExact(t) && Succeeds(t, h, f)
    ensures !ChainEnd(t, f)
  {
    assert Current(t, t.enrolments[f].subject) == Some(f) ==> IsOpen(t, f);
  }

  lemma EndIsLast(t: Tables, p: seq<Fingerprint>, i: nat)
    requires PointersExact(t) && Chain(t, p) && i < |p|
    ensures ChainEnd(t, p[i]) <==> i == |p| - 1
  {
    if i < |p| - 1 {
      SucceededIsNoEnd(t, p[i], p[i + 1]);
    }
  }

  lemma {:induction false} SameAfter(t: Tables, p: seq<Fingerprint>, q: seq<Fingerprint>, i: nat)
    requires PointersExact(t) && Chain(t, p) && Chain(t, q)
    requires i < |p| && i < |q| && p[i] == q[i]
    ensures p[i..] == q[i..]
    decreases |p| - i
  {
    EndIsLast(t, p, i);
    EndIsLast(t, q, i);
    if i + 1 == |p| {
    } else {
      assert Succeeds(t, p[i + 1], p[i]) && Succeeds(t, q[i + 1], q[i]);
      SameAfter(t, p, q, i + 1);
      assert p[i..] == [p[i]] + p[i + 1..] && q[i..] == [q[i]] + q[i + 1..];
    }
  }

  /** Chains are disjoint: two that share a fingerprint are the same chain. */
  lemma ChainsDisjoint(t: Tables, p: seq<Fingerprint>, q: seq<Fingerprint>, f: Fingerprint)
    requires PointersExact(t) && Chain(t, p) && Chain(t, q) && f in p && f in q
    ensures p == q
  {
    var i :| 0 <= i < |p| && p[i] == f;
    var j :| 0 <= j < |q| && q[j] == f;
    SamePosition(t, p, q, i, j);
    SameBefore(t, p, q, i);
    SameAfter(t, p, q, i);
    assert p == p[..i + 1] + p[i..][1..];
    assert q == q[..i + 1] + q[i..][1..];
  }

  // ---------------------------------------------------------------- conservation

  ghost function EnrolledFor(t: Tables, s: Subject): set<Fingerprint> {
    set f | f in t.enrolments && t.enrolments[f].subject == s
  }

  ghost function InitialFor(t: Tables, s: Subject): set<Fingerprint> {
    set f | f in EnrolledFor(t, s) && t.enrolments[f].supersedes.None?
  }

  ghost function ClosedFor(t: Tables, s: Subject): set<Fingerprint> {
    set f | f in EnrolledFor(t, s) && f in t.closures
  }

  ghost function ClosedAs(t: Tables, s: Subject, kind: ClosureKind): set<Fingerprint> {
    set f | f in ClosedFor(t, s) && t.closures[f].kind == kind
  }

  /** Rotations of a subject and its SUPERSEDED closures correspond one to one. */
  lemma RotationsMatchClosures(t: Tables, s: Subject)
    requires LinksMatch(t)
    ensures |EnrolledFor(t, s) - InitialFor(t, s)| == |ClosedAs(t, s, SUPERSEDED)|
  {
    var rotations, closed := EnrolledFor(t, s) - InitialFor(t, s), ClosedAs(t, s, SUPERSEDED);
    var to := map f | f in rotations :: t.enrolments[f].supersedes.value;
    var from := map g | g in closed :: t.closures[g].supersededBy.value;
    forall f | f in rotations
      ensures to[f] in closed && from[to[f]] == f
    {
      assert Succeeds(t, f, to[f]);
    }
    forall g | g in closed
      ensures from[g] in rotations && to[from[g]] == g
    {
      assert Succeeds(t, from[g], g);
    }
    BijectionCardinality(rotations, closed, to, from);
  }

  lemma SplitCardinality<A>(whole: set<A>, part: set<A>)
    requires part <= whole
    ensures |whole| == |part| + |whole - part|
  {
    assert whole == part + (whole - part);
  }

  /** Every enrolment of a subject is closed once or is its current root; every chain it started ended in
      a revocation or is the current one. */
  lemma Conservation(t: Tables, s: Subject)
    requires LinksMatch(t) && PointersExact(t)
    ensures var now := if s in t.current then 1 else 0;
            && |EnrolledFor(t, s)| == |ClosedFor(t, s)| + now
            && |InitialFor(t, s)| == |ClosedAs(t, s, REVOKED)| + now
  {
    OpenOrClosed(t, s);
    RotationsMatchClosures(t, s);
    SplitCardinality(EnrolledFor(t, s), InitialFor(t, s));
    SplitCardinality(ClosedFor(t, s), ClosedAs(t, s, SUPERSEDED));
    assert ClosedFor(t, s) - ClosedAs(t, s, SUPERSEDED) == ClosedAs(t, s, REVOKED);
  }

  lemma OpenOrClosed(t: Tables, s: Subject)
    requires PointersExact(t)
    ensures |EnrolledFor(t, s)| == |ClosedFor(t, s)| + if s in t.current then 1 else 0
  {
    PointerIsOpenSet(t, s);
    SplitCardinality(EnrolledFor(t, s), ClosedFor(t, s));
    assert EnrolledFor(t, s) - ClosedFor(t, s) == OpenFor(t, s);
  }

  /** Every state reached from empty tables: each enrolment lies on exactly one chain, and the counts of each
      subject's enrolments and closures balance. */
  lemma ReachableChains(digest: KeyDigest, cs: seq<Command>, f: Fingerprint, s: Subject)
    requires f in Run(EMPTY, digest, cs).enrolments
    ensures var t := Run(EMPTY, digest, cs);
            && (exists p :: Chain(t, p) && f in p)
            && (forall p, q :: Chain(t, p) && Chain(t, q) && f in p && f in q ==> p == q)
            && |EnrolledFor(t, s)| == |ClosedFor(t, s)| + CountOpen(t, s)
            && |InitialFor(t, s)| == |ClosedAs(t, s, REVOKED)| + CountOpen(t, s)
  {
    ReachableInv(digest, cs);
    ChainsAndCounts(Run(EMPTY, digest, cs), f, s);
  }

  lemma ChainsAndCounts(t: Tables, f: Fingerprint, s: Subject)
    requires LinksMatch(t) && PointersExact(t) && Ranked(t) && f in t.enrolments
    ensures exists p :: Chain(t, p) && f in p
    ensures forall p, q :: Chain(t, p) && Chain(t, q) && f in p && f in q ==> p == q
    ensures |EnrolledFor(t, s)| == |ClosedFor(t, s)| + CountOpen(t, s)
    ensures |InitialFor(t, s)| == |ClosedAs(t, s, REVOKED)| + CountOpen(t, s)
  {
    ChainsCover(t, f);
    Conservation(t, s);
    PointerIsOpenSet(t, s);
    OneChain(t, f);
  }

  lemma OneChain(t: Tables, f: Fingerprint)
    requires PointersExact(t)
    ensures forall p, q :: Chain(t, p) && Chain(t, q) && f in p && f in q ==> p == q
  {
    forall p, q | Chain(t, p) && Chain(t, q) && f in p && f in q
      ensures p == q
    {
      ChainsDisjoint(t, p, q, f);
    }
  }
}
