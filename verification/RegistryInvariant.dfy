/** What every run of committed commands from empty tables keeps. */
module RegistryInvariant {
  import opened Prelude
  import opened Texts
  import opened TrustRegistry

  predicate IsOpen(t: Tables, f: Fingerprint) { f in t.enrolments && f !in t.closures }

  /** Every stored fingerprint is the one its key gives. */
  ghost predicate KeysMatch(t: Tables, digest: KeyDigest) {
    forall f :: f in t.enrolments ==> digest(t.enrolments[f].publicKey) == Some(f)
  }

  /** A pointer names an open enrolment of its own subject, and every open enrolment is pointed at. */
  ghost predicate PointersExact(t: Tables) {
    && (forall s :: s in t.current ==> IsOpen(t, t.current[s]) && t.enrolments[t.current[s]].subject == s)
    && (forall f :: IsOpen(t, f) ==> Current(t, t.enrolments[f].subject) == Some(f))
  }

  /** The enrolment f is the rotation that closed g. */
  ghost predicate Succeeds(t: Tables, f: Fingerprint, g: Fingerprint) {
    && f in t.enrolments && g in t.enrolments && g in t.closures
    && t.enrolments[f].supersedes == Some(g)
    && t.closures[g].kind == SUPERSEDED && t.closures[g].supersededBy == Some(f)
    && t.enrolments[f].subject == t.enrolments[g].subject
  }

  /** Supersedes links and SUPERSEDED closures are two views of one relation; only enrolments are closed. */
  ghost predicate LinksMatch(t: Tables) {
    && t.closures.Keys <= t.enrolments.Keys
    && (forall f :: f in t.enrolments && t.enrolments[f].supersedes.Some? ==>
          Succeeds(t, f, t.enrolments[f].supersedes.value))
    && (forall g :: g in t.closures ==> (t.closures[g].kind == SUPERSEDED <==> t.closures[g].supersededBy.Some?))
    && (forall g :: g in t.closures && t.closures[g].supersededBy.Some? ==>
          Succeeds(t, t.closures[g].supersededBy.value, g))
  }

  /** Row ids are unique, and the descriptors are exactly those of the enrolments. */
  ghost predicate IdsMatch(t: Tables) {
    && (forall f, g :: f in t.enrolments && g in t.enrolments && t.enrolments[f].id == t.enrolments[g].id ==> f == g)
    && (forall f :: f in t.enrolments ==> t.enrolments[f].id in t.descriptors)
    && (forall id :: id in t.descriptors ==> exists f :: f in t.enrolments && t.enrolments[f].id == id)
  }

  /** A numbering of the enrolments under which every rotation comes after what it supersedes. */
  ghost predicate Ranks(t: Tables, rank: map<Fingerprint, nat>) {
    && rank.Keys == t.enrolments.Keys
    && forall f, g :: Succeeds(t, f, g) ==> rank[g] < rank[f]
  }

  ghost predicate Ranked(t: Tables) { exists rank :: Ranks(t, rank) }

  ghost predicate Inv(t: Tables, digest: KeyDigest) {
    && KeysMatch(t, digest)
    && PointersExact(t)
    && LinksMatch(t)
    && IdsMatch(t)
    && Ranked(t)
  }

  /** Under the invariant a subject has at most one open enrolment, and the current-root row says exactly which. */
  lemma PointerIsOpenSet(t: Tables, s: Subject)
    requires PointersExact(t)
    ensures OpenFor(t, s) == if s in t.current then {t.current[s]} else {}
    ensures DeriveCurrent(t, s) == Current(t, s)
    ensures !Reconcile(t, s).Drifted()
  {
    assert OpenFor(t, s) == if s in t.current then {t.current[s]} else {};
    forall f | f in OpenFor(t, s)
      ensures Current(t, s) == Some(f)
    {
      assert IsOpen(t, f);
    }
  }

  lemma EnrolledKeepsPointers(t: Tables, f: Fingerprint, row: Enrolment, d: Descriptor)
    requires PointersExact(t) && f !in t.closures && f !in t.enrolments && row.subject !in t.current
    ensures PointersExact(Enrolled(t, f, row, d))
  {
    var t' := Enrolled(t, f, row, d);
    forall x | IsOpen(t', x)
      ensures Current(t', t'.enrolments[x].subject) == Some(x)
    {
      if x != f {
        assert IsOpen(t, x);
      }
    }
  }

  /** Inserting an initial enrolment adds no link. */
  lemma InsertKeepsLinks(t: Tables, f: Fingerprint, row: Enrolment, t': Tables)
    requires LinksMatch(t) && f !in t.enrolments && row.supersedes.None?
    requires t'.enrolments == t.enrolments[f := row] && t'.closures == t.closures
    ensures LinksMatch(t')
    ensures forall x, y :: Succeeds(t', x, y) <==> Succeeds(t, x, y)
  {
  }

  lemma SameLinksKeepRanked(t: Tables, t': Tables)
    requires Ranked(t) && t.enrolments.Keys <= t'.enrolments.Keys
    requires forall x, y :: Succeeds(t', x, y) ==> Succeeds(t, x, y)
    ensures Ranked(t')
  {
    var rank :| Ranks(t, rank);
    var rank' := map f | f in t'.enrolments :: if f in rank then rank[f] else 0;
    assert Ranks(t', rank');
  }

  lemma EnrolledKeepsInv(t: Tables, digest: KeyDigest, f: Fingerprint, row: Enrolment, d: Descriptor)
    requires Inv(t, digest) && EnrolAllowed(t, f, row) && digest(row.publicKey) == Some(f)
    ensures Inv(Enrolled(t, f, row, d), digest)
  {
    var t' := Enrolled(t, f, row, d);
    InsertKeepsKeys(t, digest, f, row, t');
    EnrolledKeepsPointers(t, f, row, d);
    InsertKeepsLinks(t, f, row, t');
    InsertKeepsIds(t, f, row, d, t');
    SameLinksKeepRanked(t, t');
  }

  lemma InsertKeepsIds(t: Tables, f: Fingerprint, row: Enrolment, d: Descriptor, t': Tables)
    requires IdsMatch(t) && f !in t.enrolments && !IdTaken(t, row.id)
    requires t'.enrolments == t.enrolments[f := row] && t'.descriptors == t.descriptors[row.id := d]
    ensures IdsMatch(t')
  {
    forall id | id in t'.descriptors
      ensures exists x :: x in t'.enrolments && t'.enrolments[x].id == id
    {
      if id == row.id {
        assert f in t'.enrolments && t'.enrolments[f].id == id;
      } else {
        var x :| x in t.enrolments && t.enrolments[x].id == id;
        assert x in t'.enrolments && t'.enrolments[x].id == id;
      }
    }
  }

  lemma InsertKeepsKeys(t: Tables, digest: KeyDigest, f: Fingerprint, row: Enrolment, t': Tables)
    requires KeysMatch(t, digest) && digest(row.publicKey) == Some(f)
    requires t'.enrolments == t.enrolments[f := row]
    ensures KeysMatch(t', digest)
  {
  }

  lemma RotatedKeepsLinks(t: Tables, g: Fingerprint, f: Fingerprint, row: Enrolment, d: Descriptor)
    requires LinksMatch(t) && RotateAllowed(t, g, f, row)
    ensures LinksMatch(Rotated(t, g, f, row, d))
    ensures forall x, y :: Succeeds(Rotated(t, g, f, row, d), x, y) <==> Succeeds(t, x, y) || (x == f && y == g)
  {
    var t' := Rotated(t, g, f, row, d);
    forall x, y
      ensures Succeeds(t', x, y) <==> Succeeds(t, x, y) || (x == f && y == g)
    {
    }
  }

  lemma RotatedKeepsPointers(t: Tables, g: Fingerprint, f: Fingerprint, row: Enrolment, d: Descriptor)
    requires PointersExact(t) && RotateAllowed(t, g, f, row)
    requires f !in t.closures
    ensures PointersExact(Rotated(t, g, f, row, d))
  {
    var t' := Rotated(t, g, f, row, d);
    forall s | s in t'.current
      ensures IsOpen(t', t'.current[s]) && t'.enrolments[t'.current[s]].subject == s
    {
      RotatedOpen(t, g, f, row, d, t'.current[s]);
    }
    forall x | IsOpen(t', x)
      ensures Current(t', t'.enrolments[x].subject) == Some(x)
    {
      RotatedOpen(t, g, f, row, d, x);
    }
  }

  /** After a rotation the open fingerprints are those from before, the new one in place of the old. */
  lemma RotatedOpen(t: Tables, g: Fingerprint, f: Fingerprint, row: Enrolment, d: Descriptor, x: Fingerprint)
    requires RotateAllowed(t, g, f, row) && f !in t.closures
    ensures IsOpen(Rotated(t, g, f, row, d), x) <==> (IsOpen(t, x) && x != g) || x == f
  {
  }

  lemma RotatedKeepsRanked(t: Tables, g: Fingerprint, f: Fingerprint, row: Enrolment, d: Descriptor)
    requires LinksMatch(t) && RotateAllowed(t, g, f, row) && Ranked(t)
    ensures Ranked(Rotated(t, g, f, row, d))
  {
    RotatedKeepsLinks(t, g, f, row, d);
    var rank :| Ranks(t, rank);
    assert Ranks(Rotated(t, g, f, row, d), rank[f := rank[g] + 1]);
  }

  lemma RotatedKeepsInv(t: Tables, digest: KeyDigest, g: Fingerprint, f: Fingerprint, row: Enrolment, d: Descriptor)
    requires Inv(t, digest) && RotateAllowed(t, g, f, row) && digest(row.publicKey) == Some(f)
    ensures Inv(Rotated(t, g, f, row, d), digest)
  {
    var t' := Rotated(t, g, f, row, d);
    InsertKeepsKeys(t, digest, f, row, t');
    RotatedKeepsPointers(t, g, f, row, d);
    RotatedKeepsLinks(t, g, f, row, d);
    InsertKeepsIds(t, f, row, d, t');
    RotatedKeepsRanked(t, g, f, row, d);
  }

  /** Closing an open fingerprint as revoked adds no link. */
  lemma RevokeKeepsLinks(t: Tables, f: Fingerprint, c: Closure, t': Tables)
    requires LinksMatch(t) && IsOpen(t, f) && c.kind == REVOKED && c.supersededBy.None?
    requires t'.enrolments == t.enrolments && t'.closures == t.closures[f := c]
    ensures LinksMatch(t')
    ensures forall x, y :: Succeeds(t', x, y) <==> Succeeds(t, x, y)
  {
  }

  lemma RevokedKeepsPointers(t: Tables, f: Fingerprint, c: Closure)
    requires PointersExact(t) && IsOpen(t, f)
    ensures PointersExact(Revoked(t, f, c))
  {
    var t' := Revoked(t, f, c);
    forall x | IsOpen(t', x)
      ensures Current(t', t'.enrolments[x].subject) == Some(x)
    {
      assert IsOpen(t, x);
    }
  }

  lemma RevokedKeepsInv(t: Tables, digest: KeyDigest, f: Fingerprint, c: Closure)
    requires Inv(t, digest) && IsOpen(t, f) && c.kind == REVOKED && c.supersededBy.None?
    ensures Inv(Revoked(t, f, c), digest)
  {
    var t' := Revoked(t, f, c);
    RevokedKeepsPointers(t, f, c);
    RevokeKeepsLinks(t, f, c, t');
    SameLinksKeepRanked(t, t');
  }

  lemma LockRowIrrelevant(t: Tables, digest: KeyDigest, s: Subject)
    requires Inv(t, digest)
    ensures Inv(LockSubject(t, s), digest)
  {
    var u := LockSubject(t, s);
    LockRowKeepsPointers(t, s);
    assert forall x, y :: Succeeds(u, x, y) <==> Succeeds(t, x, y);
    SameLinksKeepRanked(t, u);
  }

  lemma LockRowKeepsPointers(t: Tables, s: Subject)
    requires PointersExact(t)
    ensures PointersExact(LockSubject(t, s))
  {
    assert forall x :: IsOpen(LockSubject(t, s), x) <==> IsOpen(t, x);
  }

  /** On tables that satisfy the invariant, repair finds nothing to change. */
  lemma RepairChangesNothing(t: Tables, digest: KeyDigest, s: Subject)
    requires Inv(t, digest)
    ensures RepairCurrentRoot(t, s) == Attempt(LockSubject(t, s), Success(()))
  {
    PointerIsOpenSet(t, s);
    OpenAtMostOne(t, s);
    RepairEffect(t, s);
    SameCurrent(t, s);
  }

  lemma OpenAtMostOne(t: Tables, s: Subject)
    requires PointersExact(t)
    ensures CountOpen(t, s) <= 1
  {
    PointerIsOpenSet(t, s);
  }

  lemma SameCurrent(t: Tables, s: Subject)
    ensures (if s in t.current then t.current[s := t.current[s]] else t.current - {s}) == t.current
  {
  }

  lemma CommandKeepsInv(t: Tables, digest: KeyDigest, c: Command)
    requires Inv(t, digest)
    ensures Inv(Committed(t, digest, c), digest)
  {
    if Call(t, digest, c).outcome.Success? {
      match c
      case Enrol(terms) =>
        EnrolEffect(t, digest, terms);
        EnrolledKeepsInv(t, digest, digest(terms.publicKey).value, RowOf(terms, None), terms.descriptor);
      case Rotate(g, terms) =>
        RotateEffect(t, digest, g, terms);
        RotatedKeepsInv(t, digest, g, digest(terms.publicKey).value, RowOf(terms, Some(g)), terms.descriptor);
      case Revoke(f, a, r, at) =>
        RevokeEffect(t, f, a, r, at);
        RevokedKeepsInv(t, digest, f, Closure(REVOKED, at, a, r, None));
      case Repair(s) =>
        RepairChangesNothing(t, digest, s);
        LockRowIrrelevant(t, digest, s);
    }
  }

  lemma {:induction false} RunKeepsInv(t: Tables, digest: KeyDigest, cs: seq<Command>)
    requires Inv(t, digest)
    ensures Inv(Run(t, digest, cs), digest)
    decreases |cs|
  {
    if cs == [] {
    } else {
      CommandKeepsInv(t, digest, cs[0]);
      RunKeepsInv(Committed(t, digest, cs[0]), digest, cs[1..]);
    }
  }

  /** Every state reached from empty tables satisfies the invariant. */
  lemma ReachableInv(digest: KeyDigest, cs: seq<Command>)
    ensures Inv(Run(EMPTY, digest, cs), digest)
  {
    assert Ranks(EMPTY, map[]);
    RunKeepsInv(EMPTY, digest, cs);
  }

  /** The invariant said of the readers: on every reachable state the projection is never in drift, and a
      subject resolves to a root exactly when it has an open enrolment, otherwise to ABSENT. */
  lemma ReachableReaders(digest: KeyDigest, cs: seq<Command>, s: Subject)
    ensures var t := Run(EMPTY, digest, cs);
            && CountOpen(t, s) <= 1
            && !Reconcile(t, s).Drifted()
            && (CountOpen(t, s) == 1 <==> ResolveAdmissionRoot(t, digest, s).Success?)
            && (CountOpen(t, s) == 0 <==> ResolveCurrentRoot(t, digest, s) == Failure(ROOT_ABSENT))
  {
    ReachableInv(digest, cs);
    PointerIsOpenSet(Run(EMPTY, digest, cs), s);
  }

  // ---------------------------------------------------------------- refusals that left something behind

  /** A refused command that starts from the invariant writes nothing but a lock row, with one exception:
      enrolling a fresh fingerprint for a subject that already has a current root. */
  lemma RefusalIsClean(t: Tables, digest: KeyDigest, c: Command)
    requires Inv(t, digest) && Call(t, digest, c).outcome.Failure?
    ensures var t' := Call(t, digest, c).tables;
            || t'.(lockRows := t.lockRows) == t
            || (c.Enrol? && WellFormed(digest, c.terms) &&
                HalfEnrolAllowed(t, digest(c.terms.publicKey).value, RowOf(c.terms, None)))
  {
    match c
    case Enrol(terms) => EnrolRefusal(t, digest, terms);
    case Rotate(g, terms) => RotateRefusal(t, digest, g, terms);
    case Revoke(f, a, r, at) =>
    case Repair(s) => RepairChangesNothing(t, digest, s);
  }

  /** If that refusal is committed instead of rolled back: both open fingerprints read as disputed, the subject
      resolves to no root, and repair refuses, so nothing chooses between them. */
  lemma HalfEnrolmentContained(t: Tables, digest: KeyDigest, f: Fingerprint, row: Enrolment, d: Descriptor)
    requires Inv(t, digest) && HalfEnrolAllowed(t, f, row)
    ensures var t', s := HalfEnrolled(t, f, row, d), row.subject;
            && OpenFor(t', s) == {t.current[s], f} && f != t.current[s]
            && FingerprintStanding(t', f) == REGISTRY_DISAGREEMENT
            && FingerprintStanding(t', t.current[s]) == REGISTRY_DISAGREEMENT
            && ResolveCurrentRoot(t', digest, s) == Failure(ROOT_DISAGREEMENT)
            && RepairCurrentRoot(t', s).outcome == Failure(AMBIGUOUS_CURRENT_ROOT)
  {
    var t', s := HalfEnrolled(t, f, row, d), row.subject;
    HalfEnrolledOpen(t, digest, f, row, d);
    assert |OpenFor(t', s)| == 2;
    assert t.current[s] in OpenFor(t', s) && f in OpenFor(t', s);
    RepairEffect(t', s);
  }

  lemma HalfEnrolledOpen(t: Tables, digest: KeyDigest, f: Fingerprint, row: Enrolment, d: Descriptor)
    requires PointersExact(t) && f !in t.closures && HalfEnrolAllowed(t, f, row)
    ensures OpenFor(HalfEnrolled(t, f, row, d), row.subject) == {t.current[row.subject], f}
    ensures f != t.current[row.subject]
  {
    PointerIsOpenSet(t, row.subject);
    assert OpenFor(HalfEnrolled(t, f, row, d), row.subject) == OpenFor(t, row.subject) + {f};
  }

  /** Revoking the extra fingerprint restores the invariant, with the original root current again. */
  lemma HalfEnrolmentRecovered(t: Tables, digest: KeyDigest, f: Fingerprint, row: Enrolment, d: Descriptor,
                               a: Text, r: Option<Text>, at: Instant)
    requires Inv(t, digest) && HalfEnrolAllowed(t, f, row) && digest(row.publicKey) == Some(f)
    ensures var done := RevokeRoot(HalfEnrolled(t, f, row, d), f, a, r, at);
            && done.outcome.Success?
            && Inv(done.tables, digest)
            && done.tables.current == t.current
            && ResolveCurrentRoot(done.tables, digest, row.subject) == ResolveCurrentRoot(t, digest, row.subject)
            && ResolveCurrentRoot(t, digest, row.subject).Success?
  {
    var half := HalfEnrolled(t, f, row, d);
    RevokeEffect(half, f, a, r, at);
    assert IsOpen(half, f);
    HalfThenRevokedKeepsInv(t, digest, f, row, d, Closure(REVOKED, at, a, r, None));
    PointerIsOpenSet(t, row.subject);
    PointerIsOpenSet(Revoked(half, f, Closure(REVOKED, at, a, r, None)), row.subject);
  }

  lemma HalfThenRevokedKeepsInv(t: Tables, digest: KeyDigest, f: Fingerprint, row: Enrolment, d: Descriptor, c: Closure)
    requires Inv(t, digest) && HalfEnrolAllowed(t, f, row) && digest(row.publicKey) == Some(f)
    requires c.kind == REVOKED && c.supersededBy.None?
    ensures Inv(Revoked(HalfEnrolled(t, f, row, d), f, c), digest)
    ensures Revoked(HalfEnrolled(t, f, row, d), f, c).current == t.current
  {
    var half := HalfEnrolled(t, f, row, d);
    InsertKeepsKeys(t, digest, f, row, half);
    var u := Revoked(half, f, c);
    HalfThenRevokedKeepsPointers(t, f, row, d, c);
    InsertKeepsLinks(t, f, row, half);
    assert IsOpen(half, f);
    RevokeKeepsLinks(half, f, c, u);
    InsertKeepsIds(t, f, row, d, u);
    SameLinksKeepRanked(t, u);
  }

  lemma HalfThenRevokedKeepsPointers(t: Tables, f: Fingerprint, row: Enrolment, d: Descriptor, c: Closure)
    requires PointersExact(t) && f !in t.closures && HalfEnrolAllowed(t, f, row)
    ensures PointersExact(Revoked(HalfEnrolled(t, f, row, d), f, c))
    ensures Revoked(HalfEnrolled(t, f, row, d), f, c).current == t.current
  {
    var u := Revoked(HalfEnrolled(t, f, row, d), f, c);
    assert t.current[row.subject] != f;
    forall x | IsOpen(u, x)
      ensures Current(u, u.enrolments[x].subject) == Some(x)
    {
      assert IsOpen(t, x);
    }
  }
}
