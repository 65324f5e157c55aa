/**
 Admission and standing decided over two plain maps: the host's active fingerprint, and every fingerprint
 ever seen.  The durable registry answers the same two questions from its tables (see Refinement).
 */
module HostAttesterEnrolment {
  import opened Prelude
  import opened Texts
  import opened TrustRegistry

  datatype FingerprintStatus = ACTIVE | STATUS_SUPERSEDED | STATUS_REVOKED

  datatype FingerprintRecord = FingerprintRecord(hostId: Text, status: FingerprintStatus)

  datatype EnrolmentRefusal =
    | E_FINGERPRINT_REVOKED | E_FINGERPRINT_SUPERSEDED | E_FINGERPRINT_REUSED_ACROSS_HOSTS
    | E_FINGERPRINT_ALREADY_ENROLLED | E_SUPERSEDES_WITHOUT_ACTIVE_ENROLMENT
    | E_SUPERSEDED_FINGERPRINT_MISMATCH | E_SUPERSEDES_FINGERPRINT_UNKNOWN
    | E_SUPERSEDES_FINGERPRINT_NOT_ACTIVE | E_SUPERSEDES_FINGERPRINT_WRONG_HOST | E_HOST_ALREADY_ENROLLED

  /** The terms of a statement that admission reads; an absent superseded fingerprint means initial. */
  datatype Statement = Statement(hostId: Text, fingerprint: Fingerprint, supersedes: Option<Fingerprint>)

  type ActiveByHost = map<Text, Fingerprint>

  type Known = map<Fingerprint, FingerprintRecord>

  /** The length and alphabet of a host id: a label of lower-case letters, digits and inner hyphens. */
  predicate HostIdOk(h: Text) {
    && 1 <= |h| <= 63
    && (forall c | c in h :: 97 <= c <= 122 || 48 <= c <= 57 || c == 45)
    && h[0] != 45 && h[|h| - 1] != 45
  }

  /** _evaluate_enrolment: None when the statement may be admitted. */
  function EvaluateEnrolment(st: Statement, active: ActiveByHost, known: Known): Option<EnrolmentRefusal> {
    if st.fingerprint in known then
      var k := known[st.fingerprint];
      match k.status
      case STATUS_REVOKED => Some(E_FINGERPRINT_REVOKED)
      case STATUS_SUPERSEDED => Some(E_FINGERPRINT_SUPERSEDED)
      case ACTIVE =>
        if k.hostId != st.hostId then Some(E_FINGERPRINT_REUSED_ACROSS_HOSTS)
        else Some(E_FINGERPRINT_ALREADY_ENROLLED)
    else if st.supersedes.Some? then
      var g := st.supersedes.value;
      if st.hostId !in active then Some(E_SUPERSEDES_WITHOUT_ACTIVE_ENROLMENT)
      else if active[st.hostId] != g then Some(E_SUPERSEDED_FINGERPRINT_MISMATCH)
      else if g !in known then Some(E_SUPERSEDES_FINGERPRINT_UNKNOWN)
      else if known[g].status != ACTIVE then Some(E_SUPERSEDES_FINGERPRINT_NOT_ACTIVE)
      else if known[g].hostId != st.hostId then Some(E_SUPERSEDES_FINGERPRINT_WRONG_HOST)
      else None
    else if st.hostId in active then Some(E_HOST_ALREADY_ENROLLED)
    else None
  }

  /** _host_attester_standing. */
  function HostAttesterStanding(h: Text, f: Fingerprint, active: ActiveByHost, known: Known): Standing {
    if f !in known then ABSENT
    else
      match known[f].status
      case STATUS_REVOKED => FP_REVOKED
      case STATUS_SUPERSEDED => FP_SUPERSEDED
      case ACTIVE =>
        if known[f].hostId != h then WRONG_HOST
        else if h !in active then NOT_ACTIVE_FOR_HOST
        else if active[h] != f then REGISTRY_DISAGREEMENT
        else VALID
  }
}

/** The registry refines the pure decisions: what its tables mean as the two maps, and how the answers relate. */
module Refinement {
  import opened Prelude
  import opened Texts
  import opened TrustRegistry
  import opened RegistryInvariant
  import opened HostAttesterEnrolment

  function HostSubject(h: Text): Subject { Subject(HostDomain(), h) }

  /** The pointers of the host domain. */
  ghost function ActiveOf(t: Tables): ActiveByHost {
    map s | s in t.current && s == HostSubject(s.name) :: s.name := t.current[s]
  }

  ghost function StatusOf(t: Tables, f: Fingerprint): FingerprintStatus {
    if f !in t.closures then ACTIVE
    else if t.closures[f].kind == REVOKED then STATUS_REVOKED else STATUS_SUPERSEDED
  }

  /** Every fingerprint ever enrolled, in either domain, with what its closure says. */
  ghost function KnownOf(t: Tables): Known {
    map f | f in t.enrolments :: FingerprintRecord(t.enrolments[f].subject.name, StatusOf(t, f))
  }

  ghost function StatementOf(digest: KeyDigest, terms: Terms, supersedes: Option<Fingerprint>): Statement
    requires digest(terms.publicKey).Some?
  {
    Statement(terms.subject.name, digest(terms.publicKey).value, supersedes)
  }

  lemma ActiveIsCurrent(t: Tables, h: Text)
    ensures h in ActiveOf(t) <==> HostSubject(h) in t.current
    ensures h in ActiveOf(t) ==> ActiveOf(t)[h] == t.current[HostSubject(h)]
  {
    assert HostSubject(h) == HostSubject(HostSubject(h).name);
  }

  /** Enrolling in the host domain succeeds exactly when the pure decision raises nothing. */
  lemma EnrolRefines(t: Tables, digest: KeyDigest, terms: Terms)
    requires WellFormed(digest, terms) && terms.subject.domain == HostDomain() && !IdTaken(t, terms.id)
    ensures EnrolRoot(t, digest, terms).outcome.Success? <==>
            EvaluateEnrolment(StatementOf(digest, terms, None), ActiveOf(t), KnownOf(t)) == None
  {
    EnrolEffect(t, digest, terms);
    assert terms.subject == HostSubject(terms.subject.name);
    ActiveIsCurrent(t, terms.subject.name);
  }

  /** Rotating in the host domain succeeds exactly when the pure decision raises nothing. */
  lemma RotateRefines(t: Tables, digest: KeyDigest, g: Fingerprint, terms: Terms)
    requires LinksMatch(t) && PointersExact(t)
    requires WellFormed(digest, terms) && terms.subject.domain == HostDomain() && !IdTaken(t, terms.id)
    ensures RotateRoot(t, digest, g, terms).outcome.Success? <==>
            EvaluateEnrolment(StatementOf(digest, terms, Some(g)), ActiveOf(t), KnownOf(t)) == None
  {
    RotateEffect(t, digest, g, terms);
    RotateAllowedExact(t, g, digest(terms.publicKey).value, RowOf(terms, Some(g)));
    EvaluateRotation(t, digest, g, terms);
  }

  lemma RotateAllowedExact(t: Tables, g: Fingerprint, f: Fingerprint, row: Enrolment)
    requires LinksMatch(t) && PointersExact(t) && !IdTaken(t, row.id) && row.supersedes == Some(g)
    ensures RotateAllowed(t, g, f, row) <==> f !in t.enrolments && Current(t, row.subject) == Some(g)
  {
    if Current(t, row.subject) == Some(g) {
      assert IsOpen(t, g);
      assert forall x :: x in t.enrolments ==> t.enrolments[x].supersedes != Some(g);
    }
  }

  lemma EvaluateRotation(t: Tables, digest: KeyDigest, g: Fingerprint, terms: Terms)
    requires PointersExact(t) && digest(terms.publicKey).Some? && terms.subject.domain == HostDomain()
    ensures EvaluateEnrolment(StatementOf(digest, terms, Some(g)), ActiveOf(t), KnownOf(t)) == None <==>
              digest(terms.publicKey).value !in t.enrolments && Current(t, terms.subject) == Some(g)
  {
    assert terms.subject == HostSubject(terms.subject.name);
    ActiveIsCurrent(t, terms.subject.name);
    if Current(t, terms.subject) == Some(g) {
      assert IsOpen(t, g);
    }
  }

  /** What the pure decision answers over the maps that the tables give, row by row. */
  lemma EvaluateAnswer(t: Tables, digest: KeyDigest, terms: Terms, supersedes: Option<Fingerprint>)
    requires digest(terms.publicKey).Some?
    ensures var f, s := digest(terms.publicKey).value, Subject(T("host_attester"), terms.subject.name);
            EvaluateEnrolment(StatementOf(digest, terms, supersedes), ActiveOf(t), KnownOf(t))
            == if f in t.enrolments then
                 if f in t.closures && t.closures[f].kind == REVOKED then Some(E_FINGERPRINT_REVOKED)
                 else if f in t.closures then Some(E_FINGERPRINT_SUPERSEDED)
                 else if t.enrolments[f].subject.name != s.name then Some(E_FINGERPRINT_REUSED_ACROSS_HOSTS)
                 else Some(E_FINGERPRINT_ALREADY_ENROLLED)
               else if supersedes == None then if s in t.current then Some(E_HOST_ALREADY_ENROLLED) else None
               else if s !in t.current then Some(E_SUPERSEDES_WITHOUT_ACTIVE_ENROLMENT)
               else
                 var g := supersedes.value;
                 if t.current[s] != g then Some(E_SUPERSEDED_FINGERPRINT_MISMATCH)
                 else if g !in t.enrolments then Some(E_SUPERSEDES_FINGERPRINT_UNKNOWN)
                 else if g in t.closures then Some(E_SUPERSEDES_FINGERPRINT_NOT_ACTIVE)
                 else if t.enrolments[g].subject.name != s.name then Some(E_SUPERSEDES_FINGERPRINT_WRONG_HOST)
                 else None
  {
    ActiveIsCurrent(t, terms.subject.name);
  }

  /** What the pure standing of a fingerprint is over those maps, row by row. */
  lemma PureStandingAnswer(t: Tables, h: Text, f: Fingerprint)
    ensures var s := Subject(T("host_attester"), h);
            HostAttesterStanding(h, f, ActiveOf(t), KnownOf(t))
            == if f !in t.enrolments then ABSENT
               else if f in t.closures && t.closures[f].kind == REVOKED then FP_REVOKED
               else if f in t.closures then FP_SUPERSEDED
               else if t.enrolments[f].subject.name != h then WRONG_HOST
               else if s !in t.current then NOT_ACTIVE_FOR_HOST
               else if t.current[s] != f then REGISTRY_DISAGREEMENT
               else VALID
  {
    ActiveIsCurrent(t, h);
  }

  /** How the two standings of a host fingerprint differ on tables no command produced: the registry sees
      ambiguity the maps cannot hold, and calls a pointer that moved on WRONG_HOST. */
  lemma StandingRelation(t: Tables, f: Fingerprint)
    requires f in t.enrolments ==> t.enrolments[f].subject.domain == HostDomain()
    ensures var h := if f in t.enrolments then t.enrolments[f].subject.name else [];
            var pure := HostAttesterStanding(h, f, ActiveOf(t), KnownOf(t));
            var registry := FingerprintStanding(t, f);
            && pure != WRONG_HOST
            && (registry == VALID ==> pure == VALID)
            && (registry == WRONG_HOST ==> pure == REGISTRY_DISAGREEMENT)
            && (registry != WRONG_HOST && registry != REGISTRY_DISAGREEMENT ==> pure == registry)
            && (registry == REGISTRY_DISAGREEMENT ==> pure in {VALID, NOT_ACTIVE_FOR_HOST, REGISTRY_DISAGREEMENT})
  {
    if f in t.enrolments {
      var s := t.enrolments[f].subject;
      assert s == HostSubject(s.name);
      ActiveIsCurrent(t, s.name);
    }
  }

  /** The two standings are equal exactly for what is not open, and for an open fingerprint exactly when the subject's
      current root is another one if and only if several are open. */
  lemma StandingExact(t: Tables, f: Fingerprint)
    requires f in t.enrolments ==> t.enrolments[f].subject.domain == HostDomain()
    ensures var h := if f in t.enrolments then t.enrolments[f].subject.name else [];
            FingerprintStanding(t, f) == HostAttesterStanding(h, f, ActiveOf(t), KnownOf(t)) <==>
              (f !in t.enrolments || f in t.closures
               || var s := t.enrolments[f].subject; (s in t.current && t.current[s] != f <==> CountOpen(t, s) > 1))
  {
    if f in t.enrolments {
      var s := t.enrolments[f].subject;
      assert s == HostSubject(s.name);
      ActiveIsCurrent(t, s.name);
    }
  }

  /** One open enrolment, and a current-root row that names something else: WRONG_HOST here, REGISTRY_DISAGREEMENT
      there. */
  lemma StandingsDiffer(f: Fingerprint, other: Fingerprint, host: Text)
    requires f != other
    ensures var s := HostSubject(host);
            var row := Enrolment(0, s, [], [], [], None, 0, []);
            var t := Tables(map[f := row], map[], map[s := other], map[], {});
            FingerprintStanding(t, f) == WRONG_HOST
            && HostAttesterStanding(host, f, ActiveOf(t), KnownOf(t)) == REGISTRY_DISAGREEMENT
  {
    var s := HostSubject(host);
    var t := Tables(map[f := Enrolment(0, s, [], [], [], None, 0, [])], map[], map[s := other], map[], {});
    assert OpenFor(t, s) == {f};
    ActiveIsCurrent(t, host);
  }

  /** Two open enrolments of one subject, one of them current: REGISTRY_DISAGREEMENT here, VALID there. */
  lemma AmbiguityDiffers(f: Fingerprint, other: Fingerprint, host: Text)
    requires f != other
    ensures var s := HostSubject(host);
            var row := Enrolment(0, s, [], [], [], None, 0, []);
            var t := Tables(map[f := row, other := row], map[], map[s := f], map[], {});
            FingerprintStanding(t, f) == REGISTRY_DISAGREEMENT
            && HostAttesterStanding(host, f, ActiveOf(t), KnownOf(t)) == VALID
  {
    var s := HostSubject(host);
    var row := Enrolment(0, s, [], [], [], None, 0, []);
    var t := Tables(map[f := row, other := row], map[], map[s := f], map[], {});
    assert OpenFor(t, s) == {f, other};
    ActiveIsCurrent(t, host);
  }

  /** Under the invariant the standings are equal. */
  lemma StandingRefines(t: Tables, f: Fingerprint)
    requires PointersExact(t)
    requires f in t.enrolments ==> t.enrolments[f].subject.domain == HostDomain()
    ensures var h := if f in t.enrolments then t.enrolments[f].subject.name else [];
            FingerprintStanding(t, f) == HostAttesterStanding(h, f, ActiveOf(t), KnownOf(t))
  {
    StandingRelation(t, f);
    if f in t.enrolments && f !in t.closures {
      assert IsOpen(t, f);
      PointerIsOpenSet(t, t.enrolments[f].subject);
    }
  }

  /** On every state reached from empty tables both refinements hold. */
  lemma ReachableRefinement(digest: KeyDigest, cs: seq<Command>, t: Tables, c: Command, f: Fingerprint)
    requires t == Run(EMPTY, digest, cs)
    requires c.Enrol? || c.Rotate?
    requires WellFormed(digest, c.terms) && c.terms.subject.domain == HostDomain() && !IdTaken(t, c.terms.id)
    requires f in t.enrolments && t.enrolments[f].subject.domain == HostDomain()
    ensures Call(t, digest, c).outcome.Success? <==>
            EvaluateEnrolment(StatementOf(digest, c.terms, if c.Rotate? then Some(c.supersedes) else None),
                              ActiveOf(t), KnownOf(t)) == None
    ensures FingerprintStanding(t, f)
            == HostAttesterStanding(t.enrolments[f].subject.name, f, ActiveOf(t), KnownOf(t))
  {
    ReachableInv(digest, cs);
    StandingRefines(t, f);
    if c.Enrol? {
      EnrolRefines(t, digest, c.terms);
    } else {
      RotateRefines(t, digest, c.supersedes, c.terms);
    }
  }
}
