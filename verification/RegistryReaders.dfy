/**
 What the readers and commands guarantee on arbitrary tables, including tables no command ever produced:
 exactness of the readers, non-interference between subjects, permanence of closures, repair.
 */
module RegistryReaders {
  import opened Prelude
  import opened Texts
  import opened TrustRegistry

  // ---------------------------------------------------------------- exactness

  /** The current-root row names the only open enrolment of exactly this subject. */
  ghost predicate SoleOpen(t: Tables, s: Subject, f: Fingerprint) {
    Current(t, s) == Some(f) && OpenFor(t, s) == {f}
  }

  lemma SoleOpenExact(t: Tables, s: Subject, f: Fingerprint)
    ensures SoleOpen(t, s, f) <==>
            && Current(t, s) == Some(f) && f in t.enrolments && t.enrolments[f].subject == s
            && f !in t.closures && CountOpen(t, s) <= 1
  {
    if f in OpenFor(t, s) {
      SingletonOf(OpenFor(t, s), f);
    }
  }

  /** A root is answered exactly when the current-root row names the sole open enrolment of the subject asked for and
      the stored fingerprint is the one its key gives; the answer is that enrolment. */
  lemma ResolveExact(t: Tables, digest: KeyDigest, s: Subject)
    ensures ResolveCurrentRoot(t, digest, s).Success? <==>
            exists f :: SoleOpen(t, s, f) && digest(t.enrolments[f].publicKey) == Some(f)
    ensures ResolveCurrentRoot(t, digest, s).Success? ==>
            var v := ResolveCurrentRoot(t, digest, s).value;
            && SoleOpen(t, s, v.fingerprint)
            && v == ViewOf(v.fingerprint, t.enrolments[v.fingerprint]) && v.subject == s
  {
    forall f
      ensures SoleOpen(t, s, f) <==>
              && Current(t, s) == Some(f) && f in t.enrolments && t.enrolments[f].subject == s
              && f !in t.closures && CountOpen(t, s) <= 1
    {
      SoleOpenExact(t, s, f);
    }
    if ResolveCurrentRoot(t, digest, s).Success? {
      assert SoleOpen(t, s, t.current[s]);
    }
  }

  /** Every reader agrees with a resolved root. */
  lemma ReadersAgree(t: Tables, digest: KeyDigest, s: Subject)
    requires ResolveCurrentRoot(t, digest, s).Success?
    ensures var f := ResolveCurrentRoot(t, digest, s).value.fingerprint;
            && DeriveCurrent(t, s) == Some(f)
            && !Reconcile(t, s).Drifted()
            && FingerprintStanding(t, f) == VALID
  {
    ResolveExact(t, digest, s);
    var f := ResolveCurrentRoot(t, digest, s).value.fingerprint;
    assert OpenFor(t, s) == {f} && f in OpenFor(t, s);
    assert DeriveCurrent(t, s).value in OpenFor(t, s);
  }

  /** A fingerprint is VALID exactly when it is the sole open enrolment of its own subject. */
  lemma ValidExact(t: Tables, f: Fingerprint)
    ensures FingerprintStanding(t, f) == VALID <==>
            f in t.enrolments && SoleOpen(t, t.enrolments[f].subject, f)
  {
    if f in t.enrolments {
      SoleOpenExact(t, t.enrolments[f].subject, f);
    }
  }

  /** At most one fingerprint of a subject is ever VALID, and it is the one that resolves if its key agrees. */
  lemma AtMostOneValid(t: Tables, digest: KeyDigest, f: Fingerprint, g: Fingerprint)
    requires FingerprintStanding(t, f) == VALID && FingerprintStanding(t, g) == VALID
    requires t.enrolments[f].subject == t.enrolments[g].subject
    ensures f == g
    ensures digest(t.enrolments[f].publicKey) == Some(f) <==>
            ResolveCurrentRoot(t, digest, t.enrolments[f].subject)
              == Success(ViewOf(f, t.enrolments[f]))
  {
    ValidExact(t, f);
    ValidExact(t, g);
    ResolveExact(t, digest, t.enrolments[f].subject);
  }

  /** Which refusal a subject without a root gets. */
  lemma RefusalExact(t: Tables, digest: KeyDigest, s: Subject)
    ensures ResolveCurrentRoot(t, digest, s) == Failure(ROOT_ABSENT) <==> s !in t.current
    ensures ResolveCurrentRoot(t, digest, s) == Failure(ROOT_DISAGREEMENT) <==>
            s in t.current && t.current[s] in OpenFor(t, s) && CountOpen(t, s) > 1
    ensures ResolveCurrentRoot(t, digest, s) == Failure(ROOT_DRIFT) <==>
            s in t.current &&
            (t.current[s] !in OpenFor(t, s) ||
             (OpenFor(t, s) == {t.current[s]} && digest(t.enrolments[t.current[s]].publicKey) != Some(t.current[s])))
  {
    if s in t.current && t.current[s] in OpenFor(t, s) {
      SingletonOf(OpenFor(t, s), t.current[s]);
    }
  }

  // ---------------------------------------------------------------- non-interference

  /** Nothing outside one subject changed that a reader of another subject could see. */
  ghost predicate OnlyAbout(t: Tables, t': Tables, s: Subject) {
    && (forall r :: r != s ==> Current(t', r) == Current(t, r))
    && (forall f :: f in t.enrolments ==> f in t'.enrolments && t'.enrolments[f] == t.enrolments[f])
    && (forall f :: f in t'.enrolments && t'.enrolments[f].subject != s ==> f in t.enrolments)
    && (forall f :: f in t.enrolments && t.enrolments[f].subject != s ==> (f in t'.closures <==> f in t.closures))
    && (forall f :: f in t.closures ==> f in t'.closures && t'.closures[f] == t.closures[f])
  }

  lemma OnlyAboutReaders(t: Tables, t': Tables, s: Subject, digest: KeyDigest)
    requires OnlyAbout(t, t', s)
    ensures forall r :: r != s ==> ResolveCurrentRoot(t', digest, r) == ResolveCurrentRoot(t, digest, r)
    ensures forall f :: f in t.enrolments && t.enrolments[f].subject != s ==>
              FingerprintStanding(t', f) == FingerprintStanding(t, f)
  {
    forall r | r != s
      ensures OpenFor(t', r) == OpenFor(t, r)
    {
    }
  }

  ghost function SubjectOf(t: Tables, c: Command): Subject {
    match c
    case Enrol(terms) => terms.subject
    case Rotate(_, terms) => terms.subject
    case Revoke(f, _, _, _) => if f in t.enrolments then t.enrolments[f].subject else Subject([], [])
    case Repair(s) => s
  }

  lemma InsertOnlyAbout(t: Tables, f: Fingerprint, row: Enrolment, d: Descriptor)
    requires f !in t.enrolments
    ensures OnlyAbout(t, Enrolled(t, f, row, d), row.subject)
  {
  }

  lemma RotatedOnlyAbout(t: Tables, g: Fingerprint, f: Fingerprint, row: Enrolment, d: Descriptor)
    requires RotateAllowed(t, g, f, row)
    ensures OnlyAbout(t, Rotated(t, g, f, row, d), row.subject)
  {
  }

  lemma RevokedOnlyAbout(t: Tables, f: Fingerprint, c: Closure)
    requires f in t.enrolments && f !in t.closures
    ensures OnlyAbout(t, Revoked(t, f, c), t.enrolments[f].subject)
  {
  }

  lemma CommandOnlyAbout(t: Tables, digest: KeyDigest, c: Command)
    ensures OnlyAbout(t, Committed(t, digest, c), SubjectOf(t, c))
  {
    if Call(t, digest, c).outcome.Success? {
      match c
      case Enrol(terms) =>
        EnrolEffect(t, digest, terms);
        InsertOnlyAbout(t, digest(terms.publicKey).value, RowOf(terms, None), terms.descriptor);
      case Rotate(g, terms) =>
        RotateEffect(t, digest, g, terms);
        RotatedOnlyAbout(t, g, digest(terms.publicKey).value, RowOf(terms, Some(g)), terms.descriptor);
      case Revoke(f, a, r, at) =>
        RevokeEffect(t, f, a, r, at);
        RevokedOnlyAbout(t, f, Closure(REVOKED, at, a, r, None));
      case Repair(s) =>
        RepairEffect(t, s);
    }
  }

  /** On any tables, even with pointers corrupted across subjects, a command about one subject changes neither
      the root of any other subject nor the standing of a fingerprint enrolled under another one. */
  lemma NonInterference(t: Tables, digest: KeyDigest, c: Command)
    ensures var t', s := Committed(t, digest, c), SubjectOf(t, c);
            && (forall r :: r != s ==> ResolveCurrentRoot(t', digest, r) == ResolveCurrentRoot(t, digest, r))
            && (forall f :: f in t.enrolments && t.enrolments[f].subject != s ==>
                  FingerprintStanding(t', f) == FingerprintStanding(t, f))
  {
    CommandOnlyAbout(t, digest, c);
    OnlyAboutReaders(t, Committed(t, digest, c), SubjectOf(t, c), digest);
  }

  // ---------------------------------------------------------------- permanence

  /** The append-only tables only gain rows. */
  ghost predicate Grows(t: Tables, t': Tables) {
    && (forall f :: f in t.enrolments ==> f in t'.enrolments && t'.enrolments[f] == t.enrolments[f])
    && (forall f :: f in t.closures ==> f in t'.closures && t'.closures[f] == t.closures[f])
    && (forall id :: id in t.descriptors ==> id in t'.descriptors && t'.descriptors[id] == t.descriptors[id])
  }

  /** One transaction, the caller keeping what a refused call wrote or rolling it back as it pleases. */
  datatype Step = Step(command: Command, keepRefused: bool)

  ghost function After(t: Tables, digest: KeyDigest, step: Step): Tables {
    if step.keepRefused then Call(t, digest, step.command).tables else Committed(t, digest, step.command)
  }

  ghost function RunSteps(t: Tables, digest: KeyDigest, steps: seq<Step>): Tables
    decreases |steps|
  {
    if steps == [] then t else RunSteps(After(t, digest, steps[0]), digest, steps[1..])
  }

  lemma CallGrows(t: Tables, digest: KeyDigest, c: Command)
    ensures Grows(t, Call(t, digest, c).tables)
  {
    match c
    case Enrol(terms) => EnrolGrows(t, digest, terms);
    case Rotate(g, terms) => RotateGrows(t, digest, g, terms);
    case Revoke(f, a, r, at) => RevokeGrows(t, f, a, r, at);
    case Repair(s) => RepairGrows(t, s);
  }

  lemma EnrolGrows(t: Tables, digest: KeyDigest, terms: Terms)
    ensures Grows(t, EnrolRoot(t, digest, terms).tables)
  {
    if EnrolRoot(t, digest, terms).outcome.Success? {
      EnrolEffect(t, digest, terms);
      InsertGrows(t, digest(terms.publicKey).value, RowOf(terms, None), terms.descriptor);
    } else {
      EnrolRefusal(t, digest, terms);
      if WellFormed(digest, terms) && HalfEnrolAllowed(t, digest(terms.publicKey).value, RowOf(terms, None)) {
        InsertGrows(t, digest(terms.publicKey).value, RowOf(terms, None), terms.descriptor);
      }
    }
  }

  lemma InsertGrows(t: Tables, f: Fingerprint, row: Enrolment, d: Descriptor)
    requires InsertAllowed(t, f, row)
    ensures Grows(t, HalfEnrolled(t, f, row, d)) && Grows(t, Enrolled(t, f, row, d))
  {
  }

  lemma RotateGrows(t: Tables, digest: KeyDigest, g: Fingerprint, terms: Terms)
    ensures Grows(t, RotateRoot(t, digest, g, terms).tables)
  {
  }

  lemma RevokeGrows(t: Tables, f: Fingerprint, a: Text, r: Option<Text>, at: Instant)
    ensures Grows(t, RevokeRoot(t, f, a, r, at).tables)
  {
  }

  lemma RepairGrows(t: Tables, s: Subject)
    ensures Grows(t, RepairCurrentRoot(t, s).tables)
  {
  }

  lemma {:induction false} StepsGrow(t: Tables, digest: KeyDigest, steps: seq<Step>)
    ensures Grows(t, RunSteps(t, digest, steps))
    decreases |steps|
  {
    if steps == [] {
    } else {
      CallGrows(t, digest, steps[0].command);
      StepsGrow(After(t, digest, steps[0]), digest, steps[1..]);
    }
  }

  /** First closer wins, for good: whatever runs afterwards, rolled back or not, a closed fingerprint keeps the
      closure it got, is never VALID or current again, and is never enrolled or rotated away from again. */
  lemma ClosedForever(t: Tables, digest: KeyDigest, steps: seq<Step>, f: Fingerprint, s: Subject, c: Command)
    requires f in t.enrolments && f in t.closures
    ensures var t' := RunSteps(t, digest, steps);
            && f in t'.closures && t'.closures[f] == t.closures[f]
            && FingerprintStanding(t', f) == (if t.closures[f].kind == REVOKED then FP_REVOKED else FP_SUPERSEDED)
            && (ResolveCurrentRoot(t', digest, s).Success? ==>
                  ResolveCurrentRoot(t', digest, s).value.fingerprint != f)
            && (Call(t', digest, c).outcome.Success? ==>
                  && (c.Enrol? || c.Rotate? ==> digest(c.terms.publicKey) != Some(f))
                  && (c.Rotate? ==> c.supersedes != f)
                  && (c.Revoke? ==> c.fingerprint != f))
  {
    StepsGrow(t, digest, steps);
    if Call(RunSteps(t, digest, steps), digest, c).outcome.Success? {
      ClosedIsFinal(RunSteps(t, digest, steps), digest, f, c);
    }
  }

  lemma ClosedIsFinal(t: Tables, digest: KeyDigest, f: Fingerprint, c: Command)
    requires f in t.enrolments && f in t.closures && Call(t, digest, c).outcome.Success?
    ensures c.Enrol? || c.Rotate? ==> digest(c.terms.publicKey) != Some(f)
    ensures c.Rotate? ==> c.supersedes != f
    ensures c.Revoke? ==> c.fingerprint != f
  {
    match c
    case Enrol(terms) => EnrolEffect(t, digest, terms);
    case Rotate(g, terms) => RotateEffect(t, digest, g, terms);
    case Revoke(g, a, r, at) => RevokeEffect(t, g, a, r, at);
    case Repair(s) =>
  }

  // ---------------------------------------------------------------- repair

  /** Repair refuses exactly on ambiguity and then writes nothing but its lock row; otherwise it leaves no
      drift, repeating it changes nothing, and it touched no row but the subject's pointer and lock row. */
  lemma RepairConverges(t: Tables, s: Subject)
    ensures var a := RepairCurrentRoot(t, s);
            && (a.outcome.Failure? <==> CountOpen(t, s) > 1)
            && (a.outcome.Failure? ==> a.tables == LockSubject(t, s))
            && (a.outcome.Success? ==>
                  && !Reconcile(a.tables, s).Drifted()
                  && Reconcile(a.tables, s).expected == Reconcile(t, s).expected
                  && RepairCurrentRoot(a.tables, s) == a
                  && a.tables.(current := t.current, lockRows := t.lockRows) == t
                  && (forall r :: r != s ==> Current(a.tables, r) == Current(t, r)))
  {
    RepairEffect(t, s);
    var t' := RepairCurrentRoot(t, s).tables;
    assert OpenFor(t', s) == OpenFor(t, s);
    if CountOpen(t, s) <= 1 {
      RepairEffect(t', s);
      SameDerived(t, t', s);
      assert LockSubject(t', s) == t';
      if DeriveCurrent(t, s).Some? {
        assert t'.current[s := DeriveCurrent(t, s).value] == t'.current;
      } else {
        assert t'.current - {s} == t'.current;
      }
    }
  }

  lemma SameDerived(t: Tables, t': Tables, s: Subject)
    requires OpenFor(t', s) == OpenFor(t, s)
    ensures DeriveCurrent(t', s) == DeriveCurrent(t, s)
  {
    if DeriveCurrent(t, s).Some? {
      assert DeriveCurrent(t', s).value in OpenFor(t, s);
    }
  }
}
