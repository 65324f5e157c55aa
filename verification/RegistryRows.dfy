/**
 The registry row by row: which call is answered how, and which columns it writes, in terms of the tables and the
 literal values alone.
 */
module RegistryRows {
  import opened Prelude
  import opened Texts
  import opened TrustRegistry

  // ---------------------------------------------------------------- the terms of an enrolment

  /** The two custody domains, each with the one purpose its roots have. */
  ghost predicate PurposeOfDomain(domain: Text, purpose: Text) {
    || (domain == T("candidate_release_signer") && purpose == T("dotmac.foundation.candidate-artifact.v2"))
    || (domain == T("host_attester") && purpose == T("dotmac.foundation.installed-host.v2"))
  }

  ghost predicate DescriptorOk(d: Descriptor, enrolledAt: Instant) {
    Stripped(d.issuer) && Stripped(d.keyId) && enrolledAt < d.notAfter
  }

  ghost predicate BaoPath(p: Text) {
    && Stripped(p) && |p| <= 512 && |p| >= 6 && p[..6] == T("bao://")
    && forall i :: 0 <= i < |p| ==> p[i] != 0x20 && p[i] != 0x0A && p[i] != 0x0D
  }

  lemma DomainsDiffer()
    ensures T("candidate_release_signer") != T("host_attester")
    ensures T("dotmac.foundation.candidate-artifact.v2") != T("dotmac.foundation.installed-host.v2")
  {
    LiteralsDiffer("candidate_release_signer", "host_attester");
    LiteralsDiffer("dotmac.foundation.candidate-artifact.v2", "dotmac.foundation.installed-host.v2");
  }

  /** Which fault a descriptor has. */
  lemma DescriptorExact(domain: Text, d: Descriptor, enrolledAt: Instant)
    ensures DescriptorFault(domain, d, enrolledAt)
         == if !PurposeOfDomain(domain, d.purpose) then Some(PURPOSE_MISMATCH)
            else if !DescriptorOk(d, enrolledAt) then Some(MALFORMED_DESCRIPTOR)
            else None
  {
    DomainsDiffer();
    StrippedExact(d.issuer);
    StrippedExact(d.keyId);
  }

  lemma CustodyExact(p: Text)
    ensures CustodyPointerOk(p) <==> BaoPath(p)
  {
    StrippedExact(p);
    assert T("bao://") <= p <==> |p| >= 6 && p[..6] == T("bao://");
    assert forall i :: 0 <= i < |p| ==> p[i] in p;
    if BaoPath(p) {
      forall c | c in p
        ensures c !in {10, 13, 32}
      {
        var i :| 0 <= i < |p| && p[i] == c;
      }
    }
  }

  // ---------------------------------------------------------------- commands

  ghost predicate RowIdUsed(t: Tables, id: RowId) {
    id in t.descriptors || exists f :: f in t.enrolments && t.enrolments[f].id == id
  }

  /** enrol_root: the answer, whatever the tables. */
  lemma EnrolAnswer(t: Tables, digest: KeyDigest, terms: Terms)
    ensures var f := digest(terms.publicKey);
            EnrolRoot(t, digest, terms).outcome
            == if !PurposeOfDomain(terms.subject.domain, terms.descriptor.purpose) then Failure(PURPOSE_MISMATCH)
               else if !DescriptorOk(terms.descriptor, terms.at) then Failure(MALFORMED_DESCRIPTOR)
               else if f == None then Failure(MALFORMED_KEY)
               else if !BaoPath(terms.custodyPointer) then Failure(MALFORMED_CUSTODY_POINTER)
               else if f.value in t.enrolments || RowIdUsed(t, terms.id) || terms.subject in t.current
               then Failure(ALREADY_ENROLLED)
               else Success(())
  {
    DescriptorExact(terms.subject.domain, terms.descriptor, terms.at);
    CustodyExact(terms.custodyPointer);
  }

  /** enrol_root, when it succeeds: one row in each of four tables. */
  lemma EnrolRows(t: Tables, digest: KeyDigest, terms: Terms)
    requires EnrolRoot(t, digest, terms).outcome == Success(())
    ensures digest(terms.publicKey).Some?
    ensures var f := digest(terms.publicKey).value;
            EnrolRoot(t, digest, terms).tables
            == Tables(
                 enrolments := t.enrolments[f := Enrolment(
                   id := terms.id, subject := terms.subject, publicKey := terms.publicKey,
                   algorithm := terms.algorithm, custodyPointer := terms.custodyPointer, supersedes := None,
                   enrolledAt := terms.at, authority := terms.authority)],
                 closures := t.closures,
                 current := t.current[terms.subject := f],
                 descriptors := t.descriptors[terms.id := terms.descriptor],
                 lockRows := t.lockRows + {terms.subject})
  {
  }

  /** rotate_root: the answer, whatever the tables. */
  lemma RotateAnswer(t: Tables, digest: KeyDigest, g: Fingerprint, terms: Terms)
    ensures var f, s := digest(terms.publicKey), terms.subject;
            RotateRoot(t, digest, g, terms).outcome
            == if f == None then Failure(MALFORMED_KEY)
               else if f == Some(g) then Failure(SUPERSEDES_MISMATCH)
               else if !PurposeOfDomain(s.domain, terms.descriptor.purpose) then Failure(PURPOSE_MISMATCH)
               else if !DescriptorOk(terms.descriptor, terms.at) then Failure(MALFORMED_DESCRIPTOR)
               else if !BaoPath(terms.custodyPointer) then Failure(MALFORMED_CUSTODY_POINTER)
               else if s !in t.current then Failure(NO_ACTIVE_ROOT_TO_ROTATE)
               else if t.current[s] != g || g !in t.enrolments || t.enrolments[g].subject != s
               then Failure(SUPERSEDES_MISMATCH)
               else if f.value in t.enrolments || RowIdUsed(t, terms.id) || SucceededAlready(t, g)
               then Failure(LOST_ROTATION_RACE)
               else if g in t.closures && t.closures[g].kind == REVOKED then Failure(FINGERPRINT_REVOKED)
               else if g in t.closures then Failure(LOST_ROTATION_RACE)
               else Success(())
  {
    DescriptorExact(terms.subject.domain, terms.descriptor, terms.at);
    CustodyExact(terms.custodyPointer);
  }

  ghost predicate SucceededAlready(t: Tables, g: Fingerprint) {
    exists h :: h in t.enrolments && t.enrolments[h].supersedes == Some(g)
  }

  /** rotate_root, when it succeeds. */
  lemma RotateRows(t: Tables, digest: KeyDigest, g: Fingerprint, terms: Terms)
    requires RotateRoot(t, digest, g, terms).outcome == Success(())
    ensures digest(terms.publicKey).Some?
    ensures var f := digest(terms.publicKey).value;
            RotateRoot(t, digest, g, terms).tables
            == Tables(
                 enrolments := t.enrolments[f := Enrolment(
                   id := terms.id, subject := terms.subject, publicKey := terms.publicKey,
                   algorithm := terms.algorithm, custodyPointer := terms.custodyPointer, supersedes := Some(g),
                   enrolledAt := terms.at, authority := terms.authority)],
                 closures := t.closures[g := Closure(
                   kind := SUPERSEDED, closedAt := terms.at, authority := terms.authority, reason := None,
                   supersededBy := Some(f))],
                 current := t.current[terms.subject := f],
                 descriptors := t.descriptors[terms.id := terms.descriptor],
                 lockRows := t.lockRows + {terms.subject})
  {
  }

  /** revoke_root: the answer, and when it succeeds the rows. */
  lemma RevokeRows(t: Tables, f: Fingerprint, authority: Text, reason: Option<Text>, at: Instant)
    ensures var a := RevokeRoot(t, f, authority, reason, at);
            && a.outcome == (if f !in t.enrolments then Failure(UNKNOWN_FINGERPRINT)
                             else if f in t.closures && t.closures[f].kind == SUPERSEDED
                             then Failure(FINGERPRINT_SUPERSEDED)
                             else if f in t.closures then Failure(FINGERPRINT_REVOKED)
                             else Success(()))
            && (a.outcome == Success(()) ==>
                  var s := t.enrolments[f].subject;
                  a.tables == Tables(
                    enrolments := t.enrolments,
                    closures := t.closures[f := Closure(
                      kind := REVOKED, closedAt := at, authority := authority, reason := reason,
                      supersededBy := None)],
                    current := if s in t.current && t.current[s] == f then t.current - {s} else t.current,
                    descriptors := t.descriptors,
                    lockRows := t.lockRows + {s}))
  {
  }

  // ---------------------------------------------------------------- readers

  /** The fingerprint is enrolled for the subject and nothing closed it. */
  ghost predicate OpenRow(t: Tables, s: Subject, f: Fingerprint) {
    f in t.enrolments && t.enrolments[f].subject == s && f !in t.closures
  }

  ghost predicate TwoOpen(t: Tables, s: Subject) {
    exists f, g :: OpenRow(t, s, f) && OpenRow(t, s, g) && f != g
  }

  ghost predicate OneOpen(t: Tables, s: Subject, f: Fingerprint) {
    OpenRow(t, s, f) && forall g :: OpenRow(t, s, g) ==> g == f
  }

  lemma OpenRowExact(t: Tables, s: Subject)
    ensures forall f :: f in OpenFor(t, s) <==> OpenRow(t, s, f)
    ensures CountOpen(t, s) > 1 <==> TwoOpen(t, s)
    ensures forall f :: OpenFor(t, s) == {f} <==> OneOpen(t, s, f)
  {
    if CountOpen(t, s) > 1 {
      var f :| f in OpenFor(t, s);
      SingletonOf(OpenFor(t, s), f);
      var g :| g in OpenFor(t, s) && g != f;
      assert OpenRow(t, s, f) && OpenRow(t, s, g);
    }
    if f, g :| OpenRow(t, s, f) && OpenRow(t, s, g) && f != g {
      SubsetCardinality({f, g}, OpenFor(t, s));
    }
    forall f
      ensures OpenFor(t, s) == {f} <==> OneOpen(t, s, f)
    {
      if OpenFor(t, s) == {f} {
        assert f in OpenFor(t, s);
        assert forall g :: OpenRow(t, s, g) ==> g in OpenFor(t, s);
      }
      if OneOpen(t, s, f) {
        assert f in OpenFor(t, s);
        assert forall g :: g in OpenFor(t, s) ==> OpenRow(t, s, g);
      }
    }
  }

  /** resolve_admission_root: the answer, whatever the tables, column by column. */
  lemma ResolveAnswer(t: Tables, digest: KeyDigest, s: Subject)
    ensures ResolveAdmissionRoot(t, digest, s)
            == if s !in t.current then Failure(ROOT_ABSENT)
               else
                 var f := t.current[s];
                 if !OpenRow(t, s, f) then Failure(ROOT_DRIFT)
                 else if TwoOpen(t, s) then Failure(ROOT_DISAGREEMENT)
                 else
                   var e := t.enrolments[f];
                   if digest(e.publicKey) != Some(f) then Failure(ROOT_DRIFT)
                   else if e.id !in t.descriptors then Failure(ROOT_MISSING_DESCRIPTOR)
                   else Success(AdmissionRoot(
                     root := RootView(subject := s, fingerprint := f, publicKey := e.publicKey,
                                      algorithm := e.algorithm, enrolledAt := e.enrolledAt),
                     version := e.id,
                     descriptor := t.descriptors[e.id]))
  {
    OpenRowExact(t, s);
  }

  /** fingerprint_standing: the answer, whatever the tables. */
  lemma StandingAnswer(t: Tables, f: Fingerprint)
    ensures FingerprintStanding(t, f)
            == if f !in t.enrolments then ABSENT
               else if f in t.closures && t.closures[f].kind == REVOKED then FP_REVOKED
               else if f in t.closures then FP_SUPERSEDED
               else
                 var s := t.enrolments[f].subject;
                 if TwoOpen(t, s) then REGISTRY_DISAGREEMENT
                 else if s !in t.current then NOT_ACTIVE_FOR_HOST
                 else if t.current[s] != f then WRONG_HOST
                 else VALID
  {
    if f in t.enrolments {
      OpenRowExact(t, t.enrolments[f].subject);
    }
  }

  /** reconcile_current_root: no drift means that nothing is open and no current-root row is there, or that the one
      open enrolment is the one the row names. */
  lemma ReconcileAnswer(t: Tables, s: Subject)
    ensures !Reconcile(t, s).Drifted() <==>
            || (s !in t.current && forall f :: !OpenRow(t, s, f))
            || (s in t.current && OneOpen(t, s, t.current[s]))
  {
    OpenRowExact(t, s);
    if OpenFor(t, s) != {} && CountOpen(t, s) <= 1 {
      var f :| f in OpenFor(t, s);
      SingletonOf(OpenFor(t, s), f);
    }
  }

  /** repair_current_root: the answer and, when it succeeds, the rows. */
  lemma RepairRows(t: Tables, s: Subject)
    ensures var a := RepairCurrentRoot(t, s);
            && a.outcome == (if TwoOpen(t, s) then Failure(AMBIGUOUS_CURRENT_ROOT) else Success(()))
            && (a.outcome == Success(()) ==>
                  && a.tables == t.(current := a.tables.current, lockRows := t.lockRows + {s})
                  && (forall r :: r != s ==> (r in a.tables.current <==> r in t.current))
                  && (forall r :: r != s && r in t.current ==> a.tables.current[r] == t.current[r])
                  && (s in a.tables.current <==> exists f :: OpenRow(t, s, f))
                  && (s in a.tables.current ==> OneOpen(t, s, a.tables.current[s])))
  {
    OpenRowExact(t, s);
    RepairEffect(t, s);
    if OpenFor(t, s) != {} {
      var f :| f in OpenFor(t, s);
      SingletonOf(OpenFor(t, s), f);
    }
  }

  // ---------------------------------------------------------------- a command, then the reader

  /** On a subject without a root, terms that pass the checks under a new key and a new id are enrolled, and the root
      is answered with just those terms. */
  lemma EnrolledResolves(t: Tables, digest: KeyDigest, terms: Terms, f: Fingerprint)
    requires digest(terms.publicKey) == Some(f) && f !in t.enrolments && f !in t.closures && !RowIdUsed(t, terms.id)
    requires terms.subject !in t.current && forall g :: !OpenRow(t, terms.subject, g)
    requires PurposeOfDomain(terms.subject.domain, terms.descriptor.purpose)
    requires DescriptorOk(terms.descriptor, terms.at) && BaoPath(terms.custodyPointer)
    ensures EnrolRoot(t, digest, terms).outcome == Success(())
    ensures ResolveAdmissionRoot(EnrolRoot(t, digest, terms).tables, digest, terms.subject)
         == Success(AdmissionRoot(
              root := RootView(subject := terms.subject, fingerprint := f, publicKey := terms.publicKey,
                               algorithm := terms.algorithm, enrolledAt := terms.at),
              version := terms.id, descriptor := terms.descriptor))
  {
    EnrolAnswer(t, digest, terms);
    EnrolRows(t, digest, terms);
    var t' := EnrolRoot(t, digest, terms).tables;
    forall g | OpenRow(t', terms.subject, g)
      ensures g == f
    {
      assert g != f ==> OpenRow(t, terms.subject, g);
    }
    ResolveAnswer(t', digest, terms.subject);
  }

  /** A subject's current root is rotated by terms that pass the checks under a new key and a new id, and the root is
      then answered with just those terms. */
  lemma RotatedResolves(t: Tables, digest: KeyDigest, g: Fingerprint, terms: Terms, f: Fingerprint)
    requires digest(terms.publicKey) == Some(f) && f !in t.enrolments && f !in t.closures && !RowIdUsed(t, terms.id)
    requires terms.subject in t.current && t.current[terms.subject] == g && OneOpen(t, terms.subject, g)
    requires !SucceededAlready(t, g)
    requires PurposeOfDomain(terms.subject.domain, terms.descriptor.purpose)
    requires DescriptorOk(terms.descriptor, terms.at) && BaoPath(terms.custodyPointer)
    ensures RotateRoot(t, digest, g, terms).outcome == Success(())
    ensures ResolveAdmissionRoot(RotateRoot(t, digest, g, terms).tables, digest, terms.subject)
         == Success(AdmissionRoot(
              root := RootView(subject := terms.subject, fingerprint := f, publicKey := terms.publicKey,
                               algorithm := terms.algorithm, enrolledAt := terms.at),
              version := terms.id, descriptor := terms.descriptor))
    ensures FingerprintStanding(RotateRoot(t, digest, g, terms).tables, g) == FP_SUPERSEDED
  {
    RotateAnswer(t, digest, g, terms);
    RotateRows(t, digest, g, terms);
    var t' := RotateRoot(t, digest, g, terms).tables;
    forall h | OpenRow(t', terms.subject, h)
      ensures h == f
    {
      assert h != f && h != g ==> OpenRow(t, terms.subject, h);
    }
    ResolveAnswer(t', digest, terms.subject);
    StandingAnswer(t', g);
  }
}
