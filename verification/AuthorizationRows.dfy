/**
 The V3 authorization term by term: when it is issued and with which terms, when it verifies, and which refusal comes
 first otherwise, in terms of the statement's own fields, the literals and the instants.
 */
module AuthorizationRows {
  import opened Prelude
  import opened Texts
  import opened CanonicalJson
  import opened KeyEncoding
  import opened FieldNames
  import opened Fields
  import opened Images
  import opened ImageRows
  import opened SignedStatements
  import opened StatementRows
  import opened AuthorizationV3

  // ---------------------------------------------------------------- terms

  ghost predicate TextIs(s: Terms, f: Field, t: Text) { f in s && s[f] == TextV(t) }

  ghost predicate InstantIs(s: Terms, f: Field, t: Instant) { f in s && s[f] == InstantV(t) }

  /** The key identity that a statement names. */
  lemma IdentityAnswer(s: Terms, id: Identity)
    requires TextIs(s, KeyId, id.keyId) && TextIs(s, Algorithm, id.algorithm)
    requires TextIs(s, PublicKeyFingerprint, id.fingerprint) && TextIs(s, Purpose, id.purpose)
    ensures IdentityOf(s) == id
  {
  }

  /** A decision that stands: granted, or exempt from approval. */
  ghost predicate Approved(status: Text) { status == T("granted") || status == T("approval_exempt") }

  lemma StandingAnswer(s: Terms, status: Text)
    requires TextIs(s, ApprovalDecisionStatus, status)
    ensures StandingApproval(s) <==> Approved(status)
  {
  }

  // ---------------------------------------------------------------- the subject

  ghost predicate Differ(s: Terms, subject: Terms, f: Field) { !(f in s && f in subject && s[f] == subject[f]) }

  /** Which mismatch between a statement and the subject asked for comes first. */
  ghost function FirstDifference(s: Terms, subject: Terms): Option<Refusal> {
    if Differ(s, subject, ProductCode) then Some(PRODUCT_MISMATCH)
    else if Differ(s, subject, Environment) then Some(ENVIRONMENT_MISMATCH)
    else if Differ(s, subject, TargetId) || Differ(s, subject, TargetRef) then Some(TARGET_MISMATCH)
    else if Differ(s, subject, Operation) then Some(OPERATION_MISMATCH)
    else if Differ(s, subject, ReleaseRef) then Some(RELEASE_MISMATCH)
    else if Differ(s, subject, PlanDigest) then Some(PLAN_MISMATCH)
    else if Differ(s, subject, DescriptorDigest) then Some(DESCRIPTOR_MISMATCH)
    else if Differ(s, subject, ExecutionPlanDigest) then Some(EXECUTION_PLAN_MISMATCH)
    else if Differ(s, subject, RolloutRef) then Some(ROLLOUT_MISMATCH)
    else if Differ(s, subject, ExecutionSequence) then Some(EXECUTION_SEQUENCE_MISMATCH)
    else if Differ(s, subject, ApprovalDecisionRef) || Differ(s, subject, ApprovalDecisionStatus)
    then Some(APPROVAL_MISMATCH)
    else if Differ(s, subject, AuthorizedImages) then Some(IMAGES_MISMATCH)
    else None
  }

  lemma MismatchStep(f: Field, rest: seq<Field>, s: Terms, subject: Terms)
    ensures FirstMismatch([f] + rest, s, subject)
         == if Differ(s, subject, f) then Some(MismatchOf(f)) else FirstMismatch(rest, s, subject)
  {
    assert ([f] + rest)[1..] == rest;
  }

  lemma LastTerms(s: Terms, subject: Terms)
    ensures FirstMismatch([RolloutRef, ExecutionSequence, ApprovalDecisionRef, ApprovalDecisionStatus,
                           AuthorizedImages], s, subject)
         == if Differ(s, subject, RolloutRef) then Some(ROLLOUT_MISMATCH)
            else if Differ(s, subject, ExecutionSequence) then Some(EXECUTION_SEQUENCE_MISMATCH)
            else if Differ(s, subject, ApprovalDecisionRef) || Differ(s, subject, ApprovalDecisionStatus)
            then Some(APPROVAL_MISMATCH)
            else if Differ(s, subject, AuthorizedImages) then Some(IMAGES_MISMATCH)
            else None
  {
    MismatchStep(AuthorizedImages, [], s, subject);
    MismatchStep(ApprovalDecisionStatus, [AuthorizedImages], s, subject);
    MismatchStep(ApprovalDecisionRef, [ApprovalDecisionStatus, AuthorizedImages], s, subject);
    MismatchStep(ExecutionSequence, [ApprovalDecisionRef, ApprovalDecisionStatus, AuthorizedImages], s, subject);
    MismatchStep(RolloutRef, [ExecutionSequence, ApprovalDecisionRef, ApprovalDecisionStatus, AuthorizedImages], s,
                 subject);
  }

  lemma DigestTerms(s: Terms, subject: Terms, last: seq<Field>)
    ensures FirstMismatch([ReleaseRef, PlanDigest, DescriptorDigest, ExecutionPlanDigest] + last, s, subject)
         == if Differ(s, subject, ReleaseRef) then Some(RELEASE_MISMATCH)
            else if Differ(s, subject, PlanDigest) then Some(PLAN_MISMATCH)
            else if Differ(s, subject, DescriptorDigest) then Some(DESCRIPTOR_MISMATCH)
            else if Differ(s, subject, ExecutionPlanDigest) then Some(EXECUTION_PLAN_MISMATCH)
            else FirstMismatch(last, s, subject)
  {
    MismatchStep(ExecutionPlanDigest, last, s, subject);
    MismatchStep(DescriptorDigest, [ExecutionPlanDigest] + last, s, subject);
    MismatchStep(PlanDigest, [DescriptorDigest] + ([ExecutionPlanDigest] + last), s, subject);
    MismatchStep(ReleaseRef, [PlanDigest] + ([DescriptorDigest] + ([ExecutionPlanDigest] + last)), s, subject);
    assert [ReleaseRef, PlanDigest, DescriptorDigest, ExecutionPlanDigest] + last
        == [ReleaseRef] + ([PlanDigest] + ([DescriptorDigest] + ([ExecutionPlanDigest] + last)));
  }

  lemma FirstTerms(s: Terms, subject: Terms, last: seq<Field>)
    ensures FirstMismatch([ProductCode, Environment, TargetId, TargetRef, Operation] + last, s, subject)
         == if Differ(s, subject, ProductCode) then Some(PRODUCT_MISMATCH)
            else if Differ(s, subject, Environment) then Some(ENVIRONMENT_MISMATCH)
            else if Differ(s, subject, TargetId) || Differ(s, subject, TargetRef) then Some(TARGET_MISMATCH)
            else if Differ(s, subject, Operation) then Some(OPERATION_MISMATCH)
            else FirstMismatch(last, s, subject)
  {
    MismatchStep(Operation, last, s, subject);
    MismatchStep(TargetRef, [Operation] + last, s, subject);
    MismatchStep(TargetId, [TargetRef] + ([Operation] + last), s, subject);
    MismatchStep(Environment, [TargetId] + ([TargetRef] + ([Operation] + last)), s, subject);
    MismatchStep(ProductCode, [Environment] + ([TargetId] + ([TargetRef] + ([Operation] + last))), s, subject);
    assert [ProductCode, Environment, TargetId, TargetRef, Operation] + last
        == [ProductCode] + ([Environment] + ([TargetId] + ([TargetRef] + ([Operation] + last))));
  }

  lemma SubjectAnswer(s: Terms, subject: Terms)
    ensures FirstMismatch(SUBJECT_ORDER, s, subject) == FirstDifference(s, subject)
  {
    var last := [RolloutRef, ExecutionSequence, ApprovalDecisionRef, ApprovalDecisionStatus, AuthorizedImages];
    LastTerms(s, subject);
    DigestTerms(s, subject, last);
    FirstTerms(s, subject, [ReleaseRef, PlanDigest, DescriptorDigest, ExecutionPlanDigest] + last);
    OrderInParts();
  }

  lemma OrderInParts()
    ensures SUBJECT_ORDER
         == [ProductCode, Environment, TargetId, TargetRef, Operation]
            + ([ReleaseRef, PlanDigest, DescriptorDigest, ExecutionPlanDigest]
               + [RolloutRef, ExecutionSequence, ApprovalDecisionRef, ApprovalDecisionStatus, AuthorizedImages])
  {
  }

  // ---------------------------------------------------------------- verifying

  /** The times of a V3 statement. */
  ghost predicate TimesAre(s: Terms, issued: Instant, expires: Instant, evaluated: Instant, until: Instant) {
    && InstantIs(s, IssuedAt, issued) && InstantIs(s, ExpiresAt, expires)
    && InstantIs(s, HealthEvidenceEvaluatedAt, evaluated) && InstantIs(s, HealthEvidenceValidUntil, until)
  }

  /** The verdict on a parsed envelope: the first of the checks, in this order, that fails; None when all pass. */
  lemma VerifyAnswer(env: Env, verifier: Verifier, e: Envelope, subject: Terms, tamper: Option<Bytes>, now: Instant,
                     id: Identity, issued: Instant, expires: Instant, evaluated: Instant, until: Instant, status: Text,
                     digest: Text, evidenceDigest: Text)
    requires IdentityOf(e.statement) == id && TimesAre(e.statement, issued, expires, evaluated, until)
    requires TextIs(e.statement, ApprovalDecisionStatus, status) && TextIs(e.statement, ControlPlanDigest, digest)
    requires TextIs(e.statement, HealthEvidenceDigest, evidenceDigest)
    ensures Verify(env, verifier, e, subject, tamper, now)
            == if !verifier(id, SignedBytes(env.iso, V3, e.statement), e.signature) then Some(SIGNATURE_INVALID)
               else if issued < evaluated || until < evaluated || now < evaluated then Some(EVIDENCE_FUTURE_DATED)
               else if now < issued then Some(NOT_YET_VALID)
               else if until <= now then Some(EVIDENCE_EXPIRED)
               else if expires <= now then Some(EXPIRED)
               else if !Approved(status) then Some(APPROVAL_NOT_STANDING)
               else if digest != DigestText(env.sha(PlanBytes(env, V3, e.statement)))
               then Some(CONTROL_PLAN_DIGEST_MISMATCH)
               else if tamper.Some? && evidenceDigest != DigestText(env.sha(tamper.value))
               then Some(EVIDENCE_DIGEST_MISMATCH)
               else FirstDifference(e.statement, subject)
  {
    StandingAnswer(e.statement, status);
    SubjectAnswer(e.statement, subject);
  }

  /** What is verified is approved. */
  lemma VerifiedIsApproved(env: Env, verifier: Verifier, e: Envelope, subject: Terms, tamper: Option<Bytes>,
                           now: Instant, status: Text)
    requires TextIs(e.statement, ApprovalDecisionStatus, status)
    requires Verify(env, verifier, e, subject, tamper, now) == None
    ensures Approved(status)
  {
    StandingAnswer(e.statement, status);
  }

  /** What the control plan digest is taken over: every entry of the mapping but the digest's own. */
  lemma PlanPreimage(env: Env, s: Terms)
    ensures PlanBytes(env, V3, s) == Canonical(Doc(Mapping(env.iso, V3, s) - {ControlPlanDigest}))
  {
  }

  // ---------------------------------------------------------------- issuing

  ghost predicate CodeTwice(codes: seq<Text>) { exists i, k :: 0 <= i < k < |codes| && codes[i] == codes[k] }

  lemma {:induction false} SortPermutes(codes: seq<Text>)
    ensures multiset(Sort(RosterKey, codes)) == multiset(codes)
  {
    if codes == [] {
    } else {
      SortPermutes(codes[1..]);
      InsertPermutes(codes[0], Sort(RosterKey, codes[1..]));
      assert codes == [codes[0]] + codes[1..];
    }
  }

  lemma {:induction false} InsertPermutes(x: Text, ys: seq<Text>)
    ensures multiset(Insert(RosterKey, x, ys)) == multiset(ys) + multiset{x}
  {
    if ys == [] {
    } else if LessKey(RosterKey(ys[0]), RosterKey(x)) {
      InsertPermutes(x, ys[1..]);
      assert ys == [ys[0]] + ys[1..];
    } else {
      assert [x] + ys == Insert(RosterKey, x, ys);
    }
  }

  lemma DistinctExact(codes: seq<Text>)
    ensures DistinctKeys(RosterKey, codes) <==> !CodeTwice(codes)
    ensures CodeTwice(codes) <==> exists x :: multiset(codes)[x] >= 2
  {
    assert forall i :: 0 <= i < |codes| ==> RosterKey(codes[i])[0] == codes[i];
    if x :| multiset(codes)[x] >= 2 {
      Twice(codes, x);
    }
    if CodeTwice(codes) {
      var i, k :| 0 <= i < k < |codes| && codes[i] == codes[k];
      Twice(codes, codes[i]);
    }
  }

  lemma SameCodes(a: seq<Text>, b: seq<Text>)
    requires !CodeTwice(b)
    ensures Sort(RosterKey, a) == Sort(RosterKey, b) <==> multiset(a) == multiset(b)
  {
    SortPermutes(a);
    SortPermutes(b);
    DistinctExact(a);
    DistinctExact(b);
    if multiset(a) == multiset(b) {
      SortCorrect(RosterKey, a);
      SortCorrect(RosterKey, b);
      forall z
        ensures z in Sort(RosterKey, a) <==> z in Sort(RosterKey, b)
      {
        assert z in multiset(a) <==> z in multiset(b);
      }
      IncreasingUnique(RosterKey, Sort(RosterKey, a), Sort(RosterKey, b));
    }
  }

  lemma SortedTwice(codes: seq<Text>)
    ensures DistinctKeys(RosterKey, Sort(RosterKey, codes)) <==> !CodeTwice(codes)
  {
    SortPermutes(codes);
    DistinctExact(codes);
    DistinctExact(Sort(RosterKey, codes));
  }

  /** The caller supplies one of the twelve fields that Control derives. */
  ghost predicate SuppliesDerived(fields: Inputs) {
    exists f :: f in fields && f in {
      Schema, Version, ControlVersion, KeyId, Algorithm, PublicKeyFingerprint, Purpose, HealthEvidenceDigest,
      RequiredComponentRoster, HealthEvidenceEvaluatedAt, HealthEvidenceValidUntil, ControlPlanDigest}
  }

  lemma DerivedSupplied(fields: Inputs)
    ensures SuppliesDerived(fields) <==> fields.Keys * DERIVED != {}
  {
    if f :| f in fields && f in DERIVED {
      assert f in fields.Keys * DERIVED;
    }
  }

  lemma EvidenceAnswer(evidence: Evidence, roster: seq<Text>, genuine: bool)
    ensures EvidenceFault(evidence, roster, genuine)
            == if !genuine then Some(EVIDENCE_SIGNATURE_INVALID)
               else if roster == [] || CodeTwice(roster) then Some(MALFORMED)
               else if multiset(evidence.codes) != multiset(roster) then Some(EVIDENCE_ROSTER_MISMATCH)
               else None
  {
    SortedTwice(roster);
    if !CodeTwice(roster) {
      SameCodes(evidence.codes, roster);
    }
  }

  /** What is checked before anything is read, in this order. */
  lemma IssueGuards(env: Env, fields: Inputs, evidence: Evidence, roster: seq<Text>, genuine: bool, signer: Signer)
    requires Proper(V3)
    ensures Issue(env, fields, evidence, roster, genuine, signer)
            == if !genuine then Failure(EVIDENCE_SIGNATURE_INVALID)
               else if roster == [] || CodeTwice(roster) then Failure(MALFORMED)
               else if multiset(evidence.codes) != multiset(roster) then Failure(EVIDENCE_ROSTER_MISMATCH)
               else if SuppliesDerived(fields) then Failure(MALFORMED)
               else
                 Seal(env, V3, Provisional(env, V3, fields, evidence, Sort(RosterKey, roster), signer.identity), signer)
  {
    EvidenceAnswer(evidence, roster, genuine);
    DerivedSupplied(fields);
    IssueUnfolds(env, fields, evidence, roster, genuine, signer);
  }

  lemma IssueUnfolds(env: Env, fields: Inputs, evidence: Evidence, roster: seq<Text>, genuine: bool, signer: Signer)
    requires Proper(V3)
    ensures var fault := EvidenceFault(evidence, roster, genuine);
            Issue(env, fields, evidence, roster, genuine, signer)
            == if fault.Some? then Failure(fault.value)
               else if fields.Keys * DERIVED != {} then Failure(MALFORMED)
               else
                 Seal(env, V3, Provisional(env, V3, fields, evidence, Sort(RosterKey, roster), signer.identity), signer)
  {
  }

  /** The keys that Control writes into the mapping, whatever the caller gave. */
  lemma ProvisionalBound(env: Env, fields: Inputs, evidence: Evidence, required: seq<Text>, id: Identity)
    ensures var p := Provisional(env, V3, fields, evidence, required, id);
            && ControlVersion in p && p[ControlVersion] == Plainly(Str(env.version))
            && KeyId in p && p[KeyId] == Plainly(Str(id.keyId))
            && Algorithm in p && p[Algorithm] == Plainly(Str(id.algorithm))
            && PublicKeyFingerprint in p && p[PublicKeyFingerprint] == Plainly(Str(id.fingerprint))
            && Purpose in p && p[Purpose] == Plainly(Str(id.purpose))
            && HealthEvidenceDigest in p
            && p[HealthEvidenceDigest] == Plainly(Str(DigestText(env.sha(evidence.bytes))))
            && HealthEvidenceEvaluatedAt in p
            && p[HealthEvidenceEvaluatedAt] == Plainly(Str(env.iso.write(evidence.evaluatedAt)))
            && HealthEvidenceValidUntil in p
            && p[HealthEvidenceValidUntil] == Plainly(Str(env.iso.write(evidence.validUntil)))
            && RequiredComponentRoster in p && p[RequiredComponentRoster] == Plainly(Arr(Strings(required)))
  {
    BoundTexts(env, evidence, required, id);
    BoundEntries(env, evidence, required, id);
    BoundLists(env, evidence, required, id);
    LastOf(Given(Header(V3)) + AllRendered(env.iso, fields), Bound(env, evidence, required, id));
  }

  lemma LastOf(a: Inputs, b: Inputs)
    ensures forall f :: f in b ==> f in a + b && (a + b)[f] == b[f]
    ensures forall f :: f in a && f !in b ==> f in a + b && (a + b)[f] == a[f]
    ensures (a + b).Keys == a.Keys + b.Keys
  {
  }

  /** Everything else is the header and the caller's fields, instants under the three time keys written as text. */
  lemma ProvisionalGiven(env: Env, fields: Inputs, evidence: Evidence, required: seq<Text>, id: Identity)
    requires fields.Keys * DERIVED == {}
    ensures var p := Provisional(env, V3, fields, evidence, required, id);
            && p.Keys == fields.Keys + DERIVED
            && p[Schema] == Plainly(Str(T("dotmac.deployment-authorization"))) && p[Version] == Plainly(Int(3))
            && forall f :: f in fields ==> p[f] == Rendered(env.iso, f, fields[f])
  {
    GivenHeader(V3);
    DerivedFields();
    BoundKeys(env, evidence, required, id);
    HeaderNotBound();
    GivenParts(Given(Header(V3)), AllRendered(env.iso, fields), Bound(env, evidence, required, id), DERIVED);
  }

  lemma HeaderNotBound()
    ensures BOUND_FIELDS !! {Schema, Version}
  {
  }

  lemma GivenParts(h: Inputs, g: Inputs, b: Inputs, derived: set<Field>)
    requires g.Keys * derived == {} && derived == b.Keys + h.Keys && b.Keys !! h.Keys
    ensures (h + g + b).Keys == g.Keys + derived
    ensures forall f :: f in h ==> (h + g + b)[f] == h[f]
    ensures forall f :: f in g ==> (h + g + b)[f] == g[f]
  {
    assert forall f :: f in g ==> f !in derived by {
      forall f | f in g
        ensures f !in derived
      {
        assert f in derived ==> f in g.Keys * derived;
      }
    }
    LastOf(h, g);
    LastOf(h + g, b);
  }

  lemma RenderedAnswer(iso: Iso, f: Field, i: Input)
    ensures Rendered(iso, f, i)
         == if f in {ApprovedAt, IssuedAt, ExpiresAt} && i.Moment? then Plainly(Str(iso.write(i.at))) else i
  {
  }

  /** How signing ends. */
  lemma SignAnswer(iso: Iso, form: Form, s: Terms, signer: Signer)
    ensures var signed := signer.sign(SignedBytes(iso, form, s));
            Sign(iso, form, s, signer)
            == if signed.identity != IdentityOf(s) then Failure(SIGNER_IDENTITY_MISMATCH)
               else if signed.signature == [] then Failure(UNSIGNED)
               else if !(Stripped(signed.signature) && |signed.signature| <= 16384) then Failure(MALFORMED)
               else Success(Envelope(statement := s, signature := signed.signature))
  {
    StrippedExact(signer.sign(SignedBytes(iso, form, s)).signature);
  }

  /** How the issue of a mapping that reads as a statement ends: the times, the decision, then the signature. */
  lemma SealAnswer(env: Env, provisional: Inputs, signer: Signer, first: Terms, issued: Instant, expires: Instant,
                   evaluated: Instant, until: Instant, status: Text)
    requires Proper(V3) && Parse(env.iso, V3, provisional) == Success(first)
    requires TimesAre(first, issued, expires, evaluated, until) && TextIs(first, ApprovalDecisionStatus, status)
    ensures var s := first[ControlPlanDigest := TextV(DigestText(env.sha(PlanBytes(env, V3, first))))];
            Seal(env, V3, provisional, signer)
            == if issued < evaluated || until < evaluated then Failure(EVIDENCE_FUTURE_DATED)
               else if !Approved(status) then Failure(APPROVAL_NOT_STANDING)
               else Sign(env.iso, V3, s, signer)
  {
    V3Has();
    StandingAnswer(first, status);
    SecondReading(env, V3, provisional);
    var d := DigestOfStatement(env, V3, first);
    OtherStanding(first, d);
    FinishParts(env, provisional, first, WithDigest(first, d));
  }

  lemma FinishParts(env: Env, provisional: Inputs, first: Terms, s: Terms)
    requires Proper(V3) && Parse(env.iso, V3, provisional) == Success(first)
    requires Parse(env.iso, V3, provisional[ControlPlanDigest := DigestInput(DigestOfStatement(env, V3, first))])
          == Success(s)
    ensures Finish(env, V3, provisional)
         == if !TimesOrdered(first) then Failure(EVIDENCE_FUTURE_DATED)
            else if StandingApproval(s) then Success(s) else Failure(APPROVAL_NOT_STANDING)
  {
  }

  /** A mapping that is no statement is refused for what it lacks. */
  lemma SealUnread(env: Env, provisional: Inputs, signer: Signer)
    requires Proper(V3) && Parse(env.iso, V3, provisional).Failure?
    ensures Seal(env, V3, provisional, signer) == Failure(Parse(env.iso, V3, provisional).error)
  {
  }

  lemma IssuedIsFinal(env: Env, fields: Inputs, evidence: Evidence, roster: seq<Text>, genuine: bool, signer: Signer)
    requires Proper(V3) && Issue(env, fields, evidence, roster, genuine, signer).Success?
    ensures var p := Provisional(env, V3, fields, evidence, Sort(RosterKey, roster), signer.identity);
            && Finish(env, V3, p).Success?
            && Issue(env, fields, evidence, roster, genuine, signer).value.statement == Finish(env, V3, p).value
  {
    V3Has();
    IssueSteps(env, fields, evidence, roster, genuine, signer);
    SealSteps(env, V3, Provisional(env, V3, fields, evidence, Sort(RosterKey, roster), signer.identity), signer);
  }

  lemma FinalText(env: Env, form: Form, fields: Inputs, evidence: Evidence, required: seq<Text>, id: Identity, f: Field,
                  t: Text)
    requires HasEvidence(form) && Finish(env, form, Provisional(env, form, fields, evidence, required, id)).Success?
    requires f in form.fields && f != ControlPlanDigest && KindOf(f) == TEXT
    requires f in Bound(env, evidence, required, id) && Bound(env, evidence, required, id)[f] == Plainly(Str(t))
    ensures TextIs(Finish(env, form, Provisional(env, form, fields, evidence, required, id)).value, f, t)
  {
    FinalBound(env, form, fields, evidence, required, id, f);
    ReadAnswer(env.iso, f, Plainly(Str(t)), TextV(t));
  }

  lemma FinalGiven(env: Env, form: Form, p: Inputs, f: Field, i: Input)
    requires HasEvidence(form) && Finish(env, form, p).Success? && f in form.fields && f != ControlPlanDigest
    requires f in p ==> p[f] == i
    ensures f in p && f in Finish(env, form, p).value && Reads(env.iso, i, Finish(env, form, p).value[f])
  {
    FinalTerm(env, form, p, f);
    ReadAnswer(env.iso, f, i, Finish(env, form, p).value[f]);
  }

  /** What the issued statement says under a key that Control writes as text. */
  lemma IssuedText(env: Env, fields: Inputs, evidence: Evidence, roster: seq<Text>, genuine: bool, signer: Signer,
                   f: Field, t: Text)
    requires Proper(V3) && Issue(env, fields, evidence, roster, genuine, signer).Success?
    requires f in V3.fields && f != ControlPlanDigest && KindOf(f) == TEXT
    requires var b := Bound(env, evidence, Sort(RosterKey, roster), signer.identity);
             f in b && b[f] == Plainly(Str(t))
    ensures TextIs(Issue(env, fields, evidence, roster, genuine, signer).value.statement, f, t)
  {
    V3Has();
    IssuedIsFinal(env, fields, evidence, roster, genuine, signer);
    FinalText(env, V3, fields, evidence, Sort(RosterKey, roster), signer.identity, f, t);
  }

  /** What is issued names its own version, key and purpose, and the digest of the evidence. */
  lemma IssuedTerms(env: Env, fields: Inputs, evidence: Evidence, roster: seq<Text>, genuine: bool, signer: Signer)
    requires Proper(V3) && Issue(env, fields, evidence, roster, genuine, signer).Success?
    ensures var s := Issue(env, fields, evidence, roster, genuine, signer).value.statement;
            && TextIs(s, ControlVersion, env.version) && TextIs(s, KeyId, signer.identity.keyId)
            && TextIs(s, Algorithm, signer.identity.algorithm)
            && TextIs(s, PublicKeyFingerprint, signer.identity.fingerprint)
            && TextIs(s, Purpose, signer.identity.purpose)
            && TextIs(s, HealthEvidenceDigest, DigestText(env.sha(evidence.bytes)))
  {
    var required := Sort(RosterKey, roster);
    BoundTexts(env, evidence, required, signer.identity);
    BoundEntries(env, evidence, required, signer.identity);
    IdentityFields();
    IssuedText(env, fields, evidence, roster, genuine, signer, ControlVersion, env.version);
    IssuedText(env, fields, evidence, roster, genuine, signer, KeyId, signer.identity.keyId);
    IssuedText(env, fields, evidence, roster, genuine, signer, Algorithm, signer.identity.algorithm);
    IssuedText(env, fields, evidence, roster, genuine, signer, PublicKeyFingerprint, signer.identity.fingerprint);
    IssuedText(env, fields, evidence, roster, genuine, signer, Purpose, signer.identity.purpose);
    IssuedText(env, fields, evidence, roster, genuine, signer, HealthEvidenceDigest,
               DigestText(env.sha(evidence.bytes)));
  }

  lemma IdentityFields()
    ensures {ControlVersion, KeyId, Algorithm, PublicKeyFingerprint, Purpose, HealthEvidenceDigest} <= V3.fields
    ensures forall f :: f in {ControlVersion, KeyId, Algorithm, PublicKeyFingerprint, Purpose, HealthEvidenceDigest} ==>
              KindOf(f) == TEXT && f != ControlPlanDigest
  {
    forall f | f in {ControlVersion, KeyId, Algorithm, PublicKeyFingerprint, Purpose, HealthEvidenceDigest}
      ensures KindOf(f) == TEXT
    {
      IdentityKinds(f);
    }
  }

  /** What the caller gave under any other key is what the issued statement says there. */
  lemma IssuedGiven(env: Env, fields: Inputs, evidence: Evidence, roster: seq<Text>, genuine: bool, signer: Signer,
                    f: Field)
    requires Proper(V3) && Issue(env, fields, evidence, roster, genuine, signer).Success?
    requires f in V3.fields && f !in DERIVED
    ensures var s := Issue(env, fields, evidence, roster, genuine, signer).value.statement;
            f in s && f in fields && Reads(env.iso, Rendered(env.iso, f, fields[f]), s[f])
  {
    V3Has();
    var required := Sort(RosterKey, roster);
    var p := Provisional(env, V3, fields, evidence, required, signer.identity);
    IssuedIsFinal(env, fields, evidence, roster, genuine, signer);
    IssueSteps(env, fields, evidence, roster, genuine, signer);
    ProvisionalGiven(env, fields, evidence, required, signer.identity);
    assert f in p ==> f in fields;
    if f in fields {
      FinalGiven(env, V3, p, f, Rendered(env.iso, f, fields[f]));
    } else {
      FinalGiven(env, V3, p, f, Plainly(Null));
    }
  }

  /** What is issued is approved. */
  lemma IssuedIsApproved(env: Env, fields: Inputs, evidence: Evidence, roster: seq<Text>, genuine: bool,
                         signer: Signer, status: Text)
    requires Proper(V3) && Issue(env, fields, evidence, roster, genuine, signer).Success?
    requires TextIs(Issue(env, fields, evidence, roster, genuine, signer).value.statement, ApprovalDecisionStatus,
                    status)
    ensures Approved(status)
  {
    V3Has();
    var p := Provisional(env, V3, fields, evidence, Sort(RosterKey, roster), signer.identity);
    IssueSteps(env, fields, evidence, roster, genuine, signer);
    SealSteps(env, V3, p, signer);
    FinalRederives(env, V3, p);
    StandingAnswer(Finish(env, V3, p).value, status);
  }
}
