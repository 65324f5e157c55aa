/**
 The V3 authorization: issuance over verified health evidence, the digest that identifies the statement
 without being part of its own preimage, and verification for one subject at one instant.
 */
module AuthorizationV3 {
  import opened Prelude
  import opened Texts
  import opened CanonicalJson
  import opened CanonicalDocuments
  import opened KeyEncoding
  import opened FieldNames
  import opened Fields
  import opened Images
  import opened SignedStatements

  /** The terms an authorization is asked for. */
  const SUBJECT_FIELDS := {
    ProductCode, Environment, TargetId, TargetRef, Operation, ReleaseRef, PlanDigest, DescriptorDigest,
    ExecutionPlanDigest, RolloutRef, ExecutionSequence, ApprovalDecisionRef, ApprovalDecisionStatus, AuthorizedImages}

  const V2_FIELDS := SUBJECT_FIELDS + {
    AuthorizationId, PlanId, ApprovalPolicyCode, ApprovalPolicyVersion, ApprovedAt, IssuedAt, ExpiresAt,
    ControlVersion, KeyId, Algorithm, PublicKeyFingerprint, Purpose}

  const EVIDENCE_FIELDS := {
    HealthEvidenceDigest, RequiredComponentRoster, HealthEvidenceEvaluatedAt, HealthEvidenceValidUntil,
    ControlPlanDigest}

  const V3 := Form("dotmac.deployment-authorization", 3, "deployment_authorization", V2_FIELDS + EVIDENCE_FIELDS,
                   SCHEMA_MISMATCH)

  /** What issuing and verifying depend on. */
  datatype Env = Env(iso: Iso, sha: Bytes -> Sha, version: Text)

  /** A parsed evidence document; its reader has refused repeated component codes. */
  datatype Evidence = Evidence(
    bytes: Bytes, evaluatedAt: Instant, validUntil: Instant, codes: seq<Text>, keyId: Text, signature: Bytes)

  /** The fields that a caller cannot supply. */
  const DERIVED := {
    Schema, Version, ControlVersion, KeyId, Algorithm, PublicKeyFingerprint, Purpose, HealthEvidenceDigest,
    RequiredComponentRoster, HealthEvidenceEvaluatedAt, HealthEvidenceValidUntil, ControlPlanDigest}

  // ---------------------------------------------------------------- the control plan digest

  /** control_plan_digest_preimage: the whole mapping without the digest itself. */
  function Preimage(row: Row): Row { row - {ControlPlanDigest} }

  function PlanBytes(env: Env, form: Form, s: Terms): Bytes { Canonical(Doc(Preimage(Mapping(env.iso, form, s)))) }

  function DigestOfStatement(env: Env, form: Form, s: Terms): Sha { env.sha(PlanBytes(env, form, s)) }

  predicate Rederives(env: Env, form: Form, s: Terms) {
    TextOf(s, ControlPlanDigest) == DigestText(DigestOfStatement(env, form, s))
  }

  /** The text the digest field holds until the digest is known. */
  function Placeholder(): Sha { seq(DIGEST_BYTES, _ => 0) }

  function WithDigest(s: Terms, d: Sha): Terms { s[ControlPlanDigest := TextV(DigestText(d))] }

  // ---------------------------------------------------------------- issuing

  const TIMES := [ApprovedAt, IssuedAt, ExpiresAt]

  function Rendered(iso: Iso, f: Field, i: Input): Input {
    if f in TIMES && i.Moment? then Plainly(Str(iso.write(i.at))) else i
  }

  function AllRendered(iso: Iso, fields: Inputs): Inputs { map f | f in fields :: Rendered(iso, f, fields[f]) }

  function Bound(env: Env, evidence: Evidence, required: seq<Text>, id: Identity): Inputs {
    map[
      ControlVersion := Plainly(Str(env.version)),
      KeyId := Plainly(Str(id.keyId)),
      Algorithm := Plainly(Str(id.algorithm)),
      PublicKeyFingerprint := Plainly(Str(id.fingerprint)),
      Purpose := Plainly(Str(id.purpose)),
      HealthEvidenceDigest := Plainly(Str(DigestText(env.sha(evidence.bytes)))),
      RequiredComponentRoster := Plainly(Arr(Strings(required))),
      HealthEvidenceEvaluatedAt := Plainly(Str(env.iso.write(evidence.evaluatedAt))),
      HealthEvidenceValidUntil := Plainly(Str(env.iso.write(evidence.validUntil))),
      ControlPlanDigest := Plainly(Str(DigestText(Placeholder())))]
  }

  /** The mapping built before the digest is known. */
  function Provisional(env: Env, form: Form, fields: Inputs, evidence: Evidence, required: seq<Text>, id: Identity)
    : Inputs
  {
    Given(Header(form)) + AllRendered(env.iso, fields) + Bound(env, evidence, required, id)
  }

  predicate TimesOrdered(s: Terms) {
    && AtOf(s, HealthEvidenceEvaluatedAt) <= AtOf(s, IssuedAt)
    && AtOf(s, HealthEvidenceEvaluatedAt) <= AtOf(s, HealthEvidenceValidUntil)
  }

  /** Which refusal the evidence or the roster earns before anything is built. */
  function EvidenceFault(evidence: Evidence, roster: seq<Text>, genuine: bool): Option<Refusal> {
    if !genuine then Some(EVIDENCE_SIGNATURE_INVALID)
    else if roster == [] then Some(MALFORMED)
    else if !DistinctKeys(RosterKey, Sort(RosterKey, roster)) then Some(MALFORMED)
    else if Sort(RosterKey, evidence.codes) != Sort(RosterKey, roster) then Some(EVIDENCE_ROSTER_MISMATCH)
    else None
  }

  function DigestInput(d: Sha): Input { Plainly(Str(DigestText(d))) }

  /** What the issued statement is: read once with the placeholder, digested, read again with the digest. */
  function Finish(env: Env, form: Form, provisional: Inputs): Result<Terms, Refusal>
    requires Proper(form)
  {
    match Parse(env.iso, form, provisional)
    case Failure(e) => Failure(e)
    case Success(first) =>
      if !TimesOrdered(first) then Failure(EVIDENCE_FUTURE_DATED)
      else
        match Parse(env.iso, form, provisional[ControlPlanDigest := DigestInput(DigestOfStatement(env, form, first))])
        case Failure(e) => Failure(e)
        case Success(s) => if StandingApproval(s) then Success(s) else Failure(APPROVAL_NOT_STANDING)
  }

  function Seal(env: Env, form: Form, provisional: Inputs, signer: Signer): Result<Envelope, Refusal>
    requires Proper(form)
  {
    match Finish(env, form, provisional)
    case Failure(e) => Failure(e)
    case Success(s) => Sign(env.iso, form, s, signer)
  }

  function Issue(env: Env, fields: Inputs, evidence: Evidence, roster: seq<Text>, genuine: bool, signer: Signer)
    : Result<Envelope, Refusal>
  {
    if EvidenceFault(evidence, roster, genuine).Some? then Failure(EvidenceFault(evidence, roster, genuine).value)
    else if fields.Keys * DERIVED != {} then Failure(MALFORMED)
    else
      V3Has();
      Seal(env, V3, Provisional(env, V3, fields, evidence, Sort(RosterKey, roster), signer.identity), signer)
  }

  // ---------------------------------------------------------------- verifying

  /** The order in which the terms are compared. */
  const SUBJECT_ORDER := [
    ProductCode, Environment, TargetId, TargetRef, Operation, ReleaseRef, PlanDigest, DescriptorDigest,
    ExecutionPlanDigest, RolloutRef, ExecutionSequence, ApprovalDecisionRef, ApprovalDecisionStatus, AuthorizedImages]

  function MismatchOf(f: Field): Refusal {
    match f
    case ProductCode => PRODUCT_MISMATCH
    case Environment => ENVIRONMENT_MISMATCH
    case TargetId | TargetRef => TARGET_MISMATCH
    case Operation => OPERATION_MISMATCH
    case ReleaseRef => RELEASE_MISMATCH
    case PlanDigest => PLAN_MISMATCH
    case DescriptorDigest => DESCRIPTOR_MISMATCH
    case ExecutionPlanDigest => EXECUTION_PLAN_MISMATCH
    case RolloutRef => ROLLOUT_MISMATCH
    case ExecutionSequence => EXECUTION_SEQUENCE_MISMATCH
    case ApprovalDecisionRef | ApprovalDecisionStatus => APPROVAL_MISMATCH
    case _ => IMAGES_MISMATCH
  }

  predicate Same(s: Terms, t: Terms, f: Field) { f in s && f in t && s[f] == t[f] }

  function FirstMismatch(order: seq<Field>, s: Terms, subject: Terms): Option<Refusal> {
    if order == [] then None
    else if !Same(s, subject, order[0]) then Some(MismatchOf(order[0]))
    else FirstMismatch(order[1..], s, subject)
  }

  /** The subject the statement itself names. */
  function SubjectOf(s: Terms): Terms { map f | f in s && f in SUBJECT_FIELDS :: s[f] }

  /** What the instant of presentation earns; None inside the window. */
  function TimeFault(s: Terms, now: Instant): Option<Refusal> {
    if AtOf(s, HealthEvidenceEvaluatedAt) > now then Some(EVIDENCE_FUTURE_DATED)
    else if now < AtOf(s, IssuedAt) then Some(NOT_YET_VALID)
    else if now >= AtOf(s, HealthEvidenceValidUntil) then Some(EVIDENCE_EXPIRED)
    else if now >= AtOf(s, ExpiresAt) then Some(EXPIRED)
    else None
  }

  /** verify_authorization_envelope_v3 on a parsed envelope; None is acceptance. */
  function Verify(env: Env, verifier: Verifier, e: Envelope, subject: Terms, tamper: Option<Bytes>, now: Instant)
    : Option<Refusal>
  {
    var s := e.statement;
    if !Accepts(env.iso, V3, verifier, e) then Some(SIGNATURE_INVALID)
    else if !TimesOrdered(s) then Some(EVIDENCE_FUTURE_DATED)
    else if TimeFault(s, now).Some? then TimeFault(s, now)
    else if !StandingApproval(s) then Some(APPROVAL_NOT_STANDING)
    else if !Rederives(env, V3, s) then Some(CONTROL_PLAN_DIGEST_MISMATCH)
    else if tamper.Some? && DigestText(env.sha(tamper.value)) != TextOf(s, HealthEvidenceDigest)
    then Some(EVIDENCE_DIGEST_MISMATCH)
    else FirstMismatch(SUBJECT_ORDER, s, subject)
  }

  // ---------------------------------------------------------------- the digest re-derives

  /** The fields the lemmas below rely on; V3 has them. */
  ghost predicate HasEvidence(form: Form) {
    && Proper(form) && IssuedAt in form.fields && ExpiresAt in form.fields
    && HealthEvidenceValidUntil in form.fields && HealthEvidenceEvaluatedAt in form.fields
    && HealthEvidenceDigest in form.fields && ControlPlanDigest in form.fields
  }

  lemma V3Has()
    ensures HasEvidence(V3)
  {
  }

  /** The digest field does not reach its own preimage. */
  lemma PreimageIgnoresDigest(env: Env, form: Form, s: Terms, d: Sha)
    requires ControlPlanDigest in s
    ensures DigestOfStatement(env, form, WithDigest(s, d)) == DigestOfStatement(env, form, s)
  {
    var t := WithDigest(s, d);
    forall f | f in s && f != ControlPlanDigest
      ensures Body(env.iso, t)[f] == Body(env.iso, s)[f]
    {
    }
    PreimageOfUnion(Header(form), Body(env.iso, s), Body(env.iso, t));
  }

  lemma PreimageOfUnion(h: Row, a: Row, b: Row)
    requires a - {ControlPlanDigest} == b - {ControlPlanDigest}
    ensures Preimage(h + a) == Preimage(h + b)
  {
    forall f | f in Preimage(h + a) || f in Preimage(h + b)
      ensures f in Preimage(h + a) && f in Preimage(h + b) && Preimage(h + a)[f] == Preimage(h + b)[f]
    {
      assert f in a - {ControlPlanDigest} <==> f in b - {ControlPlanDigest};
      assert f in a ==> (a - {ControlPlanDigest})[f] == (b - {ControlPlanDigest})[f];
    }
  }

  /** The statements differ in the digest field at most. */
  ghost predicate OnlyDigest(s: Terms, t: Terms) {
    s.Keys == t.Keys && forall f :: f in s && f != ControlPlanDigest ==> t[f] == s[f]
  }

  lemma OtherLists(s: Terms, t: Terms)
    requires OnlyDigest(s, t)
    ensures ImagesOf(t) == ImagesOf(s) && RosterIn(t) == RosterIn(s)
  {
  }

  lemma OtherInstant(s: Terms, t: Terms, f: Field)
    requires OnlyDigest(s, t) && f != ControlPlanDigest
    ensures AtOf(t, f) == AtOf(s, f)
  {
  }

  lemma OtherTimes(s: Terms, t: Terms)
    requires OnlyDigest(s, t)
    ensures TimesOrdered(t) == TimesOrdered(s)
  {
    OtherInstant(s, t, HealthEvidenceEvaluatedAt);
    OtherInstant(s, t, IssuedAt);
    OtherInstant(s, t, HealthEvidenceValidUntil);
  }

  lemma TextFaultIgnores(form: Form, s: Terms, d: Sha)
    requires TextFault(form, s) == None
    ensures TextFault(form, WithDigest(s, d)) == None
  {
    BoundsIgnore(s, d);
    DigestsIgnore(s, d, OUTER_DIGESTS);
    DigestsIgnore(s, d, EVIDENCE_DIGESTS);
  }

  lemma BoundsIgnore(s: Terms, d: Sha)
    requires TextsBounded(s)
    ensures TextsBounded(WithDigest(s, d))
  {
    assert IsDigest(ControlPlanDigest);
  }

  lemma DigestsIgnore(s: Terms, d: Sha, fields: set<Field>)
    requires DigestsOk(s, fields)
    ensures DigestsOk(WithDigest(s, d), fields)
  {
    DigestSpellings(DigestText(d), d);
  }

  lemma OtherFaultIgnores(s: Terms, d: Sha)
    requires ControlPlanDigest in s && OtherFault(s) == None
    ensures OtherFault(WithDigest(s, d)) == None
  {
    var t := WithDigest(s, d);
    CountsOk(s);
    CountsIgnore(s, d);
    OtherLists(s, t);
    OtherInstant(s, t, IssuedAt);
    OtherInstant(s, t, ExpiresAt);
    OtherInstant(s, t, HealthEvidenceValidUntil);
    assert t.Keys == s.Keys;
  }

  lemma CountsOk(s: Terms)
    requires OtherFault(s) == None
    ensures CountsPositive(s)
  {
  }

  lemma CountsIgnore(s: Terms, d: Sha)
    requires CountsPositive(s)
    ensures CountsPositive(WithDigest(s, d))
  {
  }

  lemma DigestKind()
    ensures KindOf(ControlPlanDigest) == TEXT
  {
  }

  lemma FaultIgnoresDigest(form: Form, s: Terms, d: Sha)
    requires ControlPlanDigest in s && Typed(form, s) && Fault(form, s) == None
    ensures Typed(form, WithDigest(s, d)) && Fault(form, WithDigest(s, d)) == None && OnlyDigest(s, WithDigest(s, d))
  {
    TextFaultIgnores(form, s, d);
    OtherFaultIgnores(s, d);
    DigestKind();
  }

  lemma ReadsAlike(iso: Iso, fields: set<Field>, a: Inputs, b: Inputs, d: Sha)
    requires fields <= a.Keys && AllRead(iso, fields, a) && ControlPlanDigest in fields
    requires b == a[ControlPlanDigest := DigestInput(d)]
    ensures AllRead(iso, fields, b)
    ensures Values(iso, fields, b) == WithDigest(Values(iso, fields, a), d)
  {
    assert Read(iso, ControlPlanDigest, b[ControlPlanDigest]) == Success(TextV(DigestText(d)));
    assert forall f :: f in fields && f != ControlPlanDigest ==> b[f] == a[f];
  }

  lemma FieldsAgain(iso: Iso, form: Form, row: Inputs, d: Sha)
    requires Proper(form) && ControlPlanDigest in form.fields
    requires form.fields <= row.Keys && ParseFields(iso, form, row).Success?
    ensures ParseFields(iso, form, row[ControlPlanDigest := DigestInput(d)])
         == Success(WithDigest(ParseFields(iso, form, row).value, d))
  {
    ReadsAlike(iso, form.fields, row, row[ControlPlanDigest := DigestInput(d)], d);
    FaultIgnoresDigest(form, Values(iso, form.fields, row), d);
  }

  /** Reading the mapping again with another digest gives the same statement with that digest. */
  lemma ReadAgain(iso: Iso, form: Form, row: Inputs, d: Sha)
    requires Proper(form) && ControlPlanDigest in form.fields && Parse(iso, form, row).Success?
    ensures Parse(iso, form, row[ControlPlanDigest := DigestInput(d)])
         == Success(WithDigest(Parse(iso, form, row).value, d))
  {
    var again := row[ControlPlanDigest := DigestInput(d)];
    assert again.Keys == row.Keys && again[Schema] == row[Schema] && again[Version] == row[Version];
    FieldsAgain(iso, form, row, d);
  }

  /** Digesting the statement read first and reading again with that digest gives a statement it re-derives from. */
  lemma SecondReading(env: Env, form: Form, row: Inputs)
    requires HasEvidence(form) && Parse(env.iso, form, row).Success?
    ensures var first := Parse(env.iso, form, row).value;
            var d := DigestOfStatement(env, form, first);
            var s := WithDigest(first, d);
            && Parse(env.iso, form, row[ControlPlanDigest := DigestInput(d)]) == Success(s)
            && Rederives(env, form, s) && TimesOrdered(s) == TimesOrdered(first)
  {
    var first := Parse(env.iso, form, row).value;
    var d := DigestOfStatement(env, form, first);
    ReadAgain(env.iso, form, row, d);
    PreimageIgnoresDigest(env, form, first, d);
    FaultIgnoresDigest(form, first, d);
    OtherTimes(first, WithDigest(first, d));
  }

  /** The statement carries a digest that re-derives from its own final mapping. */
  lemma FinalRederives(env: Env, form: Form, provisional: Inputs)
    requires HasEvidence(form) && Finish(env, form, provisional).Success?
    ensures var s := Finish(env, form, provisional).value;
            Typed(form, s) && Fault(form, s) == None && Rederives(env, form, s) && TimesOrdered(s)
            && StandingApproval(s)
  {
    FinishSteps(env, form, provisional);
    SecondReading(env, form, provisional);
  }

  lemma FinishSteps(env: Env, form: Form, provisional: Inputs)
    requires Proper(form) && Finish(env, form, provisional).Success?
    ensures Parse(env.iso, form, provisional).Success?
    ensures var first := Parse(env.iso, form, provisional).value;
            && TimesOrdered(first)
            && Parse(env.iso, form, provisional[ControlPlanDigest := DigestInput(DigestOfStatement(env, form, first))])
               == Finish(env, form, provisional)
    ensures StandingApproval(Finish(env, form, provisional).value)
  {
  }

  // ---------------------------------------------------------------- the window

  /** The instants split at the four times of the statement, in this order. */
  lemma WindowExact(form: Form, s: Terms, now: Instant)
    requires HasEvidence(form) && Typed(form, s) && Fault(form, s) == None && TimesOrdered(s)
    ensures TimeFault(s, now) == None <==> AtOf(s, IssuedAt) <= now < AtOf(s, ExpiresAt)
    ensures TimeFault(s, now) == Some(EVIDENCE_FUTURE_DATED) <==> now < AtOf(s, HealthEvidenceEvaluatedAt)
    ensures TimeFault(s, now) == Some(NOT_YET_VALID) <==> AtOf(s, HealthEvidenceEvaluatedAt) <= now < AtOf(s, IssuedAt)
    ensures TimeFault(s, now) == Some(EXPIRED) <==> AtOf(s, ExpiresAt) <= now < AtOf(s, HealthEvidenceValidUntil)
    ensures TimeFault(s, now) == Some(EVIDENCE_EXPIRED) <==> now >= AtOf(s, HealthEvidenceValidUntil)
    ensures AtOf(s, IssuedAt) < AtOf(s, ExpiresAt) <= AtOf(s, HealthEvidenceValidUntil)
  {
    FaultFree(form, s);
  }

  lemma {:induction false} MismatchExact(order: seq<Field>, s: Terms, subject: Terms)
    ensures FirstMismatch(order, s, subject) == None <==> forall f :: f in order ==> Same(s, subject, f)
    ensures FirstMismatch(order, s, subject).Some? ==>
              exists k :: 0 <= k < |order| && FirstMismatch(order, s, subject) == Some(MismatchOf(order[k]))
                && !Same(s, subject, order[k]) && forall i :: 0 <= i < k ==> Same(s, subject, order[i])
  {
    if order == [] {
    } else {
      MismatchExact(order[1..], s, subject);
      assert order == [order[0]] + order[1..];
      if Same(s, subject, order[0]) && FirstMismatch(order[1..], s, subject).Some? {
        var k :| 0 <= k < |order[1..]| && FirstMismatch(order[1..], s, subject) == Some(MismatchOf(order[1..][k]))
                 && !Same(s, subject, order[1..][k]) && forall i :: 0 <= i < k ==> Same(s, subject, order[1..][i]);
        assert order[k + 1] == order[1..][k];
        assert forall i :: 0 < i <= k ==> order[i] == order[1..][i - 1];
      }
    }
  }

  /** Acceptance, in full: signature, times, standing, digest, evidence and every term of the subject. */
  lemma VerifyExact(env: Env, verifier: Verifier, e: Envelope, subject: Terms, tamper: Option<Bytes>, now: Instant)
    requires Typed(V3, e.statement) && Fault(V3, e.statement) == None
    ensures var s := e.statement;
            Verify(env, verifier, e, subject, tamper, now) == None <==>
              && Accepts(env.iso, V3, verifier, e) && TimesOrdered(s)
              && AtOf(s, IssuedAt) <= now < AtOf(s, ExpiresAt)
              && StandingApproval(s) && Rederives(env, V3, s)
              && (tamper.Some? ==> DigestText(env.sha(tamper.value)) == TextOf(s, HealthEvidenceDigest))
              && forall f :: f in SUBJECT_ORDER ==> Same(s, subject, f)
  {
    V3Has();
    if TimesOrdered(e.statement) {
      WindowExact(V3, e.statement, now);
    }
    MismatchExact(SUBJECT_ORDER, e.statement, subject);
  }

  lemma SubjectInForm(s: Terms)
    requires Typed(V3, s)
    ensures forall f :: f in SUBJECT_ORDER ==> Same(s, SubjectOf(s), f)
  {
    OrderCovers();
  }

  lemma OrderCovers()
    ensures forall f :: f in SUBJECT_ORDER <==> f in SUBJECT_FIELDS
  {
  }

  /** What issuing produces verifies for its own subject at exactly the instants from issue to expiry, and at any
      other instant is refused for exactly the reason the instant gives. */
  lemma IssuedVerifies(env: Env, fields: Inputs, evidence: Evidence, roster: seq<Text>, genuine: bool, signer: Signer,
                       verifier: Verifier, now: Instant)
    requires Agree(signer, verifier) && Issue(env, fields, evidence, roster, genuine, signer).Success?
    ensures var e := Issue(env, fields, evidence, roster, genuine, signer).value;
            var s := e.statement;
            && Typed(V3, s) && Fault(V3, s) == None && Rederives(env, V3, s)
            && Verify(env, verifier, e, SubjectOf(s), None, now) == TimeFault(s, now)
            && (Verify(env, verifier, e, SubjectOf(s), None, now) == None <==>
                  AtOf(s, IssuedAt) <= now < AtOf(s, ExpiresAt))
  {
    V3Has();
    IssueSteps(env, fields, evidence, roster, genuine, signer);
    var provisional := Provisional(env, V3, fields, evidence, Sort(RosterKey, roster), signer.identity);
    SealSteps(env, V3, provisional, signer);
    FinalRederives(env, V3, provisional);
    var s := Finish(env, V3, provisional).value;
    SignedIsAccepted(env.iso, V3, s, signer, verifier);
    WindowExact(V3, s, now);
    SubjectInForm(s);
    MismatchExact(SUBJECT_ORDER, s, SubjectOf(s));
  }

  // ---------------------------------------------------------------- what the statement binds

  lemma BoundLast(a: Inputs, b: Inputs, f: Field)
    requires f in b
    ensures f in a + b && (a + b)[f] == b[f]
  {
  }

  lemma FinalIs(env: Env, form: Form, provisional: Inputs)
    requires HasEvidence(form) && Finish(env, form, provisional).Success?
    ensures Parse(env.iso, form, provisional).Success?
    ensures OnlyDigest(Parse(env.iso, form, provisional).value, Finish(env, form, provisional).value)
  {
    FinishSteps(env, form, provisional);
    SecondReading(env, form, provisional);
  }

  /** Apart from the digest, the final statement holds what reading the provisional mapping gives. */
  lemma FinalTerm(env: Env, form: Form, provisional: Inputs, f: Field)
    requires HasEvidence(form) && Finish(env, form, provisional).Success?
    requires f in form.fields && f != ControlPlanDigest
    ensures f in Finish(env, form, provisional).value && f in provisional
    ensures Read(env.iso, f, provisional[f]) == Success(Finish(env, form, provisional).value[f])
  {
    FinalIs(env, form, provisional);
    ParsedTerm(env.iso, form, provisional, f);
  }

  lemma FinalBound(env: Env, form: Form, fields: Inputs, evidence: Evidence, required: seq<Text>, id: Identity,
                   f: Field)
    requires HasEvidence(form) && Finish(env, form, Provisional(env, form, fields, evidence, required, id)).Success?
    requires f in form.fields && f != ControlPlanDigest && f in Bound(env, evidence, required, id)
    ensures f in Finish(env, form, Provisional(env, form, fields, evidence, required, id)).value
    ensures Read(env.iso, f, Bound(env, evidence, required, id)[f])
         == Success(Finish(env, form, Provisional(env, form, fields, evidence, required, id)).value[f])
  {
    FinalTerm(env, form, Provisional(env, form, fields, evidence, required, id), f);
    BoundLast(Given(Header(form)) + AllRendered(env.iso, fields), Bound(env, evidence, required, id), f);
  }

  lemma BoundEntries(env: Env, evidence: Evidence, required: seq<Text>, id: Identity)
    ensures var b := Bound(env, evidence, required, id);
            && HealthEvidenceDigest in b && HealthEvidenceEvaluatedAt in b && HealthEvidenceValidUntil in b
            && b[HealthEvidenceDigest] == Plainly(Str(DigestText(env.sha(evidence.bytes))))
            && b[HealthEvidenceEvaluatedAt] == Plainly(Str(env.iso.write(evidence.evaluatedAt)))
            && b[HealthEvidenceValidUntil] == Plainly(Str(env.iso.write(evidence.validUntil)))
  {
  }

  lemma BoundEvidence(env: Env, evidence: Evidence, required: seq<Text>, id: Identity)
    requires Honest(env.iso)
    ensures var b := Bound(env, evidence, required, id);
            && HealthEvidenceDigest in b && HealthEvidenceEvaluatedAt in b && HealthEvidenceValidUntil in b
            && Read(env.iso, HealthEvidenceDigest, b[HealthEvidenceDigest])
               == Success(TextV(DigestText(env.sha(evidence.bytes))))
            && Read(env.iso, HealthEvidenceEvaluatedAt, b[HealthEvidenceEvaluatedAt])
               == Success(InstantV(evidence.evaluatedAt))
            && Read(env.iso, HealthEvidenceValidUntil, b[HealthEvidenceValidUntil])
               == Success(InstantV(evidence.validUntil))
  {
    BoundEntries(env, evidence, required, id);
    ReadDigest(env.iso, DigestText(env.sha(evidence.bytes)));
    ReadInstant(env.iso, HealthEvidenceEvaluatedAt, evidence.evaluatedAt);
    ReadInstant(env.iso, HealthEvidenceValidUntil, evidence.validUntil);
  }

  lemma ReadDigest(iso: Iso, t: Text)
    ensures Read(iso, HealthEvidenceDigest, Plainly(Str(t))) == Success(TextV(t))
  {
  }

  lemma ReadInstant(iso: Iso, f: Field, t: Instant)
    requires Honest(iso) && (f == HealthEvidenceEvaluatedAt || f == HealthEvidenceValidUntil)
    ensures Read(iso, f, Plainly(Str(iso.write(t)))) == Success(InstantV(t))
  {
    ReadBack(iso, t);
  }

  lemma FinalEvidence(env: Env, form: Form, fields: Inputs, evidence: Evidence, required: seq<Text>, id: Identity)
    requires Honest(env.iso) && HasEvidence(form)
    requires Finish(env, form, Provisional(env, form, fields, evidence, required, id)).Success?
    ensures var s := Finish(env, form, Provisional(env, form, fields, evidence, required, id)).value;
            && TextOf(s, HealthEvidenceDigest) == DigestText(env.sha(evidence.bytes))
            && AtOf(s, HealthEvidenceEvaluatedAt) == evidence.evaluatedAt
            && AtOf(s, HealthEvidenceValidUntil) == evidence.validUntil
  {
    BoundEvidence(env, evidence, required, id);
    FinalBound(env, form, fields, evidence, required, id, HealthEvidenceDigest);
    FinalBound(env, form, fields, evidence, required, id, HealthEvidenceEvaluatedAt);
    FinalBound(env, form, fields, evidence, required, id, HealthEvidenceValidUntil);
  }

  lemma SealSteps(env: Env, form: Form, provisional: Inputs, signer: Signer)
    requires Proper(form) && Seal(env, form, provisional, signer).Success?
    ensures Finish(env, form, provisional).Success?
    ensures Seal(env, form, provisional, signer) == Sign(env.iso, form, Finish(env, form, provisional).value, signer)
    ensures Seal(env, form, provisional, signer).value.statement == Finish(env, form, provisional).value
  {
    match Finish(env, form, provisional)
    case Success(s) => SignKeeps(env.iso, form, s, signer);
    case Failure(_) =>
  }

  lemma IssueSteps(env: Env, fields: Inputs, evidence: Evidence, roster: seq<Text>, genuine: bool, signer: Signer)
    requires Proper(V3) && Issue(env, fields, evidence, roster, genuine, signer).Success?
    ensures EvidenceFault(evidence, roster, genuine) == None && fields.Keys * DERIVED == {}
    ensures Issue(env, fields, evidence, roster, genuine, signer)
         == Seal(env, V3, Provisional(env, V3, fields, evidence, Sort(RosterKey, roster), signer.identity), signer)
  {
  }

  lemma RosterAgrees(evidence: Evidence, roster: seq<Text>, genuine: bool)
    requires EvidenceFault(evidence, roster, genuine) == None
    ensures genuine && forall c :: c in roster <==> c in evidence.codes
  {
    SortCorrect(RosterKey, roster);
    SortCorrect(RosterKey, evidence.codes);
  }

  /** The statement binds the evidence that was presented: its digest, its times and its exact roster. */
  lemma IssuedBinds(env: Env, fields: Inputs, evidence: Evidence, roster: seq<Text>, genuine: bool, signer: Signer)
    requires Honest(env.iso) && Issue(env, fields, evidence, roster, genuine, signer).Success?
    ensures genuine && fields.Keys * DERIVED == {} && forall c :: c in roster <==> c in evidence.codes
    ensures var s := Issue(env, fields, evidence, roster, genuine, signer).value.statement;
            && TextOf(s, HealthEvidenceDigest) == DigestText(env.sha(evidence.bytes))
            && AtOf(s, HealthEvidenceEvaluatedAt) == evidence.evaluatedAt
            && AtOf(s, HealthEvidenceValidUntil) == evidence.validUntil
  {
    V3Has();
    IssueSteps(env, fields, evidence, roster, genuine, signer);
    SealSteps(env, V3, Provisional(env, V3, fields, evidence, Sort(RosterKey, roster), signer.identity), signer);
    RosterAgrees(evidence, roster, genuine);
    FinalEvidence(env, V3, fields, evidence, Sort(RosterKey, roster), signer.identity);
  }

  // ---------------------------------------------------------------- writing and reading the issued statement

  /** Every image the caller lists has well-formed names; so do all images listed as mappings. */
  ghost predicate WellListed(i: Input) {
    ItemsOf(i).Some? ==> forall x :: x in ItemsOf(i).value && ImageOf(x).Some? ==> NamesOk(ImageOf(x).value)
  }

  lemma PlainlyListed(j: Json)
    ensures WellListed(Plainly(j))
  {
    if j.Arr? {
      forall x | x in RawAll(j.items)
        ensures ImageOf(x).Some? ==> NamesOk(ImageOf(x).value)
      {
        ReadNamesOk(x);
      }
    }
  }

  lemma ReadWellNamed(i: Input, images: seq<Image>)
    requires ReadImages(i) == Success(ImagesV(images))
    ensures (forall m :: m in images ==> NamesOk(m)) <==> WellListed(i)
  {
    var xs := ItemsOf(i).value;
    SetExact(xs);
    forall x | x in xs
      ensures ImageOf(x).Some? && ImageOf(x).value in images
    {
      var k :| 0 <= k < |xs| && xs[k] == x;
      assert Parsed(xs)[k] in Parsed(xs);
    }
    forall m | m in images
      ensures exists x :: x in xs && ImageOf(x) == Some(m)
    {
      var k :| 0 <= k < |xs| && Parsed(xs)[k] == m;
      assert xs[k] in xs;
    }
  }

  lemma ReadRosterNamed(iso: Iso, j: Json)
    ensures ReadJson(iso, ROSTER, j).Some? ==> [] !in ReadJson(iso, ROSTER, j).value.roster
  {
  }

  /** Readable comes down to the two fields that hold images and component codes. */
  lemma ReadableTwo(form: Form, s: Terms)
    requires Typed(form, s) && AuthorizedImages in form.fields && RequiredComponentRoster in form.fields
    ensures Readable(s) <==> (forall i :: i in ImagesOf(s) ==> NamesOk(i)) && [] !in RosterIn(s)
  {
    SpecialKinds(AuthorizedImages);
    SpecialKinds(RequiredComponentRoster);
    forall f | f in s && f != AuthorizedImages && f != RequiredComponentRoster
      ensures ReadableValue(s[f])
    {
      SpecialKinds(f);
    }
    assert ReadableValue(s[AuthorizedImages]) <==> forall i :: i in ImagesOf(s) ==> NamesOk(i);
    assert ReadableValue(s[RequiredComponentRoster]) <==> [] !in RosterIn(s);
  }

  lemma SpecialKinds(f: Field)
    ensures KindOf(f) == IMAGES <==> f == AuthorizedImages
    ensures KindOf(f) == ROSTER <==> f == RequiredComponentRoster
  {
  }

  lemma FinalImages(env: Env, form: Form, provisional: Inputs)
    requires HasEvidence(form) && Finish(env, form, provisional).Success?
    ensures AuthorizedImages in provisional
    ensures ReadImages(provisional[AuthorizedImages])
         == Success(ImagesV(ImagesOf(Finish(env, form, provisional).value)))
  {
    SpecialKinds(AuthorizedImages);
    FinalTerm(env, form, provisional, AuthorizedImages);
  }

  lemma FinalRoster(env: Env, form: Form, provisional: Inputs)
    requires HasEvidence(form) && RequiredComponentRoster in form.fields && Finish(env, form, provisional).Success?
    ensures [] !in RosterIn(Finish(env, form, provisional).value)
  {
    SpecialKinds(RequiredComponentRoster);
    FinalTerm(env, form, provisional, RequiredComponentRoster);
    ReadRosterNamed(env.iso, provisional[RequiredComponentRoster].json);
  }

  lemma FinalReadable(env: Env, form: Form, provisional: Inputs)
    requires HasEvidence(form) && RequiredComponentRoster in form.fields && Finish(env, form, provisional).Success?
    ensures AuthorizedImages in provisional
    ensures Readable(Finish(env, form, provisional).value) <==> WellListed(provisional[AuthorizedImages])
  {
    FinalRederives(env, form, provisional);
    FinalImages(env, form, provisional);
    FinalRoster(env, form, provisional);
    ReadWellNamed(provisional[AuthorizedImages], ImagesOf(Finish(env, form, provisional).value));
    ReadableTwo(form, Finish(env, form, provisional).value);
  }

  lemma SuppliedImages(env: Env, form: Form, fields: Inputs, evidence: Evidence, required: seq<Text>, id: Identity)
    requires AuthorizedImages in Provisional(env, form, fields, evidence, required, id)
    ensures AuthorizedImages in fields
    ensures Provisional(env, form, fields, evidence, required, id)[AuthorizedImages] == fields[AuthorizedImages]
  {
  }

  lemma RosterInV3()
    ensures RequiredComponentRoster in V3.fields
  {
  }

  /** The issued statement survives as_mapping and reading exactly when every image the caller listed has well-formed
      names, as every image listed as a mapping has. */
  lemma IssuedRoundTrip(env: Env, fields: Inputs, evidence: Evidence, roster: seq<Text>, genuine: bool, signer: Signer)
    requires Honest(env.iso) && Proper(V3) && Issue(env, fields, evidence, roster, genuine, signer).Success?
    ensures AuthorizedImages in fields
    ensures var s := Issue(env, fields, evidence, roster, genuine, signer).value.statement;
            Parse(env.iso, V3, Given(Mapping(env.iso, V3, s))) == Success(s) <==> WellListed(fields[AuthorizedImages])
    ensures fields[AuthorizedImages].Plainly? ==> WellListed(fields[AuthorizedImages])
  {
    V3Has();
    RosterInV3();
    IssueSteps(env, fields, evidence, roster, genuine, signer);
    var provisional := Provisional(env, V3, fields, evidence, Sort(RosterKey, roster), signer.identity);
    SealSteps(env, V3, provisional, signer);
    FinalRederives(env, V3, provisional);
    FinalReadable(env, V3, provisional);
    SuppliedImages(env, V3, fields, evidence, Sort(RosterKey, roster), signer.identity);
    if fields[AuthorizedImages].Plainly? {
      PlainlyListed(fields[AuthorizedImages].json);
    }
    RoundTrip(env.iso, V3, Finish(env, V3, provisional).value);
  }

  // ---------------------------------------------------------------- statements and their digests

  lemma PreimageAt(iso: Iso, form: Form, s: Terms, f: Field)
    requires f in s && f != ControlPlanDigest
    ensures f in Preimage(Mapping(iso, form, s)) && Preimage(Mapping(iso, form, s))[f] == Write(iso, s[f])
  {
    assert f in Body(iso, s);
  }

  /** Two statements with one re-derived control plan digest are one statement, if the hash tells them apart. */
  lemma PlanDigestIdentifies(env: Env, form: Form, s: Terms, t: Terms)
    requires Honest(env.iso) && ControlPlanDigest in form.fields && Typed(form, s) && Typed(form, t)
    requires PlainTerms(env.iso, s) && PlainTerms(env.iso, t)
    requires Rederives(env, form, s) && Rederives(env, form, t)
    requires TextOf(s, ControlPlanDigest) == TextOf(t, ControlPlanDigest)
    requires DigestOfStatement(env, form, s) == DigestOfStatement(env, form, t) ==>
               PlanBytes(env, form, s) == PlanBytes(env, form, t)
    ensures s == t
  {
    DigestTextInjective(DigestOfStatement(env, form, s), DigestOfStatement(env, form, t));
    MappingPlain(env.iso, form, s);
    MappingPlain(env.iso, form, t);
    DocIdentifies(Preimage(Mapping(env.iso, form, s)), Preimage(Mapping(env.iso, form, t)));
    PreimageSame(env.iso, form, s, t);
  }

  lemma PreimageSame(iso: Iso, form: Form, s: Terms, t: Terms)
    requires Honest(iso) && ControlPlanDigest in form.fields && Typed(form, s) && Typed(form, t)
    requires SameRow(Preimage(Mapping(iso, form, s)), Preimage(Mapping(iso, form, t)))
    requires TextOf(s, ControlPlanDigest) == TextOf(t, ControlPlanDigest)
    ensures s == t
  {
    DigestTermSame(form, s, t);
    forall f | f in s && f != ControlPlanDigest
      ensures s[f] == t[f]
    {
      PreimageTerm(iso, form, s, t, f);
    }
    TermsEqual(s, t);
  }

  lemma TermsEqual(s: Terms, t: Terms)
    requires s.Keys == t.Keys && forall f :: f in s ==> s[f] == t[f]
    ensures s == t
  {
  }

  lemma DigestTermSame(form: Form, s: Terms, t: Terms)
    requires ControlPlanDigest in form.fields && Typed(form, s) && Typed(form, t)
    requires TextOf(s, ControlPlanDigest) == TextOf(t, ControlPlanDigest)
    ensures s[ControlPlanDigest] == t[ControlPlanDigest]
  {
    DigestKind();
  }

  lemma PreimageTerm(iso: Iso, form: Form, s: Terms, t: Terms, f: Field)
    requires Honest(iso) && f in s && f in t && f != ControlPlanDigest && ValueKind(s[f]) == ValueKind(t[f])
    requires SameRow(Preimage(Mapping(iso, form, s)), Preimage(Mapping(iso, form, t)))
    ensures s[f] == t[f]
  {
    PreimageAt(iso, form, s, f);
    PreimageAt(iso, form, t, f);
    SameAt(Preimage(Mapping(iso, form, s)), Preimage(Mapping(iso, form, t)), f);
    WriteIdentifies(iso, s[f], t[f]);
  }

  lemma SameAt(m: Row, n: Row, f: Field)
    requires SameRow(m, n) && f in m
    ensures f in n && SameValue(m[f], n[f])
  {
  }

  // ---------------------------------------------------------------- every valid statement can be issued

  /** The caller supplies all fields that issuing does not derive, in any form that reads as the statement's value. */
  ghost predicate Supplies(iso: Iso, s: Terms, fields: Inputs) {
    && fields.Keys == s.Keys - DERIVED
    && forall f :: f in fields ==> Read(iso, f, Rendered(iso, f, fields[f])) == Success(s[f])
  }

  /** Every field as a JSON value. */
  function AsJson(iso: Iso, s: Terms): Inputs { map f | f in s && f !in DERIVED :: Plainly(Write(iso, s[f])) }

  /** Every field as a JSON value, but the images as the objects they are. */
  function AsObjects(iso: Iso, s: Terms): Inputs {
    AsJson(iso, s)[AuthorizedImages := Listing(ReadyAll(ImagesOf(s)))]
  }

  lemma JsonReads(iso: Iso, form: Form, s: Terms, f: Field)
    requires Honest(iso) && Proper(form) && Typed(form, s) && Fault(form, s) == None
    requires f in s && ReadableValue(s[f])
    ensures Read(iso, f, Rendered(iso, f, Plainly(Write(iso, s[f])))) == Success(s[f])
  {
    WrittenReads(iso, form, s, f);
  }

  lemma JsonSupplies(iso: Iso, form: Form, s: Terms)
    requires Honest(iso) && Proper(form) && Typed(form, s) && Fault(form, s) == None && Readable(s)
    ensures Supplies(iso, s, AsJson(iso, s))
  {
    forall f | f in AsJson(iso, s)
      ensures Read(iso, f, Rendered(iso, f, AsJson(iso, s)[f])) == Success(s[f])
    {
      JsonReads(iso, form, s, f);
    }
  }

  lemma ImagesSupplied()
    ensures AuthorizedImages !in DERIVED && AuthorizedImages !in TIMES && RequiredComponentRoster in DERIVED
  {
  }

  lemma ObjectsRead(iso: Iso, form: Form, s: Terms)
    requires Proper(form) && Typed(form, s) && Fault(form, s) == None
    ensures Read(iso, AuthorizedImages, Rendered(iso, AuthorizedImages, Listing(ReadyAll(ImagesOf(s)))))
         == Success(s[AuthorizedImages])
  {
    FreeImages(s);
    ImagesTerm(form, s);
    ListingRendered(iso, ReadyAll(ImagesOf(s)));
    ReadyRead(iso, ImagesOf(s));
  }

  lemma ImagesTerm(form: Form, s: Terms)
    requires Proper(form) && Typed(form, s)
    ensures s[AuthorizedImages] == ImagesV(ImagesOf(s))
  {
    ImagesKind();
  }

  lemma ListingRendered(iso: Iso, items: seq<Item>)
    ensures Rendered(iso, AuthorizedImages, Listing(items)) == Listing(items)
  {
  }

  lemma ReadyRead(iso: Iso, images: seq<Image>)
    requires CanonicalImages(images)
    ensures Read(iso, AuthorizedImages, Listing(ReadyAll(images))) == Success(ImagesV(images))
  {
    ImagesKind();
    CanonicalExact(images);
  }

  lemma OtherReadable(form: Form, s: Terms, f: Field)
    requires Typed(form, s) && f in s && f != AuthorizedImages
    requires f == RequiredComponentRoster ==> [] !in RosterIn(s)
    ensures ReadableValue(s[f])
  {
    SpecialKinds(f);
  }

  lemma ObjectsSupply(iso: Iso, form: Form, s: Terms)
    requires Honest(iso) && Proper(form) && Typed(form, s) && Fault(form, s) == None
    ensures Supplies(iso, s, AsObjects(iso, s))
  {
    ImagesSupplied();
    assert AuthorizedImages in s;
    forall f | f in AsObjects(iso, s)
      ensures Read(iso, f, Rendered(iso, f, AsObjects(iso, s)[f])) == Success(s[f])
    {
      if f == AuthorizedImages {
        ObjectsRead(iso, form, s);
      } else {
        OtherReadable(form, s, f);
        JsonReads(iso, form, s, f);
      }
    }
  }

  /** The statement names this evidence, this signer and this version. */
  ghost predicate Names(env: Env, s: Terms, evidence: Evidence, id: Identity) {
    && TextOf(s, ControlVersion) == env.version && IdentityOf(s) == id
    && TextOf(s, HealthEvidenceDigest) == DigestText(env.sha(evidence.bytes))
    && AtOf(s, HealthEvidenceEvaluatedAt) == evidence.evaluatedAt
    && AtOf(s, HealthEvidenceValidUntil) == evidence.validUntil
    && Sort(RosterKey, evidence.codes) == RosterIn(s)
  }

  lemma TextEntry(s: Terms, f: Field)
    requires f in s && ValueKind(s[f]) == TEXT
    ensures s[f] == TextV(TextOf(s, f))
  {
  }

  lemma BoundTexts(env: Env, evidence: Evidence, required: seq<Text>, id: Identity)
    ensures var b := Bound(env, evidence, required, id);
            && ControlVersion in b && b[ControlVersion] == Plainly(Str(env.version))
            && KeyId in b && b[KeyId] == Plainly(Str(id.keyId))
            && Algorithm in b && b[Algorithm] == Plainly(Str(id.algorithm))
            && PublicKeyFingerprint in b && b[PublicKeyFingerprint] == Plainly(Str(id.fingerprint))
            && Purpose in b && b[Purpose] == Plainly(Str(id.purpose))
  {
  }

  lemma BoundLists(env: Env, evidence: Evidence, required: seq<Text>, id: Identity)
    ensures var b := Bound(env, evidence, required, id);
            && ControlPlanDigest in b && b[ControlPlanDigest] == DigestInput(Placeholder())
            && RequiredComponentRoster in b && b[RequiredComponentRoster] == Plainly(Arr(Strings(required)))
  {
  }

  lemma IdentityKinds(f: Field)
    requires f in {ControlVersion, KeyId, Algorithm, PublicKeyFingerprint, Purpose, HealthEvidenceDigest}
    ensures KindOf(f) == TEXT
  {
  }

  lemma EvidenceKinds(f: Field)
    requires f in {HealthEvidenceEvaluatedAt, HealthEvidenceValidUntil}
    ensures KindOf(f) == INSTANT
  {
  }

  const BOUND_FIELDS := {
    ControlVersion, KeyId, Algorithm, PublicKeyFingerprint, Purpose, HealthEvidenceDigest, RequiredComponentRoster,
    HealthEvidenceEvaluatedAt, HealthEvidenceValidUntil, ControlPlanDigest}

  /** The derived part of the provisional mapping is the statement's own, the digest being the placeholder. */
  lemma BoundHolds(env: Env, s: Terms, evidence: Evidence, id: Identity, f: Field)
    requires Names(env, s, evidence, id) && f in BOUND_FIELDS && f in s && ValueKind(s[f]) == KindOf(f)
    requires f == ControlPlanDigest ==> s[f] == TextV(DigestText(Placeholder()))
    ensures var b := Bound(env, evidence, RosterIn(s), id);
            f in b && b[f] == Plainly(Write(env.iso, s[f]))
  {
    if f in {ControlVersion, KeyId, Algorithm, PublicKeyFingerprint, Purpose} {
      BoundTextHolds(env, s, evidence, id, f);
    } else if f == ControlPlanDigest || f == RequiredComponentRoster {
      BoundListHolds(env, s, evidence, id, f);
    } else {
      BoundEvidenceHolds(env, s, evidence, id, f);
    }
  }

  lemma BoundListHolds(env: Env, s: Terms, evidence: Evidence, id: Identity, f: Field)
    requires f == ControlPlanDigest || f == RequiredComponentRoster
    requires f in s && ValueKind(s[f]) == KindOf(f)
    requires f == ControlPlanDigest ==> s[f] == TextV(DigestText(Placeholder()))
    ensures var b := Bound(env, evidence, RosterIn(s), id); f in b && b[f] == Plainly(Write(env.iso, s[f]))
  {
    BoundLists(env, evidence, RosterIn(s), id);
    SpecialKinds(f);
  }

  lemma BoundTextHolds(env: Env, s: Terms, evidence: Evidence, id: Identity, f: Field)
    requires Names(env, s, evidence, id) && f in {ControlVersion, KeyId, Algorithm, PublicKeyFingerprint, Purpose}
    requires f in s && ValueKind(s[f]) == KindOf(f)
    ensures var b := Bound(env, evidence, RosterIn(s), id); f in b && b[f] == Plainly(Write(env.iso, s[f]))
  {
    BoundTexts(env, evidence, RosterIn(s), id);
    IdentityKinds(f);
    TextEntry(s, f);
  }

  lemma BoundEvidenceHolds(env: Env, s: Terms, evidence: Evidence, id: Identity, f: Field)
    requires Names(env, s, evidence, id) && f in s && ValueKind(s[f]) == KindOf(f)
    requires f in {HealthEvidenceDigest, HealthEvidenceEvaluatedAt, HealthEvidenceValidUntil}
    ensures var b := Bound(env, evidence, RosterIn(s), id); f in b && b[f] == Plainly(Write(env.iso, s[f]))
  {
    BoundEntries(env, evidence, RosterIn(s), id);
    if f == HealthEvidenceDigest {
      IdentityKinds(f);
      TextEntry(s, f);
    } else {
      EvidenceKinds(f);
    }
  }

  lemma BoundKeys(env: Env, evidence: Evidence, required: seq<Text>, id: Identity)
    ensures Bound(env, evidence, required, id).Keys == BOUND_FIELDS
  {
  }

  lemma DerivedFields()
    ensures DERIVED == BOUND_FIELDS + {Schema, Version}
  {
  }

  lemma V3Bound()
    ensures BOUND_FIELDS <= V3.fields
  {
  }

  lemma UnionKeys(h: Inputs, c: Inputs, b: Inputs, fields: set<Field>)
    requires h.Keys == {Schema, Version} && c.Keys == fields - BOUND_FIELDS - {Schema, Version}
    requires b.Keys == BOUND_FIELDS
    requires BOUND_FIELDS <= fields && Schema !in fields && Version !in fields
    ensures (h + c + b).Keys == fields + {Schema, Version}
    ensures forall f :: f in fields && f !in BOUND_FIELDS ==> f in c && (h + c + b)[f] == c[f]
    ensures forall f :: f in BOUND_FIELDS ==> (h + c + b)[f] == b[f]
    ensures (h + c + b)[Schema] == h[Schema] && (h + c + b)[Version] == h[Version]
  {
  }

  lemma SuppliedKeys(iso: Iso, s: Terms, fields: Inputs)
    requires Supplies(iso, s, fields)
    ensures AllRendered(iso, fields).Keys == s.Keys - BOUND_FIELDS - {Schema, Version}
  {
    DerivedFields();
  }

  lemma BoundReads(env: Env, form: Form, s: Terms, evidence: Evidence, id: Identity, f: Field)
    requires Honest(env.iso) && Proper(form) && Typed(form, s) && Fault(form, s) == None && [] !in RosterIn(s)
    requires Names(env, s, evidence, id) && f in BOUND_FIELDS && f in s
    requires f == ControlPlanDigest ==> s[f] == TextV(DigestText(Placeholder()))
    ensures var b := Bound(env, evidence, RosterIn(s), id);
            f in b && Read(env.iso, f, b[f]) == Success(s[f])
  {
    BoundHolds(env, s, evidence, id, f);
    BoundNotImages(f);
    OtherReadable(form, s, f);
    WrittenReads(env.iso, form, s, f);
  }

  lemma WrittenReads(iso: Iso, form: Form, s: Terms, f: Field)
    requires Honest(iso) && Proper(form) && Typed(form, s) && Fault(form, s) == None
    requires f in s && ReadableValue(s[f])
    ensures Read(iso, f, Plainly(Write(iso, s[f]))) == Success(s[f])
  {
    FreeTerm(form, s, f);
    ReadWritten(iso, f, s[f]);
  }

  lemma BoundNotImages(f: Field)
    requires f in BOUND_FIELDS
    ensures f != AuthorizedImages
  {
  }

  /** The provisional mapping of what a caller supplies reads as the statement. */
  lemma ProvisionalReads(env: Env, form: Form, s: Terms, fields: Inputs, evidence: Evidence, id: Identity)
    requires Honest(env.iso) && Proper(form) && Typed(form, s) && Fault(form, s) == None && [] !in RosterIn(s)
    requires BOUND_FIELDS <= form.fields && Names(env, s, evidence, id) && Supplies(env.iso, s, fields)
    requires s[ControlPlanDigest] == TextV(DigestText(Placeholder()))
    ensures var row := Provisional(env, form, fields, evidence, RosterIn(s), id);
            && row.Keys == form.fields + {Schema, Version}
            && row[Schema] == Plainly(Str(T(form.schema))) && row[Version] == Plainly(Int(form.version))
            && ReadsAs(env.iso, row, s)
  {
    SuppliedKeys(env.iso, s, fields);
    BoundKeys(env, evidence, RosterIn(s), id);
    forall f | f in BOUND_FIELDS
      ensures Read(env.iso, f, Bound(env, evidence, RosterIn(s), id)[f]) == Success(s[f])
    {
      BoundReads(env, form, s, evidence, id, f);
    }
    GivenHeader(form);
    JoinedReads(env.iso, form.fields, s, Given(Header(form)), AllRendered(env.iso, fields),
                Bound(env, evidence, RosterIn(s), id));
  }

  lemma JoinedReads(iso: Iso, fields: set<Field>, s: Terms, h: Inputs, c: Inputs, b: Inputs)
    requires s.Keys == fields && BOUND_FIELDS <= fields && Schema !in fields && Version !in fields
    requires h.Keys == {Schema, Version} && c.Keys == s.Keys - BOUND_FIELDS - {Schema, Version}
    requires b.Keys == BOUND_FIELDS
    requires forall f :: f in c ==> Read(iso, f, c[f]) == Success(s[f])
    requires forall f :: f in b ==> Read(iso, f, b[f]) == Success(s[f])
    ensures (h + c + b).Keys == fields + {Schema, Version}
    ensures (h + c + b)[Schema] == h[Schema] && (h + c + b)[Version] == h[Version]
    ensures ReadsAs(iso, h + c + b, s)
  {
    UnionKeys(h, c, b, fields);
    forall f | f in s
      ensures Read(iso, f, (h + c + b)[f]) == Success(s[f])
    {
      if f !in BOUND_FIELDS {
        assert f in c;
      }
    }
  }

  lemma GivenHeader(form: Form)
    ensures var h := Given(Header(form));
            && h.Keys == {Schema, Version}
            && h[Schema] == Plainly(Str(T(form.schema))) && h[Version] == Plainly(Int(form.version))
  {
    HeaderEntries(form);
  }

  /** The signer answers with its own identity and a usable signature. */
  ghost predicate Signs(signer: Signer) {
    forall b :: signer.sign(b).identity == signer.identity && BoundedText(signer.sign(b).signature, MAX_SIGNATURE)
  }

  lemma FinishCompletes(env: Env, form: Form, provisional: Inputs, first: Terms)
    requires HasEvidence(form) && Parse(env.iso, form, provisional) == Success(first)
    requires TimesOrdered(first) && StandingApproval(first)
    ensures Finish(env, form, provisional) == Success(WithDigest(first, DigestOfStatement(env, form, first)))
  {
    var d := DigestOfStatement(env, form, first);
    SecondReading(env, form, provisional);
    OtherStanding(first, d);
    FinishUnfolds(env, form, provisional, first, WithDigest(first, d));
  }

  lemma FinishUnfolds(env: Env, form: Form, provisional: Inputs, first: Terms, s: Terms)
    requires Proper(form) && Parse(env.iso, form, provisional) == Success(first) && TimesOrdered(first)
    requires Parse(env.iso, form, provisional[ControlPlanDigest := DigestInput(DigestOfStatement(env, form, first))])
          == Success(s)
    requires StandingApproval(s)
    ensures Finish(env, form, provisional) == Success(s)
  {
  }

  lemma OtherStanding(s: Terms, d: Sha)
    ensures StandingApproval(WithDigest(s, d)) == StandingApproval(s)
  {
  }

  lemma SealCompletes(env: Env, form: Form, provisional: Inputs, first: Terms, signer: Signer)
    requires HasEvidence(form) && Parse(env.iso, form, provisional) == Success(first) && Signs(signer)
    requires TimesOrdered(first) && StandingApproval(first) && IdentityOf(first) == signer.identity
    ensures Seal(env, form, provisional, signer).Success?
    ensures Seal(env, form, provisional, signer).value.statement
         == WithDigest(first, DigestOfStatement(env, form, first))
  {
    FinishCompletes(env, form, provisional, first);
    var s := WithDigest(first, DigestOfStatement(env, form, first));
    SameIdentity(first, DigestOfStatement(env, form, first));
    SignCompletes(env.iso, form, s, signer);
  }

  lemma SameIdentity(s: Terms, d: Sha)
    ensures IdentityOf(WithDigest(s, d)) == IdentityOf(s)
  {
  }

  lemma SignCompletes(iso: Iso, form: Form, s: Terms, signer: Signer)
    requires Signs(signer) && IdentityOf(s) == signer.identity
    ensures Sign(iso, form, s, signer).Success? && Sign(iso, form, s, signer).value.statement == s
  {
    var b := SignedBytes(iso, form, s);
    assert signer.sign(b).identity == signer.identity && BoundedText(signer.sign(b).signature, MAX_SIGNATURE);
  }

  /** A valid, standing statement, its digest still the placeholder. */
  ghost predicate Issuable(form: Form, s: Terms) {
    && Typed(form, s) && Fault(form, s) == None && [] !in RosterIn(s) && TimesOrdered(s) && StandingApproval(s)
    && ControlPlanDigest in s && s[ControlPlanDigest] == TextV(DigestText(Placeholder()))
  }

  /** Every valid statement can be issued: supplying its fields, with the evidence and the signer it names, gives the
      statement itself with its own digest. */
  lemma IssueComplete(env: Env, s: Terms, fields: Inputs, evidence: Evidence, signer: Signer)
    requires Honest(env.iso) && Signs(signer) && Issuable(V3, s) && Names(env, s, evidence, signer.identity)
    requires Supplies(env.iso, s, fields)
    ensures var r := Issue(env, fields, evidence, RosterIn(s), true, signer);
            r.Success? && r.value.statement == WithDigest(s, DigestOfStatement(env, V3, s))
  {
    V3Has();
    V3Bound();
    RosterInV3();
    ProvisionalReads(env, V3, s, fields, evidence, signer.identity);
    RosterFixed(s);
    var provisional := Provisional(env, V3, fields, evidence, RosterIn(s), signer.identity);
    ParseReads(env.iso, V3, provisional, s);
    SealCompletes(env, V3, provisional, s, signer);
    IssueSeals(env, fields, evidence, RosterIn(s), signer);
  }

  /** A statement was signed and its mapping does not read as that statement. */
  ghost predicate SignedButUnread(iso: Iso, r: Result<Envelope, Refusal>) {
    && r.Success? && Proper(V3)
    && Parse(iso, V3, Given(Mapping(iso, V3, r.value.statement))) != Success(r.value.statement)
  }

  /** An image built as an object may have any names: the statement is issued and does not read back.  Listed as a
      mapping the same image is refused. */
  lemma IllNamedIsIssued(env: Env, s: Terms, evidence: Evidence, signer: Signer)
    requires Honest(env.iso) && Signs(signer) && Issuable(V3, s) && Names(env, s, evidence, signer.identity)
    requires exists i :: i in ImagesOf(s) && !NamesOk(i)
    ensures SignedButUnread(env.iso, Issue(env, AsObjects(env.iso, s), evidence, RosterIn(s), true, signer))
  {
    V3Has();
    ObjectsSupply(env.iso, V3, s);
    IssueComplete(env, s, AsObjects(env.iso, s), evidence, signer);
    IssuedRoundTrip(env, AsObjects(env.iso, s), evidence, RosterIn(s), true, signer);
    NotWellListed(ImagesOf(s));
  }

  lemma NotWellListed(images: seq<Image>)
    requires exists i :: i in images && !NamesOk(i)
    ensures !WellListed(Listing(ReadyAll(images)))
  {
    var i :| i in images && !NamesOk(i);
    var k :| 0 <= k < |images| && images[k] == i;
    assert ReadyAll(images)[k] in ReadyAll(images);
  }

  lemma RosterFixed(s: Terms)
    requires Fault(V3, s) == None && RequiredComponentRoster in s
    ensures RosterOk(RosterIn(s))
  {
  }

  lemma IssueSeals(env: Env, fields: Inputs, evidence: Evidence, roster: seq<Text>, signer: Signer)
    requires Proper(V3) && RosterOk(roster) && Sort(RosterKey, evidence.codes) == roster
    requires fields.Keys !! DERIVED
    ensures Issue(env, fields, evidence, roster, true, signer)
         == Seal(env, V3, Provisional(env, V3, fields, evidence, roster, signer.identity), signer)
  {
    assert fields.Keys * DERIVED == {};
  }

  /** The smallest statement: one component, no images, one instant of validity. */
  function SmallText(f: Field): Text {
    if f == Purpose then T(V3.purpose)
    else if f == ApprovalDecisionStatus then T("granted")
    else if IsDigest(f) then DigestText(Placeholder())
    else [97]
  }

  function SmallOf(k: Kind, f: Field): (v: Value)
    ensures ValueKind(v) == k
  {
    match k
    case TEXT => TextV(SmallText(f))
    case OPTIONAL_TEXT => OptTextV(None)
    case POSITIVE => IntV(1)
    case OPTIONAL_INT => OptIntV(None)
    case INSTANT => InstantV(if f == ExpiresAt || f == HealthEvidenceValidUntil then 1 else 0)
    case OPTIONAL_INSTANT => OptInstantV(None)
    case IMAGES => ImagesV([])
    case ROSTER => RosterV([[97]])
  }

  function SmallValue(f: Field): Value { SmallOf(KindOf(f), f) }

  function Small(form: Form): Terms { map f | f in form.fields :: SmallValue(f) }

  lemma SmallTextOk(f: Field)
    ensures IsDigest(f) ==> DigestOk(SmallText(f))
    ensures !IsDigest(f) && f != Purpose ==> BoundedText(SmallText(f), MAX_TEXT)
  {
    PurposeKind();
    if IsDigest(f) {
      DigestSpellings(DigestText(Placeholder()), Placeholder());
    } else {
      GrantedOk();
    }
  }

  lemma GrantedOk()
    ensures BoundedText(T("granted"), MAX_TEXT) && BoundedText([97], MAX_TEXT)
  {
  }

  lemma SmallTyped(form: Form)
    ensures Typed(form, Small(form))
    ensures forall f :: f in Small(form) && Small(form)[f].TextV? ==> Small(form)[f].text == SmallText(f)
  {
  }

  lemma SmallTexts(form: Form)
    requires form.purpose == V3.purpose && Purpose in form.fields
    ensures TextFault(form, Small(form)) == None
  {
    var s := Small(form);
    SmallTyped(form);
    PurposeKind();
    forall f | f in s && s[f].TextV?
      ensures !IsDigest(f) && f != Purpose ==> BoundedText(s[f].text, MAX_TEXT)
      ensures IsDigest(f) ==> DigestOk(s[f].text)
    {
      SmallTextOk(f);
    }
    SmallDigests(s);
  }

  lemma SmallDigests(s: Terms)
    requires forall f :: f in s && s[f].TextV? && IsDigest(f) ==> DigestOk(s[f].text)
    ensures DigestsOk(s, OUTER_DIGESTS) && DigestsOk(s, EVIDENCE_DIGESTS)
  {
  }

  lemma PurposeKind()
    ensures KindOf(Purpose) == TEXT && KindOf(ApprovalDecisionStatus) == TEXT
    ensures !IsDigest(Purpose) && !IsDigest(ApprovalDecisionStatus)
  {
  }

  lemma SmallLists(form: Form)
    requires AuthorizedImages in form.fields && RequiredComponentRoster in form.fields
    ensures ImagesOf(Small(form)) == [] && RosterIn(Small(form)) == [[97]]
  {
    SpecialKinds(AuthorizedImages);
    SpecialKinds(RequiredComponentRoster);
  }

  lemma SmallCounts(form: Form)
    ensures CountsPositive(Small(form))
  {
    forall f | f in Small(form)
      ensures Small(form)[f].IntV? ==> Small(form)[f].n >= 1
    {
      SmallCount(KindOf(f), f);
    }
  }

  lemma SmallCount(k: Kind, f: Field)
    ensures SmallOf(k, f).IntV? ==> SmallOf(k, f).n == 1
  {
  }

  lemma SmallImages()
    ensures ImagesFault([]) == None && RosterOk([[97]])
  {
    assert ReadyAll([]) == [];
    RosterExact([[97]]);
  }

  lemma SmallOther(form: Form)
    requires HasEvidence(form)
    requires RequiredComponentRoster in form.fields
    ensures OtherFault(Small(form)) == None && TimesOrdered(Small(form))
  {
    SmallTimes(form);
    SmallLists(form);
    SmallCounts(form);
    SmallImages();
  }

  lemma SmallReadable(form: Form)
    requires AuthorizedImages in form.fields && RequiredComponentRoster in form.fields
    ensures Readable(Small(form))
  {
    SmallLists(form);
    SmallTyped(form);
    ReadableTwo(form, Small(form));
  }

  lemma SmallTimes(form: Form)
    requires HasEvidence(form)
    ensures AtOf(Small(form), IssuedAt) == 0 && AtOf(Small(form), ExpiresAt) == 1
    ensures AtOf(Small(form), HealthEvidenceEvaluatedAt) == 0 && AtOf(Small(form), HealthEvidenceValidUntil) == 1
  {
    SmallAt(form, IssuedAt);
    SmallAt(form, ExpiresAt);
    SmallAt(form, HealthEvidenceEvaluatedAt);
    SmallAt(form, HealthEvidenceValidUntil);
  }

  lemma SmallAt(form: Form, f: Field)
    requires f in form.fields && f in {IssuedAt, ExpiresAt, HealthEvidenceEvaluatedAt, HealthEvidenceValidUntil}
    ensures AtOf(Small(form), f) == if f == ExpiresAt || f == HealthEvidenceValidUntil then 1 else 0
  {
    InstantKind(f);
    SmallInstant(f);
  }

  lemma SmallInstant(f: Field)
    ensures SmallOf(INSTANT, f) == InstantV(if f == ExpiresAt || f == HealthEvidenceValidUntil then 1 else 0)
  {
  }

  lemma InstantKind(f: Field)
    requires f in {IssuedAt, ExpiresAt, HealthEvidenceEvaluatedAt, HealthEvidenceValidUntil}
    ensures KindOf(f) == INSTANT
  {
  }

  /** There are valid statements, so nothing said of them is said of nothing. */
  lemma ValidStatementExists()
    ensures Typed(V3, Small(V3)) && Fault(V3, Small(V3)) == None
    ensures TimesOrdered(Small(V3)) && StandingApproval(Small(V3)) && Readable(Small(V3))
  {
    V3Has();
    V3Bound();
    RosterInV3();
    StatusInV3();
    SmallTyped(V3);
    SmallTexts(V3);
    SmallOther(V3);
    SmallReadable(V3);
    SmallStanding(V3);
  }

  /** The statement with other images. */
  function WithImages(s: Terms, images: seq<Image>): Terms { s[AuthorizedImages := ImagesV(images)] }

  lemma WithImagesTyped(form: Form, s: Terms, images: seq<Image>)
    requires Typed(form, s) && AuthorizedImages in form.fields
    ensures Typed(form, WithImages(s, images))
  {
    ImagesKind();
  }

  lemma ImagesKind()
    ensures KindOf(AuthorizedImages) == IMAGES
  {
  }

  lemma WithImagesTexts(form: Form, s: Terms, images: seq<Image>)
    requires TextFault(form, s) == None && Typed(form, s)
    ensures TextFault(form, WithImages(s, images)) == None
  {
    WithImagesTerm(s, images, Purpose);
    TextsCarryOver(form, s, WithImages(s, images));
  }

  lemma TextsCarryOver(form: Form, s: Terms, t: Terms)
    requires TextFault(form, s) == None && TextOf(t, Purpose) == TextOf(s, Purpose)
    requires forall f :: f in t && t[f].TextV? ==> f in s && s[f] == t[f]
    ensures TextFault(form, t) == None
  {
    BoundsCarryOver(s, t);
    DigestsCarryOver(s, t, OUTER_DIGESTS);
    DigestsCarryOver(s, t, EVIDENCE_DIGESTS);
  }

  lemma BoundsCarryOver(s: Terms, t: Terms)
    requires TextsBounded(s) && forall f :: f in t && t[f].TextV? ==> f in s && s[f] == t[f]
    ensures TextsBounded(t)
  {
  }

  lemma DigestsCarryOver(s: Terms, t: Terms, fields: set<Field>)
    requires DigestsOk(s, fields) && forall f :: f in t && t[f].TextV? ==> f in s && s[f] == t[f]
    ensures DigestsOk(t, fields)
  {
  }

  lemma WithImagesTerm(s: Terms, images: seq<Image>, f: Field)
    requires f != AuthorizedImages
    ensures AtOf(WithImages(s, images), f) == AtOf(s, f) && TextOf(WithImages(s, images), f) == TextOf(s, f)
  {
  }

  lemma WithImagesLists(s: Terms, images: seq<Image>)
    ensures RosterIn(WithImages(s, images)) == RosterIn(s) && ImagesOf(WithImages(s, images)) == images
  {
  }

  lemma WithImagesTimes(s: Terms, images: seq<Image>)
    ensures AtOf(WithImages(s, images), IssuedAt) == AtOf(s, IssuedAt)
    ensures AtOf(WithImages(s, images), ExpiresAt) == AtOf(s, ExpiresAt)
    ensures AtOf(WithImages(s, images), HealthEvidenceEvaluatedAt) == AtOf(s, HealthEvidenceEvaluatedAt)
    ensures AtOf(WithImages(s, images), HealthEvidenceValidUntil) == AtOf(s, HealthEvidenceValidUntil)
  {
  }

  lemma WithImagesFault(form: Form, s: Terms, images: seq<Image>)
    requires Typed(form, s) && OtherFault(s) == None && CanonicalImages(images)
    ensures OtherFault(WithImages(s, images)) == None
  {
    CanonicalExact(images);
    WithImagesLists(s, images);
    WithImagesTimes(s, images);
    assert CountsPositive(WithImages(s, images));
  }

  lemma WithImagesIssuable(form: Form, s: Terms, images: seq<Image>)
    requires Issuable(form, s) && AuthorizedImages in form.fields && CanonicalImages(images)
    ensures Issuable(form, WithImages(s, images))
  {
    WithImagesTyped(form, s, images);
    WithImagesNoFault(form, s, images);
    WithImagesStanding(s, images);
    WithImagesLists(s, images);
  }

  lemma WithImagesNoFault(form: Form, s: Terms, images: seq<Image>)
    requires Typed(form, s) && Fault(form, s) == None && CanonicalImages(images)
    ensures Fault(form, WithImages(s, images)) == None
  {
    WithImagesTexts(form, s, images);
    WithImagesFault(form, s, images);
  }

  lemma WithImagesStanding(s: Terms, images: seq<Image>)
    ensures TimesOrdered(WithImages(s, images)) == TimesOrdered(s)
    ensures StandingApproval(WithImages(s, images)) == StandingApproval(s)
  {
    WithImagesTimes(s, images);
    WithImagesTerm(s, images, ApprovalDecisionStatus);
  }

  lemma WithImagesNames(env: Env, s: Terms, images: seq<Image>, evidence: Evidence, id: Identity)
    requires Names(env, s, evidence, id)
    ensures Names(env, WithImages(s, images), evidence, id)
  {
    WithImagesLists(s, images);
    WithImagesTimes(s, images);
    WithImagesTerm(s, images, ControlVersion);
    WithImagesTerm(s, images, HealthEvidenceDigest);
    WithImagesIdentity(s, images);
  }

  lemma WithImagesIdentity(s: Terms, images: seq<Image>)
    ensures IdentityOf(WithImages(s, images)) == IdentityOf(s)
  {
    WithImagesTerm(s, images, KeyId);
    WithImagesTerm(s, images, Algorithm);
    WithImagesTerm(s, images, PublicKeyFingerprint);
    WithImagesTerm(s, images, Purpose);
  }

  /** Into any statement that can be issued a canonical set with an ill-named image can be put, and is signed. */
  lemma AnyImagesIssued(env: Env, s: Terms, images: seq<Image>, evidence: Evidence, signer: Signer)
    requires Honest(env.iso) && Signs(signer) && Issuable(V3, s) && Names(env, s, evidence, signer.identity)
    requires CanonicalImages(images) && exists i :: i in images && !NamesOk(i)
    ensures SignedButUnread(env.iso, Issue(env, AsObjects(env.iso, WithImages(s, images)), evidence, RosterIn(s), true,
                                           signer))
  {
    V3Has();
    WithImagesIssuable(V3, s, images);
    WithImagesNames(env, s, images, evidence, signer.identity);
    WithImagesLists(s, images);
    IllNamedIsIssued(env, WithImages(s, images), evidence, signer);
  }

  function BlankImage(): Image { Image([], [97], Placeholder()) }

  lemma BlankImageIllNamed()
    ensures CanonicalImages([BlankImage()]) && !NamesOk(BlankImage())
  {
  }

  /** A signer, evidence and environment for the smallest statement. */
  function SmallIdentity(): Identity { Identity([97], [97], DigestText(Placeholder()), T(V3.purpose)) }

  function SmallSigner(): Signer { Signer(SmallIdentity(), b => Signed(SmallIdentity(), [97])) }

  function SmallEvidence(): Evidence { Evidence([], 0, 1, [[97]], [97], []) }

  function SmallEnv(iso: Iso): Env { Env(iso, b => Placeholder(), [97]) }

  lemma SmallSigns()
    ensures Signs(SmallSigner())
  {
    GrantedOk();
  }

  lemma SmallNames(form: Form, iso: Iso)
    requires HasEvidence(form) && RequiredComponentRoster in form.fields
    requires {ControlVersion, KeyId, Algorithm, PublicKeyFingerprint, Purpose} <= form.fields
    ensures Names(SmallEnv(iso), Small(form), SmallEvidence(), SmallIdentity())
  {
    SmallNamed(form, ControlVersion);
    SmallNamed(form, KeyId);
    SmallNamed(form, Algorithm);
    SmallNamed(form, PublicKeyFingerprint);
    SmallNamed(form, Purpose);
    SmallNamed(form, HealthEvidenceDigest);
    SmallLists(form);
    SmallTimes(form);
    assert Sort(RosterKey, [[97]]) == [[97]];
  }

  lemma SmallNamed(form: Form, f: Field)
    requires f in {ControlVersion, KeyId, Algorithm, PublicKeyFingerprint, Purpose, HealthEvidenceDigest}
    requires f in form.fields
    ensures TextOf(Small(form), f) == if f == Purpose then T(V3.purpose)
            else if f == PublicKeyFingerprint || f == HealthEvidenceDigest then DigestText(Placeholder()) else [97]
  {
    IdentityKinds(f);
    NamedDigests(f);
  }

  lemma NamedDigests(f: Field)
    requires f in {ControlVersion, KeyId, Algorithm, PublicKeyFingerprint, Purpose, HealthEvidenceDigest}
    ensures IsDigest(f) <==> f == PublicKeyFingerprint || f == HealthEvidenceDigest
    ensures f != ApprovalDecisionStatus
  {
  }

  lemma SmallDigest(form: Form)
    requires ControlPlanDigest in form.fields
    ensures ControlPlanDigest in Small(form) && Small(form)[ControlPlanDigest] == TextV(DigestText(Placeholder()))
  {
    DigestKind();
    ControlDigestIs();
  }

  lemma ControlDigestIs()
    ensures IsDigest(ControlPlanDigest)
  {
  }

  lemma SmallIssuable()
    ensures Issuable(V3, Small(V3)) && RosterIn(Small(V3)) == [[97]]
  {
    V3Has();
    RosterInV3();
    ValidStatementExists();
    SmallLists(V3);
    SmallDigest(V3);
  }

  lemma SmallNamesV3(iso: Iso)
    ensures Names(SmallEnv(iso), Small(V3), SmallEvidence(), SmallIdentity())
  {
    V3Has();
    V3Bound();
    RosterInV3();
    SmallNames(V3, iso);
  }

  /** A concrete issue that goes wrong: one image without a service name, listed as an object. */
  lemma BlankImageIsIssued(iso: Iso)
    requires Honest(iso)
    ensures SignedButUnread(iso, Issue(SmallEnv(iso), AsObjects(iso, WithImages(Small(V3), [BlankImage()])),
                                       SmallEvidence(), [[97]], true, SmallSigner()))
  {
    SmallSigns();
    BlankImageIllNamed();
    SmallIssuable();
    SmallNamesV3(iso);
    assert BlankImage() in [BlankImage()];
    AnyImagesIssued(SmallEnv(iso), Small(V3), [BlankImage()], SmallEvidence(), SmallSigner());
  }

  lemma StatusInV3()
    ensures ApprovalDecisionStatus in V3.fields && Purpose in V3.fields
  {
  }

  lemma SmallStanding(form: Form)
    requires ApprovalDecisionStatus in form.fields
    ensures StandingApproval(Small(form))
  {
    PurposeKind();
  }

  // ---------------------------------------------------------------- issuing, step by step

  /** Instants given as such under one of the three time fields become text. */
  method RenderTimes(iso: Iso, statementFields: Inputs) returns (fields: Inputs)
    ensures fields == AllRendered(iso, statementFields)
  {
    fields := statementFields;
    for n := 0 to |TIMES|
      invariant fields.Keys == statementFields.Keys
      invariant forall f :: f in fields ==>
                  fields[f] == if f in TIMES[..n] then Rendered(iso, f, statementFields[f]) else statementFields[f]
    {
      var f := TIMES[n];
      if f in fields && fields[f].Moment? {
        fields := fields[f := Plainly(Str(iso.write(fields[f].at)))];
      }
    }
  }

  method IssueEnvelope(env: Env, statementFields: Inputs, evidence: Evidence, roster: seq<Text>, genuine: bool,
                       signer: Signer) returns (r: Result<Envelope, Refusal>)
    ensures r == Issue(env, statementFields, evidence, roster, genuine, signer)
  {
    if !genuine {
      return Failure(EVIDENCE_SIGNATURE_INVALID);
    }
    if roster == [] {
      return Failure(MALFORMED);
    }
    var required := Sort(RosterKey, roster);
    if !DistinctKeys(RosterKey, required) {
      return Failure(MALFORMED);
    }
    if Sort(RosterKey, evidence.codes) != required {
      return Failure(EVIDENCE_ROSTER_MISMATCH);
    }
    if statementFields.Keys * DERIVED != {} {
      return Failure(MALFORMED);
    }
    var fields := RenderTimes(env.iso, statementFields);
    V3Has();
    var provisional := Given(Header(V3)) + fields + Bound(env, evidence, required, signer.identity);
    var placeholderStatement := Parse(env.iso, V3, provisional);
    if placeholderStatement.Failure? {
      return Failure(placeholderStatement.error);
    }
    if !TimesOrdered(placeholderStatement.value) {
      return Failure(EVIDENCE_FUTURE_DATED);
    }
    var derived := DigestOfStatement(env, V3, placeholderStatement.value);
    provisional := provisional[ControlPlanDigest := DigestInput(derived)];
    var statement := Parse(env.iso, V3, provisional);
    if statement.Failure? {
      return Failure(statement.error);
    }
    if !StandingApproval(statement.value) {
      return Failure(APPROVAL_NOT_STANDING);
    }
    r := Sign(env.iso, V3, statement.value, signer);
  }
}
