/**
 The V2 authorization and the dispatch term by term: which verdict comes first, which terms a dispatch takes over from
 its authorization and under which names, and which are its own.
 */
module DispatchRows {
  import opened Prelude
  import opened Texts
  import opened CanonicalJson
  import opened KeyEncoding
  import opened FieldNames
  import opened Fields
  import opened ImageRows
  import opened SignedStatements
  import opened StatementRows
  import opened AuthorizationV3
  import opened AuthorizationRows
  import opened Dispatch

  // ---------------------------------------------------------------- the V2 authorization

  /** The verdict on a V2 authorization: the first of the checks, in this order, that fails; None when all pass. */
  lemma V2Answer(env: Env, verifier: Verifier, a: Envelope, now: Instant, id: Identity, issued: Instant,
                 expires: Instant, status: Text)
    requires IdentityOf(a.statement) == id && InstantIs(a.statement, IssuedAt, issued)
    requires InstantIs(a.statement, ExpiresAt, expires) && TextIs(a.statement, ApprovalDecisionStatus, status)
    ensures VerifyV2(env, verifier, a, now)
            == if now < issued then Some(NOT_YET_VALID)
               else if expires <= now then Some(EXPIRED)
               else if !verifier(id, SignedBytes(env.iso, V2, a.statement), a.signature) then Some(SIGNATURE_INVALID)
               else if !Approved(status) then Some(APPROVAL_NOT_STANDING)
               else None
  {
    StandingAnswer(a.statement, status);
  }

  /** The caller supplies one of the seven fields that Control derives. */
  ghost predicate SuppliesDerivedV2(fields: Inputs) {
    exists f :: f in fields && f in {Schema, Version, ControlVersion, KeyId, Algorithm, PublicKeyFingerprint, Purpose}
  }

  /** How issuing a V2 authorization ends: no derived field, a mapping that reads as a statement, the decision, then the
      signature. */
  lemma IssueV2Answer(env: Env, fields: Inputs, signer: Signer)
    requires Proper(V2)
    ensures var row := ProvisionalV2(env, fields, signer.identity);
            var read := Parse(env.iso, V2, row);
            IssueV2(env, fields, signer)
            == if SuppliesDerivedV2(fields) then Failure(MALFORMED)
               else if read.Failure? then Failure(read.error)
               else if !StandingApproval(read.value) then Failure(APPROVAL_NOT_STANDING)
               else Sign(env.iso, V2, read.value, signer)
  {
    SuppliesExactV2(fields);
  }

  lemma SuppliesExactV2(fields: Inputs)
    ensures SuppliesDerivedV2(fields) <==> fields.Keys * DERIVED_V2 != {}
  {
    if f :| f in fields && f in DERIVED_V2 {
      assert f in fields.Keys * DERIVED_V2;
    }
  }

  /** The mapping that is read: the header, the caller's fields, and what Control writes. */
  function ProvisionalV2(env: Env, fields: Inputs, id: Identity): Inputs {
    Given(Header(V2)) + AllRendered(env.iso, fields) + BoundV2(env, id)
  }

  lemma ProvisionalV2Bound(env: Env, fields: Inputs, id: Identity)
    ensures var p := ProvisionalV2(env, fields, id);
            && ControlVersion in p && p[ControlVersion] == Plainly(Str(env.version))
            && KeyId in p && p[KeyId] == Plainly(Str(id.keyId))
            && Algorithm in p && p[Algorithm] == Plainly(Str(id.algorithm))
            && PublicKeyFingerprint in p && p[PublicKeyFingerprint] == Plainly(Str(id.fingerprint))
            && Purpose in p && p[Purpose] == Plainly(Str(id.purpose))
  {
    BoundV2Entries(env, id);
    LastOf(Given(Header(V2)) + AllRendered(env.iso, fields), BoundV2(env, id));
  }

  lemma BoundV2Entries(env: Env, id: Identity)
    ensures var b := BoundV2(env, id);
            && b.Keys == {ControlVersion, KeyId, Algorithm, PublicKeyFingerprint, Purpose}
            && b[ControlVersion] == Plainly(Str(env.version)) && b[KeyId] == Plainly(Str(id.keyId))
            && b[Algorithm] == Plainly(Str(id.algorithm)) && b[Purpose] == Plainly(Str(id.purpose))
            && b[PublicKeyFingerprint] == Plainly(Str(id.fingerprint))
  {
  }

  lemma ProvisionalV2Given(env: Env, fields: Inputs, id: Identity)
    requires fields.Keys * DERIVED_V2 == {}
    ensures var p := ProvisionalV2(env, fields, id);
            && p.Keys == fields.Keys + DERIVED_V2
            && p[Schema] == Plainly(Str(T("dotmac.deployment-authorization"))) && p[Version] == Plainly(Int(2))
            && forall f :: f in fields ==> p[f] == Rendered(env.iso, f, fields[f])
  {
    DerivedV2Parts(env, id);
    GivenParts(Given(Header(V2)), AllRendered(env.iso, fields), BoundV2(env, id), DERIVED_V2);
  }

  lemma DerivedV2Parts(env: Env, id: Identity)
    ensures var h, b := Given(Header(V2)), BoundV2(env, id);
            && DERIVED_V2 == b.Keys + h.Keys && b.Keys !! h.Keys && Schema in h && Version in h
            && h[Schema] == Plainly(Str(T("dotmac.deployment-authorization"))) && h[Version] == Plainly(Int(2))
  {
    GivenHeader(V2);
    BoundV2Entries(env, id);
  }

  /** What is verified is approved, and so is what is issued. */
  lemma V2IsApproved(env: Env, verifier: Verifier, a: Envelope, now: Instant, status: Text)
    requires TextIs(a.statement, ApprovalDecisionStatus, status) && VerifyV2(env, verifier, a, now) == None
    ensures Approved(status)
  {
    StandingAnswer(a.statement, status);
  }

  lemma IssuedV2IsApproved(env: Env, fields: Inputs, signer: Signer, status: Text)
    requires IssueV2(env, fields, signer).Success?
    requires TextIs(IssueV2(env, fields, signer).value.statement, ApprovalDecisionStatus, status)
    ensures Approved(status)
  {
    FormsProper();
    var read := Parse(env.iso, V2, ProvisionalV2(env, fields, signer.identity));
    SignKeeps(env.iso, V2, read.value, signer);
    StandingAnswer(read.value, status);
  }

  // ---------------------------------------------------------------- the envelope

  /** The envelope is an object of the statement's mapping and the signature. */
  lemma EnvelopeUnder(env: Env, form: Form, e: Envelope)
    ensures var j := Doc(EnvelopeRow(env, form, e));
            && Under(j, "statement", Doc(Mapping(env.iso, form, e.statement)))
            && Under(j, "signature", Str(e.signature)) && |j.entries| == 2
            && EnvelopeBytes(env, form, e) == Canonical(j)
  {
    TwoUnder(Doc(Mapping(env.iso, form, e.statement)), Str(e.signature));
  }

  lemma TwoUnder(statement: Json, signature: Json)
    ensures var j := Doc(map[Statement := statement, Signature := signature]);
            Under(j, "statement", statement) && Under(j, "signature", signature) && |j.entries| == 2
  {
    var m: Row := map[Statement := statement, Signature := signature];
    EnvelopeKeys();
    DocUnder(m, Statement);
    DocUnder(m, Signature);
    DocSize(m);
    assert m.Keys == {Statement, Signature} && |m| == |m.Keys|;
  }

  lemma EnvelopeKeys()
    ensures Name(Statement) == "statement" && Name(Signature) == "signature"
  {
  }

  // ---------------------------------------------------------------- the terms of a dispatch

  ghost predicate SameTerm(d: Terms, f: Field, a: Terms, g: Field) { f in d && g in a && d[f] == a[g] }

  /** The thirteen terms that keep their name, and the four that get another one. */
  ghost predicate Takes(d: Terms, a: Terms) {
    && SameTerm(d, AuthorizationId, a, AuthorizationId) && SameTerm(d, ExecutionSequence, a, ExecutionSequence)
    && SameTerm(d, RolloutRef, a, RolloutRef) && SameTerm(d, TargetId, a, TargetId)
    && SameTerm(d, TargetRef, a, TargetRef) && SameTerm(d, ProductCode, a, ProductCode)
    && SameTerm(d, Environment, a, Environment) && SameTerm(d, Operation, a, Operation)
    && SameTerm(d, ReleaseRef, a, ReleaseRef) && SameTerm(d, AuthorizedImages, a, AuthorizedImages)
    && SameTerm(d, PlanDigest, a, PlanDigest) && SameTerm(d, DescriptorDigest, a, DescriptorDigest)
    && SameTerm(d, ExecutionPlanDigest, a, ExecutionPlanDigest)
  }

  ghost predicate Renames(d: Terms, a: Terms) {
    && SameTerm(d, AuthorizationPlanId, a, PlanId) && SameTerm(d, AuthorizationControlVersion, a, ControlVersion)
    && SameTerm(d, AuthorizationKeyId, a, KeyId)
    && SameTerm(d, AuthorizationPublicKeyFingerprint, a, PublicKeyFingerprint)
  }

  lemma TakesExact(d: Terms, a: Terms)
    ensures BindsCopied(d, a) <==> Takes(d, a)
  {
    if Takes(d, a) {
      forall f | f in COPIED_FIELDS
        ensures Same(d, a, f)
      {
      }
    }
    if BindsCopied(d, a) {
      assert forall f :: f in COPIED_FIELDS ==> Same(d, a, f);
    }
  }

  lemma TextSame(d: Terms, f: Field, a: Terms, g: Field)
    requires f in d && d[f].TextV? && g in a && a[g].TextV?
    ensures TextOf(d, f) == TextOf(a, g) <==> SameTerm(d, f, a, g)
  {
  }

  const NEW_NAMES := {
    AuthorizationPlanId, AuthorizationControlVersion, AuthorizationKeyId, AuthorizationPublicKeyFingerprint,
    AuthorizationEnvelopeDigest}

  lemma TextFields(d: Terms, a: Terms)
    requires Typed(DISPATCH, d) && Typed(V2, a)
    ensures forall f :: f in NEW_NAMES ==> f in d && d[f].TextV?
    ensures forall f :: f in {PlanId, ControlVersion, KeyId, PublicKeyFingerprint} ==> f in a && a[f].TextV?
  {
    forall f | f in NEW_NAMES
      ensures f in d && d[f].TextV?
    {
      RenamedInDispatch(f);
      ValueTypes(d[f]);
    }
    forall f | f in {PlanId, ControlVersion, KeyId, PublicKeyFingerprint}
      ensures f in a && a[f].TextV?
    {
      NamedInV2Too(f);
      ValueTypes(a[f]);
    }
  }

  lemma RenamedInDispatch(f: Field)
    requires f in NEW_NAMES
    ensures f in DISPATCH.fields && KindOf(f) == TEXT
  {
  }

  lemma NamedInV2Too(f: Field)
    requires f in {PlanId, ControlVersion, KeyId, PublicKeyFingerprint}
    ensures f in V2.fields && KindOf(f) == TEXT
  {
  }

  ghost predicate FiveEqual(d: Terms, a: Terms, digest: Text) {
    && TextOf(d, AuthorizationPlanId) == TextOf(a, PlanId)
    && TextOf(d, AuthorizationControlVersion) == TextOf(a, ControlVersion)
    && TextOf(d, AuthorizationKeyId) == TextOf(a, KeyId)
    && TextOf(d, AuthorizationPublicKeyFingerprint) == TextOf(a, PublicKeyFingerprint)
    && TextOf(d, AuthorizationEnvelopeDigest) == digest
  }

  lemma RenamedFive(d: Terms, a: Terms, digest: Text)
    ensures BindsRenamed(d, a, digest) <==> FiveEqual(d, a, digest)
  {
    if BindsRenamed(d, a, digest) {
      FiveRenamed();
      RenamedTexts(a, digest);
    }
    if FiveEqual(d, a, digest) {
      forall f | f in RENAMED_FIELDS
        ensures TextOf(d, f) == RenamedText(a, digest, f)
      {
        RenamedAt(d, a, digest, f);
      }
    }
  }

  lemma RenamedAt(d: Terms, a: Terms, digest: Text, f: Field)
    requires FiveEqual(d, a, digest) && f in RENAMED_FIELDS
    ensures TextOf(d, f) == RenamedText(a, digest, f)
  {
  }

  lemma RenamedTexts(a: Terms, digest: Text)
    ensures RenamedText(a, digest, AuthorizationPlanId) == TextOf(a, PlanId)
    ensures RenamedText(a, digest, AuthorizationControlVersion) == TextOf(a, ControlVersion)
    ensures RenamedText(a, digest, AuthorizationKeyId) == TextOf(a, KeyId)
    ensures RenamedText(a, digest, AuthorizationPublicKeyFingerprint) == TextOf(a, PublicKeyFingerprint)
    ensures RenamedText(a, digest, AuthorizationEnvelopeDigest) == digest
  {
  }

  lemma FiveRenamed()
    ensures AuthorizationPlanId in RENAMED_FIELDS && AuthorizationControlVersion in RENAMED_FIELDS
    ensures AuthorizationKeyId in RENAMED_FIELDS && AuthorizationPublicKeyFingerprint in RENAMED_FIELDS
    ensures AuthorizationEnvelopeDigest in RENAMED_FIELDS && RENAMED_FIELDS == NEW_NAMES
  {
  }

  lemma RenamesExact(d: Terms, a: Terms, digest: Text)
    requires Typed(DISPATCH, d) && Typed(V2, a)
    ensures BindsRenamed(d, a, digest) <==> Renames(d, a) && TextIs(d, AuthorizationEnvelopeDigest, digest)
  {
    TextFields(d, a);
    RenamedFive(d, a, digest);
    TextSame(d, AuthorizationPlanId, a, PlanId);
    TextSame(d, AuthorizationControlVersion, a, ControlVersion);
    TextSame(d, AuthorizationKeyId, a, KeyId);
    TextSame(d, AuthorizationPublicKeyFingerprint, a, PublicKeyFingerprint);
    assert AuthorizationEnvelopeDigest in d && d[AuthorizationEnvelopeDigest].TextV?;
  }

  /** A dispatch binds an authorization exactly when it takes over its terms and the digest of its envelope. */
  lemma BindsAnswer(env: Env, d: Terms, a: Envelope)
    requires Typed(DISPATCH, d) && Typed(V2, a.statement)
    ensures Binds(env, d, a) <==>
            Takes(d, a.statement) && Renames(d, a.statement)
            && TextIs(d, AuthorizationEnvelopeDigest, DigestText(env.sha(EnvelopeBytes(env, V2, a))))
  {
    TakesExact(d, a.statement);
    RenamesExact(d, a.statement, EnvelopeDigest(env, a));
  }

  lemma OwnTerm(env: Env, a: Envelope, dispatchId: Text, attemptNo: int, at: Instant, id: Identity, f: Field)
    requires f in OWN_FIELDS
    ensures var s := DispatchStatement(env, a, dispatchId, attemptNo, at, id);
            f in s && s[f] == OwnValue(env, dispatchId, attemptNo, at, id, f)
  {
    OwnAt(env, dispatchId, attemptNo, at, id, f);
    LastWins(Copied(a.statement) + Renamed(a.statement, EnvelopeDigest(env, a)),
             Own(env, dispatchId, attemptNo, at, id), f);
  }

  lemma OwnMembers()
    ensures DispatchId in OWN_FIELDS && AttemptNo in OWN_FIELDS && IssuedAt in OWN_FIELDS
    ensures ControlVersion in OWN_FIELDS && KeyId in OWN_FIELDS && Algorithm in OWN_FIELDS
    ensures PublicKeyFingerprint in OWN_FIELDS && Purpose in OWN_FIELDS
  {
  }

  lemma OwnValues(env: Env, dispatchId: Text, attemptNo: int, at: Instant, id: Identity)
    ensures OwnValue(env, dispatchId, attemptNo, at, id, DispatchId) == TextV(dispatchId)
    ensures OwnValue(env, dispatchId, attemptNo, at, id, AttemptNo) == IntV(attemptNo)
    ensures OwnValue(env, dispatchId, attemptNo, at, id, IssuedAt) == InstantV(at)
    ensures OwnValue(env, dispatchId, attemptNo, at, id, ControlVersion) == TextV(env.version)
  {
  }

  lemma OwnIdentity(env: Env, dispatchId: Text, attemptNo: int, at: Instant, id: Identity)
    ensures OwnValue(env, dispatchId, attemptNo, at, id, KeyId) == TextV(id.keyId)
    ensures OwnValue(env, dispatchId, attemptNo, at, id, Algorithm) == TextV(id.algorithm)
    ensures OwnValue(env, dispatchId, attemptNo, at, id, PublicKeyFingerprint) == TextV(id.fingerprint)
    ensures OwnValue(env, dispatchId, attemptNo, at, id, Purpose) == TextV(id.purpose)
  {
  }

  /** What an issued dispatch says of itself. */
  lemma DispatchOwn(env: Env, a: Envelope, dispatchId: Text, attemptNo: int, at: Instant, id: Identity)
    ensures var s := DispatchStatement(env, a, dispatchId, attemptNo, at, id);
            && TextIs(s, DispatchId, dispatchId) && InstantIs(s, IssuedAt, at)
            && AttemptNo in s && s[AttemptNo] == IntV(attemptNo) && TextIs(s, ControlVersion, env.version)
  {
    OwnMembers();
    OwnValues(env, dispatchId, attemptNo, at, id);
    OwnTerm(env, a, dispatchId, attemptNo, at, id, DispatchId);
    OwnTerm(env, a, dispatchId, attemptNo, at, id, AttemptNo);
    OwnTerm(env, a, dispatchId, attemptNo, at, id, IssuedAt);
    OwnTerm(env, a, dispatchId, attemptNo, at, id, ControlVersion);
  }

  /** And of the key that signs it. */
  lemma DispatchKey(env: Env, a: Envelope, dispatchId: Text, attemptNo: int, at: Instant, id: Identity)
    ensures var s := DispatchStatement(env, a, dispatchId, attemptNo, at, id);
            && TextIs(s, KeyId, id.keyId) && TextIs(s, Algorithm, id.algorithm)
            && TextIs(s, PublicKeyFingerprint, id.fingerprint) && TextIs(s, Purpose, id.purpose)
  {
    OwnMembers();
    OwnIdentity(env, dispatchId, attemptNo, at, id);
    OwnTerm(env, a, dispatchId, attemptNo, at, id, KeyId);
    OwnTerm(env, a, dispatchId, attemptNo, at, id, Algorithm);
    OwnTerm(env, a, dispatchId, attemptNo, at, id, PublicKeyFingerprint);
    OwnTerm(env, a, dispatchId, attemptNo, at, id, Purpose);
  }

  /** What an issued dispatch takes over from its authorization. */
  lemma DispatchTaken(env: Env, a: Envelope, dispatchId: Text, attemptNo: int, at: Instant, id: Identity)
    requires Typed(V2, a.statement)
    ensures var s := DispatchStatement(env, a, dispatchId, attemptNo, at, id);
            && Takes(s, a.statement) && Renames(s, a.statement)
            && TextIs(s, AuthorizationEnvelopeDigest, DigestText(env.sha(EnvelopeBytes(env, V2, a))))
  {
    StatementTyped(env, a, dispatchId, attemptNo, at, id);
    StatementBinds(env, a, dispatchId, attemptNo, at, id);
    BindsAnswer(env, DispatchStatement(env, a, dispatchId, attemptNo, at, id), a);
  }

  // ---------------------------------------------------------------- issuing and verifying a dispatch

  /** How issuing a dispatch ends: another key, within the lifetime, under a bounded id; then the statement's own checks
      and the signature. */
  lemma DispatchAnswer(env: Env, a: Envelope, dispatchId: Text, attemptNo: int, at: Instant, signer: Signer,
                       issued: Instant, expires: Instant, fingerprint: Text)
    requires InstantIs(a.statement, IssuedAt, issued) && InstantIs(a.statement, ExpiresAt, expires)
    requires TextIs(a.statement, PublicKeyFingerprint, fingerprint)
    ensures var s := DispatchStatement(env, a, dispatchId, attemptNo, at, signer.identity);
            IssueDispatch(env, a, dispatchId, attemptNo, at, signer)
            == if signer.identity.fingerprint == fingerprint then Failure(SIGNER_PURPOSE_REUSED)
               else if at < issued || expires <= at then Failure(AUTHORIZATION_MISMATCH)
               else if !Bounded(dispatchId) then Failure(MALFORMED)
               else if Fault(DISPATCH, s) != None then Failure(Fault(DISPATCH, s).value)
               else Sign(env.iso, DISPATCH, s, signer)
  {
    BoundedExact(dispatchId);
  }

  /** The verdict on a parsed dispatch over a parsed authorization: the first of the checks, in this order, that fails;
      None when all pass. */
  lemma DispatchVerdict(env: Env, av: Verifier, dv: Verifier, d: Envelope, a: Envelope, now: Instant, id: Identity,
                        dispatched: Instant, issued: Instant, expires: Instant, fingerprint: Text)
    requires Typed(DISPATCH, d.statement) && Typed(V2, a.statement)
    requires IdentityOf(d.statement) == id && TextIs(d.statement, PublicKeyFingerprint, id.fingerprint)
    requires InstantIs(d.statement, IssuedAt, dispatched)
    requires InstantIs(a.statement, IssuedAt, issued) && InstantIs(a.statement, ExpiresAt, expires)
    requires TextIs(a.statement, PublicKeyFingerprint, fingerprint)
    ensures VerifyDispatch(env, av, dv, d, a, now)
            == if now < dispatched then Some(NOT_YET_VALID)
               else if VerifyV2(env, av, a, now) != None then VerifyV2(env, av, a, now)
               else if id.fingerprint == fingerprint then Some(SIGNER_PURPOSE_REUSED)
               else if dispatched < issued || expires <= dispatched then Some(AUTHORIZATION_MISMATCH)
               else if !(Takes(d.statement, a.statement) && Renames(d.statement, a.statement)
                         && TextIs(d.statement, AuthorizationEnvelopeDigest,
                                   DigestText(env.sha(EnvelopeBytes(env, V2, a)))))
               then Some(AUTHORIZATION_MISMATCH)
               else if !dv(id, SignedBytes(env.iso, DISPATCH, d.statement), d.signature) then Some(SIGNATURE_INVALID)
               else None
  {
    BindsAnswer(env, d.statement, a);
    VerdictSteps(env, av, dv, d, a, now, dispatched, issued, expires);
  }

  lemma VerdictSteps(env: Env, av: Verifier, dv: Verifier, d: Envelope, a: Envelope, now: Instant, dispatched: Instant,
                     issued: Instant, expires: Instant)
    requires InstantIs(d.statement, IssuedAt, dispatched)
    requires InstantIs(a.statement, IssuedAt, issued) && InstantIs(a.statement, ExpiresAt, expires)
    ensures VerifyDispatch(env, av, dv, d, a, now)
            == if now < dispatched then Some(NOT_YET_VALID)
               else if VerifyV2(env, av, a, now) != None then VerifyV2(env, av, a, now)
               else if TextOf(d.statement, PublicKeyFingerprint) == TextOf(a.statement, PublicKeyFingerprint)
               then Some(SIGNER_PURPOSE_REUSED)
               else if dispatched < issued || expires <= dispatched then Some(AUTHORIZATION_MISMATCH)
               else if !Binds(env, d.statement, a) then Some(AUTHORIZATION_MISMATCH)
               else if !dv(IdentityOf(d.statement), SignedBytes(env.iso, DISPATCH, d.statement), d.signature)
               then Some(SIGNATURE_INVALID)
               else None
  {
  }
}
