/**
 The fingerprint of an admission context: the preimages that the digest is taken over, and that equal
 digests mean equal contexts.
 */
module ContextDigest {
  import opened Texts
  import opened CanonicalJson
  import opened CanonicalDocuments
  import opened KeyEncoding
  import opened Fields
  import opened TrustRegistry
  import opened HostAdmissionCoordinator
  import F = FieldNames

  /** How identifiers and instants are written, and the hash. */
  datatype Rendering = Rendering(uuid: RowId -> Text, instant: Instant -> Text, sha: Bytes -> Sha)

  /** Different identifiers and different instants are written differently. */
  ghost predicate Faithful(r: Rendering) {
    && (forall x, y :: r.uuid(x) == r.uuid(y) ==> x == y)
    && (forall x, y :: r.instant(x) == r.instant(y) ==> x == y)
  }

  /** The hash tells these two byte strings apart, if they differ. */
  ghost predicate TellsApart(sha: Bytes -> Sha, x: Bytes, y: Bytes) { sha(x) == sha(y) ==> x == y }

  // ---------------------------------------------------------------- the presentation

  function StatementRow(r: Rendering, p: Presentation): Row {
    map[
      F.Schema := Str(T("dotmac.control.host-admission-presentation")),
      F.Version := Int(1),
      F.Purpose := Str(PresentationPurpose()),
      F.Audience := Str(T("dotmac.deployment-control")),
      F.PresentationId := Str(p.presentationId),
      F.KeyId := Str(p.keyId),
      F.DispatchId := Str(p.dispatchId),
      F.CandidateAttestationEnvelopeDigest := Str(p.candidateDigest),
      F.InstalledAttestationEnvelopeDigest := Str(p.installedDigest),
      F.IssuedAt := Str(r.instant(p.issuedAt)),
      F.ExpiresAt := Str(r.instant(p.expiresAt))]
  }

  /** The statement together with its signature. */
  ghost function PresentationRow(r: Rendering, p: Presentation): Row {
    map[F.Statement := Doc(StatementRow(r, p)), F.Signature := Str(p.signature)]
  }

  ghost function PresentationBytes(r: Rendering, p: Presentation): Bytes { Canonical(Doc(PresentationRow(r, p))) }

  /** compute_host_admission_presentation_digest. */
  ghost function PresentationDigest(r: Rendering, p: Presentation): Text { HexText(r.sha(PresentationBytes(r, p))) }

  // ---------------------------------------------------------------- a root

  function RootRow(r: Rendering, c: RootContext): Row {
    map[
      F.CustodyDomain := Str(c.subject.domain),
      F.Subject := Str(c.subject.name),
      F.Issuer := Str(c.issuer),
      F.KeyId := Str(c.keyId),
      F.Purpose := Str(c.purpose),
      F.RootVersion := Str(r.uuid(c.version)),
      F.NotBefore := Str(r.instant(c.notBefore)),
      F.NotAfter := Str(r.instant(c.notAfter)),
      F.Algorithm := Str(c.algorithm),
      F.PublicKeyBase64 := Str(c.publicKeyBase64),
      F.PublicKeyFingerprint := Str(c.fingerprint),
      F.Standing := Str(T("valid")),
      F.Revoked := Bool(false)]
  }

  // ---------------------------------------------------------------- the context

  ghost function DispatchTerms(r: Rendering, a: Coordinate): Row {
    map[
      F.Schema := Str(T("dotmac.control.host-admission-context")),
      F.Version := Int(1),
      F.PresentationCanonicalDigest := Str(PresentationDigest(r, a.presentation)),
      F.DispatchId := Str(a.dispatchId),
      F.DispatchEnvelopeDigest := Str(a.envelopeDigest),
      F.TargetId := Str(r.uuid(a.target)),
      F.TargetRef := Str(a.targetRef),
      F.HostId := Str(a.hostId)]
  }

  function CredentialTerms(r: Rendering, a: Coordinate): Row {
    map[
      F.CredentialId := Str(r.uuid(a.credentialId)),
      F.CredentialKeyId := Str(a.credentialKeyId),
      F.CredentialFingerprint := Str(a.credentialFingerprint),
      F.CredentialAlgorithm := Str(a.credentialAlgorithm),
      F.CredentialPurpose := Str(a.credentialPurpose)]
  }

  ghost function BindingTerms(r: Rendering, a: Coordinate): Row {
    map[
      F.AssociationId := Str(r.uuid(a.associationId)),
      F.PolicyId := Str(r.uuid(a.policyId)),
      F.CandidateAudience := Str(a.candidateAudience),
      F.InstalledAudience := Str(a.installedAudience),
      F.ExpectedFoundationPackage := Str(a.package),
      F.CandidateRoot := Doc(RootRow(r, a.candidateRoot)),
      F.InstalledRoot := Doc(RootRow(r, a.installedRoot))]
  }

  /** The twenty entries of the payload. */
  ghost function ContextRow(r: Rendering, a: Coordinate): Row {
    DispatchTerms(r, a) + (CredentialTerms(r, a) + BindingTerms(r, a))
  }

  ghost function ContextBytes(r: Rendering, a: Coordinate): Bytes { Canonical(Doc(ContextRow(r, a))) }

  /** compute_host_admission_context_digest. */
  ghost function Digest(r: Rendering, a: Coordinate): Text { HexText(r.sha(ContextBytes(r, a))) }

  // ---------------------------------------------------------------- equal digests, equal contexts

  /** No text written into the preimages holds a high surrogate directly before a low one. */
  ghost predicate PlainCoordinate(r: Rendering, a: Coordinate) {
    && PlainTexts(StatementRow(r, a.presentation)) && NoAdjacentSurrogates(a.presentation.signature)
    && PlainTexts(RootRow(r, a.candidateRoot)) && PlainTexts(RootRow(r, a.installedRoot))
    && PlainTexts(DispatchTerms(r, a)) && PlainTexts(CredentialTerms(r, a)) && PlainTexts(BindingTerms(r, a))
  }

  lemma PresentationSame(r: Rendering, p: Presentation, q: Presentation)
    requires Faithful(r) && SameRow(StatementRow(r, p), StatementRow(r, q)) && p.signature == q.signature
    ensures p == q
  {
    PresentationNamesSame(r, p, q);
    var m, n := StatementRow(r, p), StatementRow(r, q);
    TextAt(m, n, F.CandidateAttestationEnvelopeDigest, p.candidateDigest, q.candidateDigest);
    TextAt(m, n, F.InstalledAttestationEnvelopeDigest, p.installedDigest, q.installedDigest);
    TextAt(m, n, F.IssuedAt, r.instant(p.issuedAt), r.instant(q.issuedAt));
    TextAt(m, n, F.ExpiresAt, r.instant(p.expiresAt), r.instant(q.expiresAt));
  }

  lemma PresentationNamesSame(r: Rendering, p: Presentation, q: Presentation)
    requires SameRow(StatementRow(r, p), StatementRow(r, q))
    ensures p.presentationId == q.presentationId && p.keyId == q.keyId && p.dispatchId == q.dispatchId
  {
    var m, n := StatementRow(r, p), StatementRow(r, q);
    TextAt(m, n, F.PresentationId, p.presentationId, q.presentationId);
    TextAt(m, n, F.KeyId, p.keyId, q.keyId);
    TextAt(m, n, F.DispatchId, p.dispatchId, q.dispatchId);
  }

  lemma RootNamesSame(r: Rendering, c: RootContext, d: RootContext)
    requires SameRow(RootRow(r, c), RootRow(r, d))
    ensures c.subject == d.subject && c.issuer == d.issuer && c.keyId == d.keyId && c.purpose == d.purpose
  {
    var m, n := RootRow(r, c), RootRow(r, d);
    TextAt(m, n, F.CustodyDomain, c.subject.domain, d.subject.domain);
    TextAt(m, n, F.Subject, c.subject.name, d.subject.name);
    TextAt(m, n, F.Issuer, c.issuer, d.issuer);
    TextAt(m, n, F.KeyId, c.keyId, d.keyId);
    TextAt(m, n, F.Purpose, c.purpose, d.purpose);
  }

  lemma RootSame(r: Rendering, c: RootContext, d: RootContext)
    requires Faithful(r) && SameRow(RootRow(r, c), RootRow(r, d))
    ensures c == d
  {
    RootNamesSame(r, c, d);
    var m, n := RootRow(r, c), RootRow(r, d);
    TextAt(m, n, F.RootVersion, r.uuid(c.version), r.uuid(d.version));
    TextAt(m, n, F.NotBefore, r.instant(c.notBefore), r.instant(d.notBefore));
    TextAt(m, n, F.NotAfter, r.instant(c.notAfter), r.instant(d.notAfter));
    TextAt(m, n, F.Algorithm, c.algorithm, d.algorithm);
    TextAt(m, n, F.PublicKeyBase64, c.publicKeyBase64, d.publicKeyBase64);
    TextAt(m, n, F.PublicKeyFingerprint, c.fingerprint, d.fingerprint);
  }

  /** Two presentations with the same digest are the same, signature included, if the hash tells them apart. */
  lemma PresentationDigestIdentifies(r: Rendering, p: Presentation, q: Presentation)
    requires Faithful(r) && TellsApart(r.sha, PresentationBytes(r, p), PresentationBytes(r, q))
    requires PlainTexts(StatementRow(r, p)) && NoAdjacentSurrogates(p.signature)
    requires PlainTexts(StatementRow(r, q)) && NoAdjacentSurrogates(q.signature)
    requires PresentationDigest(r, p) == PresentationDigest(r, q)
    ensures p == q
  {
    HexTextInjective(r.sha(PresentationBytes(r, p)), r.sha(PresentationBytes(r, q)));
    var m, n := PresentationRow(r, p), PresentationRow(r, q);
    PresentationPlain(r, p);
    PresentationPlain(r, q);
    DocIdentifies(m, n);
    assert SameValue(m[F.Statement], n[F.Statement]);
    TextAt(m, n, F.Signature, p.signature, q.signature);
    DocSame(StatementRow(r, p), StatementRow(r, q));
    PresentationSame(r, p, q);
  }

  lemma PresentationPlain(r: Rendering, p: Presentation)
    requires PlainTexts(StatementRow(r, p)) && NoAdjacentSurrogates(p.signature)
    ensures PlainRow(PresentationRow(r, p))
  {
    ScalarsPlain(StatementRow(r, p));
    DocPlain(StatementRow(r, p));
    PlainText(p.signature);
  }

  lemma ContextPlain(r: Rendering, a: Coordinate)
    requires PlainCoordinate(r, a)
    ensures PlainRow(ContextRow(r, a))
  {
    DispatchPlain(r, a);
    CredentialPlain(r, a);
    BindingPlain(r, a);
    UnionPlain(DispatchTerms(r, a), CredentialTerms(r, a), BindingTerms(r, a));
  }

  lemma UnionPlain(a: Row, b: Row, c: Row)
    requires PlainRow(a) && PlainRow(b) && PlainRow(c)
    ensures PlainRow(a + (b + c))
  {
  }

  lemma DispatchPlain(r: Rendering, a: Coordinate)
    requires PlainTexts(DispatchTerms(r, a))
    ensures PlainRow(DispatchTerms(r, a))
  {
    ScalarsPlain(DispatchTerms(r, a));
  }

  lemma CredentialPlain(r: Rendering, a: Coordinate)
    requires PlainTexts(CredentialTerms(r, a))
    ensures PlainRow(CredentialTerms(r, a))
  {
    ScalarsPlain(CredentialTerms(r, a));
  }

  lemma BindingPlain(r: Rendering, a: Coordinate)
    requires PlainTexts(BindingTerms(r, a))
    requires PlainTexts(RootRow(r, a.candidateRoot)) && PlainTexts(RootRow(r, a.installedRoot))
    ensures PlainRow(BindingTerms(r, a))
  {
    RootPlain(r, a.candidateRoot);
    RootPlain(r, a.installedRoot);
    ScalarsPlain(BindingTerms(r, a));
  }

  lemma RootPlain(r: Rendering, c: RootContext)
    requires PlainTexts(RootRow(r, c))
    ensures Plain(Doc(RootRow(r, c)))
  {
    ScalarsPlain(RootRow(r, c));
    DocPlain(RootRow(r, c));
  }

  /** Two contexts with the same digest are the same in every coordinate, if the hash tells their preimages apart. */
  lemma ContextDigestIdentifies(r: Rendering, a: Coordinate, b: Coordinate)
    requires Faithful(r) && PlainCoordinate(r, a) && PlainCoordinate(r, b)
    requires TellsApart(r.sha, ContextBytes(r, a), ContextBytes(r, b))
    requires TellsApart(r.sha, PresentationBytes(r, a.presentation), PresentationBytes(r, b.presentation))
    requires Digest(r, a) == Digest(r, b)
    ensures a == b
  {
    HexTextInjective(r.sha(ContextBytes(r, a)), r.sha(ContextBytes(r, b)));
    ContextPlain(r, a);
    ContextPlain(r, b);
    DocIdentifies(ContextRow(r, a), ContextRow(r, b));
    ContextInParts(r, a);
    ContextInParts(r, b);
    KeysSeparate();
    ThreeParts(ContextRow(r, a), DispatchTerms(r, a), CredentialTerms(r, a), BindingTerms(r, a),
               ContextRow(r, b), DispatchTerms(r, b), CredentialTerms(r, b), BindingTerms(r, b),
               DISPATCH_KEYS, CREDENTIAL_KEYS, BINDING_KEYS);
    ContextDispatchSame(r, a, b);
    ContextCredentialSame(r, a, b);
    ContextBindingSame(r, a, b);
    PresentationDigestIdentifies(r, a.presentation, b.presentation);
  }

  const DISPATCH_KEYS := {F.Schema, F.Version, F.PresentationCanonicalDigest, F.DispatchId, F.DispatchEnvelopeDigest,
                          F.TargetId, F.TargetRef, F.HostId}
  const CREDENTIAL_KEYS := {F.CredentialId, F.CredentialKeyId, F.CredentialFingerprint, F.CredentialAlgorithm,
                            F.CredentialPurpose}
  const BINDING_KEYS := {F.AssociationId, F.PolicyId, F.CandidateAudience, F.InstalledAudience,
                         F.ExpectedFoundationPackage, F.CandidateRoot, F.InstalledRoot}

  lemma ContextInParts(r: Rendering, a: Coordinate)
    ensures InParts(ContextRow(r, a), DispatchTerms(r, a), CredentialTerms(r, a), BindingTerms(r, a),
                    DISPATCH_KEYS, CREDENTIAL_KEYS, BINDING_KEYS)
  {
    assert DispatchTerms(r, a).Keys == DISPATCH_KEYS;
    assert CredentialTerms(r, a).Keys == CREDENTIAL_KEYS;
    BindingTermKeys(r, a);
  }

  lemma BindingTermKeys(r: Rendering, a: Coordinate)
    ensures BindingTerms(r, a).Keys == BINDING_KEYS
  {
  }

  lemma KeysSeparate()
    ensures DISPATCH_KEYS !! CREDENTIAL_KEYS && DISPATCH_KEYS !! BINDING_KEYS && CREDENTIAL_KEYS !! BINDING_KEYS
  {
  }

  lemma ContextDispatchSame(r: Rendering, a: Coordinate, b: Coordinate)
    requires Faithful(r) && SameRow(DispatchTerms(r, a), DispatchTerms(r, b))
    ensures PresentationDigest(r, a.presentation) == PresentationDigest(r, b.presentation)
    ensures a.dispatchId == b.dispatchId && a.envelopeDigest == b.envelopeDigest
    ensures a.target == b.target && a.targetRef == b.targetRef && a.hostId == b.hostId
  {
    DispatchDigestsSame(r, a, b);
    var m, n := DispatchTerms(r, a), DispatchTerms(r, b);
    TextAt(m, n, F.DispatchId, a.dispatchId, b.dispatchId);
    TextAt(m, n, F.TargetId, r.uuid(a.target), r.uuid(b.target));
    TextAt(m, n, F.TargetRef, a.targetRef, b.targetRef);
    TextAt(m, n, F.HostId, a.hostId, b.hostId);
  }

  lemma DispatchDigestsSame(r: Rendering, a: Coordinate, b: Coordinate)
    requires SameRow(DispatchTerms(r, a), DispatchTerms(r, b))
    ensures PresentationDigest(r, a.presentation) == PresentationDigest(r, b.presentation)
    ensures a.envelopeDigest == b.envelopeDigest
  {
    var m, n := DispatchTerms(r, a), DispatchTerms(r, b);
    TextAt(m, n, F.PresentationCanonicalDigest, PresentationDigest(r, a.presentation),
           PresentationDigest(r, b.presentation));
    TextAt(m, n, F.DispatchEnvelopeDigest, a.envelopeDigest, b.envelopeDigest);
  }

  lemma ContextCredentialSame(r: Rendering, a: Coordinate, b: Coordinate)
    requires Faithful(r) && SameRow(CredentialTerms(r, a), CredentialTerms(r, b))
    ensures a.credentialId == b.credentialId && a.credentialKeyId == b.credentialKeyId
    ensures a.credentialFingerprint == b.credentialFingerprint && a.credentialAlgorithm == b.credentialAlgorithm
    ensures a.credentialPurpose == b.credentialPurpose
  {
    var m, n := CredentialTerms(r, a), CredentialTerms(r, b);
    TextAt(m, n, F.CredentialId, r.uuid(a.credentialId), r.uuid(b.credentialId));
    TextAt(m, n, F.CredentialKeyId, a.credentialKeyId, b.credentialKeyId);
    TextAt(m, n, F.CredentialFingerprint, a.credentialFingerprint, b.credentialFingerprint);
    TextAt(m, n, F.CredentialAlgorithm, a.credentialAlgorithm, b.credentialAlgorithm);
    TextAt(m, n, F.CredentialPurpose, a.credentialPurpose, b.credentialPurpose);
  }

  lemma ContextBindingSame(r: Rendering, a: Coordinate, b: Coordinate)
    requires Faithful(r) && SameRow(BindingTerms(r, a), BindingTerms(r, b))
    ensures a.associationId == b.associationId && a.policyId == b.policyId && a.package == b.package
    ensures a.candidateAudience == b.candidateAudience && a.installedAudience == b.installedAudience
    ensures a.candidateRoot == b.candidateRoot && a.installedRoot == b.installedRoot
  {
    BindingIdsSame(r, a, b);
    BindingTextsSame(r, a, b);
    ContextRootsSame(r, a, b);
  }

  lemma BindingIdsSame(r: Rendering, a: Coordinate, b: Coordinate)
    requires Faithful(r) && SameRow(BindingTerms(r, a), BindingTerms(r, b))
    ensures a.associationId == b.associationId && a.policyId == b.policyId
  {
    var m, n := BindingTerms(r, a), BindingTerms(r, b);
    TextAt(m, n, F.AssociationId, r.uuid(a.associationId), r.uuid(b.associationId));
    TextAt(m, n, F.PolicyId, r.uuid(a.policyId), r.uuid(b.policyId));
  }

  lemma BindingTextsSame(r: Rendering, a: Coordinate, b: Coordinate)
    requires SameRow(BindingTerms(r, a), BindingTerms(r, b))
    ensures a.candidateAudience == b.candidateAudience && a.installedAudience == b.installedAudience
    ensures a.package == b.package
  {
    var m, n := BindingTerms(r, a), BindingTerms(r, b);
    TextAt(m, n, F.CandidateAudience, a.candidateAudience, b.candidateAudience);
    TextAt(m, n, F.InstalledAudience, a.installedAudience, b.installedAudience);
    TextAt(m, n, F.ExpectedFoundationPackage, a.package, b.package);
  }

  lemma RootEntriesSame(r: Rendering, a: Coordinate, b: Coordinate)
    requires SameRow(BindingTerms(r, a), BindingTerms(r, b))
    ensures SameValue(Doc(RootRow(r, a.candidateRoot)), Doc(RootRow(r, b.candidateRoot)))
    ensures SameValue(Doc(RootRow(r, a.installedRoot)), Doc(RootRow(r, b.installedRoot)))
  {
    var m, n := BindingTerms(r, a), BindingTerms(r, b);
    assert SameValue(m[F.CandidateRoot], n[F.CandidateRoot]) && SameValue(m[F.InstalledRoot], n[F.InstalledRoot]);
  }

  lemma ContextRootsSame(r: Rendering, a: Coordinate, b: Coordinate)
    requires Faithful(r) && SameRow(BindingTerms(r, a), BindingTerms(r, b))
    ensures a.candidateRoot == b.candidateRoot && a.installedRoot == b.installedRoot
  {
    RootEntriesSame(r, a, b);
    DocSame(RootRow(r, a.candidateRoot), RootRow(r, b.candidateRoot));
    DocSame(RootRow(r, a.installedRoot), RootRow(r, b.installedRoot));
    RootSame(r, a.candidateRoot, b.candidateRoot);
    RootSame(r, a.installedRoot, b.installedRoot);
  }

  lemma AdmittedDigest(env: Env, w: World, ctx: Context, e: ForeignEvidence, x: Execution, now: Instant)
    requires Admit(env, w, ctx, e, x, now).Success?
    ensures Rederive(env, w, ctx, now).Success?
    ensures env.contextDigest(Rederive(env, w, ctx, now).value) == ctx.digest
  {
  }

  /** The finaliser, using this digest, stages only what re-derives to the very coordinate the digest was taken over. */
  lemma AdmittedCoordinate(env: Env, r: Rendering, w: World, ctx: Context, original: Coordinate, e: ForeignEvidence,
                           x: Execution, now: Instant)
    requires forall a :: env.contextDigest(a) == Digest(r, a)
    requires ctx.digest == Digest(r, original)
    requires Admit(env, w, ctx, e, x, now).Success?
    ensures Rederive(env, w, ctx, now).Success?
    ensures var a := Rederive(env, w, ctx, now).value;
            Faithful(r) && PlainCoordinate(r, a) && PlainCoordinate(r, original)
            && TellsApart(r.sha, ContextBytes(r, a), ContextBytes(r, original))
            && TellsApart(r.sha, PresentationBytes(r, a.presentation), PresentationBytes(r, original.presentation))
            ==> a == original
  {
    AdmittedDigest(env, w, ctx, e, x, now);
    var a := Rederive(env, w, ctx, now).value;
    if Faithful(r) && PlainCoordinate(r, a) && PlainCoordinate(r, original)
       && TellsApart(r.sha, ContextBytes(r, a), ContextBytes(r, original))
       && TellsApart(r.sha, PresentationBytes(r, a.presentation), PresentationBytes(r, original.presentation)) {
      ContextDigestIdentifies(r, a, original);
    }
  }
}
