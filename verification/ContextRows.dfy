/**
 The preimages of the presentation digest and of the context digest entry by entry: which value stands under which key.
 Every document has one entry for each field of its row, under that field's key (ImageRows.DocUnder and DocSize).
 */
module ContextRows {
  import opened Texts
  import opened CanonicalJson
  import opened KeyEncoding
  import opened Fields
  import opened HostAdmissionCoordinator
  import opened ContextDigest
  import F = FieldNames

  ghost predicate Says(m: Row, f: F.Field, t: Text) { f in m && m[f] == Str(t) }

  // ---------------------------------------------------------------- the presentation

  /** The eleven entries of a presentation's statement: the four that are fixed, */
  lemma StatementHeader(r: Rendering, p: Presentation)
    ensures var m := StatementRow(r, p);
            && m.Keys == {
              F.Schema, F.Version, F.Purpose, F.Audience, F.PresentationId, F.KeyId, F.DispatchId,
              F.CandidateAttestationEnvelopeDigest, F.InstalledAttestationEnvelopeDigest, F.IssuedAt, F.ExpiresAt}
            && m[F.Version] == Int(1) && Says(m, F.Schema, T("dotmac.control.host-admission-presentation"))
            && Says(m, F.Purpose, T("dotmac.control.host-admission-presentation.v1"))
            && Says(m, F.Audience, T("dotmac.deployment-control"))
  {
  }

  /** and the seven it says. */
  lemma StatementEntries(r: Rendering, p: Presentation)
    ensures var m := StatementRow(r, p);
            && Says(m, F.PresentationId, p.presentationId) && Says(m, F.KeyId, p.keyId)
            && Says(m, F.DispatchId, p.dispatchId)
            && Says(m, F.CandidateAttestationEnvelopeDigest, p.candidateDigest)
            && Says(m, F.InstalledAttestationEnvelopeDigest, p.installedDigest)
            && Says(m, F.IssuedAt, r.instant(p.issuedAt)) && Says(m, F.ExpiresAt, r.instant(p.expiresAt))
  {
  }

  /** The presentation is that statement with its signature, and its digest the hash of the canonical bytes. */
  lemma PresentationEntries(r: Rendering, p: Presentation)
    ensures var m := PresentationRow(r, p);
            && m.Keys == {F.Statement, F.Signature} && m[F.Statement] == Doc(StatementRow(r, p))
            && Says(m, F.Signature, p.signature)
            && PresentationDigest(r, p) == HexText(r.sha(Canonical(Doc(m))))
  {
  }

  // ---------------------------------------------------------------- a root

  /** The thirteen entries of a root: whose it is and what it is for, */
  lemma RootNames(r: Rendering, c: RootContext)
    ensures var m := RootRow(r, c);
            && m.Keys == {
              F.CustodyDomain, F.Subject, F.Issuer, F.KeyId, F.Purpose, F.RootVersion, F.NotBefore, F.NotAfter,
              F.Algorithm, F.PublicKeyBase64, F.PublicKeyFingerprint, F.Standing, F.Revoked}
            && Says(m, F.CustodyDomain, c.subject.domain) && Says(m, F.Subject, c.subject.name)
            && Says(m, F.Issuer, c.issuer) && Says(m, F.KeyId, c.keyId) && Says(m, F.Purpose, c.purpose)
            && Says(m, F.RootVersion, r.uuid(c.version))
  {
  }

  /** its window, its key and its standing. */
  lemma RootKey(r: Rendering, c: RootContext)
    ensures var m := RootRow(r, c);
            && Says(m, F.NotBefore, r.instant(c.notBefore)) && Says(m, F.NotAfter, r.instant(c.notAfter))
            && Says(m, F.Algorithm, c.algorithm) && Says(m, F.PublicKeyBase64, c.publicKeyBase64)
            && Says(m, F.PublicKeyFingerprint, c.fingerprint) && Says(m, F.Standing, T("valid"))
            && F.Revoked in m && m[F.Revoked] == Bool(false)
  {
  }

  // ---------------------------------------------------------------- the context

  /** The twenty entries of a context: the header, the presentation and the dispatch, */
  lemma ContextDispatch(r: Rendering, a: Coordinate)
    ensures var m := DispatchTerms(r, a);
            && Says(m, F.Schema, T("dotmac.control.host-admission-context"))
            && F.Version in m && m[F.Version] == Int(1)
            && Says(m, F.PresentationCanonicalDigest, PresentationDigest(r, a.presentation))
            && Says(m, F.DispatchId, a.dispatchId) && Says(m, F.DispatchEnvelopeDigest, a.envelopeDigest)
            && Says(m, F.TargetId, r.uuid(a.target)) && Says(m, F.TargetRef, a.targetRef)
            && Says(m, F.HostId, a.hostId)
  {
  }

  /** the credential, */
  lemma ContextCredential(r: Rendering, a: Coordinate)
    ensures var m := CredentialTerms(r, a);
            && Says(m, F.CredentialId, r.uuid(a.credentialId)) && Says(m, F.CredentialKeyId, a.credentialKeyId)
            && Says(m, F.CredentialFingerprint, a.credentialFingerprint)
            && Says(m, F.CredentialAlgorithm, a.credentialAlgorithm)
            && Says(m, F.CredentialPurpose, a.credentialPurpose)
  {
  }

  /** the association, the policy and both roots. */
  lemma ContextBinding(r: Rendering, a: Coordinate)
    ensures var m := BindingTerms(r, a);
            && Says(m, F.AssociationId, r.uuid(a.associationId)) && Says(m, F.PolicyId, r.uuid(a.policyId))
            && Says(m, F.CandidateAudience, a.candidateAudience)
            && Says(m, F.InstalledAudience, a.installedAudience)
            && Says(m, F.ExpectedFoundationPackage, a.package)
            && F.CandidateRoot in m && m[F.CandidateRoot] == Doc(RootRow(r, a.candidateRoot))
            && F.InstalledRoot in m && m[F.InstalledRoot] == Doc(RootRow(r, a.installedRoot))
  {
  }

  /** Together they are the whole context. */
  lemma ContextEntries(r: Rendering, a: Coordinate)
    ensures forall f :: f in DispatchTerms(r, a) ==>
              f in ContextRow(r, a) && ContextRow(r, a)[f] == DispatchTerms(r, a)[f]
    ensures forall f :: f in CredentialTerms(r, a) ==>
              f in ContextRow(r, a) && ContextRow(r, a)[f] == CredentialTerms(r, a)[f]
    ensures forall f :: f in BindingTerms(r, a) ==>
              f in ContextRow(r, a) && ContextRow(r, a)[f] == BindingTerms(r, a)[f]
  {
    ContextInParts(r, a);
    KeysSeparate();
    ThreeUnited(DispatchTerms(r, a), CredentialTerms(r, a), BindingTerms(r, a), DISPATCH_KEYS, CREDENTIAL_KEYS,
                BINDING_KEYS);
  }

  lemma ThreeUnited(d: Row, c: Row, b: Row, ds: set<F.Field>, cs: set<F.Field>, bs: set<F.Field>)
    requires d.Keys == ds && c.Keys == cs && b.Keys == bs && ds !! cs && ds !! bs && cs !! bs
    ensures (d + (c + b)).Keys == ds + cs + bs
    ensures forall f :: f in d ==> (d + (c + b))[f] == d[f]
    ensures forall f :: f in c ==> (d + (c + b))[f] == c[f]
    ensures forall f :: f in b ==> (d + (c + b))[f] == b[f]
  {
  }

  /** There are twenty, and the digest is the hash of the canonical bytes. */
  lemma ContextSize(r: Rendering, a: Coordinate)
    ensures |ContextRow(r, a)| == 20 && Digest(r, a) == HexText(r.sha(Canonical(Doc(ContextRow(r, a)))))
  {
    ContextInParts(r, a);
    KeysSeparate();
    Sizes();
    ThreeUnited(DispatchTerms(r, a), CredentialTerms(r, a), BindingTerms(r, a), DISPATCH_KEYS, CREDENTIAL_KEYS,
                BINDING_KEYS);
    assert |ContextRow(r, a)| == |ContextRow(r, a).Keys|;
  }

  lemma Sizes()
    ensures |DISPATCH_KEYS + CREDENTIAL_KEYS + BINDING_KEYS| == 20
  {
    KeysSeparate();
    assert |DISPATCH_KEYS| == 8 && |CREDENTIAL_KEYS| == 5 && |BINDING_KEYS| == 7;
    assert |DISPATCH_KEYS + CREDENTIAL_KEYS| == 13;
  }
}
