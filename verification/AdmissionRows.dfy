/**
 Resolving and admitting a host row by row: what a context that was resolved says, and what an admission shows, field
 by field and in terms of the tables, the literals and the instants alone.
 */
module AdmissionRows {
  import opened Prelude
  import opened Texts
  import opened TrustRegistry
  import opened RegistryRows
  import opened HostAdmissionService
  import opened HostAdmissionRows
  import opened HostAdmissionCoordinator
  import IntervalStability

  // ---------------------------------------------------------------- credential and presentation

  /** The only credential with this key id. */
  ghost predicate Alone(w: World, keyId: Text, id: RowId) {
    && id in w.credentials && w.credentials[id].keyId == keyId
    && forall c :: c in w.credentials && w.credentials[c].keyId == keyId ==> c == id
  }

  /** The only credential with the presentation's key id has its terms, and the signature verifies under it. */
  ghost predicate Authenticates(env: Env, w: World, p: Presentation, id: RowId) {
    && Alone(w, p.keyId, id)
    && w.credentials[id].algorithm.Some? && w.credentials[id].purpose.Some?
    && env.verify(p, w.credentials[id].algorithm.value, w.credentials[id].fingerprint, w.credentials[id].publicKey)
  }

  /** At most five minutes long, begun and not over. */
  ghost predicate Live(p: Presentation, now: Instant) {
    0 < p.expiresAt - p.issuedAt <= 5 * 60 * 1_000_000 && p.issuedAt <= now < p.expiresAt
  }

  /** Active, activated, not retired and not revoked at this instant. */
  ghost predicate InUse(c: Credential, now: Instant) {
    && c.statusActive
    && c.activatedAt != None && c.activatedAt.value <= now
    && (c.retiredAt == None || now < c.retiredAt.value)
    && (c.revokedAt == None || now < c.revokedAt.value)
  }

  lemma InUseExact(c: Credential, now: Instant)
    ensures CredentialActive(c, now) <==> InUse(c, now)
  {
  }

  lemma AloneExact(w: World, keyId: Text, id: RowId)
    ensures CredentialByKeyId(w, keyId) == Some(id) <==> Alone(w, keyId, id)
    ensures CredentialByKeyId(w, keyId).Some? ==> Alone(w, keyId, CredentialByKeyId(w, keyId).value)
  {
    var found := WithKeyId(w, keyId);
    if CredentialByKeyId(w, keyId).Some? {
      SingletonOf(found, CredentialByKeyId(w, keyId).value);
      assert forall c :: c in w.credentials && w.credentials[c].keyId == keyId ==> c in found;
    }
    if Alone(w, keyId, id) {
      assert id in found;
      SingletonOf(found, id);
      assert found == {id};
    }
  }

  // ---------------------------------------------------------------- roots

  function CandidateOf(name: Text): Subject { Subject(domain := T("candidate_release_signer"), name := name) }

  function AttesterOf(name: Text): Subject { Subject(domain := T("host_attester"), name := name) }

  /** The subject's one open enrolment, named by the current-root row, inside its window, column by column. */
  ghost predicate RootStands(env: Env, t: Tables, s: Subject, purpose: Text, now: Instant, c: RootContext) {
    && s in t.current
    && var f := t.current[s];
       && OneOpen(t, s, f) && env.digest(t.enrolments[f].publicKey) == Some(f)
       && var e := t.enrolments[f];
          && e.id in t.descriptors
          && var d := t.descriptors[e.id];
             && d.purpose == purpose && e.enrolledAt <= now < d.notAfter
             && c == RootContext(
                  subject := s, issuer := d.issuer, keyId := d.keyId, purpose := d.purpose, version := e.id,
                  notBefore := e.enrolledAt, notAfter := d.notAfter, algorithm := e.algorithm,
                  publicKeyBase64 := env.keyBase64(e.publicKey), fingerprint := f)
  }

  lemma OneOpenOnly(t: Tables, s: Subject, f: Fingerprint)
    ensures OneOpen(t, s, f) <==> OpenRow(t, s, f) && !TwoOpen(t, s)
  {
    if OneOpen(t, s, f) {
      assert forall g, h :: OpenRow(t, s, g) && OpenRow(t, s, h) ==> g == h;
    }
  }

  /** How the root of a subject is answered. */
  lemma RootAnswer(env: Env, w: World, s: Subject, purpose: Text, now: Instant)
    ensures ResolveRoot(env, w, s, purpose, now)
            == var r := ResolveAdmissionRoot(w.registry, env.digest, s);
               if r.Failure? then Failure(ROOT_REFUSED)
               else if r.value.descriptor.purpose != purpose then Failure(ROOT_PURPOSE_MISMATCH)
               else if now < r.value.root.enrolledAt then Failure(ROOT_NOT_YET_VALID)
               else if r.value.descriptor.notAfter <= now then Failure(ROOT_EXPIRED)
               else Success(RootContext(
                 subject := s, issuer := r.value.descriptor.issuer, keyId := r.value.descriptor.keyId,
                 purpose := purpose, version := r.value.version, notBefore := r.value.root.enrolledAt,
                 notAfter := r.value.descriptor.notAfter, algorithm := r.value.root.algorithm,
                 publicKeyBase64 := env.keyBase64(r.value.root.publicKey), fingerprint := r.value.root.fingerprint))
  {
    ResolveAnswer(w.registry, env.digest, s);
  }

  lemma RootStandsExact(env: Env, w: World, s: Subject, purpose: Text, now: Instant, c: RootContext)
    ensures ResolveRoot(env, w, s, purpose, now) == Success(c) <==> RootStands(env, w.registry, s, purpose, now, c)
  {
    RootAnswer(env, w, s, purpose, now);
    ResolveAnswer(w.registry, env.digest, s);
    if s in w.registry.current {
      OneOpenOnly(w.registry, s, w.registry.current[s]);
    }
  }

  // ---------------------------------------------------------------- the resolver

  ghost predicate CredentialStands(env: Env, w: World, p: Presentation, now: Instant, id: RowId) {
    && Authenticates(env, w, p, id) && Live(p, now)
    && var c := w.credentials[id];
       && c.target in w.bindings.targets
       && c.purpose == Some(T("dotmac.control.host-admission-presentation.v1"))
       && InUse(c, now) && env.digest(c.publicKey) == Some(c.fingerprint)
  }

  ghost predicate CredentialNamed(c: Credential, at: Coordinate) {
    && c.target == at.target && c.keyId == at.credentialKeyId && c.fingerprint == at.credentialFingerprint
    && c.algorithm == Some(at.credentialAlgorithm) && c.purpose == Some(at.credentialPurpose)
  }

  /** Host, policy and both roots of the target, as the coordinate names them. */
  ghost predicate TargetStands(env: Env, w: World, now: Instant, at: Coordinate) {
    var b := w.bindings;
    && at.target in b.targets && b.targets[at.target] == at.targetRef
    && HostIs(b, at.target, at.associationId) && PolicyIs(b, at.target, at.policyId)
    && var a, p := b.associations[at.associationId], b.policies[at.policyId];
       && at.hostId == a.hostId && at.candidateAudience == p.candidateAudience
       && at.installedAudience == p.installedAudience && at.package == p.package
       && RootStands(env, w.registry, CandidateOf(p.candidateSubject), T("dotmac.foundation.candidate-artifact.v2"),
                     now, at.candidateRoot)
       && RootStands(env, w.registry, AttesterOf(a.hostId), T("dotmac.foundation.installed-host.v2"), now,
                     at.installedRoot)
  }

  ghost predicate DispatchStands(w: World, attempt: RowId, at: Coordinate) {
    && attempt in w.dispatches && w.dispatches[attempt].Some?
    && w.dispatches[attempt].value.target == at.target
    && w.dispatches[attempt].value.dispatchId == at.dispatchId
    && w.dispatches[attempt].value.envelopeDigest == at.envelopeDigest
  }

  /** A context is resolved exactly when every part of it stands in the rows, inside every window. */
  lemma ResolveWritten(env: Env, w: World, attempt: RowId, p: Presentation, now: Instant, ctx: Context)
    ensures Resolve(env, w, attempt, p, now) == Success(ctx) <==>
            && ctx == Context(attempt := attempt, at := ctx.at, digest := env.contextDigest(ctx.at))
            && CredentialStands(env, w, p, now, ctx.at.credentialId)
            && CredentialNamed(w.credentials[ctx.at.credentialId], ctx.at)
            && TargetStands(env, w, now, ctx.at)
            && w.bindings.policies[ctx.at.policyId].association == ctx.at.associationId
            && DispatchStands(w, attempt, ctx.at) && p.dispatchId == ctx.at.dispatchId && ctx.at.presentation == p
  {
    var id := ctx.at.credentialId;
    ResolveGuards(env, w, attempt, p, now, id);
    if CredentialStands(env, w, p, now, id) {
      FactsWritten(env, w, attempt, p, id, w.credentials[id], now, ctx);
    }
    if Resolve(env, w, attempt, p, now) == Success(ctx) {
      ResolvedCredential(env, w, attempt, p, now);
    }
  }

  lemma ResolveGuards(env: Env, w: World, attempt: RowId, p: Presentation, now: Instant, id: RowId)
    ensures CredentialStands(env, w, p, now, id) ==>
              Resolve(env, w, attempt, p, now) == ResolveFacts(env, w, attempt, p, id, w.credentials[id], now)
    ensures Resolve(env, w, attempt, p, now).Success? && CredentialByKeyId(w, p.keyId) == Some(id) ==>
              CredentialStands(env, w, p, now, id)
  {
    AloneExact(w, p.keyId, id);
    if Alone(w, p.keyId, id) {
      InUseExact(w.credentials[id], now);
    }
  }

  lemma ResolvedCredential(env: Env, w: World, attempt: RowId, p: Presentation, now: Instant)
    requires Resolve(env, w, attempt, p, now).Success?
    ensures CredentialByKeyId(w, p.keyId) == Some(Resolve(env, w, attempt, p, now).value.at.credentialId)
  {
    var id := CredentialByKeyId(w, p.keyId).value;
    ResolveGuards(env, w, attempt, p, now, id);
    var c := w.credentials[id];
    assert ResolveFacts(env, w, attempt, p, id, c, now).value.at.credentialId == id;
  }

  lemma FactsWritten(env: Env, w: World, attempt: RowId, p: Presentation, id: RowId, c: Credential, now: Instant,
                     ctx: Context)
    requires c.algorithm.Some? && c.purpose.Some? && c.target in w.bindings.targets
    ensures ResolveFacts(env, w, attempt, p, id, c, now) == Success(ctx) <==>
            && ctx == Context(attempt := attempt, at := ctx.at, digest := env.contextDigest(ctx.at))
            && ctx.at.credentialId == id && CredentialNamed(c, ctx.at) && TargetStands(env, w, now, ctx.at)
            && w.bindings.policies[ctx.at.policyId].association == ctx.at.associationId
            && DispatchStands(w, attempt, ctx.at) && p.dispatchId == ctx.at.dispatchId && ctx.at.presentation == p
  {
    TargetRead(env, w, now, c.target, ctx.at);
  }

  /** The target's rows are read as the coordinate names them. */
  lemma TargetRead(env: Env, w: World, now: Instant, target: RowId, at: Coordinate)
    requires target in w.bindings.targets
    ensures var host, policy := CurrentHost(w.bindings, target), CurrentPolicy(w.bindings, target);
            at.target == target && TargetStands(env, w, now, at) <==>
            && at.target == target && at.targetRef == w.bindings.targets[target]
            && host.Success? && policy.Success?
            && host.value.associationId == at.associationId && policy.value.policyId == at.policyId
            && at.hostId == host.value.row.hostId && at.candidateAudience == policy.value.row.candidateAudience
            && at.installedAudience == policy.value.row.installedAudience && at.package == policy.value.row.package
            && ResolveRoot(env, w, CandidateSubject(policy.value), CandidatePurpose(), now)
               == Success(at.candidateRoot)
            && ResolveRoot(env, w, InstalledSubject(host.value), InstalledPurpose(), now) == Success(at.installedRoot)
  {
    HostIsExact(w.bindings, target, at.associationId);
    PolicyIsExact(w.bindings, target, at.policyId);
    if CurrentHost(w.bindings, target).Success? && CurrentPolicy(w.bindings, target).Success? {
      var host, policy := CurrentHost(w.bindings, target).value, CurrentPolicy(w.bindings, target).value;
      RootStandsExact(env, w, CandidateOf(policy.row.candidateSubject), T("dotmac.foundation.candidate-artifact.v2"),
                      now, at.candidateRoot);
      RootStandsExact(env, w, AttesterOf(host.row.hostId), T("dotmac.foundation.installed-host.v2"), now,
                      at.installedRoot);
    }
  }

  /** Why nothing is resolved, when no credential with its terms has the presentation's key id alone. */
  lemma ResolveUnknown(env: Env, w: World, attempt: RowId, p: Presentation, now: Instant)
    requires forall id :: Alone(w, p.keyId, id) ==>
               w.credentials[id].algorithm == None || w.credentials[id].purpose == None
    ensures Resolve(env, w, attempt, p, now) == Failure(AUTHENTICATION_FAILED)
  {
    if CredentialByKeyId(w, p.keyId).Some? {
      AloneExact(w, p.keyId, CredentialByKeyId(w, p.keyId).value);
    }
  }

  /** Why nothing is resolved under a known credential: the first of the checks, in this order, that fails. */
  lemma ResolveRefusal(env: Env, w: World, attempt: RowId, p: Presentation, now: Instant, id: RowId)
    requires Alone(w, p.keyId, id) && w.credentials[id].algorithm.Some? && w.credentials[id].purpose.Some?
    requires Resolve(env, w, attempt, p, now).Failure?
    ensures var c, r := w.credentials[id], Resolve(env, w, attempt, p, now);
            r == if !env.verify(p, c.algorithm.value, c.fingerprint, c.publicKey) then Failure(SIGNATURE_INVALID)
                 else if !(0 < p.expiresAt - p.issuedAt <= 5 * 60 * 1_000_000) then Failure(LIFETIME_INVALID)
                 else if now < p.issuedAt then Failure(NOT_YET_VALID)
                 else if p.expiresAt <= now then Failure(EXPIRED)
                 else if c.target !in w.bindings.targets then Failure(TARGET_MISMATCH)
                 else if c.purpose.value != T("dotmac.control.host-admission-presentation.v1")
                 then Failure(CREDENTIAL_PURPOSE_MISMATCH)
                 else if !InUse(c, now) then Failure(CREDENTIAL_NOT_ACTIVE)
                 else if env.digest(c.publicKey) != Some(c.fingerprint) then Failure(CREDENTIAL_CHANGED)
                 else Failure(FactsRefusal(env, w, attempt, c.target, now))
  {
    AloneExact(w, p.keyId, id);
    InUseExact(w.credentials[id], now);
    if CredentialStands(env, w, p, now, id) {
      FactsRefused(env, w, attempt, p, id, w.credentials[id], now);
    }
  }

  /** The refusal that the target's own facts earn, in the order they are read. */
  ghost function FactsRefusal(env: Env, w: World, attempt: RowId, target: RowId, now: Instant): AdmissionRefusal {
    var host, policy := CurrentHost(w.bindings, target), CurrentPolicy(w.bindings, target);
    if host.Failure? then STATE_REFUSED(host.error)
    else if policy.Failure? then STATE_REFUSED(policy.error)
    else if policy.value.row.association != host.value.associationId then POLICY_HOST_MISMATCH
    else
      var candidate := ResolveRoot(env, w, CandidateOf(policy.value.row.candidateSubject),
                                   T("dotmac.foundation.candidate-artifact.v2"), now);
      var installed := ResolveRoot(env, w, AttesterOf(host.value.row.hostId),
                                   T("dotmac.foundation.installed-host.v2"), now);
      if candidate.Failure? then candidate.error
      else if installed.Failure? then installed.error
      else if attempt !in w.dispatches || w.dispatches[attempt] == None then DISPATCH_MISMATCH
      else if w.dispatches[attempt].value.target != target then TARGET_MISMATCH
      else DISPATCH_MISMATCH
  }

  lemma FactsRefused(env: Env, w: World, attempt: RowId, p: Presentation, id: RowId, c: Credential, now: Instant)
    requires c.algorithm.Some? && c.purpose.Some? && c.target in w.bindings.targets
    requires ResolveFacts(env, w, attempt, p, id, c, now).Failure?
    ensures ResolveFacts(env, w, attempt, p, id, c, now) == Failure(FactsRefusal(env, w, attempt, c.target, now))
  {
  }

  // ---------------------------------------------------------------- the finaliser

  ghost predicate ExecutionIs(env: Env, ctx: Context, x: Execution) {
    && x.dispatchId == ctx.at.dispatchId && x.dispatchId == env.uuidText(ctx.attempt)
    && x.targetId == env.uuidText(ctx.at.target) && x.targetRef == ctx.at.targetRef
  }

  ghost predicate RootReported(r: ForeignRoot, c: RootContext) {
    && r.fingerprint == c.fingerprint && r.version == c.version && r.keyId == c.keyId && r.algorithm == c.algorithm
    && r.purpose == c.purpose && r.domain == c.subject.domain && r.issuer == c.issuer
  }

  /** The ten fields of the evidence. */
  ghost predicate EvidenceReports(ctx: Context, e: ForeignEvidence) {
    && e.contextDigest == ctx.digest && e.hostId == ctx.at.hostId && e.observationId == ctx.at.dispatchId
    && e.package == ctx.at.package && e.candidateAudience == ctx.at.candidateAudience
    && e.installedAudience == ctx.at.installedAudience
    && e.candidateDigest == ctx.at.presentation.candidateDigest
    && e.installedDigest == ctx.at.presentation.installedDigest
    && RootReported(e.candidateRoot, ctx.at.candidateRoot) && RootReported(e.installedRoot, ctx.at.installedRoot)
  }

  /** The credential row the context names is still that key, under that purpose, and in use. */
  ghost predicate CredentialKept(w: World, at: Coordinate, now: Instant) {
    && at.credentialId in w.credentials
    && var c := w.credentials[at.credentialId];
       && c.keyId == at.credentialKeyId && c.fingerprint == at.credentialFingerprint
       && c.purpose == Some(at.credentialPurpose) && InUse(c, now)
  }

  /** The row the pointer of the target names is the one the context names, and so for the policy. */
  ghost predicate PointersKept(b: Bindings, at: Coordinate) {
    HostIs(b, at.target, at.associationId) && PolicyIs(b, at.target, at.policyId)
  }

  ghost predicate RootsKept(env: Env, w: World, at: Coordinate, now: Instant)
    requires PointersKept(w.bindings, at)
  {
    && RootStands(env, w.registry, CandidateOf(w.bindings.policies[at.policyId].candidateSubject),
                  T("dotmac.foundation.candidate-artifact.v2"), now, at.candidateRoot)
    && RootStands(env, w.registry, AttesterOf(w.bindings.associations[at.associationId].hostId),
                  T("dotmac.foundation.installed-host.v2"), now, at.installedRoot)
  }

  /** The coordinate that the rows give now. */
  ghost function Refreshed(w: World, at: Coordinate): Coordinate
    requires PointersKept(w.bindings, at) && at.credentialId in w.credentials
    requires w.credentials[at.credentialId].algorithm.Some?
  {
    var a, p := w.bindings.associations[at.associationId], w.bindings.policies[at.policyId];
    at.(hostId := a.hostId, credentialAlgorithm := w.credentials[at.credentialId].algorithm.value,
        candidateAudience := p.candidateAudience, installedAudience := p.installedAudience, package := p.package)
  }

  /** The re-derivation succeeds exactly when every row the context names is still what it names, inside its windows. */
  ghost predicate Rederivable(env: Env, w: World, ctx: Context, now: Instant) {
    var at := ctx.at;
    && at.target in w.bindings.targets && w.bindings.targets[at.target] == at.targetRef
    && CredentialKept(w, at, now) && w.credentials[at.credentialId].algorithm.Some?
    && PointersKept(w.bindings, at) && RootsKept(env, w, at, now) && DispatchStands(w, ctx.attempt, at)
  }

  lemma IdentityWritten(w: World, ctx: Context, now: Instant)
    ensures IdentityFault(w, ctx, now) == None <==>
            ctx.at.target in w.bindings.targets && w.bindings.targets[ctx.at.target] == ctx.at.targetRef
            && CredentialKept(w, ctx.at, now)
  {
    if ctx.at.credentialId in w.credentials {
      InUseExact(w.credentials[ctx.at.credentialId], now);
    }
  }

  lemma PointersWritten(b: Bindings, at: Coordinate)
    ensures PointerFacts(b, at).Success? <==> PointersKept(b, at)
    ensures PointersKept(b, at) ==>
              PointerFacts(b, at) == Success((HostView(at.associationId, b.associations[at.associationId]),
                                              PolicyView(at.policyId, b.policies[at.policyId])))
  {
    HostIsExact(b, at.target, at.associationId);
    PolicyIsExact(b, at.target, at.policyId);
  }

  lemma AfterLocksWritten(env: Env, w: World, ctx: Context, now: Instant)
    requires ctx.at.target in w.bindings.targets && w.bindings.targets[ctx.at.target] == ctx.at.targetRef
    requires CredentialKept(w, ctx.at, now) && PointersKept(w.bindings, ctx.at)
    ensures var at, b, c := ctx.at, w.bindings, w.credentials[ctx.at.credentialId];
            var r := AfterLocks(env, w, ctx, HostView(at.associationId, b.associations[at.associationId]),
                                PolicyView(at.policyId, b.policies[at.policyId]), c, now);
            && (r.Success? <==> RootsKept(env, w, at, now) && DispatchStands(w, ctx.attempt, at) && c.algorithm.Some?)
            && (r.Success? ==> r.value == Refreshed(w, at))
  {
    var at := ctx.at;
    RootStandsExact(env, w, CandidateOf(w.bindings.policies[at.policyId].candidateSubject),
                    T("dotmac.foundation.candidate-artifact.v2"), now, at.candidateRoot);
    RootStandsExact(env, w, AttesterOf(w.bindings.associations[at.associationId].hostId),
                    T("dotmac.foundation.installed-host.v2"), now, at.installedRoot);
  }

  lemma RederiveWritten(env: Env, w: World, ctx: Context, now: Instant)
    ensures Rederive(env, w, ctx, now).Success? <==> Rederivable(env, w, ctx, now)
    ensures Rederive(env, w, ctx, now).Success? ==> Rederive(env, w, ctx, now).value == Refreshed(w, ctx.at)
  {
    IdentityWritten(w, ctx, now);
    PointersWritten(w.bindings, ctx.at);
    if IdentityFault(w, ctx, now) == None && PointersKept(w.bindings, ctx.at) {
      AfterLocksWritten(env, w, ctx, now);
    }
  }

  /** A context is admitted exactly when the execution names it, the presentation is live and its signature verifies
      under the one credential of its key id, every row is still what the context names, the digest over those rows is
      the context's, and all ten fields of the evidence report the context.  The answer is then its attempt. */
  lemma AdmitWritten(env: Env, w: World, ctx: Context, e: ForeignEvidence, x: Execution, now: Instant)
    ensures Admit(env, w, ctx, e, x, now).Success? <==>
            && ExecutionIs(env, ctx, x) && Live(ctx.at.presentation, now)
            && (exists id :: Authenticates(env, w, ctx.at.presentation, id))
            && Rederivable(env, w, ctx, now) && env.contextDigest(Refreshed(w, ctx.at)) == ctx.digest
            && EvidenceReports(ctx, e)
    ensures Admit(env, w, ctx, e, x, now).Success? ==> Admit(env, w, ctx, e, x, now) == Success(ctx.attempt)
  {
    AdmitSteps(env, w, ctx, e, x, now);
    RederiveWritten(env, w, ctx, now);
    VerifiedWritten(env, w, ctx.at.presentation, now);
    ReportedExact(ctx, e);
  }

  lemma AdmitSteps(env: Env, w: World, ctx: Context, e: ForeignEvidence, x: Execution, now: Instant)
    ensures Admit(env, w, ctx, e, x, now).Success? <==>
            && ExecutionIs(env, ctx, x) && now < ctx.at.presentation.expiresAt
            && Verified(env, w, ctx.at.presentation, now)
            && Rederive(env, w, ctx, now).Success?
            && env.contextDigest(Rederive(env, w, ctx, now).value) == ctx.digest
            && e.contextDigest == ctx.digest && SemanticEvidenceOk(ctx, e)
            && e.candidateDigest == ctx.at.presentation.candidateDigest
            && e.installedDigest == ctx.at.presentation.installedDigest
    ensures Admit(env, w, ctx, e, x, now).Success? ==> Admit(env, w, ctx, e, x, now) == Success(ctx.attempt)
  {
  }

  ghost predicate Verified(env: Env, w: World, p: Presentation, now: Instant) {
    var found := CredentialByKeyId(w, p.keyId);
    found.Some? && VerifyPresentation(env, p, w.credentials[found.value], now) == None
  }

  lemma VerifiedWritten(env: Env, w: World, p: Presentation, now: Instant)
    ensures Verified(env, w, p, now) <==> Live(p, now) && exists id :: Authenticates(env, w, p, id)
  {
    var found := CredentialByKeyId(w, p.keyId);
    if Verified(env, w, p, now) {
      AloneExact(w, p.keyId, found.value);
      assert Authenticates(env, w, p, found.value);
    }
    if id :| Authenticates(env, w, p, id) {
      AloneExact(w, p.keyId, id);
    }
  }

  lemma ReportedExact(ctx: Context, e: ForeignEvidence)
    ensures EvidenceReports(ctx, e) <==>
            && e.contextDigest == ctx.digest && SemanticEvidenceOk(ctx, e)
            && e.candidateDigest == ctx.at.presentation.candidateDigest
            && e.installedDigest == ctx.at.presentation.installedDigest
  {
  }

  /** Why an admission is refused when no credential with its terms has the presentation's key id alone. */
  lemma AdmitUnknown(env: Env, w: World, ctx: Context, e: ForeignEvidence, x: Execution, now: Instant)
    requires forall id :: Alone(w, ctx.at.presentation.keyId, id) ==>
               w.credentials[id].algorithm == None || w.credentials[id].purpose == None
    ensures Admit(env, w, ctx, e, x, now)
            == if !ExecutionIs(env, ctx, x) then Failure(DISPATCH_MISMATCH)
               else if ctx.at.presentation.expiresAt <= now then Failure(CONTEXT_EXPIRED)
               else Failure(AUTHENTICATION_FAILED)
  {
    var found := CredentialByKeyId(w, ctx.at.presentation.keyId);
    if found.Some? {
      AloneExact(w, ctx.at.presentation.keyId, found.value);
    }
  }

  /** Why an admission under a known credential is refused: the first of the checks, in this order, that fails. */
  lemma AdmitRefusal(env: Env, w: World, ctx: Context, e: ForeignEvidence, x: Execution, now: Instant, id: RowId)
    requires Alone(w, ctx.at.presentation.keyId, id)
    requires w.credentials[id].algorithm.Some? && w.credentials[id].purpose.Some?
    requires Admit(env, w, ctx, e, x, now).Failure?
    ensures var p, c := ctx.at.presentation, w.credentials[id];
            Admit(env, w, ctx, e, x, now)
            == if !ExecutionIs(env, ctx, x) then Failure(DISPATCH_MISMATCH)
               else if p.expiresAt <= now then Failure(CONTEXT_EXPIRED)
               else if !env.verify(p, c.algorithm.value, c.fingerprint, c.publicKey) then Failure(SIGNATURE_INVALID)
               else if !(0 < p.expiresAt - p.issuedAt <= 5 * 60 * 1_000_000) then Failure(LIFETIME_INVALID)
               else if now < p.issuedAt then Failure(NOT_YET_VALID)
               else if !Rederivable(env, w, ctx, now) then Failure(RowsRefusal(env, w, ctx, now))
               else if env.contextDigest(Refreshed(w, ctx.at)) != ctx.digest then Failure(PREPARED_STATE_CHANGED)
               else if e.contextDigest != ctx.digest then Failure(FOREIGN_EVIDENCE_CONTEXT_MISMATCH)
               else if !EvidenceReports(ctx, e.(candidateDigest := p.candidateDigest,
                                                installedDigest := p.installedDigest))
               then Failure(FOREIGN_EVIDENCE_SEMANTIC_MISMATCH)
               else Failure(EVIDENCE_CHANGED)
  {
    AloneExact(w, ctx.at.presentation.keyId, id);
    RederiveWritten(env, w, ctx, now);
    RowsRefused(env, w, ctx, now);
    ReportedExact(ctx, e);
    ReportedExact(ctx, e.(candidateDigest := ctx.at.presentation.candidateDigest,
                          installedDigest := ctx.at.presentation.installedDigest));
  }

  /** The refusal that a row which is no longer what the context names earns, in the order the rows are read. */
  ghost function RowsRefusal(env: Env, w: World, ctx: Context, now: Instant): AdmissionRefusal {
    var at, b := ctx.at, w.bindings;
    var host, policy := CurrentHost(b, at.target), CurrentPolicy(b, at.target);
    if at.target !in b.targets then STATE_REFUSED(TARGET_NOT_FOUND)
    else if b.targets[at.target] != at.targetRef || !CredentialKept(w, at, now) then PREPARED_STATE_CHANGED
    else if host.Failure? then STATE_REFUSED(host.error)
    else if policy.Failure? then STATE_REFUSED(policy.error)
    else if host.value.associationId != at.associationId || policy.value.policyId != at.policyId
    then PREPARED_STATE_CHANGED
    else
      var candidate := ResolveRoot(env, w, CandidateOf(policy.value.row.candidateSubject),
                                   T("dotmac.foundation.candidate-artifact.v2"), now);
      var installed := ResolveRoot(env, w, AttesterOf(host.value.row.hostId),
                                   T("dotmac.foundation.installed-host.v2"), now);
      if candidate.Failure? then candidate.error
      else if installed.Failure? then installed.error
      else if candidate.value != at.candidateRoot || installed.value != at.installedRoot then PREPARED_STATE_CHANGED
      else if ctx.attempt !in w.dispatches || w.dispatches[ctx.attempt] == None then DISPATCH_MISMATCH
      else if w.dispatches[ctx.attempt].value.target != at.target then TARGET_MISMATCH
      else if !DispatchStands(w, ctx.attempt, at) then PREPARED_STATE_CHANGED
      else CREDENTIAL_CHANGED
  }

  lemma RowsRefused(env: Env, w: World, ctx: Context, now: Instant)
    ensures Rederive(env, w, ctx, now).Failure? ==> Rederive(env, w, ctx, now) == Failure(RowsRefusal(env, w, ctx, now))
  {
    IdentityWritten(w, ctx, now);
  }

  // ---------------------------------------------------------------- what holds in between

  /** The subject's one open enrolment, named by the current-root row, column by column, at whatever instant. */
  ghost predicate RootRecorded(env: Env, t: Tables, s: Subject, c: RootContext) {
    && s in t.current
    && var f := t.current[s];
       && OneOpen(t, s, f) && env.digest(t.enrolments[f].publicKey) == Some(f)
       && var e := t.enrolments[f];
          && e.id in t.descriptors
          && var d := t.descriptors[e.id];
             c == RootContext(
               subject := s, issuer := d.issuer, keyId := d.keyId, purpose := d.purpose, version := e.id,
               notBefore := e.enrolledAt, notAfter := d.notAfter, algorithm := e.algorithm,
               publicKeyBase64 := env.keyBase64(e.publicKey), fingerprint := f)
  }

  lemma RootRecordedExact(env: Env, w: World, s: Subject, c: RootContext)
    ensures IntervalStability.RootIs(env, w, s, c) <==> RootRecorded(env, w.registry, s, c)
  {
    ResolveAnswer(w.registry, env.digest, s);
    if s in w.registry.current {
      OneOpenOnly(w.registry, s, w.registry.current[s]);
    }
  }

  /** What holds of a coordinate throughout an interval: its association and policy are the ones the pointers name, the
      policy is for that association, and both roots are recorded. */
  lemma HoldsWritten(env: Env, w: World, at: Coordinate)
    ensures IntervalStability.Holds(env, w, at) <==>
            && PointersKept(w.bindings, at)
            && var a, p := w.bindings.associations[at.associationId], w.bindings.policies[at.policyId];
               && p.association == at.associationId && a.hostId == at.hostId
               && p.candidateAudience == at.candidateAudience && p.installedAudience == at.installedAudience
               && p.package == at.package
               && RootRecorded(env, w.registry, CandidateOf(p.candidateSubject), at.candidateRoot)
               && RootRecorded(env, w.registry, AttesterOf(a.hostId), at.installedRoot)
  {
    HostIsExact(w.bindings, at.target, at.associationId);
    PolicyIsExact(w.bindings, at.target, at.policyId);
    if PointersKept(w.bindings, at) {
      var a, p := w.bindings.associations[at.associationId], w.bindings.policies[at.policyId];
      RootRecordedExact(env, w, CandidateOf(p.candidateSubject), at.candidateRoot);
      RootRecordedExact(env, w, AttesterOf(a.hostId), at.installedRoot);
    }
  }
}
