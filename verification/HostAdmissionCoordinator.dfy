/**
 The two halves of host admission: resolving a context without locks, and the finaliser that later
 re-derives every fact and compares it with the context before it stages the consumption.
 */
module HostAdmissionCoordinator {
  import opened Prelude
  import opened Texts
  import opened TrustRegistry
  import RegistryReaders
  import opened HostAdmissionService

  // ---------------------------------------------------------------- documents and rows

  datatype Presentation = Presentation(
    presentationId: Text, keyId: Text, dispatchId: Text, candidateDigest: Text, installedDigest: Text,
    issuedAt: Instant, expiresAt: Instant, signature: Text)

  datatype Credential = Credential(
    target: RowId, keyId: Text, algorithm: Option<Text>, purpose: Option<Text>, publicKey: Text,
    fingerprint: Text, statusActive: bool, activatedAt: Option<Instant>, retiredAt: Option<Instant>,
    revokedAt: Option<Instant>)

  datatype StoredDispatch = StoredDispatch(target: RowId, dispatchId: Text, envelopeDigest: Text)

  /** Everything the protocol reads.  A stored dispatch that cannot be parsed is None. */
  datatype World = World(
    bindings: Bindings, registry: Tables, credentials: map<RowId, Credential>,
    dispatches: map<RowId, Option<StoredDispatch>>)

  datatype RootContext = RootContext(
    subject: Subject, issuer: Text, keyId: Text, purpose: Text, version: RowId, notBefore: Instant,
    notAfter: Instant, algorithm: Text, publicKeyBase64: Text, fingerprint: Text)

  /** What the context digest is taken over. */
  datatype Coordinate = Coordinate(
    presentation: Presentation, dispatchId: Text, envelopeDigest: Text, target: RowId, targetRef: Text,
    hostId: Text, credentialId: RowId, credentialKeyId: Text, credentialFingerprint: Text,
    credentialAlgorithm: Text, credentialPurpose: Text, associationId: RowId, policyId: RowId,
    candidateAudience: Text, installedAudience: Text, package: Text, candidateRoot: RootContext,
    installedRoot: RootContext)

  datatype Context = Context(attempt: RowId, at: Coordinate, digest: Text)

  datatype ForeignRoot = ForeignRoot(
    fingerprint: Text, version: RowId, keyId: Text, algorithm: Text, purpose: Text, domain: Text, issuer: Text)

  datatype ForeignEvidence = ForeignEvidence(
    candidateDigest: Text, installedDigest: Text, contextDigest: Text, hostId: Text, observationId: Text,
    package: Text, candidateAudience: Text, installedAudience: Text, candidateRoot: ForeignRoot,
    installedRoot: ForeignRoot)

  /** The verified execution pair, as far as the finaliser compares it. */
  datatype Execution = Execution(dispatchId: Text, targetId: Text, targetRef: Text)

  /** What the protocol is composed with: key digests, the presentation verifier, renderings and the digest. */
  datatype Env = Env(
    digest: KeyDigest,
    verify: (Presentation, Text, Text, Text) -> bool,
    keyBase64: Text -> Text,
    uuidText: RowId -> Text,
    contextDigest: Coordinate -> Text)

  datatype AdmissionRefusal =
    | AUTHENTICATION_FAILED | CREDENTIAL_CHANGED | CREDENTIAL_NOT_ACTIVE | CREDENTIAL_PURPOSE_MISMATCH
    | TARGET_MISMATCH | POLICY_HOST_MISMATCH | DISPATCH_MISMATCH | ROOT_REFUSED | ROOT_NOT_YET_VALID
    | ROOT_EXPIRED | ROOT_PURPOSE_MISMATCH | CONTEXT_EXPIRED | EVIDENCE_CHANGED
    | FOREIGN_EVIDENCE_CONTEXT_MISMATCH | FOREIGN_EVIDENCE_SEMANTIC_MISMATCH | PREPARED_STATE_CHANGED
    | SIGNATURE_INVALID | LIFETIME_INVALID | NOT_YET_VALID | EXPIRED
    | STATE_REFUSED(state: StateRefusal)

  // ---------------------------------------------------------------- shared checks

  function PresentationPurpose(): Text { T("dotmac.control.host-admission-presentation.v1") }

  /** Five minutes, in microseconds. */
  const MAX_LIFETIME := 300_000_000

  /** The credential enrolled under a key id; None when there is not exactly one. */
  ghost function CredentialByKeyId(w: World, keyId: Text): (r: Option<RowId>)
    ensures r.Some? <==> |WithKeyId(w, keyId)| == 1
    ensures r.Some? ==> r.value in WithKeyId(w, keyId)
  {
    if |WithKeyId(w, keyId)| == 1 then
      var c :| c in WithKeyId(w, keyId); Some(c)
    else None
  }

  function WithKeyId(w: World, keyId: Text): set<RowId> {
    set c | c in w.credentials && w.credentials[c].keyId == keyId
  }

  function VerifyPresentation(env: Env, p: Presentation, c: Credential, now: Instant): Option<AdmissionRefusal> {
    if c.algorithm.None? || c.purpose.None? then Some(AUTHENTICATION_FAILED)
    else if !env.verify(p, c.algorithm.value, c.fingerprint, c.publicKey) then Some(SIGNATURE_INVALID)
    else if p.expiresAt <= p.issuedAt || p.expiresAt - p.issuedAt > MAX_LIFETIME then Some(LIFETIME_INVALID)
    else if now < p.issuedAt then Some(NOT_YET_VALID)
    else if now >= p.expiresAt then Some(EXPIRED)
    else None
  }

  predicate CredentialActive(c: Credential, now: Instant) {
    && c.statusActive
    && c.activatedAt.Some? && now >= c.activatedAt.value
    && (c.retiredAt.Some? ==> now < c.retiredAt.value)
    && (c.revokedAt.Some? ==> now < c.revokedAt.value)
  }

  function RootContextOf(env: Env, r: AdmissionRoot, domain: Text, purpose: Text, now: Instant)
    : Result<RootContext, AdmissionRefusal>
  {
    if r.root.subject.domain != domain || r.descriptor.purpose != purpose then Failure(ROOT_PURPOSE_MISMATCH)
    else if now < r.root.enrolledAt then Failure(ROOT_NOT_YET_VALID)
    else if now >= r.descriptor.notAfter then Failure(ROOT_EXPIRED)
    else Success(RootContext(r.root.subject, r.descriptor.issuer, r.descriptor.keyId, purpose, r.version,
                             r.root.enrolledAt, r.descriptor.notAfter, r.root.algorithm,
                             env.keyBase64(r.root.publicKey), r.root.fingerprint))
  }

  function ResolveRoot(env: Env, w: World, s: Subject, purpose: Text, now: Instant)
    : Result<RootContext, AdmissionRefusal>
  {
    match ResolveAdmissionRoot(w.registry, env.digest, s)
    case Failure(_) => Failure(ROOT_REFUSED)
    case Success(r) => RootContextOf(env, r, s.domain, purpose, now)
  }

  function CandidateSubject(p: PolicyView): Subject { Subject(CandidateDomain(), p.row.candidateSubject) }

  function InstalledSubject(h: HostView): Subject { Subject(HostDomain(), h.row.hostId) }

  function RequireStoredDispatch(w: World, attempt: RowId, target: RowId): Result<StoredDispatch, AdmissionRefusal> {
    if attempt !in w.dispatches || w.dispatches[attempt].None? then Failure(DISPATCH_MISMATCH)
    else if w.dispatches[attempt].value.target != target then Failure(TARGET_MISMATCH)
    else Success(w.dispatches[attempt].value)
  }

  function CoordinateOf(p: Presentation, d: StoredDispatch, target: RowId, targetRef: Text, credentialId: RowId,
                        c: Credential, host: HostView, policy: PolicyView, candidate: RootContext,
                        installed: RootContext): Coordinate
    requires c.algorithm.Some? && c.purpose.Some?
  {
    Coordinate(p, d.dispatchId, d.envelopeDigest, target, targetRef, host.row.hostId, credentialId, c.keyId,
               c.fingerprint, c.algorithm.value, c.purpose.value, host.associationId, policy.policyId,
               policy.row.candidateAudience, policy.row.installedAudience, policy.row.package, candidate, installed)
  }

  // ---------------------------------------------------------------- the lock-free resolver

  ghost function Resolve(env: Env, w: World, attempt: RowId, p: Presentation, now: Instant)
    : Result<Context, AdmissionRefusal>
  {
    var found := CredentialByKeyId(w, p.keyId);
    if found.None? || found.value !in w.credentials then Failure(AUTHENTICATION_FAILED)
    else
      var c := w.credentials[found.value];
      var fault := VerifyPresentation(env, p, c, now);
      if fault.Some? then Failure(fault.value)
      else if c.target !in w.bindings.targets then Failure(TARGET_MISMATCH)
      else if c.purpose.value != PresentationPurpose() then Failure(CREDENTIAL_PURPOSE_MISMATCH)
      else if !CredentialActive(c, now) then Failure(CREDENTIAL_NOT_ACTIVE)
      else if env.digest(c.publicKey) != Some(c.fingerprint) then Failure(CREDENTIAL_CHANGED)
      else ResolveFacts(env, w, attempt, p, found.value, c, now)
  }

  /** The facts about the authenticated credential's target. */
  ghost function ResolveFacts(env: Env, w: World, attempt: RowId, p: Presentation, credentialId: RowId,
                              c: Credential, now: Instant): Result<Context, AdmissionRefusal>
    requires c.algorithm.Some? && c.purpose.Some? && c.target in w.bindings.targets
  {
    match (CurrentHost(w.bindings, c.target), CurrentPolicy(w.bindings, c.target))
    case (Failure(e), _) => Failure(STATE_REFUSED(e))
    case (_, Failure(e)) => Failure(STATE_REFUSED(e))
    case (Success(host), Success(policy)) =>
      if policy.row.association != host.associationId then Failure(POLICY_HOST_MISMATCH)
      else
        match (ResolveRoot(env, w, CandidateSubject(policy), CandidatePurpose(), now),
               ResolveRoot(env, w, InstalledSubject(host), InstalledPurpose(), now),
               RequireStoredDispatch(w, attempt, c.target))
        case (Failure(e), _, _) => Failure(e)
        case (_, Failure(e), _) => Failure(e)
        case (_, _, Failure(e)) => Failure(e)
        case (Success(candidate), Success(installed), Success(d)) =>
          if p.dispatchId != d.dispatchId then Failure(DISPATCH_MISMATCH)
          else
            var at := CoordinateOf(p, d, c.target, w.bindings.targets[c.target], credentialId, c, host, policy,
                                   candidate, installed);
            Success(Context(attempt, at, env.contextDigest(at)))
  }

  // ---------------------------------------------------------------- the finaliser

  function ForeignRootOf(r: RootContext): ForeignRoot {
    ForeignRoot(r.fingerprint, r.version, r.keyId, r.algorithm, r.purpose, r.subject.domain, r.issuer)
  }

  predicate SemanticEvidenceOk(ctx: Context, e: ForeignEvidence) {
    && e.hostId == ctx.at.hostId && e.observationId == ctx.at.dispatchId && e.package == ctx.at.package
    && e.candidateAudience == ctx.at.candidateAudience && e.installedAudience == ctx.at.installedAudience
    && e.candidateRoot == ForeignRootOf(ctx.at.candidateRoot)
    && e.installedRoot == ForeignRootOf(ctx.at.installedRoot)
  }

  predicate SameCredential(c: Credential, at: Coordinate, now: Instant) {
    && c.keyId == at.credentialKeyId && c.fingerprint == at.credentialFingerprint
    && c.purpose == Some(at.credentialPurpose) && CredentialActive(c, now)
  }

  /** Why the target or the credential is no longer the context's. */
  function IdentityFault(w: World, ctx: Context, now: Instant): (r: Option<AdmissionRefusal>)
    ensures r.None? ==> ctx.at.target in w.bindings.targets && ctx.at.credentialId in w.credentials
  {
    var at := ctx.at;
    if at.target !in w.bindings.targets then Some(STATE_REFUSED(TARGET_NOT_FOUND))
    else if w.bindings.targets[at.target] != at.targetRef then Some(PREPARED_STATE_CHANGED)
    else if at.credentialId !in w.credentials then Some(PREPARED_STATE_CHANGED)
    else if !SameCredential(w.credentials[at.credentialId], at, now) then Some(PREPARED_STATE_CHANGED)
    else None
  }

  /** Current host and policy, which must be the rows the context names. */
  function PointerFacts(b: Bindings, at: Coordinate): Result<(HostView, PolicyView), AdmissionRefusal> {
    match (CurrentHost(b, at.target), CurrentPolicy(b, at.target))
    case (Failure(e), _) => Failure(STATE_REFUSED(e))
    case (_, Failure(e)) => Failure(STATE_REFUSED(e))
    case (Success(host), Success(policy)) =>
      if host.associationId != at.associationId || policy.policyId != at.policyId then Failure(PREPARED_STATE_CHANGED)
      else Success((host, policy))
  }

  /** Target, credential, host and policy as the finaliser reads them under their locks. */
  function BindingFacts(w: World, ctx: Context, now: Instant)
    : (r: Result<(HostView, PolicyView, Credential), AdmissionRefusal>)
    ensures r.Success? ==> ctx.at.target in w.bindings.targets
  {
    if IdentityFault(w, ctx, now).Some? then Failure(IdentityFault(w, ctx, now).value)
    else
      match PointerFacts(w.bindings, ctx.at)
      case Failure(e) => Failure(e)
      case Success((host, policy)) => Success((host, policy, w.credentials[ctx.at.credentialId]))
  }

  /** The locked re-derivation: the coordinate the finaliser computes from the rows it locked. */
  function Rederive(env: Env, w: World, ctx: Context, now: Instant): Result<Coordinate, AdmissionRefusal> {
    match BindingFacts(w, ctx, now)
    case Failure(e) => Failure(e)
    case Success((host, policy, c)) => AfterLocks(env, w, ctx, host, policy, c, now)
  }

  /** The rest of the re-derivation, once every row is locked. */
  function AfterLocks(env: Env, w: World, ctx: Context, host: HostView, policy: PolicyView, c: Credential,
                      now: Instant): Result<Coordinate, AdmissionRefusal>
    requires ctx.at.target in w.bindings.targets
  {
    var at := ctx.at;
    match (ResolveRoot(env, w, CandidateSubject(policy), CandidatePurpose(), now),
           ResolveRoot(env, w, InstalledSubject(host), InstalledPurpose(), now))
    case (Failure(e), _) => Failure(e)
    case (_, Failure(e)) => Failure(e)
    case (Success(candidate), Success(installed)) =>
      if candidate != at.candidateRoot || installed != at.installedRoot then Failure(PREPARED_STATE_CHANGED)
      else
        match RequireStoredDispatch(w, ctx.attempt, at.target)
        case Failure(e) => Failure(e)
        case Success(d) =>
          if d.dispatchId != at.dispatchId || d.envelopeDigest != at.envelopeDigest
          then Failure(PREPARED_STATE_CHANGED)
          else if c.algorithm.None? || c.purpose.None? then Failure(CREDENTIAL_CHANGED)
          else Success(CoordinateOf(at.presentation, d, at.target, w.bindings.targets[at.target],
                                    at.credentialId, c, host, policy, candidate, installed))
  }

  /** Up to the staging call; the answer is the attempt to stage. */
  ghost function Admit(env: Env, w: World, ctx: Context, e: ForeignEvidence, x: Execution, now: Instant)
    : Result<RowId, AdmissionRefusal>
  {
    var p := ctx.at.presentation;
    var found := CredentialByKeyId(w, p.keyId);
    if x.dispatchId != ctx.at.dispatchId || x.dispatchId != env.uuidText(ctx.attempt)
       || x.targetId != env.uuidText(ctx.at.target) || x.targetRef != ctx.at.targetRef
    then Failure(DISPATCH_MISMATCH)
    else if now >= p.expiresAt then Failure(CONTEXT_EXPIRED)
    else if found.None? || found.value !in w.credentials then Failure(AUTHENTICATION_FAILED)
    else
      var fault := VerifyPresentation(env, p, w.credentials[found.value], now);
      if fault.Some? then Failure(fault.value)
      else
        match Rederive(env, w, ctx, now)
        case Failure(r) => Failure(r)
        case Success(rederived) =>
          if env.contextDigest(rederived) != ctx.digest then Failure(PREPARED_STATE_CHANGED)
          else if e.contextDigest != ctx.digest then Failure(FOREIGN_EVIDENCE_CONTEXT_MISMATCH)
          else if !SemanticEvidenceOk(ctx, e) then Failure(FOREIGN_EVIDENCE_SEMANTIC_MISMATCH)
          else if e.candidateDigest != p.candidateDigest || e.installedDigest != p.installedDigest
          then Failure(EVIDENCE_CHANGED)
          else Success(ctx.attempt)
  }

  // ---------------------------------------------------------------- other transactions

  /** What may run between the two halves.  A root command that is refused may be rolled back or not; other code may
      rewrite targets, credentials and dispatches at will. */
  datatype Event =
    | HostEvent(host: HostCommand)
    | RootEvent(root: RegistryReaders.Step)
    | OtherWrite(targets: map<RowId, Text>, credentials: map<RowId, Credential>,
                 dispatches: map<RowId, Option<StoredDispatch>>)

  ghost function Next(w: World, digest: KeyDigest, ev: Event): World {
    match ev
    case HostEvent(c) => w.(bindings := Applied(w.bindings, c))
    case RootEvent(step) => w.(registry := RegistryReaders.After(w.registry, digest, step))
    case OtherWrite(targets, credentials, dispatches) =>
      w.(bindings := w.bindings.(targets := targets), credentials := credentials, dispatches := dispatches)
  }

  ghost function Later(w: World, digest: KeyDigest, evs: seq<Event>): World
    decreases |evs|
  {
    if evs == [] then w else Later(Next(w, digest, evs[0]), digest, evs[1..])
  }
}
