/**
 The host-binding and policy commands and the finaliser as they run inside one transaction: histories and
 pointers updated in place, rows locked as they are read.  Each method is proved against the function that
 states what it computes, and its lock trace against LockScripts.
 */
module HostAdmissionSession {
  import opened Prelude
  import opened Texts
  import opened TrustRegistry
  import opened HostAdmissionService
  import opened HostAdmissionCoordinator
  import opened Locks
  import opened LockScripts
  import RegistrySession

  /** Lock rows carry no standing: no reader looks at them. */
  lemma AfterLocksIgnoresLockRows(env: Env, w: World, rows: set<Subject>, ctx: Context, host: HostView,
                                  policy: PolicyView, c: Credential, now: Instant)
    requires ctx.at.target in w.bindings.targets
    ensures AfterLocks(env, w.(registry := w.registry.(lockRows := rows)), ctx, host, policy, c, now)
            == AfterLocks(env, w, ctx, host, policy, c, now)
  {
    SameRootWithLockRows(w.registry, rows, env.digest, CandidateSubject(policy));
    SameRootWithLockRows(w.registry, rows, env.digest, InstalledSubject(host));
  }

  lemma SameRootWithLockRows(t: Tables, rows: set<Subject>, digest: KeyDigest, s: Subject)
    ensures ResolveAdmissionRoot(t.(lockRows := rows), digest, s) == ResolveAdmissionRoot(t, digest, s)
  {
    assert OpenFor(t.(lockRows := rows), s) == OpenFor(t, s);
  }

  class Session {
    var targets: map<RowId, Text>
    var associations: map<RowId, Association>
    var associationClosures: map<RowId, RowClosure>
    var currentHost: map<RowId, RowId>
    var policies: map<RowId, Policy>
    var policyClosures: map<RowId, RowClosure>
    var currentPolicy: map<RowId, RowId>
    var credentials: map<RowId, Credential>
    var dispatches: map<RowId, Option<StoredDispatch>>
    /** The registry rows of the same transaction, and its lock trace. */
    const registry: RegistrySession.Session

    function State(): Bindings
      reads this
    {
      Bindings(targets, associations, associationClosures, currentHost, policies, policyClosures, currentPolicy)
    }

    function Whole(): World
      reads this, registry
    {
      World(State(), registry.State(), credentials, dispatches)
    }

    constructor (w: World, registry: RegistrySession.Session)
      ensures this.registry == registry && State() == w.bindings
      ensures credentials == w.credentials && dispatches == w.dispatches
    {
      targets, associations := w.bindings.targets, w.bindings.associations;
      associationClosures, currentHost := w.bindings.associationClosures, w.bindings.currentHost;
      policies, policyClosures := w.bindings.policies, w.bindings.policyClosures;
      currentPolicy, credentials, dispatches := w.bindings.currentPolicy, w.credentials, w.dispatches;
      this.registry := registry;
    }

    method Lock(rows: seq<Lock>)
      modifies registry`trace
      ensures registry.trace == old(registry.trace) + rows
    {
      registry.trace := registry.trace + rows;
    }

    method LockTarget(target: RowId) returns (found: bool)
      modifies registry`trace
      ensures found == (target in targets)
      ensures registry.trace == old(registry.trace) + if found then [TargetRow(target)] else []
    {
      found := target in targets;
      if found {
        Lock([TargetRow(target)]);
      }
    }

    /** Resolves the host from history after locking the current-host row, if there is one. */
    method RequireHostLocked(target: RowId) returns (r: Result<HostView, StateRefusal>)
      modifies registry`trace
      ensures r == CurrentHost(State(), target)
      ensures registry.trace == old(registry.trace) + HostPointerLock(State(), target)
    {
      Lock(HostPointerLock(State(), target));
      var open := OpenAssociations(State(), target);
      if |open| == 0 {
        return Failure(if target in currentHost then HOST_DRIFT else HOST_ABSENT);
      }
      if |open| != 1 {
        return Failure(HOST_AMBIGUOUS);
      }
      var row :| row in open;
      SingletonOf(open, row);
      if target !in currentHost || currentHost[target] != row {
        return Failure(HOST_DRIFT);
      }
      if !HostAttesterEnrolment.HostIdOk(associations[row].hostId) {
        return Failure(MALFORMED);
      }
      return Success(HostView(row, associations[row]));
    }

    method RequirePolicyLocked(target: RowId) returns (r: Result<PolicyView, StateRefusal>)
      modifies registry`trace
      ensures r == CurrentPolicy(State(), target)
      ensures registry.trace == old(registry.trace) + PolicyPointerLock(State(), target)
    {
      Lock(PolicyPointerLock(State(), target));
      var open := OpenPolicies(State(), target);
      if |open| == 0 {
        return Failure(if target in currentPolicy then POLICY_DRIFT else POLICY_ABSENT);
      }
      if |open| != 1 {
        return Failure(POLICY_AMBIGUOUS);
      }
      var row :| row in open;
      SingletonOf(open, row);
      if target !in currentPolicy || currentPolicy[target] != row {
        return Failure(POLICY_DRIFT);
      }
      return Success(PolicyView(row, policies[row]));
    }

    method BindTargetHost(target: RowId, hostId: Text, authority: Text, id: RowId, at: Instant)
      returns (r: Result<RowId, StateRefusal>)
      modifies this`associations, this`currentHost, registry`trace
      ensures var spec := BindAssociation(old(State()), target, hostId, authority, id, at);
              State() == (if spec.Success? then spec.value else old(State())) &&
              r == (if spec.Success? then Success(id) else Failure(spec.error))
      ensures registry.trace == old(registry.trace)
                + HostCommandLocks(old(State()), BindHost(target, hostId, authority, id, at))
    {
      var found := LockTarget(target);
      if !found {
        return Failure(TARGET_NOT_FOUND);
      }
      if !HostAttesterEnrolment.HostIdOk(hostId) {
        return Failure(HOST_ID_MALFORMED);
      }
      if !ExactText(authority) {
        return Failure(MALFORMED);
      }
      var open := OpenAssociations(State(), target);
      Lock(HostPointerLock(State(), target));
      if |open| != 0 || target in currentHost {
        if |open| == 1 && target in currentHost {
          return Failure(HOST_ALREADY_BOUND);
        }
        return Failure(HOST_DRIFT);
      }
      if id in associations {
        return Failure(ID_CONFLICT);
      }
      associations := associations[id := Association(target, hostId, at, authority)];
      currentHost := currentHost[target := id];
      return Success(id);
    }

    method RotateTargetHost(target: RowId, hostId: Text, authority: Text, id: RowId, at: Instant)
      returns (r: Result<RowId, StateRefusal>)
      modifies this`associations, this`associationClosures, this`currentHost, registry`trace
      ensures var spec := RotateAssociation(old(State()), target, hostId, authority, id, at);
              State() == (if spec.Success? then spec.value else old(State())) &&
              r == (if spec.Success? then Success(id) else Failure(spec.error))
      ensures registry.trace == old(registry.trace)
                + HostCommandLocks(old(State()), RotateHost(target, hostId, authority, id, at))
    {
      var found := LockTarget(target);
      if !found {
        return Failure(TARGET_NOT_FOUND);
      }
      var current := RequireHostLocked(target);
      if current.Failure? {
        return Failure(current.error);
      }
      if !ExactText(authority) {
        return Failure(MALFORMED);
      }
      if !HostAttesterEnrolment.HostIdOk(hostId) {
        return Failure(HOST_ID_MALFORMED);
      }
      if id in associations {
        return Failure(ID_CONFLICT);
      }
      associations := associations[id := Association(target, hostId, at, authority)];
      associationClosures :=
        associationClosures[current.value.associationId := RowClosure(at, authority, Some(id))];
      Lock(HostPointerLock(State(), target));
      currentHost := currentHost[target := id];
      return Success(id);
    }

    method RevokeTargetHost(target: RowId, authority: Text, at: Instant) returns (r: Result<(), StateRefusal>)
      modifies this`associationClosures, this`currentHost, registry`trace
      ensures var spec := RevokeAssociation(old(State()), target, authority, at);
              State() == (if spec.Success? then spec.value else old(State())) &&
              r == (if spec.Success? then Success(()) else Failure(spec.error))
      ensures registry.trace == old(registry.trace)
                + HostCommandLocks(old(State()), RevokeHost(target, authority, at))
    {
      var found := LockTarget(target);
      if !found {
        return Failure(TARGET_NOT_FOUND);
      }
      var current := RequireHostLocked(target);
      if current.Failure? {
        return Failure(current.error);
      }
      if !ExactText(authority) {
        return Failure(MALFORMED);
      }
      associationClosures := associationClosures[current.value.associationId := RowClosure(at, authority, None)];
      Lock(HostPointerLock(State(), target));
      currentHost := currentHost - {target};
      return Success(());
    }

    method SetTargetAdmissionPolicy(target: RowId, terms: PolicyTerms, id: RowId, at: Instant)
      returns (r: Result<RowId, StateRefusal>)
      modifies this`policies, this`currentPolicy, registry`trace
      ensures var spec := SetAdmissionPolicy(old(State()), target, terms, id, at);
              State() == (if spec.Success? then spec.value else old(State())) &&
              r == (if spec.Success? then Success(id) else Failure(spec.error))
      ensures registry.trace == old(registry.trace) + HostCommandLocks(old(State()), SetPolicy(target, terms, id, at))
    {
      var found := LockTarget(target);
      if !found {
        return Failure(TARGET_NOT_FOUND);
      }
      var host := RequireHostLocked(target);
      if host.Failure? {
        return Failure(host.error);
      }
      var open := OpenPolicies(State(), target);
      Lock(PolicyPointerLock(State(), target));
      if |open| != 0 || target in currentPolicy {
        if |open| == 1 && target in currentPolicy {
          return Failure(POLICY_ALREADY_SET);
        }
        return Failure(POLICY_DRIFT);
      }
      if !PolicyTermsOk(terms) {
        return Failure(MALFORMED);
      }
      if id in policies {
        return Failure(ID_CONFLICT);
      }
      policies := policies[id := PolicyRow(target, host.value.associationId, terms, at)];
      currentPolicy := currentPolicy[target := id];
      return Success(id);
    }

    method ReviseTargetAdmissionPolicy(target: RowId, terms: PolicyTerms, id: RowId, at: Instant)
      returns (r: Result<RowId, StateRefusal>)
      modifies this`policies, this`policyClosures, this`currentPolicy, registry`trace
      ensures var spec := ReviseAdmissionPolicy(old(State()), target, terms, id, at);
              State() == (if spec.Success? then spec.value else old(State())) &&
              r == (if spec.Success? then Success(id) else Failure(spec.error))
      ensures registry.trace == old(registry.trace)
                + HostCommandLocks(old(State()), RevisePolicy(target, terms, id, at))
    {
      var found := LockTarget(target);
      if !found {
        return Failure(TARGET_NOT_FOUND);
      }
      var host := RequireHostLocked(target);
      if host.Failure? {
        return Failure(host.error);
      }
      var current := RequirePolicyLocked(target);
      if current.Failure? {
        return Failure(current.error);
      }
      if !PolicyTermsOk(terms) {
        return Failure(MALFORMED);
      }
      if id in policies {
        return Failure(ID_CONFLICT);
      }
      policies := policies[id := PolicyRow(target, host.value.associationId, terms, at)];
      policyClosures := policyClosures[current.value.policyId := RowClosure(at, terms.authority, Some(id))];
      Lock(PolicyPointerLock(State(), target));
      currentPolicy := currentPolicy[target := id];
      return Success(id);
    }

    method RevokeTargetAdmissionPolicy(target: RowId, authority: Text, at: Instant)
      returns (r: Result<(), StateRefusal>)
      modifies this`policyClosures, this`currentPolicy, registry`trace
      ensures var spec := RevokeAdmissionPolicy(old(State()), target, authority, at);
              State() == (if spec.Success? then spec.value else old(State())) &&
              r == (if spec.Success? then Success(()) else Failure(spec.error))
      ensures registry.trace == old(registry.trace)
                + HostCommandLocks(old(State()), RevokePolicy(target, authority, at))
    {
      var found := LockTarget(target);
      if !found {
        return Failure(TARGET_NOT_FOUND);
      }
      var current := RequirePolicyLocked(target);
      if current.Failure? {
        return Failure(current.error);
      }
      if !ExactText(authority) {
        return Failure(MALFORMED);
      }
      policyClosures := policyClosures[current.value.policyId := RowClosure(at, authority, None)];
      Lock(PolicyPointerLock(State(), target));
      currentPolicy := currentPolicy - {target};
      return Success(());
    }

    // -------------------------------------------------------------- the finaliser

    /** Loads a credential after locking its own target and then its row. */
    method LoadCredentialForUpdate(id: RowId) returns (found: bool)
      modifies registry`trace
      ensures found == (id in credentials)
      ensures registry.trace == old(registry.trace) + CredentialLocks(Whole(), id)
    {
      found := id in credentials;
      if found {
        if credentials[id].target in targets {
          Lock([TargetRow(credentials[id].target)]);
        }
        Lock([CredentialRow(id)]);
      }
    }

    /** Locks and checks target and credential. */
    method LockIdentity(ctx: Context, now: Instant) returns (r: Option<AdmissionRefusal>, ghost reached: Progress)
      modifies registry`trace
      ensures registry.trace == old(registry.trace) + FinaliserLocks(old(Whole()), ctx, reached)
      ensures reached == AT_TARGET || reached == AT_CREDENTIAL
      ensures r.None? ==> reached == AT_CREDENTIAL
      ensures Reaches(old(Whole()), ctx, reached)
      ensures r == IdentityFault(old(Whole()), ctx, now)
    {
      var at := ctx.at;
      reached := AT_TARGET;
      var found := LockTarget(at.target);
      if !found {
        return Some(STATE_REFUSED(TARGET_NOT_FOUND)), reached;
      }
      if targets[at.target] != at.targetRef {
        return Some(PREPARED_STATE_CHANGED), reached;
      }
      reached := AT_CREDENTIAL;
      var loaded := LoadCredentialForUpdate(at.credentialId);
      if !loaded || !SameCredential(credentials[at.credentialId], at, now) {
        return Some(PREPARED_STATE_CHANGED), reached;
      }
      return None, reached;
    }

    /** Locks and reads host and policy, and compares their rows with the context's. */
    method LockPointers(at: Coordinate)
      returns (r: Result<(HostView, PolicyView), AdmissionRefusal>, ghost toPolicy: bool)
      modifies registry`trace
      ensures registry.trace == old(registry.trace) + HostPointerLock(State(), at.target)
                                + if toPolicy then PolicyPointerLock(State(), at.target) else []
      ensures r.Success? ==> toPolicy
      ensures r == PointerFacts(State(), at)
    {
      var host := RequireHostLocked(at.target);
      if host.Failure? {
        return Failure(STATE_REFUSED(host.error)), false;
      }
      var policy := RequirePolicyLocked(at.target);
      if policy.Failure? {
        return Failure(STATE_REFUSED(policy.error)), true;
      }
      if host.value.associationId != at.associationId || policy.value.policyId != at.policyId {
        return Failure(PREPARED_STATE_CHANGED), true;
      }
      return Success((host.value, policy.value)), true;
    }

    /** Locks and reads the rows that bindings live in; Success holds host, policy and credential. */
    method LockBindings(ctx: Context, now: Instant)
      returns (r: Result<(HostView, PolicyView, Credential), AdmissionRefusal>, ghost reached: Progress)
      modifies registry`trace
      ensures registry.trace == old(registry.trace) + FinaliserLocks(old(Whole()), ctx, reached)
      ensures r.Success? ==> reached == AT_POLICY
      ensures Reaches(old(Whole()), ctx, reached)
      ensures r == BindingFacts(old(Whole()), ctx, now)
    {
      var fault, stage := LockIdentity(ctx, now);
      reached := stage;
      if fault.Some? {
        return Failure(fault.value), reached;
      }
      var pointers, toPolicy := LockPointers(ctx.at);
      reached := if toPolicy then AT_POLICY else AT_HOST;
      if pointers.Failure? {
        return Failure(pointers.error), reached;
      }
      return Success((pointers.value.0, pointers.value.1, credentials[ctx.at.credentialId])), reached;
    }

    /** Locks the two subjects and makes the comparisons that need every lock. */
    method LockSubjects(env: Env, ctx: Context, host: HostView, policy: PolicyView, c: Credential, now: Instant)
      returns (r: Result<Coordinate, AdmissionRefusal>)
      requires ctx.at.target in targets
      requires CurrentHost(State(), ctx.at.target) == Success(host)
      requires CurrentPolicy(State(), ctx.at.target) == Success(policy)
      modifies registry`trace, registry`lockRows
      ensures r == AfterLocks(env, old(Whole()), ctx, host, policy, c, now)
      ensures registry.trace == old(registry.trace) + SubjectLocks(State(), ctx.at.target)
    {
      ghost var w := Whole();
      registry.LockAttestationSubjects([CandidateSubject(policy), InstalledSubject(host)]);
      AfterLocksIgnoresLockRows(env, w, registry.lockRows, ctx, host, policy, c, now);
      r := CompareRoots(env, ctx, host, policy, c, now);
    }

    /** The locked re-derivation of every fact a context names. */
    method RederiveLocked(env: Env, ctx: Context, now: Instant)
      returns (r: Result<Coordinate, AdmissionRefusal>, ghost reached: Progress)
      modifies registry`trace, registry`lockRows
      ensures r == Rederive(env, old(Whole()), ctx, now)
      ensures registry.trace == old(registry.trace) + FinaliserLocks(old(Whole()), ctx, reached)
      ensures r.Success? ==> reached == AT_SUBJECTS
      ensures Reaches(old(Whole()), ctx, reached)
    {
      ghost var w := Whole();
      var facts, stage := LockBindings(ctx, now);
      reached := stage;
      if facts.Failure? {
        return Failure(facts.error), reached;
      }
      var (host, policy, c) := facts.value;
      reached := AT_SUBJECTS;
      r := LockSubjects(env, ctx, host, policy, c, now);
    }

    /** The comparisons made once every lock is held; reads only. */
    method CompareRoots(env: Env, ctx: Context, host: HostView, policy: PolicyView, c: Credential, now: Instant)
      returns (r: Result<Coordinate, AdmissionRefusal>)
      requires ctx.at.target in targets
      ensures r == AfterLocks(env, Whole(), ctx, host, policy, c, now)
    {
      var candidate := ResolveRoot(env, Whole(), CandidateSubject(policy), CandidatePurpose(), now);
      if candidate.Failure? {
        return Failure(candidate.error);
      }
      var installed := ResolveRoot(env, Whole(), InstalledSubject(host), InstalledPurpose(), now);
      if installed.Failure? {
        return Failure(installed.error);
      }
      if candidate.value != ctx.at.candidateRoot || installed.value != ctx.at.installedRoot {
        return Failure(PREPARED_STATE_CHANGED);
      }
      var d := RequireStoredDispatch(Whole(), ctx.attempt, ctx.at.target);
      if d.Failure? {
        return Failure(d.error);
      }
      if d.value.dispatchId != ctx.at.dispatchId || d.value.envelopeDigest != ctx.at.envelopeDigest {
        return Failure(PREPARED_STATE_CHANGED);
      }
      if c.algorithm.None? || c.purpose.None? {
        return Failure(CREDENTIAL_CHANGED);
      }
      return Success(CoordinateOf(ctx.at.presentation, d.value, ctx.at.target, targets[ctx.at.target],
                                  ctx.at.credentialId, c, host, policy, candidate.value, installed.value));
    }

    /** The credential enrolled under a key id, by query. */
    method FindCredential(keyId: Text) returns (r: Option<RowId>)
      ensures r == CredentialByKeyId(Whole(), keyId)
      ensures r.Some? ==> r.value in credentials
    {
      var found := set c | c in credentials && credentials[c].keyId == keyId;
      assert found == WithKeyId(Whole(), keyId);
      if |found| != 1 {
        return None;
      }
      var c :| c in found;
      SingletonOf(found, c);
      return Some(c);
    }

    /** admit_and_consume_host_admission, up to the staging call. */
    method AdmitAndConsume(env: Env, ctx: Context, e: ForeignEvidence, x: Execution, now: Instant)
      returns (r: Result<RowId, AdmissionRefusal>)
      modifies registry`trace, registry`lockRows
      ensures r == Admit(env, old(Whole()), ctx, e, x, now)
      ensures registry.trace == old(registry.trace) ||
              exists reached :: Reaches(old(Whole()), ctx, reached) &&
                registry.trace == old(registry.trace) + FinaliserLocks(old(Whole()), ctx, reached)
    {
      var p := ctx.at.presentation;
      if x.dispatchId != ctx.at.dispatchId || x.dispatchId != env.uuidText(ctx.attempt)
         || x.targetId != env.uuidText(ctx.at.target) || x.targetRef != ctx.at.targetRef
      {
        return Failure(DISPATCH_MISMATCH);
      }
      if now >= p.expiresAt {
        return Failure(CONTEXT_EXPIRED);
      }
      var found := FindCredential(p.keyId);
      if found.None? {
        return Failure(AUTHENTICATION_FAILED);
      }
      var fault := VerifyPresentation(env, p, credentials[found.value], now);
      if fault.Some? {
        return Failure(fault.value);
      }
      var rederived, _ := RederiveLocked(env, ctx, now);
      if rederived.Failure? {
        return Failure(rederived.error);
      }
      if env.contextDigest(rederived.value) != ctx.digest {
        return Failure(PREPARED_STATE_CHANGED);
      }
      if e.contextDigest != ctx.digest {
        return Failure(FOREIGN_EVIDENCE_CONTEXT_MISMATCH);
      }
      if !SemanticEvidenceOk(ctx, e) {
        return Failure(FOREIGN_EVIDENCE_SEMANTIC_MISMATCH);
      }
      if e.candidateDigest != p.candidateDigest || e.installedDigest != p.installedDigest {
        return Failure(EVIDENCE_CHANGED);
      }
      return Success(ctx.attempt);
    }
  }
}
