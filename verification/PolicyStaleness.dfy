/** A policy lives and dies with the association it was written for. */
module PolicyStaleness {
  import opened Prelude
  import opened Texts
  import opened TrustRegistry
  import opened RegistryReaders
  import opened HostAdmissionService
  import opened HostAdmissionCoordinator
  import opened IntervalStability
  import opened AdmissionRows

  // ---------------------------------------------------------------- invariant

  ghost predicate HostsExact(b: Bindings) {
    && b.associationClosures.Keys <= b.associations.Keys
    && (forall x :: x in b.currentHost ==>
          b.currentHost[x] in b.associations && b.associations[b.currentHost[x]].target == x
          && b.currentHost[x] !in b.associationClosures)
    && (forall a :: a in b.associations && a !in b.associationClosures ==>
          b.associations[a].target in b.currentHost && b.currentHost[b.associations[a].target] == a)
  }

  ghost predicate PoliciesExact(b: Bindings) {
    && b.policyClosures.Keys <= b.policies.Keys
    && (forall x :: x in b.currentPolicy ==>
          b.currentPolicy[x] in b.policies && b.policies[b.currentPolicy[x]].target == x
          && b.currentPolicy[x] !in b.policyClosures)
    && (forall p :: p in b.policies && p !in b.policyClosures ==>
          b.policies[p].target in b.currentPolicy && b.currentPolicy[b.policies[p].target] == p)
  }

  /** A policy names an association of its own target. */
  ghost predicate PoliciesBound(b: Bindings) {
    forall p :: p in b.policies ==>
      b.policies[p].association in b.associations
      && b.associations[b.policies[p].association].target == b.policies[p].target
  }

  ghost predicate BindingsInv(b: Bindings) { HostsExact(b) && PoliciesExact(b) && PoliciesBound(b) }

  lemma HostsExactKept(b: Bindings, c: HostCommand)
    requires HostsExact(b)
    ensures HostsExact(Applied(b, c))
  {
    if c.BindHost? {
      HostsExactThroughBindHost(b, c);
    } else if c.RotateHost? {
      HostsExactThroughRotateHost(b, c);
    } else if c.RevokeHost? {
      HostsExactThroughRevokeHost(b, c);
    }
  }

  lemma HostsExactThroughBindHost(b: Bindings, c: HostCommand)
    requires HostsExact(b) && c.BindHost?
    ensures HostsExact(Applied(b, c))
  {
    PointerIsOpenHost(b, c.target);
  }

  lemma HostsExactThroughRotateHost(b: Bindings, c: HostCommand)
    requires HostsExact(b) && c.RotateHost?
    ensures HostsExact(Applied(b, c))
  {
    PointerIsOpenHost(b, c.target);
  }

  lemma HostsExactThroughRevokeHost(b: Bindings, c: HostCommand)
    requires HostsExact(b) && c.RevokeHost?
    ensures HostsExact(Applied(b, c))
  {
    PointerIsOpenHost(b, c.target);
  }

  lemma PoliciesExactKept(b: Bindings, c: HostCommand)
    requires PoliciesExact(b)
    ensures PoliciesExact(Applied(b, c))
  {
    if c.SetPolicy? {
      PoliciesExactThroughSetPolicy(b, c);
    } else if c.RevisePolicy? {
      PoliciesExactThroughRevisePolicy(b, c);
    } else if c.RevokePolicy? {
      PoliciesExactThroughRevokePolicy(b, c);
    }
  }

  lemma PoliciesExactThroughSetPolicy(b: Bindings, c: HostCommand)
    requires PoliciesExact(b) && c.SetPolicy?
    ensures PoliciesExact(Applied(b, c))
  {
    PointerIsOpenPolicy(b, c.target);
  }

  lemma PoliciesExactThroughRevisePolicy(b: Bindings, c: HostCommand)
    requires PoliciesExact(b) && c.RevisePolicy?
    ensures PoliciesExact(Applied(b, c))
  {
    PointerIsOpenPolicy(b, c.target);
  }

  lemma PoliciesExactThroughRevokePolicy(b: Bindings, c: HostCommand)
    requires PoliciesExact(b) && c.RevokePolicy?
    ensures PoliciesExact(Applied(b, c))
  {
    PointerIsOpenPolicy(b, c.target);
  }

  lemma PoliciesBoundKept(b: Bindings, c: HostCommand)
    requires PoliciesBound(b)
    ensures PoliciesBound(Applied(b, c))
  {
  }

  lemma PointerIsOpenHost(b: Bindings, target: RowId)
    requires HostsExact(b)
    ensures OpenAssociations(b, target) == if target in b.currentHost then {b.currentHost[target]} else {}
  {
  }

  lemma PointerIsOpenPolicy(b: Bindings, target: RowId)
    requires PoliciesExact(b)
    ensures OpenPolicies(b, target) == if target in b.currentPolicy then {b.currentPolicy[target]} else {}
  {
  }

  lemma {:induction false} BindingsInvKept(w: World, digest: KeyDigest, evs: seq<Event>)
    requires BindingsInv(w.bindings)
    ensures BindingsInv(Later(w, digest, evs).bindings)
    decreases |evs|
  {
    if evs == [] {
    } else {
      if evs[0].HostEvent? {
        HostsExactKept(w.bindings, evs[0].host);
        PoliciesExactKept(w.bindings, evs[0].host);
        PoliciesBoundKept(w.bindings, evs[0].host);
      }
      BindingsInvKept(Next(w, digest, evs[0]), digest, evs[1..]);
    }
  }

  /** Nothing bound yet; targets, credentials, dispatches and roots may already be there. */
  ghost predicate Unbound(w: World) {
    && w.bindings.associations == map[] && w.bindings.associationClosures == map[] && w.bindings.currentHost == map[]
    && w.bindings.policies == map[] && w.bindings.policyClosures == map[] && w.bindings.currentPolicy == map[]
  }

  /** Over every run: a target has at most one open association and one open policy, each pointer names it, and
      the readers never report drift or ambiguity. */
  lemma ReachableBindings(w: World, digest: KeyDigest, evs: seq<Event>, target: RowId)
    requires Unbound(w)
    ensures var b := Later(w, digest, evs).bindings;
            && OpenAssociations(b, target) == (if target in b.currentHost then {b.currentHost[target]} else {})
            && OpenPolicies(b, target) == (if target in b.currentPolicy then {b.currentPolicy[target]} else {})
            && CurrentHost(b, target) !in {Failure(HOST_AMBIGUOUS), Failure(HOST_DRIFT)}
            && CurrentPolicy(b, target) !in {Failure(POLICY_AMBIGUOUS), Failure(POLICY_DRIFT)}
  {
    BindingsInvKept(w, digest, evs);
    PointerIsOpenHost(Later(w, digest, evs).bindings, target);
    PointerIsOpenPolicy(Later(w, digest, evs).bindings, target);
  }

  // ---------------------------------------------------------------- staleness

  /** The association the policy was written for has been closed. */
  ghost predicate Stale(b: Bindings, p: RowId) {
    p in b.policies && b.policies[p].association in b.associationClosures
  }

  /** A stale policy stays stale and no context ever resolves with it again, even if its target is rotated away
      and back to the same host id. */
  lemma StaleForever(env: Env, w: World, evs: seq<Event>, policy: RowId, attempt: RowId, p: Presentation,
                     now: Instant, ctx: Context)
    requires Stale(w.bindings, policy)
    requires Resolve(env, Later(w, env.digest, evs), attempt, p, now) == Success(ctx)
    ensures Stale(Later(w, env.digest, evs).bindings, policy)
    ensures ctx.at.policyId != policy
  {
    LaterGrows(w, env.digest, evs);
    ResolveEstablishes(env, Later(w, env.digest, evs), attempt, p, now, ctx);
    StaleDoesNotHold(env, Later(w, env.digest, evs), ctx.at, policy);
  }

  lemma StaleDoesNotHold(env: Env, w: World, at: Coordinate, policy: RowId)
    requires Stale(w.bindings, policy) && Holds(env, w, at)
    ensures at.policyId != policy
  {
  }

  /** Only a policy row written afterwards can serve the target again. */
  lemma OnlyNewPolicyRestores(env: Env, w: World, evs: seq<Event>, stale: RowId, attempt: RowId, p: Presentation,
                              now: Instant, ctx: Context)
    requires BindingsInv(w.bindings)
    requires Resolve(env, Later(w, env.digest, evs), attempt, p, now) == Success(ctx)
    requires ctx.at.target in w.bindings.currentPolicy && w.bindings.currentPolicy[ctx.at.target] == stale
    requires Stale(w.bindings, stale)
    ensures ctx.at.policyId !in w.bindings.policies
  {
    StaleForever(env, w, evs, stale, attempt, p, now, ctx);
    ResolveEstablishes(env, Later(w, env.digest, evs), attempt, p, now, ctx);
    LaterGrows(w, env.digest, evs);
    OldOpenPolicyIsCurrent(w.bindings, Later(w, env.digest, evs).bindings, ctx.at.target);
  }

  /** A policy that serves a target now and already existed earlier was the target's current policy then. */
  lemma OldOpenPolicyIsCurrent(b: Bindings, b': Bindings, target: RowId)
    requires PoliciesExact(b) && HistoryGrows(b, b') && CurrentPolicy(b', target).Success?
    ensures var p := CurrentPolicy(b', target).value.policyId;
            p in b.policies ==> target in b.currentPolicy && b.currentPolicy[target] == p
  {
  }

  /** A context resolved earlier is not admitted once its association has been closed at any point since. */
  lemma ClosedAssociationNeverAdmitted(env: Env, w: World, evs: seq<Event>, n: nat, ctx: Context, now: Instant)
    requires n <= |evs|
    requires ctx.at.associationId in At(w, env.digest, evs, n).bindings.associationClosures
    ensures Rederive(env, Later(w, env.digest, evs), ctx, now).Failure?
  {
    AtGrows(w, env.digest, evs, n);
    if Rederive(env, Later(w, env.digest, evs), ctx, now).Success? {
      AdmitShows(env, Later(w, env.digest, evs), ctx, now);
    }
  }

  /** The finaliser itself never looks at which association the policy binds: it relies on having been given a
      resolved context.  Rewriting that column of any policy row changes nothing it computes. */
  lemma FinaliserIgnoresPolicyBinding(env: Env, w: World, ctx: Context, now: Instant, policy: RowId, other: RowId)
    requires policy in w.bindings.policies
    ensures Rederive(env, w.(bindings := Rebound(w.bindings, policy, other)), ctx, now) == Rederive(env, w, ctx, now)
  {
    var w' := w.(bindings := Rebound(w.bindings, policy, other));
    ReboundReaders(w.bindings, policy, other, ctx.at.target);
    if BindingFacts(w, ctx, now).Success? {
      var (host, row, c) := BindingFacts(w, ctx, now).value;
      var (host', row', c') := BindingFacts(w', ctx, now).value;
      assert host' == host && c' == c;
      AfterLocksIgnoresBinding(env, w, w', ctx, host, row, row', c, now);
    }
  }

  lemma AfterLocksIgnoresBinding(env: Env, w: World, w': World, ctx: Context, host: HostView, policy: PolicyView,
                                 policy': PolicyView, c: Credential, now: Instant)
    requires ctx.at.target in w.bindings.targets && w'.bindings.targets == w.bindings.targets
    requires w'.registry == w.registry && w'.dispatches == w.dispatches
    requires policy'.policyId == policy.policyId
    requires policy.row == policy'.row.(association := policy.row.association)
    ensures AfterLocks(env, w', ctx, host, policy', c, now) == AfterLocks(env, w, ctx, host, policy, c, now)
  {
  }

  function Rebound(b: Bindings, policy: RowId, other: RowId): Bindings
    requires policy in b.policies
  {
    b.(policies := b.policies[policy := b.policies[policy].(association := other)])
  }

  lemma ReboundReaders(b: Bindings, policy: RowId, other: RowId, target: RowId)
    requires policy in b.policies
    ensures CurrentHost(Rebound(b, policy, other), target) == CurrentHost(b, target)
    ensures match (CurrentPolicy(Rebound(b, policy, other), target), CurrentPolicy(b, target))
            case (Success(x), Success(y)) =>
              x.policyId == y.policyId && x.row == y.row.(association := x.row.association)
            case (Failure(x), Failure(y)) => x == y
            case _ => false
  {
    assert OpenAssociations(Rebound(b, policy, other), target) == OpenAssociations(b, target);
    assert OpenPolicies(Rebound(b, policy, other), target) == OpenPolicies(b, target);
  }

  // ---------------------------------------------------------------- admission goes through

  /** The rows outside bindings and roots that the context rests on are as they were. */
  ghost predicate SameOtherRows(w: World, w': World, ctx: Context) {
    && ctx.at.target in w.bindings.targets && ctx.at.target in w'.bindings.targets
    && w'.bindings.targets[ctx.at.target] == w.bindings.targets[ctx.at.target]
    && ctx.at.credentialId in w.credentials && ctx.at.credentialId in w'.credentials
    && w'.credentials[ctx.at.credentialId] == w.credentials[ctx.at.credentialId]
    && CredentialByKeyId(w', ctx.at.presentation.keyId) == Some(ctx.at.credentialId)
    && ctx.attempt in w.dispatches && ctx.attempt in w'.dispatches
    && w'.dispatches[ctx.attempt] == w.dispatches[ctx.attempt]
  }

  ghost predicate WithinWindows(w: World, ctx: Context, now: Instant) {
    && ctx.at.credentialId in w.credentials && InUse(w.credentials[ctx.at.credentialId], now)
    && ctx.at.presentation.issuedAt <= now < ctx.at.presentation.expiresAt
    && ctx.at.candidateRoot.notBefore <= now < ctx.at.candidateRoot.notAfter
    && ctx.at.installedRoot.notBefore <= now < ctx.at.installedRoot.notAfter
  }

  /** The converse of interval stability: after any events that close none of the four things the context rests
      on, half-enrol neither of its subjects and leave the other rows alone, honest evidence is admitted at every
      instant of the windows. */
  lemma UndisturbedIsAdmitted(env: Env, w: World, attempt: RowId, p: Presentation, resolvedAt: Instant, ctx: Context,
                              evs: seq<Event>, end: World, e: ForeignEvidence, x: Execution, now: Instant)
    requires Resolve(env, w, attempt, p, resolvedAt) == Success(ctx) && end == Later(w, env.digest, evs)
    requires Unclosed(end, ctx.at) && Undisturbed(w, env.digest, evs, ctx.at)
    requires SameOtherRows(w, end, ctx) && WithinWindows(end, ctx, now)
    requires EvidenceReports(ctx, e) && ExecutionIs(env, ctx, x)
    ensures Admit(env, end, ctx, e, x, now) == Success(attempt)
  {
    ResolveShows(env, w, attempt, p, resolvedAt, ctx);
    HeldAtEnd(env, w, attempt, p, resolvedAt, ctx, evs);
    ResolvedFromKept(env, w, end, attempt, p, ctx);
    RederivesSame(env, end, attempt, p, ctx, now);
    AdmitsRederived(env, end, attempt, p, ctx, e, x, now);
  }

  lemma HeldAtEnd(env: Env, w: World, attempt: RowId, p: Presentation, resolvedAt: Instant, ctx: Context,
                  evs: seq<Event>)
    requires Resolve(env, w, attempt, p, resolvedAt) == Success(ctx)
    requires Unclosed(Later(w, env.digest, evs), ctx.at) && Undisturbed(w, env.digest, evs, ctx.at)
    ensures Holds(env, Later(w, env.digest, evs), ctx.at)
  {
    ResolveEstablishes(env, w, attempt, p, resolvedAt, ctx);
    HoldsThroughout(env, w, evs, ctx.at, |evs|);
    assert evs[..|evs|] == evs;
  }

  lemma ResolvedFromKept(env: Env, w: World, end: World, attempt: RowId, p: Presentation, ctx: Context)
    requires ResolvedFrom(env, w, attempt, p, ctx) && SameOtherRows(w, end, ctx)
    ensures ResolvedFrom(env, end, attempt, p, ctx)
  {
  }

  lemma RederivesSame(env: Env, w: World, attempt: RowId, p: Presentation, ctx: Context, now: Instant)
    requires ResolvedFrom(env, w, attempt, p, ctx) && Holds(env, w, ctx.at) && WithinWindows(w, ctx, now)
    ensures Rederive(env, w, ctx, now) == Success(ctx.at)
  {
    var host, policy := CurrentHost(w.bindings, ctx.at.target).value, CurrentPolicy(w.bindings, ctx.at.target).value;
    RootOnTime(env, w, CandidateSubject(policy), CandidatePurpose(), ctx.at.candidateRoot, now);
    RootOnTime(env, w, InstalledSubject(host), InstalledPurpose(), ctx.at.installedRoot, now);
  }

  lemma AdmitsRederived(env: Env, w: World, attempt: RowId, p: Presentation, ctx: Context, e: ForeignEvidence,
                        x: Execution, now: Instant)
    requires ResolvedFrom(env, w, attempt, p, ctx) && Rederive(env, w, ctx, now) == Success(ctx.at)
    requires WithinWindows(w, ctx, now) && EvidenceReports(ctx, e) && ExecutionIs(env, ctx, x)
    ensures Admit(env, w, ctx, e, x, now) == Success(attempt)
  {
  }

  lemma RootOnTime(env: Env, w: World, s: Subject, purpose: Text, c: RootContext, now: Instant)
    requires RootIs(env, w, s, c) && c.purpose == purpose && c.notBefore <= now < c.notAfter
    ensures ResolveRoot(env, w, s, purpose, now) == Success(c)
  {
    ResolveExact(w.registry, env.digest, s);
  }
}
