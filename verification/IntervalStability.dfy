/**
 The optimistic protocol is stable: when a resolved context is later admitted, nothing it rests on was ever
 different in between, whatever other transactions ran.
 */
module IntervalStability {
  import opened Prelude
  import opened Texts
  import opened TrustRegistry
  import opened RegistryReaders
  import opened HostAdmissionService
  import opened HostAdmissionCoordinator

  /** The state after the first n of the events. */
  ghost function At(w: World, digest: KeyDigest, evs: seq<Event>, n: nat): World
    requires n <= |evs|
  {
    Later(w, digest, evs[..n])
  }

  lemma {:induction false} LaterSplit(w: World, digest: KeyDigest, a: seq<Event>, b: seq<Event>)
    ensures Later(w, digest, a + b) == Later(Later(w, digest, a), digest, b)
    decreases |a|
  {
    if a == [] {
      assert a + b == b;
    } else {
      LaterSplit(Next(w, digest, a[0]), digest, a[1..], b);
      assert (a + b)[1..] == a[1..] + b;
    }
  }

  lemma AtStep(w: World, digest: KeyDigest, evs: seq<Event>, n: nat)
    requires n < |evs|
    ensures At(w, digest, evs, n + 1) == Next(At(w, digest, evs, n), digest, evs[n])
  {
    assert evs[..n + 1] == evs[..n] + [evs[n]];
    LaterSplit(w, digest, evs[..n], [evs[n]]);
  }

  // ---------------------------------------------------------------- monotone parts

  ghost predicate WorldGrows(w: World, w': World) {
    HistoryGrows(w.bindings, w'.bindings) && Grows(w.registry, w'.registry)
  }

  lemma NextGrows(w: World, digest: KeyDigest, ev: Event)
    ensures WorldGrows(w, Next(w, digest, ev))
  {
    match ev
    case HostEvent(c) => AppliedGrows(w.bindings, c);
    case RootEvent(step) => CallGrows(w.registry, digest, step.command);
    case OtherWrite(_, _, _) =>
  }

  lemma {:induction false} LaterGrows(w: World, digest: KeyDigest, evs: seq<Event>)
    ensures WorldGrows(w, Later(w, digest, evs))
    decreases |evs|
  {
    if evs == [] {
    } else {
      NextGrows(w, digest, evs[0]);
      LaterGrows(Next(w, digest, evs[0]), digest, evs[1..]);
    }
  }

  /** Every state of the run lies between its start and its end. */
  lemma AtGrows(w: World, digest: KeyDigest, evs: seq<Event>, n: nat)
    requires n <= |evs|
    ensures WorldGrows(At(w, digest, evs, n), Later(w, digest, evs))
  {
    assert evs == evs[..n] + evs[n..];
    LaterSplit(w, digest, evs[..n], evs[n..]);
    LaterGrows(At(w, digest, evs, n), digest, evs[n..]);
  }

  // ---------------------------------------------------------------- one step

  /** A subject's sole open enrolment stays so through any committed command that does not close it. */
  lemma RootStaysSole(t: Tables, digest: KeyDigest, c: Command, s: Subject, f: Fingerprint)
    requires SoleOpen(t, s, f) && f !in Committed(t, digest, c).closures
    ensures SoleOpen(Committed(t, digest, c), s, f)
  {
    assert f in OpenFor(t, s);
    if SubjectOf(t, c) != s {
      CommandOnlyAbout(t, digest, c);
      assert OpenFor(Committed(t, digest, c), s) == OpenFor(t, s);
    } else {
      match c
      case Enrol(terms) => EnrolEffect(t, digest, terms);
      case Rotate(g, terms) => RotateEffect(t, digest, g, terms);
      case Revoke(g, a, r, at) => RevokeEffect(t, g, a, r, at); RevokeStaysSole(t, digest, c, s, f);
      case Repair(_) => RepairStaysSole(t, s, f);
    }
  }

  lemma RevokeStaysSole(t: Tables, digest: KeyDigest, c: Command, s: Subject, f: Fingerprint)
    requires c.Revoke? && SoleOpen(t, s, f) && f !in Committed(t, digest, c).closures
    ensures SoleOpen(Committed(t, digest, c), s, f)
  {
    RevokeEffect(t, c.fingerprint, c.authority, c.reason, c.at);
    assert f in OpenFor(t, s);
    var t' := Committed(t, digest, c);
    assert forall g :: g in OpenFor(t', s) <==> g in OpenFor(t, s);
  }

  lemma RepairStaysSole(t: Tables, s: Subject, f: Fingerprint)
    requires SoleOpen(t, s, f)
    ensures SoleOpen(RepairCurrentRoot(t, s).tables, s, f)
  {
    RepairEffect(t, s);
    assert DeriveCurrent(t, s).value in OpenFor(t, s);
    assert OpenFor(RepairCurrentRoot(t, s).tables, s) == OpenFor(t, s);
  }

  /** A refused command whose caller kept what it had written, an open enrolment of this subject among it. */
  ghost predicate HalfEnrols(t: Tables, digest: KeyDigest, step: Step, s: Subject) {
    && step.keepRefused && Call(t, digest, step.command).outcome.Failure?
    && OpenFor(Call(t, digest, step.command).tables, s) != OpenFor(t, s)
  }

  /** A refused command never writes a current-root row or a closure. */
  lemma RefusedWrites(t: Tables, digest: KeyDigest, c: Command)
    requires Call(t, digest, c).outcome.Failure?
    ensures var t' := Call(t, digest, c).tables; t'.current == t.current && t'.closures == t.closures
  {
  }

  /** A subject's sole open enrolment stays so through any step that neither closes it nor half-enrols the subject. */
  lemma StepStaysSole(t: Tables, digest: KeyDigest, step: Step, s: Subject, f: Fingerprint)
    requires SoleOpen(t, s, f) && f !in After(t, digest, step).closures && !HalfEnrols(t, digest, step, s)
    ensures SoleOpen(After(t, digest, step), s, f)
  {
    if step.keepRefused && Call(t, digest, step.command).outcome.Failure? {
      RefusedWrites(t, digest, step.command);
    } else {
      RootStaysSole(t, digest, step.command, s, f);
    }
  }

  /** A resolved admission root stays exactly what it was through any step that neither closes it nor half-enrols its
      subject. */
  lemma RootStays(t: Tables, digest: KeyDigest, step: Step, s: Subject)
    requires ResolveAdmissionRoot(t, digest, s).Success? && !HalfEnrols(t, digest, step, s)
    requires ResolveAdmissionRoot(t, digest, s).value.root.fingerprint !in After(t, digest, step).closures
    ensures ResolveAdmissionRoot(After(t, digest, step), digest, s) == ResolveAdmissionRoot(t, digest, s)
  {
    var f := ResolveAdmissionRoot(t, digest, s).value.root.fingerprint;
    ResolveExact(t, digest, s);
    StepStaysSole(t, digest, step, s, f);
    CallGrows(t, digest, step.command);
    SoleStillResolves(t, After(t, digest, step), digest, s, f);
  }

  lemma SoleStillResolves(t: Tables, t': Tables, digest: KeyDigest, s: Subject, f: Fingerprint)
    requires ResolveAdmissionRoot(t, digest, s).Success? && Grows(t, t')
    requires ResolveAdmissionRoot(t, digest, s).value.root.fingerprint == f && SoleOpen(t, s, f) && SoleOpen(t', s, f)
    ensures ResolveAdmissionRoot(t', digest, s) == ResolveAdmissionRoot(t, digest, s)
  {
    SoleOpenExact(t, s, f);
    SoleOpenExact(t', s, f);
  }

  /** A half enrolment takes the root away. */
  lemma HalfEnrolmentDisturbs(t: Tables, digest: KeyDigest, step: Step, s: Subject)
    requires ResolveAdmissionRoot(t, digest, s).Success? && HalfEnrols(t, digest, step, s)
    ensures ResolveAdmissionRoot(After(t, digest, step), digest, s).Failure?
  {
    var t' := After(t, digest, step);
    RefusedWrites(t, digest, step.command);
    CallGrows(t, digest, step.command);
    ResolveExact(t, digest, s);
    var f := ResolveAdmissionRoot(t, digest, s).value.root.fingerprint;
    assert Current(t', s) == Some(f) && OpenFor(t', s) != {f};
    assert forall g :: !SoleOpen(t', s, g);
    ResolveExact(t', digest, s);
  }

  // ---------------------------------------------------------------- whole runs

  lemma {:induction false} HostStable(w: World, digest: KeyDigest, evs: seq<Event>, target: RowId, n: nat)
    requires n <= |evs|
    requires CurrentHost(w.bindings, target).Success?
    requires CurrentHost(w.bindings, target).value.associationId
               !in Later(w, digest, evs).bindings.associationClosures
    ensures CurrentHost(At(w, digest, evs, n).bindings, target) == CurrentHost(w.bindings, target)
    decreases n
  {
    if n == 0 {
      assert evs[..0] == [];
    } else {
      HostStable(w, digest, evs, target, n - 1);
      AtStep(w, digest, evs, n - 1);
      AtGrows(w, digest, evs, n);
      var before := At(w, digest, evs, n - 1);
      match evs[n - 1]
      case HostEvent(c) => HostStays(before.bindings, c, target);
      case _ =>
    }
  }

  lemma {:induction false} PolicyStable(w: World, digest: KeyDigest, evs: seq<Event>, target: RowId, n: nat)
    requires n <= |evs|
    requires CurrentPolicy(w.bindings, target).Success?
    requires CurrentPolicy(w.bindings, target).value.policyId !in Later(w, digest, evs).bindings.policyClosures
    ensures CurrentPolicy(At(w, digest, evs, n).bindings, target) == CurrentPolicy(w.bindings, target)
    decreases n
  {
    if n == 0 {
      assert evs[..0] == [];
    } else {
      PolicyStable(w, digest, evs, target, n - 1);
      AtStep(w, digest, evs, n - 1);
      AtGrows(w, digest, evs, n);
      var before := At(w, digest, evs, n - 1);
      match evs[n - 1]
      case HostEvent(c) => PolicyStays(before.bindings, c, target);
      case _ =>
    }
  }

  /** No step of the run half-enrols the subject. */
  ghost predicate NoHalfEnrolment(w: World, digest: KeyDigest, evs: seq<Event>, s: Subject) {
    forall n :: 0 <= n < |evs| && evs[n].RootEvent? ==>
      !HalfEnrols(At(w, digest, evs, n).registry, digest, evs[n].root, s)
  }

  /** Where every refused command is rolled back there is none. */
  lemma RolledBackHasNone(w: World, digest: KeyDigest, evs: seq<Event>, s: Subject)
    requires forall ev :: ev in evs && ev.RootEvent? ==> !ev.root.keepRefused
    ensures NoHalfEnrolment(w, digest, evs, s)
  {
    assert forall n :: 0 <= n < |evs| ==> evs[n] in evs;
  }

  lemma {:induction false} RootStable(w: World, digest: KeyDigest, evs: seq<Event>, s: Subject, n: nat)
    requires n <= |evs| && NoHalfEnrolment(w, digest, evs, s)
    requires ResolveAdmissionRoot(w.registry, digest, s).Success?
    requires ResolveAdmissionRoot(w.registry, digest, s).value.root.fingerprint
               !in Later(w, digest, evs).registry.closures
    ensures ResolveAdmissionRoot(At(w, digest, evs, n).registry, digest, s)
            == ResolveAdmissionRoot(w.registry, digest, s)
    decreases n
  {
    if n == 0 {
      assert evs[..0] == [];
    } else {
      RootStable(w, digest, evs, s, n - 1);
      AtStep(w, digest, evs, n - 1);
      AtGrows(w, digest, evs, n);
      var before := At(w, digest, evs, n - 1);
      match evs[n - 1]
      case RootEvent(step) => RootStays(before.registry, digest, step, s);
      case _ =>
    }
  }

  /** The run from position k on is a run from the state at k. */
  lemma AtShift(w: World, digest: KeyDigest, evs: seq<Event>, k: nat, n: nat)
    requires k <= n <= |evs|
    ensures At(At(w, digest, evs, k), digest, evs[k..], n - k) == At(w, digest, evs, n)
  {
    assert evs[..n] == evs[..k] + evs[k..][..n - k];
    LaterSplit(w, digest, evs[..k], evs[k..][..n - k]);
  }

  lemma LaterShift(w: World, digest: KeyDigest, evs: seq<Event>, k: nat)
    requires k <= |evs|
    ensures Later(At(w, digest, evs, k), digest, evs[k..]) == Later(w, digest, evs)
  {
    assert evs == evs[..k] + evs[k..];
    LaterSplit(w, digest, evs[..k], evs[k..]);
  }

  lemma NoHalfEnrolmentFrom(w: World, digest: KeyDigest, evs: seq<Event>, s: Subject, k: nat)
    requires k <= |evs| && NoHalfEnrolmentAfter(w, digest, evs, s, k)
    ensures NoHalfEnrolment(At(w, digest, evs, k), digest, evs[k..], s)
  {
    forall n | 0 <= n < |evs[k..]| && evs[k..][n].RootEvent?
      ensures !HalfEnrols(At(At(w, digest, evs, k), digest, evs[k..], n).registry, digest, evs[k..][n].root, s)
    {
      ShiftedEvent(w, digest, evs, k, n);
    }
  }

  lemma ShiftedEvent(w: World, digest: KeyDigest, evs: seq<Event>, k: nat, n: nat)
    requires k + n < |evs|
    ensures evs[k..][n] == evs[k + n]
    ensures At(At(w, digest, evs, k), digest, evs[k..], n) == At(w, digest, evs, k + n)
  {
    AtShift(w, digest, evs, k, k + n);
  }

  /** No step from position k on half-enrols the subject. */
  ghost predicate NoHalfEnrolmentAfter(w: World, digest: KeyDigest, evs: seq<Event>, s: Subject, k: nat) {
    forall n :: k <= n < |evs| && evs[n].RootEvent? ==>
      !HalfEnrols(At(w, digest, evs, n).registry, digest, evs[n].root, s)
  }

  // ---------------------------------------------------------------- the protocol

  /** The facts a context names are exactly what the state resolves to. */
  ghost predicate Holds(env: Env, w: World, at: Coordinate) {
    && CurrentHost(w.bindings, at.target).Success?
    && CurrentPolicy(w.bindings, at.target).Success?
    && var host, policy := CurrentHost(w.bindings, at.target).value, CurrentPolicy(w.bindings, at.target).value;
       && host.associationId == at.associationId && host.row.hostId == at.hostId
       && policy.policyId == at.policyId
       && policy.row.association == host.associationId
       && policy.row.candidateAudience == at.candidateAudience
       && policy.row.installedAudience == at.installedAudience
       && policy.row.package == at.package
       && RootIs(env, w, CandidateSubject(policy), at.candidateRoot)
       && RootIs(env, w, InstalledSubject(host), at.installedRoot)
  }

  /** The subject's admission root is the one the context recorded, at whatever instant it was read. */
  ghost predicate RootIs(env: Env, w: World, s: Subject, c: RootContext) {
    && ResolveAdmissionRoot(w.registry, env.digest, s).Success?
    && var r := ResolveAdmissionRoot(w.registry, env.digest, s).value;
       c == RootContext(r.root.subject, r.descriptor.issuer, r.descriptor.keyId, r.descriptor.purpose, r.version,
                        r.root.enrolledAt, r.descriptor.notAfter, r.root.algorithm,
                        env.keyBase64(r.root.publicKey), r.root.fingerprint)
  }

  lemma ResolvedRootIs(env: Env, w: World, s: Subject, purpose: Text, now: Instant)
    requires ResolveRoot(env, w, s, purpose, now).Success?
    ensures RootIs(env, w, s, ResolveRoot(env, w, s, purpose, now).value)
    ensures ResolveAdmissionRoot(w.registry, env.digest, s).value.root.fingerprint !in w.registry.closures
  {
  }

  /** What a resolved context says of the rows outside bindings and roots, and about itself. */
  ghost predicate ResolvedFrom(env: Env, w: World, attempt: RowId, p: Presentation, ctx: Context) {
    && ctx.attempt == attempt && ctx.at.presentation == p && ctx.digest == env.contextDigest(ctx.at)
    && CredentialByKeyId(w, p.keyId) == Some(ctx.at.credentialId) && ctx.at.credentialId in w.credentials
    && var c := w.credentials[ctx.at.credentialId];
       && c.target == ctx.at.target && c.keyId == ctx.at.credentialKeyId
       && c.fingerprint == ctx.at.credentialFingerprint
       && c.algorithm == Some(ctx.at.credentialAlgorithm) && c.purpose == Some(ctx.at.credentialPurpose)
       && env.verify(p, ctx.at.credentialAlgorithm, c.fingerprint, c.publicKey)
       && p.issuedAt < p.expiresAt && p.expiresAt - p.issuedAt <= MAX_LIFETIME
       && ctx.at.target in w.bindings.targets && w.bindings.targets[ctx.at.target] == ctx.at.targetRef
       && RequireStoredDispatch(w, attempt, ctx.at.target)
            == Success(StoredDispatch(ctx.at.target, ctx.at.dispatchId, ctx.at.envelopeDigest))
       && ctx.at.candidateRoot.purpose == CandidatePurpose() && ctx.at.installedRoot.purpose == InstalledPurpose()
  }

  lemma ResolveFactsEstablish(env: Env, w: World, attempt: RowId, p: Presentation, id: RowId, c: Credential,
                              now: Instant, ctx: Context)
    requires c.algorithm.Some? && c.purpose.Some? && c.target in w.bindings.targets
    requires ResolveFacts(env, w, attempt, p, id, c, now) == Success(ctx)
    ensures Holds(env, w, ctx.at)
  {
    var host, policy := CurrentHost(w.bindings, c.target).value, CurrentPolicy(w.bindings, c.target).value;
    ResolvedRootIs(env, w, CandidateSubject(policy), CandidatePurpose(), now);
    ResolvedRootIs(env, w, InstalledSubject(host), InstalledPurpose(), now);
  }

  lemma ResolveEstablishes(env: Env, w: World, attempt: RowId, p: Presentation, now: Instant, ctx: Context)
    requires Resolve(env, w, attempt, p, now) == Success(ctx)
    ensures Holds(env, w, ctx.at)
  {
    var id := CredentialByKeyId(w, p.keyId).value;
    ResolveFactsEstablish(env, w, attempt, p, id, w.credentials[id], now, ctx);
  }

  lemma ResolveShows(env: Env, w: World, attempt: RowId, p: Presentation, now: Instant, ctx: Context)
    requires Resolve(env, w, attempt, p, now) == Success(ctx)
    ensures ResolvedFrom(env, w, attempt, p, ctx)
  {
    var id := CredentialByKeyId(w, p.keyId).value;
    var c := w.credentials[id];
    assert ResolveFacts(env, w, attempt, p, id, c, now) == Success(ctx);
  }

  /** None of the four things the context names has been closed. */
  ghost predicate Unclosed(w: World, at: Coordinate) {
    && at.associationId !in w.bindings.associationClosures && at.policyId !in w.bindings.policyClosures
    && at.candidateRoot.fingerprint !in w.registry.closures && at.installedRoot.fingerprint !in w.registry.closures
  }

  /** What an admission shows about the state it ran in: nothing the context names has been closed. */
  lemma AdmitShows(env: Env, w: World, ctx: Context, now: Instant)
    requires Rederive(env, w, ctx, now).Success?
    ensures Unclosed(w, ctx.at)
  {
    var target := ctx.at.target;
    var host, policy := CurrentHost(w.bindings, target).value, CurrentPolicy(w.bindings, target).value;
    ResolvedRootIs(env, w, CandidateSubject(policy), CandidatePurpose(), now);
    ResolvedRootIs(env, w, InstalledSubject(host), InstalledPurpose(), now);
  }

  /** Neither of the context's two subjects is half-enrolled during the run. */
  ghost predicate Undisturbed(w: World, digest: KeyDigest, evs: seq<Event>, at: Coordinate) {
    && NoHalfEnrolment(w, digest, evs, at.candidateRoot.subject)
    && NoHalfEnrolment(w, digest, evs, at.installedRoot.subject)
  }

  lemma RootSubject(env: Env, w: World, s: Subject, c: RootContext)
    requires RootIs(env, w, s, c)
    ensures c.subject == s && c.fingerprint == ResolveAdmissionRoot(w.registry, env.digest, s).value.root.fingerprint
  {
    ResolveExact(w.registry, env.digest, s);
  }

  lemma SubjectsHeld(env: Env, w: World, at: Coordinate)
    requires Holds(env, w, at)
    ensures at.candidateRoot.subject == CandidateSubject(CurrentPolicy(w.bindings, at.target).value)
    ensures at.installedRoot.subject == InstalledSubject(CurrentHost(w.bindings, at.target).value)
  {
    RootSubject(env, w, CandidateSubject(CurrentPolicy(w.bindings, at.target).value), at.candidateRoot);
    RootSubject(env, w, InstalledSubject(CurrentHost(w.bindings, at.target).value), at.installedRoot);
  }

  /** If what a state holds of a context is still unclosed at the end of an undisturbed run, it held all along. */
  lemma HoldsThroughout(env: Env, w: World, evs: seq<Event>, at: Coordinate, n: nat)
    requires n <= |evs| && Holds(env, w, at) && Unclosed(Later(w, env.digest, evs), at)
    requires Undisturbed(w, env.digest, evs, at)
    ensures Holds(env, At(w, env.digest, evs, n), at)
  {
    SubjectsHeld(env, w, at);
    HostStable(w, env.digest, evs, at.target, n);
    PolicyStable(w, env.digest, evs, at.target, n);
    RootStable(w, env.digest, evs, at.candidateRoot.subject, n);
    RootStable(w, env.digest, evs, at.installedRoot.subject, n);
  }

  /** No ABA.  A context resolved in one state and admitted after any events at all: in every state in between
      the target's host association, policy and both roots were exactly those of the context, and the policy
      bound that association.  Nothing is assumed of the tables it starts from; refused root commands are rolled back
      or, if their callers keep what they wrote, leave the context's two subjects alone. */
  lemma IntervalStable(env: Env, w: World, attempt: RowId, p: Presentation, resolvedAt: Instant, ctx: Context,
                       evs: seq<Event>, e: ForeignEvidence, x: Execution, admittedAt: Instant, n: nat)
    requires Resolve(env, w, attempt, p, resolvedAt) == Success(ctx)
    requires Admit(env, Later(w, env.digest, evs), ctx, e, x, admittedAt).Success?
    requires n <= |evs| && Undisturbed(w, env.digest, evs, ctx.at)
    ensures Holds(env, At(w, env.digest, evs, n), ctx.at)
  {
    ResolveEstablishes(env, w, attempt, p, resolvedAt, ctx);
    AdmitRederives(env, Later(w, env.digest, evs), ctx, e, x, admittedAt);
    AdmitShows(env, Later(w, env.digest, evs), ctx, admittedAt);
    HoldsThroughout(env, w, evs, ctx.at, n);
  }

  /** The condition on kept refusals is exact: the context held in every state in between exactly when neither of its
      subjects was half-enrolled. */
  lemma IntervalStableExact(env: Env, w: World, attempt: RowId, p: Presentation, resolvedAt: Instant, ctx: Context,
                            evs: seq<Event>, e: ForeignEvidence, x: Execution, admittedAt: Instant)
    requires Resolve(env, w, attempt, p, resolvedAt) == Success(ctx)
    requires Admit(env, Later(w, env.digest, evs), ctx, e, x, admittedAt).Success?
    ensures (forall n :: 0 <= n <= |evs| ==> Holds(env, At(w, env.digest, evs, n), ctx.at))
       <==> Undisturbed(w, env.digest, evs, ctx.at)
  {
    if Undisturbed(w, env.digest, evs, ctx.at) {
      forall n | 0 <= n <= |evs|
        ensures Holds(env, At(w, env.digest, evs, n), ctx.at)
      {
        IntervalStable(env, w, attempt, p, resolvedAt, ctx, evs, e, x, admittedAt, n);
      }
    }
    if forall n :: 0 <= n <= |evs| ==> Holds(env, At(w, env.digest, evs, n), ctx.at) {
      HeldIsUndisturbed(env, w, evs, ctx.at);
    }
  }

  lemma HeldIsUndisturbed(env: Env, w: World, evs: seq<Event>, at: Coordinate)
    requires forall n :: 0 <= n <= |evs| ==> Holds(env, At(w, env.digest, evs, n), at)
    ensures Undisturbed(w, env.digest, evs, at)
  {
    forall n | 0 <= n < |evs| && evs[n].RootEvent?
      ensures !HalfEnrols(At(w, env.digest, evs, n).registry, env.digest, evs[n].root, at.candidateRoot.subject)
      ensures !HalfEnrols(At(w, env.digest, evs, n).registry, env.digest, evs[n].root, at.installedRoot.subject)
    {
      HeldAcross(env, w, evs, at, n);
    }
  }

  lemma HeldAcross(env: Env, w: World, evs: seq<Event>, at: Coordinate, n: nat)
    requires n < |evs| && evs[n].RootEvent?
    requires Holds(env, At(w, env.digest, evs, n), at) && Holds(env, At(w, env.digest, evs, n + 1), at)
    ensures !HalfEnrols(At(w, env.digest, evs, n).registry, env.digest, evs[n].root, at.candidateRoot.subject)
    ensures !HalfEnrols(At(w, env.digest, evs, n).registry, env.digest, evs[n].root, at.installedRoot.subject)
  {
    var before := At(w, env.digest, evs, n);
    AtStep(w, env.digest, evs, n);
    SubjectsHeld(env, before, at);
    SubjectsHeld(env, At(w, env.digest, evs, n + 1), at);
    if HalfEnrols(before.registry, env.digest, evs[n].root, at.candidateRoot.subject) {
      HalfEnrolmentDisturbs(before.registry, env.digest, evs[n].root, at.candidateRoot.subject);
    }
    if HalfEnrols(before.registry, env.digest, evs[n].root, at.installedRoot.subject) {
      HalfEnrolmentDisturbs(before.registry, env.digest, evs[n].root, at.installedRoot.subject);
    }
  }

  // ---------------------------------------------------------------- reads at different times

  /** Where in the run each statement of the resolver finds the tables, in the order of its statements. */
  datatype Reads = Reads(key: nat, target: nat, credential: nat, host: nat, policy: nat, candidate: nat, installed: nat,
                         dispatch: nat)

  ghost predicate InOrder(r: Reads, end: nat) {
    r.key <= r.target <= r.credential <= r.host <= r.policy <= r.candidate <= r.installed <= r.dispatch <= end
  }

  /** The lock-free resolver, every statement reading the tables as they are when it runs. */
  ghost function ResolveOver(env: Env, w: World, evs: seq<Event>, r: Reads, attempt: RowId, p: Presentation,
                             now: Instant): Result<Context, AdmissionRefusal>
    requires InOrder(r, |evs|)
  {
    var wKey, wTarget := At(w, env.digest, evs, r.key), At(w, env.digest, evs, r.target);
    var wCredential := At(w, env.digest, evs, r.credential);
    var found := CredentialByKeyId(wKey, p.keyId);
    if found.None? || found.value !in wKey.credentials then Failure(AUTHENTICATION_FAILED)
    else
      var id, first := found.value, wKey.credentials[found.value];
      var fault := VerifyPresentation(env, p, first, now);
      if fault.Some? then Failure(fault.value)
      else if first.target !in wTarget.bindings.targets then Failure(TARGET_MISMATCH)
      else if id !in wCredential.credentials || wCredential.credentials[id].algorithm.None?
              || wCredential.credentials[id].purpose.None?
      then Failure(CREDENTIAL_CHANGED)
      else
        var c := wCredential.credentials[id];
        if c.purpose.value != PresentationPurpose() then Failure(CREDENTIAL_PURPOSE_MISMATCH)
        else if !CredentialActive(c, now) then Failure(CREDENTIAL_NOT_ACTIVE)
        else if env.digest(c.publicKey) != Some(c.fingerprint) then Failure(CREDENTIAL_CHANGED)
        else FactsOver(env, w, evs, r, attempt, p, id, c, first.target, wTarget.bindings.targets[first.target], now)
  }

  ghost function FactsOver(env: Env, w: World, evs: seq<Event>, r: Reads, attempt: RowId, p: Presentation, id: RowId,
                           c: Credential, target: RowId, targetRef: Text, now: Instant)
    : Result<Context, AdmissionRefusal>
    requires InOrder(r, |evs|) && c.algorithm.Some? && c.purpose.Some?
  {
    match (CurrentHost(At(w, env.digest, evs, r.host).bindings, target),
           CurrentPolicy(At(w, env.digest, evs, r.policy).bindings, target))
    case (Failure(e), _) => Failure(STATE_REFUSED(e))
    case (_, Failure(e)) => Failure(STATE_REFUSED(e))
    case (Success(host), Success(policy)) =>
      if policy.row.association != host.associationId then Failure(POLICY_HOST_MISMATCH)
      else
        match (ResolveRoot(env, At(w, env.digest, evs, r.candidate), CandidateSubject(policy), CandidatePurpose(), now),
               ResolveRoot(env, At(w, env.digest, evs, r.installed), InstalledSubject(host), InstalledPurpose(), now),
               RequireStoredDispatch(At(w, env.digest, evs, r.dispatch), attempt, target))
        case (Failure(e), _, _) => Failure(e)
        case (_, Failure(e), _) => Failure(e)
        case (_, _, Failure(e)) => Failure(e)
        case (Success(candidate), Success(installed), Success(d)) =>
          if p.dispatchId != d.dispatchId then Failure(DISPATCH_MISMATCH)
          else
            var at := CoordinateOf(p, d, target, targetRef, id, c, host, policy, candidate, installed);
            Success(Context(attempt, at, env.contextDigest(at)))
  }

  /** What the reads found, each where it was read. */
  ghost predicate FoundOver(env: Env, w: World, evs: seq<Event>, r: Reads, at: Coordinate)
    requires InOrder(r, |evs|)
  {
    && CurrentHost(At(w, env.digest, evs, r.host).bindings, at.target).Success?
    && CurrentPolicy(At(w, env.digest, evs, r.policy).bindings, at.target).Success?
    && var host := CurrentHost(At(w, env.digest, evs, r.host).bindings, at.target).value;
       var policy := CurrentPolicy(At(w, env.digest, evs, r.policy).bindings, at.target).value;
       && host.associationId == at.associationId && host.row.hostId == at.hostId
       && policy.policyId == at.policyId && policy.row.association == host.associationId
       && policy.row.candidateAudience == at.candidateAudience
       && policy.row.installedAudience == at.installedAudience && policy.row.package == at.package
       && RootIs(env, At(w, env.digest, evs, r.candidate), CandidateSubject(policy), at.candidateRoot)
       && RootIs(env, At(w, env.digest, evs, r.installed), InstalledSubject(host), at.installedRoot)
  }

  lemma FactsOverFound(env: Env, w: World, evs: seq<Event>, r: Reads, attempt: RowId, p: Presentation, id: RowId,
                       c: Credential, target: RowId, targetRef: Text, now: Instant, ctx: Context)
    requires InOrder(r, |evs|) && c.algorithm.Some? && c.purpose.Some?
    requires FactsOver(env, w, evs, r, attempt, p, id, c, target, targetRef, now) == Success(ctx)
    ensures FoundOver(env, w, evs, r, ctx.at)
  {
    var host := CurrentHost(At(w, env.digest, evs, r.host).bindings, target).value;
    var policy := CurrentPolicy(At(w, env.digest, evs, r.policy).bindings, target).value;
    ResolvedRootIs(env, At(w, env.digest, evs, r.candidate), CandidateSubject(policy), CandidatePurpose(), now);
    ResolvedRootIs(env, At(w, env.digest, evs, r.installed), InstalledSubject(host), InstalledPurpose(), now);
  }

  lemma ResolveOverFound(env: Env, w: World, evs: seq<Event>, r: Reads, attempt: RowId, p: Presentation, now: Instant,
                         ctx: Context)
    requires InOrder(r, |evs|) && ResolveOver(env, w, evs, r, attempt, p, now) == Success(ctx)
    ensures FoundOver(env, w, evs, r, ctx.at)
  {
    var wKey, wTarget := At(w, env.digest, evs, r.key), At(w, env.digest, evs, r.target);
    var id := CredentialByKeyId(wKey, p.keyId).value;
    var target := wKey.credentials[id].target;
    FactsOverFound(env, w, evs, r, attempt, p, id, At(w, env.digest, evs, r.credential).credentials[id], target,
                   wTarget.bindings.targets[target], now, ctx);
  }

  lemma HostStableFrom(w: World, digest: KeyDigest, evs: seq<Event>, target: RowId, k: nat, n: nat)
    requires k <= n <= |evs| && CurrentHost(At(w, digest, evs, k).bindings, target).Success?
    requires CurrentHost(At(w, digest, evs, k).bindings, target).value.associationId
               !in Later(w, digest, evs).bindings.associationClosures
    ensures CurrentHost(At(w, digest, evs, n).bindings, target) == CurrentHost(At(w, digest, evs, k).bindings, target)
  {
    AtShift(w, digest, evs, k, n);
    LaterShift(w, digest, evs, k);
    HostStable(At(w, digest, evs, k), digest, evs[k..], target, n - k);
  }

  lemma PolicyStableFrom(w: World, digest: KeyDigest, evs: seq<Event>, target: RowId, k: nat, n: nat)
    requires k <= n <= |evs| && CurrentPolicy(At(w, digest, evs, k).bindings, target).Success?
    requires CurrentPolicy(At(w, digest, evs, k).bindings, target).value.policyId
               !in Later(w, digest, evs).bindings.policyClosures
    ensures CurrentPolicy(At(w, digest, evs, n).bindings, target)
         == CurrentPolicy(At(w, digest, evs, k).bindings, target)
  {
    AtShift(w, digest, evs, k, n);
    LaterShift(w, digest, evs, k);
    PolicyStable(At(w, digest, evs, k), digest, evs[k..], target, n - k);
  }

  lemma RootStableFrom(env: Env, w: World, evs: seq<Event>, s: Subject, c: RootContext, k: nat, n: nat)
    requires k <= n <= |evs| && RootIs(env, At(w, env.digest, evs, k), s, c)
    requires c.fingerprint !in Later(w, env.digest, evs).registry.closures
    requires NoHalfEnrolmentAfter(w, env.digest, evs, c.subject, k)
    ensures RootIs(env, At(w, env.digest, evs, n), s, c)
  {
    RootSubject(env, At(w, env.digest, evs, k), s, c);
    AtShift(w, env.digest, evs, k, n);
    LaterShift(w, env.digest, evs, k);
    NoHalfEnrolmentFrom(w, env.digest, evs, s, k);
    RootStable(At(w, env.digest, evs, k), env.digest, evs[k..], s, n - k);
    SameRootIs(env, At(w, env.digest, evs, k), At(w, env.digest, evs, n), s, c);
  }

  lemma SameRootIs(env: Env, w: World, w': World, s: Subject, c: RootContext)
    requires RootIs(env, w, s, c)
    requires ResolveAdmissionRoot(w'.registry, env.digest, s) == ResolveAdmissionRoot(w.registry, env.digest, s)
    ensures RootIs(env, w', s, c)
  {
  }

  /** The same for a resolver whose statements read at different points of the run: from the last of its reads on, all
      it found held together in every state until the admission. */
  lemma IntervalStableOver(env: Env, w: World, r: Reads, attempt: RowId, p: Presentation, resolvedAt: Instant,
                           ctx: Context, evs: seq<Event>, e: ForeignEvidence, x: Execution, admittedAt: Instant, n: nat)
    requires InOrder(r, |evs|) && ResolveOver(env, w, evs, r, attempt, p, resolvedAt) == Success(ctx)
    requires Admit(env, Later(w, env.digest, evs), ctx, e, x, admittedAt).Success?
    requires NoHalfEnrolmentAfter(w, env.digest, evs, ctx.at.candidateRoot.subject, r.candidate)
    requires NoHalfEnrolmentAfter(w, env.digest, evs, ctx.at.installedRoot.subject, r.installed)
    requires r.installed <= n <= |evs|
    ensures Holds(env, At(w, env.digest, evs, n), ctx.at)
  {
    var at := ctx.at;
    ResolveOverFound(env, w, evs, r, attempt, p, resolvedAt, ctx);
    AdmitRederives(env, Later(w, env.digest, evs), ctx, e, x, admittedAt);
    AdmitShows(env, Later(w, env.digest, evs), ctx, admittedAt);
    HostStableFrom(w, env.digest, evs, at.target, r.host, n);
    PolicyStableFrom(w, env.digest, evs, at.target, r.policy, n);
    var host := CurrentHost(At(w, env.digest, evs, r.host).bindings, at.target).value;
    var policy := CurrentPolicy(At(w, env.digest, evs, r.policy).bindings, at.target).value;
    RootStableFrom(env, w, evs, CandidateSubject(policy), at.candidateRoot, r.candidate, n);
    RootStableFrom(env, w, evs, InstalledSubject(host), at.installedRoot, r.installed, n);
  }

  /** Reads that all happen at the start are the resolver that reads one state. */
  lemma ResolveAtOnce(env: Env, w: World, evs: seq<Event>, attempt: RowId, p: Presentation, now: Instant)
    ensures ResolveOver(env, w, evs, Reads(0, 0, 0, 0, 0, 0, 0, 0), attempt, p, now)
         == Resolve(env, w, attempt, p, now)
  {
    assert evs[..0] == [];
    assert At(w, env.digest, evs, 0) == w;
  }

  lemma AdmitRederives(env: Env, w: World, ctx: Context, e: ForeignEvidence, x: Execution, now: Instant)
    requires Admit(env, w, ctx, e, x, now).Success?
    ensures Rederive(env, w, ctx, now).Success?
  {
  }
}
