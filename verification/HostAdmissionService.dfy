/**
 Which host a deployment target is bound to and which admission policy it carries: two append-only histories
 with their closures, a current pointer for each, the readers that refuse when history and pointer disagree,
 and the six commands.  A refused command writes nothing.
 */
module HostAdmissionService {
  import opened Prelude
  import opened Texts
  import opened TrustRegistry
  import HostAttesterEnrolment

  datatype Association = Association(target: RowId, hostId: Text, boundAt: Instant, authority: Text)

  datatype Policy = Policy(
    target: RowId, association: RowId, candidateSubject: Text, candidateAudience: Text,
    installedAudience: Text, package: Text, effectiveAt: Instant, authority: Text)

  datatype RowClosure = RowClosure(closedAt: Instant, authority: Text, successor: Option<RowId>)

  datatype Bindings = Bindings(
    targets: map<RowId, Text>,
    associations: map<RowId, Association>,
    associationClosures: map<RowId, RowClosure>,
    currentHost: map<RowId, RowId>,
    policies: map<RowId, Policy>,
    policyClosures: map<RowId, RowClosure>,
    currentPolicy: map<RowId, RowId>)

  datatype StateRefusal =
    | TARGET_NOT_FOUND | HOST_ABSENT | HOST_AMBIGUOUS | HOST_DRIFT | HOST_ALREADY_BOUND
    | POLICY_ABSENT | POLICY_AMBIGUOUS | POLICY_DRIFT | POLICY_ALREADY_SET
    | MALFORMED | HOST_ID_MALFORMED | ID_CONFLICT

  datatype HostView = HostView(associationId: RowId, row: Association)

  datatype PolicyView = PolicyView(policyId: RowId, row: Policy)

  // ---------------------------------------------------------------- readers

  function OpenAssociations(b: Bindings, target: RowId): set<RowId> {
    set a | a in b.associations && b.associations[a].target == target && a !in b.associationClosures
  }

  function OpenPolicies(b: Bindings, target: RowId): set<RowId> {
    set p | p in b.policies && b.policies[p].target == target && p !in b.policyClosures
  }

  function CurrentHost(b: Bindings, target: RowId): Result<HostView, StateRefusal> {
    var open := OpenAssociations(b, target);
    if |open| == 0 then
      if target in b.currentHost then Failure(HOST_DRIFT) else Failure(HOST_ABSENT)
    else if |open| != 1 then Failure(HOST_AMBIGUOUS)
    else if target !in b.currentHost || b.currentHost[target] !in open then Failure(HOST_DRIFT)
    else
      var a := b.currentHost[target];
      if !HostAttesterEnrolment.HostIdOk(b.associations[a].hostId) then Failure(MALFORMED)
      else Success(HostView(a, b.associations[a]))
  }

  function CurrentPolicy(b: Bindings, target: RowId): Result<PolicyView, StateRefusal> {
    var open := OpenPolicies(b, target);
    if |open| == 0 then
      if target in b.currentPolicy then Failure(POLICY_DRIFT) else Failure(POLICY_ABSENT)
    else if |open| != 1 then Failure(POLICY_AMBIGUOUS)
    else if target !in b.currentPolicy || b.currentPolicy[target] !in open then Failure(POLICY_DRIFT)
    else Success(PolicyView(b.currentPolicy[target], b.policies[b.currentPolicy[target]]))
  }

  // ---------------------------------------------------------------- commands

  datatype PolicyTerms = PolicyTerms(
    candidateSubject: Text, candidateAudience: Text, installedAudience: Text, package: Text, authority: Text)

  datatype HostCommand =
    | BindHost(target: RowId, hostId: Text, authority: Text, id: RowId, at: Instant)
    | RotateHost(target: RowId, hostId: Text, authority: Text, id: RowId, at: Instant)
    | RevokeHost(target: RowId, authority: Text, at: Instant)
    | SetPolicy(target: RowId, terms: PolicyTerms, id: RowId, at: Instant)
    | RevisePolicy(target: RowId, terms: PolicyTerms, id: RowId, at: Instant)
    | RevokePolicy(target: RowId, authority: Text, at: Instant)

  predicate PolicyTermsOk(p: PolicyTerms) {
    && ExactText(p.candidateSubject) && ExactText(p.candidateAudience) && ExactText(p.installedAudience)
    && ExactText(p.package) && ExactText(p.authority)
  }

  function PolicyRow(target: RowId, association: RowId, p: PolicyTerms, at: Instant): Policy {
    Policy(target, association, p.candidateSubject, p.candidateAudience, p.installedAudience, p.package, at,
           p.authority)
  }

  function BindAssociation(b: Bindings, target: RowId, hostId: Text, authority: Text, id: RowId, at: Instant)
    : Result<Bindings, StateRefusal>
  {
    if target !in b.targets then Failure(TARGET_NOT_FOUND)
    else if !HostAttesterEnrolment.HostIdOk(hostId) then Failure(HOST_ID_MALFORMED)
    else if !ExactText(authority) then Failure(MALFORMED)
    else if |OpenAssociations(b, target)| != 0 || target in b.currentHost then
      if |OpenAssociations(b, target)| == 1 && target in b.currentHost then Failure(HOST_ALREADY_BOUND)
      else Failure(HOST_DRIFT)
    else if id in b.associations then Failure(ID_CONFLICT)
    else Success(b.(associations := b.associations[id := Association(target, hostId, at, authority)],
                    currentHost := b.currentHost[target := id]))
  }

  function RotateAssociation(b: Bindings, target: RowId, hostId: Text, authority: Text, id: RowId, at: Instant)
    : Result<Bindings, StateRefusal>
  {
    if target !in b.targets then Failure(TARGET_NOT_FOUND)
    else
      match CurrentHost(b, target)
      case Failure(e) => Failure(e)
      case Success(host) =>
        if !ExactText(authority) then Failure(MALFORMED)
        else if !HostAttesterEnrolment.HostIdOk(hostId) then Failure(HOST_ID_MALFORMED)
        else if id in b.associations then Failure(ID_CONFLICT)
        else Success(b.(
          associations := b.associations[id := Association(target, hostId, at, authority)],
          associationClosures := b.associationClosures[host.associationId := RowClosure(at, authority, Some(id))],
          currentHost := b.currentHost[target := id]))
  }

  function RevokeAssociation(b: Bindings, target: RowId, authority: Text, at: Instant): Result<Bindings, StateRefusal> {
    if target !in b.targets then Failure(TARGET_NOT_FOUND)
    else
      match CurrentHost(b, target)
      case Failure(e) => Failure(e)
      case Success(host) =>
        if !ExactText(authority) then Failure(MALFORMED)
        else Success(b.(
          associationClosures := b.associationClosures[host.associationId := RowClosure(at, authority, None)],
          currentHost := b.currentHost - {target}))
  }

  function SetAdmissionPolicy(b: Bindings, target: RowId, terms: PolicyTerms, id: RowId, at: Instant)
    : Result<Bindings, StateRefusal>
  {
    if target !in b.targets then Failure(TARGET_NOT_FOUND)
    else
      match CurrentHost(b, target)
      case Failure(e) => Failure(e)
      case Success(host) =>
        if |OpenPolicies(b, target)| != 0 || target in b.currentPolicy then
          if |OpenPolicies(b, target)| == 1 && target in b.currentPolicy then Failure(POLICY_ALREADY_SET)
          else Failure(POLICY_DRIFT)
        else if !PolicyTermsOk(terms) then Failure(MALFORMED)
        else if id in b.policies then Failure(ID_CONFLICT)
        else Success(b.(policies := b.policies[id := PolicyRow(target, host.associationId, terms, at)],
                        currentPolicy := b.currentPolicy[target := id]))
  }

  function ReviseAdmissionPolicy(b: Bindings, target: RowId, terms: PolicyTerms, id: RowId, at: Instant)
    : Result<Bindings, StateRefusal>
  {
    if target !in b.targets then Failure(TARGET_NOT_FOUND)
    else
      match (CurrentHost(b, target), CurrentPolicy(b, target))
      case (Failure(e), _) => Failure(e)
      case (_, Failure(e)) => Failure(e)
      case (Success(host), Success(policy)) =>
        if !PolicyTermsOk(terms) then Failure(MALFORMED)
        else if id in b.policies then Failure(ID_CONFLICT)
        else Success(b.(
          policies := b.policies[id := PolicyRow(target, host.associationId, terms, at)],
          policyClosures := b.policyClosures[policy.policyId := RowClosure(at, terms.authority, Some(id))],
          currentPolicy := b.currentPolicy[target := id]))
  }

  function RevokeAdmissionPolicy(b: Bindings, target: RowId, authority: Text, at: Instant)
    : Result<Bindings, StateRefusal>
  {
    if target !in b.targets then Failure(TARGET_NOT_FOUND)
    else
      match CurrentPolicy(b, target)
      case Failure(e) => Failure(e)
      case Success(policy) =>
        if !ExactText(authority) then Failure(MALFORMED)
        else Success(b.(
          policyClosures := b.policyClosures[policy.policyId := RowClosure(at, authority, None)],
          currentPolicy := b.currentPolicy - {target}))
  }

  function Apply(b: Bindings, c: HostCommand): Result<Bindings, StateRefusal> {
    match c
    case BindHost(target, hostId, authority, id, at) => BindAssociation(b, target, hostId, authority, id, at)
    case RotateHost(target, hostId, authority, id, at) => RotateAssociation(b, target, hostId, authority, id, at)
    case RevokeHost(target, authority, at) => RevokeAssociation(b, target, authority, at)
    case SetPolicy(target, terms, id, at) => SetAdmissionPolicy(b, target, terms, id, at)
    case RevisePolicy(target, terms, id, at) => ReviseAdmissionPolicy(b, target, terms, id, at)
    case RevokePolicy(target, authority, at) => RevokeAdmissionPolicy(b, target, authority, at)
  }

  function Applied(b: Bindings, c: HostCommand): Bindings {
    match Apply(b, c)
    case Success(b') => b'
    case Failure(_) => b
  }

  // ---------------------------------------------------------------- what one command can do

  /** Histories only gain rows, and rows do not change. */
  ghost predicate HistoryGrows(b: Bindings, b': Bindings) {
    && (forall a :: a in b.associations ==> a in b'.associations && b'.associations[a] == b.associations[a])
    && (forall a :: a in b.associationClosures ==>
          a in b'.associationClosures && b'.associationClosures[a] == b.associationClosures[a])
    && (forall p :: p in b.policies ==> p in b'.policies && b'.policies[p] == b.policies[p])
    && (forall p :: p in b.policyClosures ==>
          p in b'.policyClosures && b'.policyClosures[p] == b.policyClosures[p])
  }

  lemma AppliedGrows(b: Bindings, c: HostCommand)
    ensures HistoryGrows(b, Applied(b, c))
  {
    if c.BindHost? || c.RotateHost? || c.RevokeHost? {
      HostCommandGrows(b, c);
    } else {
      PolicyCommandGrows(b, c);
    }
  }

  lemma HostCommandGrows(b: Bindings, c: HostCommand)
    requires c.BindHost? || c.RotateHost? || c.RevokeHost?
    ensures HistoryGrows(b, Applied(b, c))
  {
  }

  lemma PolicyCommandGrows(b: Bindings, c: HostCommand)
    requires c.SetPolicy? || c.RevisePolicy? || c.RevokePolicy?
    ensures HistoryGrows(b, Applied(b, c))
  {
  }

  /** A current host stays the current host through any command that does not close its association. */
  lemma HostStays(b: Bindings, c: HostCommand, target: RowId)
    requires CurrentHost(b, target).Success?
    requires CurrentHost(b, target).value.associationId !in Applied(b, c).associationClosures
    ensures CurrentHost(Applied(b, c), target) == CurrentHost(b, target)
  {
    var a := CurrentHost(b, target).value.associationId;
    var b' := Applied(b, c);
    SingletonOf(OpenAssociations(b, target), a);
    HostStaysOpen(b, c, target, a);
    SingletonOf(OpenAssociations(b', target), a);
  }

  lemma HostStaysOpen(b: Bindings, c: HostCommand, target: RowId, a: RowId)
    requires OpenAssociations(b, target) == {a} && target in b.currentHost && b.currentHost[target] == a
    requires a !in Applied(b, c).associationClosures
    ensures OpenAssociations(Applied(b, c), target) == {a}
    ensures target in Applied(b, c).currentHost && Applied(b, c).currentHost[target] == a
  {
    assert a in OpenAssociations(b, target);
  }

  /** The same for a current policy. */
  lemma PolicyStays(b: Bindings, c: HostCommand, target: RowId)
    requires CurrentPolicy(b, target).Success?
    requires CurrentPolicy(b, target).value.policyId !in Applied(b, c).policyClosures
    ensures CurrentPolicy(Applied(b, c), target) == CurrentPolicy(b, target)
  {
    var p := CurrentPolicy(b, target).value.policyId;
    var b' := Applied(b, c);
    SingletonOf(OpenPolicies(b, target), p);
    PolicyStaysOpen(b, c, target, p);
    SingletonOf(OpenPolicies(b', target), p);
  }

  lemma PolicyStaysOpen(b: Bindings, c: HostCommand, target: RowId, p: RowId)
    requires OpenPolicies(b, target) == {p} && target in b.currentPolicy && b.currentPolicy[target] == p
    requires p !in Applied(b, c).policyClosures
    ensures OpenPolicies(Applied(b, c), target) == {p}
    ensures target in Applied(b, c).currentPolicy && Applied(b, c).currentPolicy[target] == p
  {
    assert p in OpenPolicies(b, target);
  }
}
