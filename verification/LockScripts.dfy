/** The explicit row locks each operation takes, in the order it takes them, as functions of what it reads. */
module LockScripts {
  import opened Texts
  import opened TrustRegistry
  import opened HostAdmissionService
  import opened HostAdmissionCoordinator
  import opened Locks

  /** A pointer row is locked when it exists. */
  function HostPointerLock(b: Bindings, target: RowId): seq<Lock> {
    if target in b.currentHost then [HostPointer(target)] else []
  }

  function PolicyPointerLock(b: Bindings, target: RowId): seq<Lock> {
    if target in b.currentPolicy then [PolicyPointer(target)] else []
  }

  function HostCommandLocks(b: Bindings, c: HostCommand): seq<Lock> {
    if c.target !in b.targets then []
    else
      var host, policy := HostPointerLock(b, c.target), PolicyPointerLock(b, c.target);
      var again := Apply(b, c).Success?;
      [TargetRow(c.target)] +
      match c
      case BindHost(_, hostId, authority, _, _) =>
        if HostAttesterEnrolment.HostIdOk(hostId) && ExactText(authority) then host else []
      case RotateHost(_, _, _, _, _) => host + if again then host else []
      case RevokeHost(_, _, _) => host + if again then host else []
      case SetPolicy(_, _, _, _) => host + if CurrentHost(b, c.target).Success? then policy else []
      case RevisePolicy(_, _, _, _) =>
        host + (if CurrentHost(b, c.target).Success? then policy else []) + if again then policy else []
      case RevokePolicy(_, _, _) => policy + if again then policy else []
  }

  /** A registry command locks the one subject it is about; some refusals come before the lock. */
  predicate RegistryCommandLocks(t: Tables, c: Command, locks: seq<Lock>) {
    match c
    case Enrol(terms) => locks == [] || locks == [SubjectRow(terms.subject)]
    case Rotate(_, terms) => locks == [SubjectRow(terms.subject)]
    case Revoke(f, _, _, _) => locks == if f in t.enrolments then [SubjectRow(t.enrolments[f].subject)] else []
    case Repair(s) => locks == [SubjectRow(s)]
  }

  /** Loading a credential for update locks its own target first. */
  function CredentialLocks(w: World, id: RowId): seq<Lock> {
    if id in w.credentials then
      (if w.credentials[id].target in w.bindings.targets then [TargetRow(w.credentials[id].target)] else [])
      + [CredentialRow(id)]
    else []
  }

  /** How far the finaliser's checks let it get before the next group of locks. */
  datatype Progress = AT_TARGET | AT_CREDENTIAL | AT_HOST | AT_POLICY | AT_SUBJECTS

  /** The finaliser stops after its first lock exactly when the target row is missing or names another reference. */
  predicate Reaches(w: World, ctx: Context, reached: Progress) {
    reached == AT_TARGET <==>
      ctx.at.target !in w.bindings.targets || w.bindings.targets[ctx.at.target] != ctx.at.targetRef
  }

  function SubjectsLocked(b: Bindings, target: RowId): seq<Subject>
    requires CurrentHost(b, target).Success? && CurrentPolicy(b, target).Success?
  {
    [CandidateSubject(CurrentPolicy(b, target).value), InstalledSubject(CurrentHost(b, target).value)]
  }

  function SubjectLocks(b: Bindings, target: RowId): seq<Lock> {
    if CurrentHost(b, target).Success? && CurrentPolicy(b, target).Success?
    then SubjectRows(SortedSubjects(SubjectsLocked(b, target)))
    else []
  }

  /** The finaliser's locks, for a context and the group it reached; a refusal stops at an earlier group. */
  function FinaliserLocks(w: World, ctx: Context, reached: Progress): seq<Lock> {
    var target := ctx.at.target;
    if target !in w.bindings.targets then []
    else
      var atTarget := [TargetRow(target)];
      var atCredential := atTarget + CredentialLocks(w, ctx.at.credentialId);
      var atHost := atCredential + HostPointerLock(w.bindings, target);
      var atPolicy := atHost + PolicyPointerLock(w.bindings, target);
      match reached
      case AT_TARGET => atTarget
      case AT_CREDENTIAL => atCredential
      case AT_HOST => atHost
      case AT_POLICY => atPolicy
      case AT_SUBJECTS => atPolicy + SubjectLocks(w.bindings, target)
  }
}
