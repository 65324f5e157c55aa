/**
 The durable attestation trust registry: two append-only tables, the projection that speeds them up,
 its readers and its four commands.

 A table is a map from its unique key to the rest of the row, so any value of Tables is a set of rows
 the unique keys allow, whoever wrote it.  An insert that a key refuses leaves the tables alone and
 the command refused; what a refused command wrote before that stays in the transaction, and the
 caller rolls it back (see Committed).
 */
module TrustRegistry {
  import opened Prelude
  import opened Texts

  type Fingerprint = Text
  type Instant = int
  type RowId = nat

  /** The fingerprint of a key text; None when the text is not a canonical encoding. */
  type KeyDigest = Text -> Option<Fingerprint>

  datatype Subject = Subject(domain: Text, name: Text)

  datatype Enrolment = Enrolment(
    id: RowId, subject: Subject, publicKey: Text, algorithm: Text, custodyPointer: Text,
    supersedes: Option<Fingerprint>, enrolledAt: Instant, authority: Text)

  datatype ClosureKind = SUPERSEDED | REVOKED

  datatype Closure = Closure(
    kind: ClosureKind, closedAt: Instant, authority: Text, reason: Option<Text>,
    supersededBy: Option<Fingerprint>)

  datatype Descriptor = Descriptor(issuer: Text, keyId: Text, purpose: Text, notAfter: Instant)

  datatype Tables = Tables(
    enrolments: map<Fingerprint, Enrolment>,
    closures: map<Fingerprint, Closure>,
    current: map<Subject, Fingerprint>,
    descriptors: map<RowId, Descriptor>,
    lockRows: set<Subject>)

  const EMPTY := Tables(map[], map[], map[], map[], {})

  // ---------------------------------------------------------------- readers

  /** The enrolments of a subject that no closure names. */
  function OpenFor(t: Tables, s: Subject): set<Fingerprint> {
    set f | f in t.enrolments && t.enrolments[f].subject == s && f !in t.closures
  }

  function CountOpen(t: Tables, s: Subject): nat { |OpenFor(t, s)| }

  function Current(t: Tables, s: Subject): Option<Fingerprint> {
    if s in t.current then Some(t.current[s]) else None
  }

  /** The single open enrolment, from the append-only tables alone; None when there are none or several. */
  ghost function DeriveCurrent(t: Tables, s: Subject): (r: Option<Fingerprint>)
    ensures r.Some? <==> |OpenFor(t, s)| == 1
    ensures r.Some? ==> OpenFor(t, s) == {r.value}
  {
    if |OpenFor(t, s)| == 1 then
      var f :| f in OpenFor(t, s);
      SingletonOf(OpenFor(t, s), f);
      Some(f)
    else None
  }

  datatype Drift = Drift(expected: Option<Fingerprint>, recorded: Option<Fingerprint>, openCount: nat) {
    predicate Drifted() { expected != recorded || openCount > 1 }
  }

  ghost function Reconcile(t: Tables, s: Subject): Drift {
    Drift(DeriveCurrent(t, s), Current(t, s), CountOpen(t, s))
  }

  datatype Standing =
    | VALID | ABSENT | WRONG_HOST | NOT_ACTIVE_FOR_HOST | REGISTRY_DISAGREEMENT | FP_SUPERSEDED | FP_REVOKED

  function FingerprintStanding(t: Tables, f: Fingerprint): Standing {
    if f !in t.enrolments then ABSENT
    else if f in t.closures then
      if t.closures[f].kind == REVOKED then FP_REVOKED else FP_SUPERSEDED
    else
      var s := t.enrolments[f].subject;
      if CountOpen(t, s) > 1 then REGISTRY_DISAGREEMENT
      else
        match Current(t, s)
        case None => NOT_ACTIVE_FOR_HOST
        case Some(c) => if c != f then WRONG_HOST else VALID
  }

  datatype RootView = RootView(
    subject: Subject, fingerprint: Fingerprint, publicKey: Text, algorithm: Text, enrolledAt: Instant)

  datatype RootRefusal = ROOT_ABSENT | ROOT_DISAGREEMENT | ROOT_DRIFT | ROOT_MISSING_DESCRIPTOR

  function ViewOf(f: Fingerprint, e: Enrolment): RootView {
    RootView(e.subject, f, e.publicKey, e.algorithm, e.enrolledAt)
  }

  function ResolveCurrentRoot(t: Tables, digest: KeyDigest, s: Subject): Result<RootView, RootRefusal> {
    match Current(t, s)
    case None => Failure(ROOT_ABSENT)
    case Some(f) =>
      if f !in t.enrolments then Failure(ROOT_DRIFT)
      else if t.enrolments[f].subject != s then Failure(ROOT_DRIFT)
      else if f in t.closures then Failure(ROOT_DRIFT)
      else if CountOpen(t, s) > 1 then Failure(ROOT_DISAGREEMENT)
      else if digest(t.enrolments[f].publicKey) != Some(f) then Failure(ROOT_DRIFT)
      else Success(ViewOf(f, t.enrolments[f]))
  }

  datatype AdmissionRoot = AdmissionRoot(root: RootView, version: RowId, descriptor: Descriptor)

  function ResolveAdmissionRoot(t: Tables, digest: KeyDigest, s: Subject): Result<AdmissionRoot, RootRefusal> {
    match ResolveCurrentRoot(t, digest, s)
    case Failure(r) => Failure(r)
    case Success(root) =>
      var id := t.enrolments[root.fingerprint].id;
      if id !in t.descriptors then Failure(ROOT_MISSING_DESCRIPTOR)
      else Success(AdmissionRoot(root, id, t.descriptors[id]))
  }

  // ---------------------------------------------------------------- input checks

  datatype Refusal =
    | ALREADY_ENROLLED | NO_ACTIVE_ROOT_TO_ROTATE | SUPERSEDES_MISMATCH | FINGERPRINT_REVOKED
    | FINGERPRINT_SUPERSEDED | UNKNOWN_FINGERPRINT | LOST_ROTATION_RACE | AMBIGUOUS_CURRENT_ROOT
    | MALFORMED_DESCRIPTOR | PURPOSE_MISMATCH | MALFORMED_KEY | MALFORMED_CUSTODY_POINTER

  function CandidateDomain(): Text { T("candidate_release_signer") }

  function HostDomain(): Text { T("host_attester") }

  function CandidatePurpose(): Text { T("dotmac.foundation.candidate-artifact.v2") }

  function InstalledPurpose(): Text { T("dotmac.foundation.installed-host.v2") }

  function ExpectedPurpose(domain: Text): Option<Text> {
    if domain == CandidateDomain() then Some(CandidatePurpose())
    else if domain == HostDomain() then Some(InstalledPurpose())
    else None
  }

  /** The first fault of a descriptor, in the order the checks run. */
  function DescriptorFault(domain: Text, d: Descriptor, enrolledAt: Instant): Option<Refusal> {
    if ExpectedPurpose(domain) != Some(d.purpose) then Some(PURPOSE_MISMATCH)
    else if !ExactText(d.issuer) || !ExactText(d.keyId) then Some(MALFORMED_DESCRIPTOR)
    else if d.notAfter <= enrolledAt then Some(MALFORMED_DESCRIPTOR)
    else None
  }

  const MAX_TEXT := 512

  /** A pointer into the custody store: exact text, bounded, without blanks or line breaks, right scheme. */
  predicate CustodyPointerOk(p: Text) {
    && ExactText(p)
    && |p| <= MAX_TEXT
    && (forall c | c in p :: c !in {10, 13, 32})
    && T("bao://") <= p
  }

  // ---------------------------------------------------------------- commands

  datatype Terms = Terms(
    id: RowId, subject: Subject, publicKey: Text, algorithm: Text, custodyPointer: Text,
    authority: Text, descriptor: Descriptor, at: Instant)

  datatype Command =
    | Enrol(terms: Terms)
    | Rotate(supersedes: Fingerprint, terms: Terms)
    | Revoke(fingerprint: Fingerprint, authority: Text, reason: Option<Text>, at: Instant)
    | Repair(subject: Subject)

  /** The tables as a call leaves them in its transaction, and how the call ended. */
  datatype Attempt = Attempt(tables: Tables, outcome: Result<(), Refusal>)

  predicate IdTaken(t: Tables, id: RowId) {
    id in t.descriptors || exists f | f in t.enrolments :: t.enrolments[f].id == id
  }

  function RowOf(terms: Terms, supersedes: Option<Fingerprint>): Enrolment {
    Enrolment(terms.id, terms.subject, terms.publicKey, terms.algorithm, terms.custodyPointer, supersedes,
              terms.at, terms.authority)
  }

  /** The unique fingerprint, the unique superseded fingerprint and the row id admit the row. */
  predicate InsertAllowed(t: Tables, f: Fingerprint, row: Enrolment) {
    && f !in t.enrolments
    && !IdTaken(t, row.id)
    && (row.supersedes.Some? ==>
          row.supersedes.value != f &&
          forall g | g in t.enrolments :: t.enrolments[g].supersedes != row.supersedes)
  }

  function InsertEnrolment(t: Tables, f: Fingerprint, row: Enrolment, d: Descriptor): Tables {
    t.(enrolments := t.enrolments[f := row], descriptors := t.descriptors[row.id := d])
  }

  function LockSubject(t: Tables, s: Subject): Tables { t.(lockRows := t.lockRows + {s}) }

  function EnrolRoot(t0: Tables, digest: KeyDigest, terms: Terms): Attempt {
    var fault := DescriptorFault(terms.subject.domain, terms.descriptor, terms.at);
    if fault.Some? then Attempt(t0, Failure(fault.value))
    else
      var t := LockSubject(t0, terms.subject);
      if digest(terms.publicKey).None? then Attempt(t, Failure(MALFORMED_KEY))
      else
        var f := digest(terms.publicKey).value;
        var row := RowOf(terms, None);
        if !CustodyPointerOk(terms.custodyPointer) then Attempt(t, Failure(MALFORMED_CUSTODY_POINTER))
        else if !InsertAllowed(t, f, row) then Attempt(t, Failure(ALREADY_ENROLLED))
        else
          var t1 := InsertEnrolment(t, f, row, terms.descriptor);
          if terms.subject in t1.current then Attempt(t1, Failure(ALREADY_ENROLLED))
          else Attempt(t1.(current := t1.current[terms.subject := f]), Success(()))
  }

  function RotateRoot(t0: Tables, digest: KeyDigest, supersedes: Fingerprint, terms: Terms): Attempt {
    var s := terms.subject;
    var t := LockSubject(t0, s);
    if digest(terms.publicKey).None? then Attempt(t, Failure(MALFORMED_KEY))
    else
      var f := digest(terms.publicKey).value;
      var fault := DescriptorFault(s.domain, terms.descriptor, terms.at);
      if f == supersedes then Attempt(t, Failure(SUPERSEDES_MISMATCH))
      else if fault.Some? then Attempt(t, Failure(fault.value))
      else if !CustodyPointerOk(terms.custodyPointer) then Attempt(t, Failure(MALFORMED_CUSTODY_POINTER))
      else if s !in t.current then Attempt(t, Failure(NO_ACTIVE_ROOT_TO_ROTATE))
      else if t.current[s] != supersedes then Attempt(t, Failure(SUPERSEDES_MISMATCH))
      else if supersedes !in t.enrolments || t.enrolments[supersedes].subject != s
      then Attempt(t, Failure(SUPERSEDES_MISMATCH))
      else
        var row := RowOf(terms, Some(supersedes));
        if !InsertAllowed(t, f, row) then Attempt(t, Failure(LOST_ROTATION_RACE))
        else
          var t1 := InsertEnrolment(t, f, row, terms.descriptor);
          if supersedes in t1.closures then
            Attempt(t1, Failure(if t1.closures[supersedes].kind == REVOKED then FINGERPRINT_REVOKED
                                else LOST_ROTATION_RACE))
          else
            var closure := Closure(SUPERSEDED, terms.at, terms.authority, None, Some(f));
            Attempt(t1.(closures := t1.closures[supersedes := closure], current := t1.current[s := f]), Success(()))
  }

  function RevokeRoot(t0: Tables, f: Fingerprint, authority: Text, reason: Option<Text>, at: Instant): Attempt {
    if f !in t0.enrolments then Attempt(t0, Failure(UNKNOWN_FINGERPRINT))
    else
      var s := t0.enrolments[f].subject;
      var t := LockSubject(t0, s);
      if f in t.closures then
        Attempt(t, Failure(if t.closures[f].kind == SUPERSEDED then FINGERPRINT_SUPERSEDED else FINGERPRINT_REVOKED))
      else
        var t1 := t.(closures := t.closures[f := Closure(REVOKED, at, authority, reason, None)]);
        Attempt(if Current(t1, s) == Some(f) then t1.(current := t1.current - {s}) else t1, Success(()))
  }

  ghost function RepairCurrentRoot(t0: Tables, s: Subject): Attempt {
    var t := LockSubject(t0, s);
    if CountOpen(t, s) > 1 then Attempt(t, Failure(AMBIGUOUS_CURRENT_ROOT))
    else
      match DeriveCurrent(t, s)
      case None => Attempt(t.(current := t.current - {s}), Success(()))
      case Some(f) => Attempt(t.(current := t.current[s := f]), Success(()))
  }

  ghost function Call(t: Tables, digest: KeyDigest, c: Command): Attempt {
    match c
    case Enrol(terms) => EnrolRoot(t, digest, terms)
    case Rotate(g, terms) => RotateRoot(t, digest, g, terms)
    case Revoke(f, authority, reason, at) => RevokeRoot(t, f, authority, reason, at)
    case Repair(s) => RepairCurrentRoot(t, s)
  }

  /** One transaction by a caller that rolls back when refused. */
  ghost function Committed(t: Tables, digest: KeyDigest, c: Command): Tables {
    var a := Call(t, digest, c);
    if a.outcome.Success? then a.tables else t
  }

  ghost function Run(t: Tables, digest: KeyDigest, cs: seq<Command>): Tables
    decreases |cs|
  {
    if cs == [] then t else Run(Committed(t, digest, cs[0]), digest, cs[1..])
  }

  // ---------------------------------------------------------------- what a successful call does

  /** The tables after a successful enrolment, rotation, revocation, as updates of the tables before. */
  function Enrolled(t: Tables, f: Fingerprint, row: Enrolment, d: Descriptor): Tables {
    InsertEnrolment(LockSubject(t, row.subject), f, row, d).(current := t.current[row.subject := f])
  }

  function Rotated(t: Tables, g: Fingerprint, f: Fingerprint, row: Enrolment, d: Descriptor): Tables {
    Enrolled(t, f, row, d).(
      closures := t.closures[g := Closure(SUPERSEDED, row.enrolledAt, row.authority, None, Some(f))])
  }

  function Revoked(t: Tables, f: Fingerprint, c: Closure): Tables
    requires f in t.enrolments
  {
    var s := t.enrolments[f].subject;
    LockSubject(t, s).(
      closures := t.closures[f := c],
      current := if Current(t, s) == Some(f) then t.current - {s} else t.current)
  }

  predicate EnrolAllowed(t: Tables, f: Fingerprint, row: Enrolment) {
    && InsertAllowed(t, f, row) && row.supersedes.None? && row.subject !in t.current
  }

  predicate RotateAllowed(t: Tables, g: Fingerprint, f: Fingerprint, row: Enrolment) {
    && InsertAllowed(t, f, row) && row.supersedes == Some(g)
    && Current(t, row.subject) == Some(g)
    && g in t.enrolments && t.enrolments[g].subject == row.subject && g !in t.closures
  }

  /** The checks on the terms of an enrolment that do not look at the tables. */
  predicate WellFormed(digest: KeyDigest, terms: Terms) {
    && DescriptorFault(terms.subject.domain, terms.descriptor, terms.at).None?
    && digest(terms.publicKey).Some?
    && CustodyPointerOk(terms.custodyPointer)
  }

  lemma EnrolEffect(t: Tables, digest: KeyDigest, terms: Terms)
    ensures var a := EnrolRoot(t, digest, terms);
            a.outcome.Success? <==>
              WellFormed(digest, terms) && EnrolAllowed(t, digest(terms.publicKey).value, RowOf(terms, None))
    ensures var a := EnrolRoot(t, digest, terms);
            a.outcome.Success? ==>
              a.tables == Enrolled(t, digest(terms.publicKey).value, RowOf(terms, None), terms.descriptor)
  {
  }

  lemma RotateEffect(t: Tables, digest: KeyDigest, g: Fingerprint, terms: Terms)
    ensures var a := RotateRoot(t, digest, g, terms);
            a.outcome.Success? <==>
              WellFormed(digest, terms) && RotateAllowed(t, g, digest(terms.publicKey).value, RowOf(terms, Some(g)))
    ensures var a := RotateRoot(t, digest, g, terms);
            a.outcome.Success? ==>
              a.tables == Rotated(t, g, digest(terms.publicKey).value, RowOf(terms, Some(g)), terms.descriptor)
  {
  }

  lemma RevokeEffect(t: Tables, f: Fingerprint, authority: Text, reason: Option<Text>, at: Instant)
    ensures var a := RevokeRoot(t, f, authority, reason, at);
            a.outcome.Success? <==> f in t.enrolments && f !in t.closures
    ensures var a := RevokeRoot(t, f, authority, reason, at);
            a.outcome.Success? ==> a.tables == Revoked(t, f, Closure(REVOKED, at, authority, reason, None))
  {
  }

  /** The tables of an enrolment refused at its second insert: the row is in, the current-root row is not. */
  function HalfEnrolled(t: Tables, f: Fingerprint, row: Enrolment, d: Descriptor): Tables {
    InsertEnrolment(LockSubject(t, row.subject), f, row, d)
  }

  predicate HalfEnrolAllowed(t: Tables, f: Fingerprint, row: Enrolment) {
    && InsertAllowed(t, f, row) && row.supersedes.None? && row.subject in t.current
  }

  lemma EnrolRefusal(t: Tables, digest: KeyDigest, terms: Terms)
    requires EnrolRoot(t, digest, terms).outcome.Failure?
    ensures var t' := EnrolRoot(t, digest, terms).tables;
            if WellFormed(digest, terms) && HalfEnrolAllowed(t, digest(terms.publicKey).value, RowOf(terms, None))
            then t' == HalfEnrolled(t, digest(terms.publicKey).value, RowOf(terms, None), terms.descriptor)
            else t' == t || t' == LockSubject(t, terms.subject)
  {
  }

  lemma RotateRefusal(t: Tables, digest: KeyDigest, g: Fingerprint, terms: Terms)
    requires RotateRoot(t, digest, g, terms).outcome.Failure?
    ensures RotateRoot(t, digest, g, terms).tables != LockSubject(t, terms.subject) ==>
              Current(t, terms.subject) == Some(g) && g in t.closures
  {
  }

  lemma RepairEffect(t: Tables, s: Subject)
    ensures var a := RepairCurrentRoot(t, s);
            a.outcome.Success? <==> CountOpen(t, s) <= 1
    ensures var a := RepairCurrentRoot(t, s);
            a.outcome.Success? ==>
              a.tables == LockSubject(t, s).(
                current := if DeriveCurrent(t, s).Some? then t.current[s := DeriveCurrent(t, s).value]
                           else t.current - {s})
  {
    var u := LockSubject(t, s);
    assert OpenFor(u, s) == OpenFor(t, s);
  }
}
