/**
 The keys of the signed documents and of the digest preimages, and why no two of them are spelt alike.
 The spellings are given in groups, so that each group can be checked without looking at the others.
 */
module FieldNames {
  import opened Prelude

  datatype Field =
    | Schema | Version | Purpose | AuthorizationId | ExecutionSequence | RolloutRef | PlanId | TargetId
    | TargetRef | ProductCode | Environment | Operation | ReleaseRef | AuthorizedImages | PlanDigest
    | DescriptorDigest | ExecutionPlanDigest | ApprovalPolicyCode | ApprovalPolicyVersion | ApprovalDecisionRef
    | ApprovalDecisionStatus | ApprovedAt | IssuedAt | ExpiresAt | ControlVersion | KeyId | Algorithm
    | PublicKeyFingerprint | HealthEvidenceDigest | RequiredComponentRoster | HealthEvidenceEvaluatedAt
    | HealthEvidenceValidUntil | ControlPlanDigest | DispatchId | AuthorizationPlanId
    | AuthorizationControlVersion | AuthorizationKeyId | AuthorizationPublicKeyFingerprint
    | AuthorizationEnvelopeDigest | AttemptNo | Statement | Signature | Service | Repository | Digest
    | PresentationCanonicalDigest | DispatchEnvelopeDigest | HostId | CredentialId | CredentialKeyId
    | CredentialFingerprint | CredentialAlgorithm | CredentialPurpose | AssociationId | PolicyId
    | CandidateAudience | InstalledAudience | ExpectedFoundationPackage | CandidateRoot | InstalledRoot
    | CustodyDomain | Subject | Issuer | RootVersion | NotBefore | NotAfter | PublicKeyBase64 | Standing | Revoked
    | Audience | PresentationId | CandidateAttestationEnvelopeDigest | InstalledAttestationEnvelopeDigest

  function Name1(f: Field): string {
    match f
    case Schema => "schema"
    case Version => "version"
    case Purpose => "purpose"
    case AuthorizationId => "authorization_id"
    case ExecutionSequence => "execution_sequence"
    case _ => ""
  }

  function Name2(f: Field): string {
    match f
    case RolloutRef => "rollout_ref"
    case PlanId => "plan_id"
    case TargetId => "target_id"
    case TargetRef => "target_ref"
    case ProductCode => "product_code"
    case _ => ""
  }

  function Name3(f: Field): string {
    match f
    case Environment => "environment"
    case Operation => "operation"
    case ReleaseRef => "release_ref"
    case AuthorizedImages => "authorized_images"
    case PlanDigest => "plan_digest"
    case _ => ""
  }

  function Name4(f: Field): string {
    match f
    case DescriptorDigest => "descriptor_digest"
    case ExecutionPlanDigest => "execution_plan_digest"
    case ApprovalPolicyCode => "approval_policy_code"
    case ApprovalPolicyVersion => "approval_policy_version"
    case ApprovalDecisionRef => "approval_decision_ref"
    case _ => ""
  }

  function Name5(f: Field): string {
    match f
    case ApprovalDecisionStatus => "approval_decision_status"
    case ApprovedAt => "approved_at"
    case IssuedAt => "issued_at"
    case ExpiresAt => "expires_at"
    case ControlVersion => "control_version"
    case _ => ""
  }

  function Name6(f: Field): string {
    match f
    case KeyId => "key_id"
    case Algorithm => "algorithm"
    case PublicKeyFingerprint => "public_key_fingerprint"
    case HealthEvidenceDigest => "health_evidence_digest"
    case RequiredComponentRoster => "required_component_roster"
    case _ => ""
  }

  function Name7(f: Field): string {
    match f
    case HealthEvidenceEvaluatedAt => "health_evidence_evaluated_at"
    case HealthEvidenceValidUntil => "health_evidence_valid_until"
    case ControlPlanDigest => "control_plan_digest"
    case DispatchId => "dispatch_id"
    case AuthorizationPlanId => "authorization_plan_id"
    case _ => ""
  }

  function Name8(f: Field): string {
    match f
    case AuthorizationControlVersion => "authorization_control_version"
    case AuthorizationKeyId => "authorization_key_id"
    case AuthorizationPublicKeyFingerprint => "authorization_public_key_fingerprint"
    case AuthorizationEnvelopeDigest => "authorization_envelope_digest"
    case AttemptNo => "attempt_no"
    case _ => ""
  }

  function Name9(f: Field): string {
    match f
    case Statement => "statement"
    case Signature => "signature"
    case Service => "service"
    case Repository => "repository"
    case Digest => "digest"
    case _ => ""
  }

  function Name10(f: Field): string {
    match f
    case PresentationCanonicalDigest => "presentation_canonical_digest"
    case DispatchEnvelopeDigest => "dispatch_envelope_digest"
    case HostId => "host_id"
    case CredentialId => "credential_id"
    case CredentialKeyId => "credential_key_id"
    case _ => ""
  }

  function Name11(f: Field): string {
    match f
    case CredentialFingerprint => "credential_fingerprint"
    case CredentialAlgorithm => "credential_algorithm"
    case CredentialPurpose => "credential_purpose"
    case AssociationId => "association_id"
    case PolicyId => "policy_id"
    case _ => ""
  }

  function Name12(f: Field): string {
    match f
    case CandidateAudience => "candidate_audience"
    case InstalledAudience => "installed_audience"
    case ExpectedFoundationPackage => "expected_foundation_package"
    case CandidateRoot => "candidate_root"
    case InstalledRoot => "installed_root"
    case _ => ""
  }

  function Name13(f: Field): string {
    match f
    case CustodyDomain => "custody_domain"
    case Subject => "subject"
    case Issuer => "issuer"
    case RootVersion => "root_version"
    case NotBefore => "not_before"
    case _ => ""
  }

  function Name14(f: Field): string {
    match f
    case NotAfter => "not_after"
    case PublicKeyBase64 => "public_key_base64"
    case Standing => "standing"
    case Revoked => "revoked"
    case Audience => "audience"
    case _ => ""
  }

  function Name15(f: Field): string {
    match f
    case PresentationId => "presentation_id"
    case CandidateAttestationEnvelopeDigest => "candidate_attestation_envelope_digest"
    case InstalledAttestationEnvelopeDigest => "installed_attestation_envelope_digest"
    case _ => ""
  }

  function Group(f: Field): int {
    match f
    case Schema | Version | Purpose | AuthorizationId | ExecutionSequence => 1
    case RolloutRef | PlanId | TargetId | TargetRef | ProductCode => 2
    case Environment | Operation | ReleaseRef | AuthorizedImages | PlanDigest => 3
    case DescriptorDigest | ExecutionPlanDigest | ApprovalPolicyCode | ApprovalPolicyVersion | ApprovalDecisionRef => 4
    case ApprovalDecisionStatus | ApprovedAt | IssuedAt | ExpiresAt | ControlVersion => 5
    case KeyId | Algorithm | PublicKeyFingerprint | HealthEvidenceDigest | RequiredComponentRoster => 6
    case HealthEvidenceEvaluatedAt | HealthEvidenceValidUntil | ControlPlanDigest | DispatchId
         | AuthorizationPlanId => 7
    case AuthorizationControlVersion | AuthorizationKeyId | AuthorizationPublicKeyFingerprint
         | AuthorizationEnvelopeDigest | AttemptNo => 8
    case Statement | Signature | Service | Repository | Digest => 9
    case PresentationCanonicalDigest | DispatchEnvelopeDigest | HostId | CredentialId | CredentialKeyId => 10
    case CredentialFingerprint | CredentialAlgorithm | CredentialPurpose | AssociationId | PolicyId => 11
    case CandidateAudience | InstalledAudience | ExpectedFoundationPackage | CandidateRoot | InstalledRoot => 12
    case CustodyDomain | Subject | Issuer | RootVersion | NotBefore => 13
    case NotAfter | PublicKeyBase64 | Standing | Revoked | Audience => 14
    case PresentationId | CandidateAttestationEnvelopeDigest | InstalledAttestationEnvelopeDigest => 15
  }

  function NameA(f: Field): string {
    if Group(f) == 1 then Name1(f)
    else if Group(f) == 2 then Name2(f)
    else if Group(f) == 3 then Name3(f)
    else if Group(f) == 4 then Name4(f)
    else Name5(f)
  }

  function NameB(f: Field): string {
    if Group(f) == 6 then Name6(f)
    else if Group(f) == 7 then Name7(f)
    else if Group(f) == 8 then Name8(f)
    else if Group(f) == 9 then Name9(f)
    else Name10(f)
  }

  function NameC(f: Field): string {
    if Group(f) == 11 then Name11(f)
    else if Group(f) == 12 then Name12(f)
    else if Group(f) == 13 then Name13(f)
    else if Group(f) == 14 then Name14(f)
    else Name15(f)
  }

  /** The key a field is written under. */
  function Name(f: Field): string {
    if Group(f) <= 5 then NameA(f) else if Group(f) <= 10 then NameB(f) else NameC(f)
  }

  /** Length, first and sixth-last letter: together they tell the names apart.  The code is the length plus 64 times
      the first character plus 16384 times the sixth-last one. */
  function StringCode(s: string): int {
    if |s| < 6 then 0 else |s| + 64 * (s[0] as int) + 16384 * (s[|s| - 6] as int)
  }

  /** The inverse, code by code, in four parts.  A new field needs a case in Group and in the Name function and the
      lemma of its group, and here the StringCode of its name.  For "key_id", of length 6 with character 107 both first
      and sixth-last, that is 6 + 64 * 107 + 16384 * 107 = 1759942. */
  function Decoded(code: int): Option<Field> {
    if code < 1645157 then Decoded1(code)
    else if code < 1727497 then Decoded2(code)
    else if code < 1874889 then Decoded3(code)
    else Decoded4(code)
  }

  function Decoded1(code: int): Option<Field> {
    if code == 1563163 then Some(HealthEvidenceValidUntil) else if code == 1563529 then Some(NotAfter)
    else if code == 1595739 then Some(ExpectedFoundationPackage) else if code == 1596616 then Some(Standing)
    else if code == 1612682 then Some(NotBefore) else if code == 1612817 then Some(PublicKeyBase64)
    else if code == 1644616 then Some(Audience) else if code == 1644637 then Some(AuthorizationEnvelopeDigest)
    else if code == 1644750 then Some(CustodyDomain) else if code == 1644754 then Some(CandidateAudience)
    else if code == 1644755 then Some(ControlPlanDigest)
    else if code == 1644773 then Some(CandidateAttestationEnvelopeDigest) else if code == 1644806 then Some(Digest)
    else if code == 1644817 then Some(DescriptorDigest) else if code == 1644824 then Some(DispatchEnvelopeDigest)
    else if code == 1644885 then Some(ExecutionPlanDigest) else if code == 1645078 then Some(HealthEvidenceDigest)
    else if code == 1645134 then Some(InstalledRoot) else if code == 1645138 then Some(InstalledAudience)
    else None
  }

  function Decoded2(code: int): Option<Field> {
    if code == 1645157 then Some(InstalledAttestationEnvelopeDigest) else if code == 1645579 then Some(PlanDigest)
    else if code == 1645597 then Some(PresentationCanonicalDigest)
    else if code == 1661015 then Some(ApprovalPolicyVersion)
    else if code == 1661021 then Some(AuthorizationControlVersion) else if code == 1661134 then Some(CandidateRoot)
    else if code == 1661135 then Some(ControlVersion) else if code == 1662087 then Some(Revoked)
    else if code == 1662092 then Some(RootVersion) else if code == 1662151 then Some(Service)
    else if code == 1662218 then Some(TargetRef) else if code == 1662343 then Some(Version)
    else if code == 1694985 then Some(TargetId) else if code == 1726542 then Some(AssociationId)
    else if code == 1726544 then Some(AuthorizationId) else if code == 1726545 then Some(AuthorizedImages)
    else if code == 1726669 then Some(CredentialId) else if code == 1727046 then Some(Issuer)
    else None
  }

  function Decoded3(code: int): Option<Field> {
    if code == 1727497 then Some(PolicyId) else if code == 1727503 then Some(PresentationId)
    else if code == 1759316 then Some(AuthorizationKeyId) else if code == 1759441 then Some(CredentialKeyId)
    else if code == 1759942 then Some(KeyId) else if code == 1775701 then Some(AuthorizationPlanId)
    else if code == 1776647 then Some(PlanId) else if code == 1792074 then Some(AttemptNo)
    else if code == 1809609 then Some(Signature) else if code == 1824841 then Some(Algorithm)
    else if code == 1824853 then Some(ApprovalDecisionRef) else if code == 1824980 then Some(CredentialAlgorithm)
    else if code == 1825099 then Some(Environment) else if code == 1825287 then Some(HostId)
    else if code == 1857874 then Some(ExecutionSequence)
    else if code == 1874020 then Some(AuthorizationPublicKeyFingerprint)
    else if code == 1874134 then Some(CredentialFingerprint) else if code == 1874250 then Some(ExpiresAt)
    else None
  }

  function Decoded4(code: int): Option<Field> {
    if code == 1874889 then Some(Operation) else if code == 1874966 then Some(PublicKeyFingerprint)
    else if code == 1875097 then Some(RequiredComponentRoster)
    else if code == 1890392 then Some(ApprovalDecisionStatus) else if code == 1891466 then Some(Repository)
    else if code == 1891467 then Some(ReleaseRef) else if code == 1891526 then Some(Schema)
    else if code == 1906955 then Some(DispatchId) else if code == 1907228 then Some(HealthEvidenceEvaluatedAt)
    else if code == 1907724 then Some(ProductCode) else if code == 1907913 then Some(Statement)
    else if code == 1923282 then Some(CredentialPurpose) else if code == 1923657 then Some(IssuedAt)
    else if code == 1924103 then Some(Purpose) else if code == 1924235 then Some(RolloutRef)
    else if code == 1924295 then Some(Subject) else if code == 1939531 then Some(ApprovedAt)
    else if code == 1988692 then Some(ApprovalPolicyCode)
    else None
  }

  lemma NameDecodes1(f: Field)
    requires Group(f) == 1
    ensures Decoded(StringCode(Name1(f))) == Some(f)
  {
    match f
    case Schema => assert StringCode(Name1(f)) == 1891526;
    case Version => assert StringCode(Name1(f)) == 1662343;
    case Purpose => assert StringCode(Name1(f)) == 1924103;
    case AuthorizationId => assert StringCode(Name1(f)) == 1726544;
    case ExecutionSequence => assert StringCode(Name1(f)) == 1857874;
  }

  lemma NameDecodes2(f: Field)
    requires Group(f) == 2
    ensures Decoded(StringCode(Name2(f))) == Some(f)
  {
    match f
    case RolloutRef => assert StringCode(Name2(f)) == 1924235;
    case PlanId => assert StringCode(Name2(f)) == 1776647;
    case TargetId => assert StringCode(Name2(f)) == 1694985;
    case TargetRef => assert StringCode(Name2(f)) == 1662218;
    case ProductCode => assert StringCode(Name2(f)) == 1907724;
  }

  lemma NameDecodes3(f: Field)
    requires Group(f) == 3
    ensures Decoded(StringCode(Name3(f))) == Some(f)
  {
    match f
    case Environment => assert StringCode(Name3(f)) == 1825099;
    case Operation => assert StringCode(Name3(f)) == 1874889;
    case ReleaseRef => assert StringCode(Name3(f)) == 1891467;
    case AuthorizedImages => assert StringCode(Name3(f)) == 1726545;
    case PlanDigest => assert StringCode(Name3(f)) == 1645579;
  }

  lemma NameDecodes4(f: Field)
    requires Group(f) == 4
    ensures Decoded(StringCode(Name4(f))) == Some(f)
  {
    match f
    case DescriptorDigest => assert StringCode(Name4(f)) == 1644817;
    case ExecutionPlanDigest => assert StringCode(Name4(f)) == 1644885;
    case ApprovalPolicyCode => assert StringCode(Name4(f)) == 1988692;
    case ApprovalPolicyVersion => assert StringCode(Name4(f)) == 1661015;
    case ApprovalDecisionRef => assert StringCode(Name4(f)) == 1824853;
  }

  lemma NameDecodes5(f: Field)
    requires Group(f) == 5
    ensures Decoded(StringCode(Name5(f))) == Some(f)
  {
    match f
    case ApprovalDecisionStatus => assert StringCode(Name5(f)) == 1890392;
    case ApprovedAt => assert StringCode(Name5(f)) == 1939531;
    case IssuedAt => assert StringCode(Name5(f)) == 1923657;
    case ExpiresAt => assert StringCode(Name5(f)) == 1874250;
    case ControlVersion => assert StringCode(Name5(f)) == 1661135;
  }

  lemma NameDecodes6(f: Field)
    requires Group(f) == 6
    ensures Decoded(StringCode(Name6(f))) == Some(f)
  {
    match f
    case KeyId => assert StringCode(Name6(f)) == 1759942;
    case Algorithm => assert StringCode(Name6(f)) == 1824841;
    case PublicKeyFingerprint => assert StringCode(Name6(f)) == 1874966;
    case HealthEvidenceDigest => assert StringCode(Name6(f)) == 1645078;
    case RequiredComponentRoster => assert StringCode(Name6(f)) == 1875097;
  }

  lemma NameDecodes7(f: Field)
    requires Group(f) == 7
    ensures Decoded(StringCode(Name7(f))) == Some(f)
  {
    match f
    case HealthEvidenceEvaluatedAt => assert StringCode(Name7(f)) == 1907228;
    case HealthEvidenceValidUntil => assert StringCode(Name7(f)) == 1563163;
    case ControlPlanDigest => assert StringCode(Name7(f)) == 1644755;
    case DispatchId => assert StringCode(Name7(f)) == 1906955;
    case AuthorizationPlanId => assert StringCode(Name7(f)) == 1775701;
  }

  lemma NameDecodes8(f: Field)
    requires Group(f) == 8
    ensures Decoded(StringCode(Name8(f))) == Some(f)
  {
    match f
    case AuthorizationControlVersion => assert StringCode(Name8(f)) == 1661021;
    case AuthorizationKeyId => assert StringCode(Name8(f)) == 1759316;
    case AuthorizationPublicKeyFingerprint => assert StringCode(Name8(f)) == 1874020;
    case AuthorizationEnvelopeDigest => assert StringCode(Name8(f)) == 1644637;
    case AttemptNo => assert StringCode(Name8(f)) == 1792074;
  }

  lemma NameDecodes9(f: Field)
    requires Group(f) == 9
    ensures Decoded(StringCode(Name9(f))) == Some(f)
  {
    match f
    case Statement => assert StringCode(Name9(f)) == 1907913;
    case Signature => assert StringCode(Name9(f)) == 1809609;
    case Service => assert StringCode(Name9(f)) == 1662151;
    case Repository => assert StringCode(Name9(f)) == 1891466;
    case Digest => assert StringCode(Name9(f)) == 1644806;
  }

  lemma NameDecodes10(f: Field)
    requires Group(f) == 10
    ensures Decoded(StringCode(Name10(f))) == Some(f)
  {
    match f
    case PresentationCanonicalDigest => assert StringCode(Name10(f)) == 1645597;
    case DispatchEnvelopeDigest => assert StringCode(Name10(f)) == 1644824;
    case HostId => assert StringCode(Name10(f)) == 1825287;
    case CredentialId => assert StringCode(Name10(f)) == 1726669;
    case CredentialKeyId => assert StringCode(Name10(f)) == 1759441;
  }

  lemma NameDecodes11(f: Field)
    requires Group(f) == 11
    ensures Decoded(StringCode(Name11(f))) == Some(f)
  {
    match f
    case CredentialFingerprint => assert StringCode(Name11(f)) == 1874134;
    case CredentialAlgorithm => assert StringCode(Name11(f)) == 1824980;
    case CredentialPurpose => assert StringCode(Name11(f)) == 1923282;
    case AssociationId => assert StringCode(Name11(f)) == 1726542;
    case PolicyId => assert StringCode(Name11(f)) == 1727497;
  }

  lemma NameDecodes12(f: Field)
    requires Group(f) == 12
    ensures Decoded(StringCode(Name12(f))) == Some(f)
  {
    match f
    case CandidateAudience => assert StringCode(Name12(f)) == 1644754;
    case InstalledAudience => assert StringCode(Name12(f)) == 1645138;
    case ExpectedFoundationPackage => assert StringCode(Name12(f)) == 1595739;
    case CandidateRoot => assert StringCode(Name12(f)) == 1661134;
    case InstalledRoot => assert StringCode(Name12(f)) == 1645134;
  }

  lemma NameDecodes13(f: Field)
    requires Group(f) == 13
    ensures Decoded(StringCode(Name13(f))) == Some(f)
  {
    match f
    case CustodyDomain => assert StringCode(Name13(f)) == 1644750;
    case Subject => assert StringCode(Name13(f)) == 1924295;
    case Issuer => assert StringCode(Name13(f)) == 1727046;
    case RootVersion => assert StringCode(Name13(f)) == 1662092;
    case NotBefore => assert StringCode(Name13(f)) == 1612682;
  }

  lemma NameDecodes14(f: Field)
    requires Group(f) == 14
    ensures Decoded(StringCode(Name14(f))) == Some(f)
  {
    match f
    case NotAfter => assert StringCode(Name14(f)) == 1563529;
    case PublicKeyBase64 => assert StringCode(Name14(f)) == 1612817;
    case Standing => assert StringCode(Name14(f)) == 1596616;
    case Revoked => assert StringCode(Name14(f)) == 1662087;
    case Audience => assert StringCode(Name14(f)) == 1644616;
  }

  lemma NameDecodes15(f: Field)
    requires Group(f) == 15
    ensures Decoded(StringCode(Name15(f))) == Some(f)
  {
    match f
    case PresentationId => assert StringCode(Name15(f)) == 1727503;
    case CandidateAttestationEnvelopeDigest => assert StringCode(Name15(f)) == 1644773;
    case InstalledAttestationEnvelopeDigest => assert StringCode(Name15(f)) == 1645157;
  }

  /** Every field can be told from the code of its name. */
  lemma NameDecodes(f: Field)
    ensures Decoded(StringCode(Name(f))) == Some(f)
  {
    if Group(f) == 1 {
      NameDecodes1(f);
    } else if Group(f) == 2 {
      NameDecodes2(f);
    } else if Group(f) == 3 {
      NameDecodes3(f);
    } else if Group(f) == 4 {
      NameDecodes4(f);
    } else if Group(f) == 5 {
      NameDecodes5(f);
    } else if Group(f) == 6 {
      NameDecodes6(f);
    } else if Group(f) == 7 {
      NameDecodes7(f);
    } else if Group(f) == 8 {
      NameDecodes8(f);
    } else if Group(f) == 9 {
      NameDecodes9(f);
    } else if Group(f) == 10 {
      NameDecodes10(f);
    } else if Group(f) == 11 {
      NameDecodes11(f);
    } else if Group(f) == 12 {
      NameDecodes12(f);
    } else if Group(f) == 13 {
      NameDecodes13(f);
    } else if Group(f) == 14 {
      NameDecodes14(f);
    } else {
      NameDecodes15(f);
    }
  }
}

/** Documents as mappings from those keys to values. */
module Fields {
  import opened Prelude
  import opened Texts
  import opened CanonicalJson
  import opened CanonicalDocuments
  import opened FieldNames

  function Key(f: Field): Text { T(Name(f)) }

  /** StringCode of the code points. */
  function Code(t: Text): int {
    if |t| < 6 then 0 else |t| + 64 * (t[0] as int) + 16384 * (t[|t| - 6] as int)
  }

  lemma CodeOfText(s: string)
    ensures Code(T(s)) == StringCode(s)
  {
  }

  lemma KeyDecodes(f: Field)
    ensures FieldNamed(Key(f)) == Some(f)
  {
    NameDecodes(f);
    CodeOfText(Name(f));
  }

  lemma KeysDiffer(f: Field, g: Field)
    ensures Key(f) == Key(g) <==> f == g
  {
    KeyDecodes(f);
    KeyDecodes(g);
  }

  /** The field a key names. */
  function FieldNamed(t: Text): (r: Option<Field>)
    ensures r.Some? ==> Key(r.value) == t
  {
    var f := Decoded(Code(t));
    if f.Some? && Key(f.value) == t then f else None
  }

  // ---------------------------------------------------------------- documents

  /** A mapping whose keys are fields: what as_mapping returns. */
  type Row = map<Field, Json>

  predicate First(s: set<Field>, f: Field) {
    f in s && forall g | g in s :: StringCode(Name(f)) <= StringCode(Name(g))
  }

  lemma {:induction false} FirstExists(s: set<Field>) returns (f: Field)
    requires s != {}
    ensures First(s, f)
    decreases |s|
  {
    f :| f in s;
    if s == {f} {
    } else {
      var g := FirstExists(s - {f});
      if StringCode(Name(g)) < StringCode(Name(f)) {
        f := g;
      }
    }
  }

  lemma FirstUnique(s: set<Field>)
    ensures s != {} ==> exists f: Field :: First(s, f)
    ensures forall f, g :: First(s, f) && First(s, g) ==> f == g
  {
    if s != {} {
      var f := FirstExists(s);
    }
    forall f, g | First(s, f) && First(s, g)
      ensures f == g
    {
      NameDecodes(f);
      NameDecodes(g);
    }
  }

  function FirstOf(s: set<Field>): (f: Field)
    requires s != {}
    ensures f in s
  {
    FirstUnique(s);
    var f: Field :| First(s, f);
    f
  }

  /** The fields in one fixed order; canonical bytes do not depend on it (InsertionOrderIrrelevant). */
  function Listed(s: set<Field>): seq<Field> {
    if s == {} then [] else [FirstOf(s)] + Listed(s - {FirstOf(s)})
  }

  ghost predicate NoRepeat(l: seq<Field>) { forall i, k :: 0 <= i < k < |l| ==> l[i] != l[k] }

  lemma {:induction false} ListedExact(s: set<Field>)
    ensures forall f :: f in Listed(s) <==> f in s
    ensures NoRepeat(Listed(s))
  {
    if s == {} {
    } else {
      var f := FirstOf(s);
      ListedExact(s - {f});
      forall k | 0 <= k < |Listed(s - {f})|
        ensures Listed(s - {f})[k] != f
      {
        assert Listed(s - {f})[k] in Listed(s - {f});
      }
    }
  }

  function EntriesOf(l: seq<Field>, m: Row): seq<Entry>
    requires forall f | f in l :: f in m
  {
    seq(|l|, i requires 0 <= i < |l| => assert l[i] in l; Entry(Key(l[i]), m[l[i]]))
  }

  function Entries(m: Row): seq<Entry> {
    ListedExact(m.Keys);
    EntriesOf(Listed(m.Keys), m)
  }

  function Doc(m: Row): Json { Obj(Entries(m)) }

  /** The row a mapping holds; None as soon as a key is no field, which every exact reader refuses. */
  function ReadEntries(entries: seq<Entry>): Option<Row> {
    if entries == [] then Some(map[])
    else
      match (FieldNamed(entries[0].key), ReadEntries(entries[1..]))
      case (Some(f), Some(rest)) => Some(rest[f := entries[0].value])
      case _ => None
  }

  function RowOf(j: Json): Option<Row> { if j.Obj? then ReadEntries(j.entries) else None }

  /** Writing a row as a document and reading it back gives the row. */
  lemma ReadDoc(m: Row)
    ensures RowOf(Doc(m)) == Some(m)
  {
    ListedExact(m.Keys);
    ReadListed(Listed(m.Keys), m);
    SameMap(ReadEntries(Entries(m)).value, m);
  }

  lemma SameMap(a: Row, b: Row)
    requires forall f :: (f in a <==> f in b) && (f in b ==> a[f] == b[f])
    ensures a == b
  {
  }

  lemma {:induction false} ReadListed(l: seq<Field>, m: Row)
    requires NoRepeat(l) && forall f | f in l :: f in m
    ensures ReadEntries(EntriesOf(l, m)).Some?
    ensures var r := ReadEntries(EntriesOf(l, m)).value;
            forall f :: (f in r <==> f in l) && (f in l ==> r[f] == m[f])
  {
    if l == [] {
    } else {
      var es, tail := EntriesOf(l, m), l[1..];
      assert l[0] in l && l == [l[0]] + tail;
      EntriesTail(l, m);
      ReadListed(tail, m);
      ReadFirst(es, l[0]);
    }
  }

  lemma EntriesTail(l: seq<Field>, m: Row)
    requires l != [] && forall f | f in l :: f in m
    ensures forall f :: f in l[1..] ==> f in m
    ensures EntriesOf(l, m)[1..] == EntriesOf(l[1..], m)
  {
  }

  lemma ReadFirst(es: seq<Entry>, f: Field)
    requires es != [] && es[0].key == Key(f) && ReadEntries(es[1..]).Some?
    ensures ReadEntries(es) == Some(ReadEntries(es[1..]).value[f := es[0].value])
  {
    KeyDecodes(f);
  }

  /** The value survives printing and no object in it repeats a key. */
  ghost predicate Plain(j: Json) { Dictionary(j) && PairFree(j) }

  /** A text is plain when no high surrogate stands directly before a low one; ASCII texts are. */
  lemma PlainText(t: Text)
    ensures NoAdjacentSurrogates(t) <==> Plain(Str(t))
    ensures (forall c :: c in t ==> c < 128) ==> Plain(Str(t))
  {
    JoinIdentity(t);
    assert forall i :: 0 <= i < |t| ==> t[i] in t;
  }

  /** A list is plain when its items are. */
  lemma PlainItems(items: seq<Json>)
    ensures Plain(Arr(items)) <==> forall x :: x in items ==> Plain(x)
  {
    PairFreeItems(items);
    assert Dictionary(Arr(items)) <==> forall x :: x in items ==> Dictionary(x);
  }

  ghost predicate PlainRow(m: Row) { forall f :: f in m ==> Plain(m[f]) }

  ghost predicate PlainTexts(m: Row) { forall f :: f in m && m[f].Str? ==> NoAdjacentSurrogates(m[f].s) }

  predicate Scalar(j: Json) { !j.Arr? && !j.Obj? }

  lemma ScalarsPlain(m: Row)
    requires PlainTexts(m) && forall f :: f in m ==> Scalar(m[f]) || Plain(m[f])
    ensures PlainRow(m)
  {
    forall f | f in m
      ensures Plain(m[f])
    {
      if m[f].Str? { PlainText(m[f].s); }
    }
  }

  ghost predicate SameRow(a: Row, b: Row) {
    a.Keys == b.Keys && forall f :: f in a ==> SameValue(a[f], b[f])
  }

  /** Under a text field, rows that agree hold the same text. */
  lemma TextAt(a: Row, b: Row, f: Field, s: Text, t: Text)
    requires SameRow(a, b) && f in a && f in b && a[f] == Str(s) && b[f] == Str(t)
    ensures s == t
  {
    assert SameValue(a[f], b[f]);
  }

  /** Rows put together from parts with the same separate keys agree exactly when the parts do. */
  lemma SameParts(a: Row, b: Row, c: Row, d: Row)
    requires a.Keys == c.Keys && b.Keys == d.Keys && a.Keys !! b.Keys
    ensures SameRow(a + b, c + d) <==> SameRow(a, c) && SameRow(b, d)
  {
    if SameRow(a + b, c + d) {
      forall f | f in a
        ensures SameValue(a[f], c[f])
      {
        assert (a + b)[f] == a[f] && (c + d)[f] == c[f];
      }
      forall f | f in b
        ensures SameValue(b[f], d[f])
      {
        assert (a + b)[f] == b[f] && (c + d)[f] == d[f];
      }
    }
  }

  /** A row in three parts, with the parts in view. */
  ghost predicate InParts(row: Row, a: Row, b: Row, c: Row, ka: set<Field>, kb: set<Field>, kc: set<Field>) {
    row == a + (b + c) && a.Keys == ka && b.Keys == kb && c.Keys == kc
  }

  lemma ThreeParts(row: Row, a: Row, b: Row, c: Row, row': Row, a': Row, b': Row, c': Row,
                   ka: set<Field>, kb: set<Field>, kc: set<Field>)
    requires InParts(row, a, b, c, ka, kb, kc) && InParts(row', a', b', c', ka, kb, kc)
    requires ka !! kb && ka !! kc && kb !! kc
    ensures SameRow(row, row') <==> SameRow(a, a') && SameRow(b, b') && SameRow(c, c')
  {
    SameParts(b, c, b', c');
    SameParts(a, b + c, a', b' + c');
  }

  /** The entry at each position, and that no key repeats. */
  lemma EntriesExact(m: Row)
    ensures var l := Listed(m.Keys);
            && |Entries(m)| == |l|
            && (forall i :: 0 <= i < |l| ==> l[i] in m && Entries(m)[i] == Entry(Key(l[i]), m[l[i]]))
            && (forall i, k :: 0 <= i < k < |l| ==> Entries(m)[i].key != Entries(m)[k].key)
  {
    ListedExact(m.Keys);
    var l := Listed(m.Keys);
    forall i | 0 <= i < |l|
      ensures l[i] in m
    {
      assert l[i] in l;
    }
    forall i, k | 0 <= i < k < |l|
      ensures Entries(m)[i].key != Entries(m)[k].key
    {
      KeysDiffer(l[i], l[k]);
    }
  }

  /** A document is plain exactly when every value in it is. */
  lemma DocPlainExact(m: Row)
    ensures Plain(Doc(m)) <==> PlainRow(m)
  {
    if PlainRow(m) {
      DocPlain(m);
    }
    if Plain(Doc(m)) {
      PairFreeEntries(Entries(m));
      forall f | f in m
        ensures Plain(m[f])
      {
        var i := PositionOf(m, f);
        assert Entries(m)[i] in Entries(m);
      }
    }
  }

  lemma DocPlain(m: Row)
    requires PlainRow(m)
    ensures Plain(Doc(m))
  {
    EntriesExact(m);
    PairFreeEntries(Entries(m));
    forall e | e in Entries(m)
      ensures JoinSurrogates(e.key) == e.key && Plain(e.value)
    {
      var i :| 0 <= i < |Entries(m)| && Entries(m)[i] == e;
      JoinIdentity(e.key);
    }
  }

  lemma PositionOf(m: Row, f: Field) returns (i: nat)
    requires f in m
    ensures i < |Entries(m)| && Entries(m)[i] == Entry(Key(f), m[f])
  {
    ListedExact(m.Keys);
    EntriesExact(m);
    i :| 0 <= i < |Listed(m.Keys)| && Listed(m.Keys)[i] == f;
  }

  lemma KeysIncluded(a: Row, b: Row)
    ensures Keys(Entries(a)) <= Keys(Entries(b)) <==> a.Keys <= b.Keys
  {
    if a.Keys <= b.Keys {
      KeysInclude(a, b);
    }
    if Keys(Entries(a)) <= Keys(Entries(b)) {
      FieldsInclude(a, b);
    }
  }

  lemma KeysInclude(a: Row, b: Row)
    requires a.Keys <= b.Keys
    ensures Keys(Entries(a)) <= Keys(Entries(b))
  {
    EntriesExact(a);
    forall t | t in Keys(Entries(a))
      ensures t in Keys(Entries(b))
    {
      KeyAt(Entries(a), t);
      var i :| 0 <= i < |Entries(a)| && Entries(a)[i].key == t;
      var k := PositionOf(b, Listed(a.Keys)[i]);
      KeyAt(Entries(b), t);
    }
  }

  lemma FieldsInclude(a: Row, b: Row)
    requires Keys(Entries(a)) <= Keys(Entries(b))
    ensures a.Keys <= b.Keys
  {
    EntriesExact(b);
    forall f | f in a
      ensures f in b
    {
      var i := PositionOf(a, f);
      KeyAt(Entries(a), Key(f));
      KeyAt(Entries(b), Key(f));
      var k :| 0 <= k < |Entries(b)| && Entries(b)[k].key == Key(f);
      KeysDiffer(f, Listed(b.Keys)[k]);
    }
  }

  /** Documents are the same value exactly when their rows agree field by field. */
  lemma DocSame(a: Row, b: Row)
    ensures SameValue(Doc(a), Doc(b)) <==> SameRow(a, b)
  {
    KeysIncluded(a, b);
    KeysIncluded(b, a);
    if SameRow(a, b) {
      RowsToEntries(a, b);
    }
    if SameValue(Doc(a), Doc(b)) {
      forall f | f in a
        ensures SameValue(a[f], b[f])
      {
        var i := PositionOf(a, f);
        var k := PositionOf(b, f);
        assert Entries(a)[i].key == Entries(b)[k].key;
      }
    }
  }

  lemma RowsToEntries(a: Row, b: Row)
    requires SameRow(a, b)
    ensures forall i, k :: 0 <= i < |Entries(a)| && 0 <= k < |Entries(b)| && Entries(a)[i].key == Entries(b)[k].key ==>
              SameValue(Entries(a)[i].value, Entries(b)[k].value)
  {
    EntriesExact(a);
    EntriesExact(b);
    forall i, k | 0 <= i < |Entries(a)| && 0 <= k < |Entries(b)| && Entries(a)[i].key == Entries(b)[k].key
      ensures SameValue(Entries(a)[i].value, Entries(b)[k].value)
    {
      KeysDiffer(Listed(a.Keys)[i], Listed(b.Keys)[k]);
    }
  }

  /** Two documents have the same canonical bytes exactly when their rows agree field by field. */
  lemma DocIdentifies(a: Row, b: Row)
    requires PlainRow(a) && PlainRow(b)
    ensures Canonical(Doc(a)) == Canonical(Doc(b)) <==> SameRow(a, b)
  {
    DocPlain(a);
    DocPlain(b);
    DocSame(a, b);
    CanonicalIdentifies(Doc(a), Doc(b));
  }
}
