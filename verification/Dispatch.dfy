/**
 The V2 authorization, and the dispatch that Control signs over it: one concrete attempt bound to one
 authorization envelope, signed by another key.
 */
module Dispatch {
  import opened Prelude
  import opened Texts
  import opened CanonicalJson
  import opened CanonicalDocuments
  import opened KeyEncoding
  import opened FieldNames
  import opened Fields
  import opened Images
  import opened SignedStatements
  import opened AuthorizationV3

  const V2 := Form("dotmac.deployment-authorization", 2, "deployment_authorization", V2_FIELDS, UNSUPPORTED_VERSION)

  /** The fields a dispatch takes over under the same name. */
  const COPIED_FIELDS := {
    AuthorizationId, ExecutionSequence, RolloutRef, TargetId, TargetRef, ProductCode, Environment, Operation,
    ReleaseRef, AuthorizedImages, PlanDigest, DescriptorDigest, ExecutionPlanDigest}

  /** The fields a dispatch takes over under another name. */
  const RENAMED_FIELDS := {
    AuthorizationPlanId, AuthorizationControlVersion, AuthorizationKeyId, AuthorizationPublicKeyFingerprint,
    AuthorizationEnvelopeDigest}

  const OWN_FIELDS := {
    DispatchId, AttemptNo, IssuedAt, ControlVersion, KeyId, Algorithm, PublicKeyFingerprint, Purpose}

  const DISPATCH := Form("dotmac.deployment-dispatch", 1, "deployment_dispatch",
                         COPIED_FIELDS + RENAMED_FIELDS + OWN_FIELDS, UNSUPPORTED_VERSION)

  // ---------------------------------------------------------------- the authorization

  /** verify_authorization_envelope on a parsed envelope; None is acceptance. */
  function VerifyV2(env: Env, verifier: Verifier, a: Envelope, now: Instant): Option<Refusal> {
    if now < AtOf(a.statement, IssuedAt) then Some(NOT_YET_VALID)
    else if now >= AtOf(a.statement, ExpiresAt) then Some(EXPIRED)
    else if !Accepts(env.iso, V2, verifier, a) then Some(SIGNATURE_INVALID)
    else if !StandingApproval(a.statement) then Some(APPROVAL_NOT_STANDING)
    else None
  }

  /** The fields that a caller cannot supply. */
  const DERIVED_V2 := {Schema, Version, ControlVersion, KeyId, Algorithm, PublicKeyFingerprint, Purpose}

  function BoundV2(env: Env, id: Identity): Inputs {
    map[ControlVersion := Plainly(Str(env.version)),
        KeyId := Plainly(Str(id.keyId)),
        Algorithm := Plainly(Str(id.algorithm)),
        PublicKeyFingerprint := Plainly(Str(id.fingerprint)),
        Purpose := Plainly(Str(id.purpose))]
  }

  function SealV2(env: Env, form: Form, row: Inputs, signer: Signer): Result<Envelope, Refusal>
    requires Proper(form)
  {
    match Parse(env.iso, form, row)
    case Failure(e) => Failure(e)
    case Success(s) => if StandingApproval(s) then Sign(env.iso, form, s, signer) else Failure(APPROVAL_NOT_STANDING)
  }

  /** issue_authorization_envelope. */
  function IssueV2(env: Env, fields: Inputs, signer: Signer): Result<Envelope, Refusal> {
    if fields.Keys * DERIVED_V2 != {} then Failure(MALFORMED)
    else
      FormsProper();
      SealV2(env, V2, Given(Header(V2)) + AllRendered(env.iso, fields) + BoundV2(env, signer.identity), signer)
  }

  method IssueAuthorization(env: Env, statementFields: Inputs, signer: Signer) returns (r: Result<Envelope, Refusal>)
    ensures r == IssueV2(env, statementFields, signer)
  {
    if statementFields.Keys * DERIVED_V2 != {} {
      return Failure(MALFORMED);
    }
    var fields := RenderTimes(env.iso, statementFields);
    FormsProper();
    var statement := Parse(env.iso, V2, Given(Header(V2)) + fields + BoundV2(env, signer.identity));
    if statement.Failure? {
      return Failure(statement.error);
    }
    if !StandingApproval(statement.value) {
      return Failure(APPROVAL_NOT_STANDING);
    }
    r := Sign(env.iso, V2, statement.value, signer);
  }

  predicate WellFormed(form: Form, e: Envelope) { Typed(form, e.statement) && Fault(form, e.statement) == None }

  /** An envelope as issuing leaves it: well formed, standing, and signed for this verifier. */
  predicate Authentic(env: Env, verifier: Verifier, a: Envelope) {
    WellFormed(V2, a) && Accepts(env.iso, V2, verifier, a) && StandingApproval(a.statement)
  }

  lemma SealedIsSound(env: Env, form: Form, row: Inputs, signer: Signer, verifier: Verifier)
    requires Proper(form) && Agree(signer, verifier) && SealV2(env, form, row, signer).Success?
    ensures var a := SealV2(env, form, row, signer).value;
            WellFormed(form, a) && Accepts(env.iso, form, verifier, a) && StandingApproval(a.statement)
  {
    var s := Parse(env.iso, form, row).value;
    SignedIsAccepted(env.iso, form, s, signer, verifier);
  }

  /** Whatever is issued is authentic for the verifier that agrees with the signer. */
  lemma IssuedIsAuthentic(env: Env, fields: Inputs, signer: Signer, verifier: Verifier)
    requires Agree(signer, verifier) && IssueV2(env, fields, signer).Success?
    ensures Authentic(env, verifier, IssueV2(env, fields, signer).value)
  {
    FormsProper();
    SealedIsSound(env, V2, Given(Header(V2)) + AllRendered(env.iso, fields) + BoundV2(env, signer.identity), signer,
                  verifier);
  }

  function EnvelopeRow(env: Env, form: Form, e: Envelope): Row {
    map[Statement := Doc(Mapping(env.iso, form, e.statement)), Signature := Str(e.signature)]
  }

  /** The bytes of the whole envelope, signature included. */
  function EnvelopeBytes(env: Env, form: Form, e: Envelope): Bytes { Canonical(Doc(EnvelopeRow(env, form, e))) }

  function EnvelopeDigest(env: Env, a: Envelope): Text { DigestText(env.sha(EnvelopeBytes(env, V2, a))) }

  // ---------------------------------------------------------------- issuing a dispatch

  function Copied(a: Terms): Terms { map f | f in a && f in COPIED_FIELDS :: a[f] }

  function RenamedText(a: Terms, digest: Text, f: Field): Text {
    if f == AuthorizationEnvelopeDigest then digest
    else if f == AuthorizationPlanId then TextOf(a, PlanId)
    else if f == AuthorizationControlVersion then TextOf(a, ControlVersion)
    else if f == AuthorizationKeyId then TextOf(a, KeyId)
    else TextOf(a, PublicKeyFingerprint)
  }

  function Renamed(a: Terms, digest: Text): Terms { map f | f in RENAMED_FIELDS :: TextV(RenamedText(a, digest, f)) }

  function OwnText(env: Env, dispatchId: Text, id: Identity, f: Field): Text {
    if f == DispatchId then dispatchId
    else if f == ControlVersion then env.version
    else if f == KeyId then id.keyId
    else if f == Algorithm then id.algorithm
    else if f == PublicKeyFingerprint then id.fingerprint
    else id.purpose
  }

  function OwnValue(env: Env, dispatchId: Text, attemptNo: int, at: Instant, id: Identity, f: Field): Value {
    if f == AttemptNo then IntV(attemptNo)
    else if f == IssuedAt then InstantV(at)
    else TextV(OwnText(env, dispatchId, id, f))
  }

  function Own(env: Env, dispatchId: Text, attemptNo: int, at: Instant, id: Identity): Terms {
    map f | f in OWN_FIELDS :: OwnValue(env, dispatchId, attemptNo, at, id, f)
  }

  function Parts(a: Terms, digest: Text, own: Terms): Terms { Copied(a) + Renamed(a, digest) + own }

  function DispatchStatement(env: Env, a: Envelope, dispatchId: Text, attemptNo: int, at: Instant, id: Identity)
    : Terms
  {
    Parts(a.statement, EnvelopeDigest(env, a), Own(env, dispatchId, attemptNo, at, id))
  }

  predicate InLifetime(a: Terms, at: Instant) { AtOf(a, IssuedAt) <= at < AtOf(a, ExpiresAt) }

  /** The statement's own checks, then the signature. */
  function SignChecked(env: Env, s: Terms, signer: Signer): Result<Envelope, Refusal> {
    match Fault(DISPATCH, s)
    case Some(refusal) => Failure(refusal)
    case None => Sign(env.iso, DISPATCH, s, signer)
  }

  /** issue_dispatch_envelope over a parsed authorization envelope. */
  function IssueDispatch(env: Env, a: Envelope, dispatchId: Text, attemptNo: int, at: Instant, signer: Signer)
    : Result<Envelope, Refusal>
  {
    var s := DispatchStatement(env, a, dispatchId, attemptNo, at, signer.identity);
    if signer.identity.fingerprint == TextOf(a.statement, PublicKeyFingerprint) then Failure(SIGNER_PURPOSE_REUSED)
    else if !InLifetime(a.statement, at) then Failure(AUTHORIZATION_MISMATCH)
    else if !BoundedText(dispatchId, MAX_TEXT) then Failure(MALFORMED)
    else
      SignChecked(env, s, signer)
  }

  // ---------------------------------------------------------------- verifying a dispatch

  predicate BindsCopied(d: Terms, a: Terms) { forall f | f in COPIED_FIELDS :: Same(d, a, f) }

  predicate BindsRenamed(d: Terms, a: Terms, digest: Text) {
    forall f | f in RENAMED_FIELDS :: TextOf(d, f) == RenamedText(a, digest, f)
  }

  /** The two projections agree: every term of the authorization that a dispatch carries. */
  predicate Binds(env: Env, d: Terms, a: Envelope) {
    BindsCopied(d, a.statement) && BindsRenamed(d, a.statement, EnvelopeDigest(env, a))
  }

  /** verify_dispatch_envelope on parsed envelopes; None is acceptance. */
  function VerifyDispatch(env: Env, authorizationVerifier: Verifier, dispatchVerifier: Verifier, d: Envelope,
                          a: Envelope, now: Instant): Option<Refusal>
  {
    if now < AtOf(d.statement, IssuedAt) then Some(NOT_YET_VALID)
    else if VerifyV2(env, authorizationVerifier, a, now).Some? then VerifyV2(env, authorizationVerifier, a, now)
    else if TextOf(d.statement, PublicKeyFingerprint) == TextOf(a.statement, PublicKeyFingerprint)
    then Some(SIGNER_PURPOSE_REUSED)
    else if !InLifetime(a.statement, AtOf(d.statement, IssuedAt)) then Some(AUTHORIZATION_MISMATCH)
    else if !Binds(env, d.statement, a) then Some(AUTHORIZATION_MISMATCH)
    else if !Accepts(env.iso, DISPATCH, dispatchVerifier, d) then Some(SIGNATURE_INVALID)
    else None
  }

  // ---------------------------------------------------------------- the dispatch statement

  lemma FormsProper()
    ensures Proper(V2) && Proper(DISPATCH)
  {
    V2Proper();
    DispatchProper();
  }

  lemma V2Proper()
    ensures Proper(V2)
  {
  }

  lemma DispatchProper()
    ensures Proper(DISPATCH)
  {
  }

  lemma PartsSeparate()
    ensures COPIED_FIELDS !! RENAMED_FIELDS && COPIED_FIELDS !! OWN_FIELDS && RENAMED_FIELDS !! OWN_FIELDS
  {
  }

  lemma CopiedInV2()
    ensures COPIED_FIELDS <= V2_FIELDS
  {
  }

  ghost predicate WellKinded(s: Terms) { forall f :: f in s ==> ValueKind(s[f]) == KindOf(f) }

  lemma OwnFieldKinds(f: Field)
    ensures f in OWN_FIELDS ==>
              KindOf(f) == if f == AttemptNo then POSITIVE else if f == IssuedAt then INSTANT else TEXT
  {
  }

  lemma RenamedFieldKinds(f: Field)
    ensures f in RENAMED_FIELDS ==> KindOf(f) == TEXT
  {
  }

  lemma OwnKinds(env: Env, dispatchId: Text, attemptNo: int, at: Instant, id: Identity)
    ensures WellKinded(Own(env, dispatchId, attemptNo, at, id))
  {
    forall f | f in OWN_FIELDS
      ensures ValueKind(OwnValue(env, dispatchId, attemptNo, at, id, f)) == KindOf(f)
    {
      OwnFieldKinds(f);
    }
  }

  lemma OwnTerms(env: Env, dispatchId: Text, attemptNo: int, at: Instant, id: Identity)
    ensures var o := Own(env, dispatchId, attemptNo, at, id); AtOf(o, IssuedAt) == at && IdentityOf(o) == id
  {
    var o := Own(env, dispatchId, attemptNo, at, id);
    OwnAt(env, dispatchId, attemptNo, at, id, IssuedAt);
    OwnAt(env, dispatchId, attemptNo, at, id, KeyId);
    OwnAt(env, dispatchId, attemptNo, at, id, Algorithm);
    OwnAt(env, dispatchId, attemptNo, at, id, PublicKeyFingerprint);
    OwnAt(env, dispatchId, attemptNo, at, id, Purpose);
  }

  lemma OwnAt(env: Env, dispatchId: Text, attemptNo: int, at: Instant, id: Identity, f: Field)
    requires f in OWN_FIELDS
    ensures var o := Own(env, dispatchId, attemptNo, at, id);
            f in o && o[f] == OwnValue(env, dispatchId, attemptNo, at, id, f)
  {
  }

  lemma RenamedKinds(a: Terms, digest: Text)
    ensures WellKinded(Renamed(a, digest))
  {
    forall f | f in RENAMED_FIELDS
      ensures KindOf(f) == TEXT
    {
      RenamedFieldKinds(f);
    }
  }

  /** In a union of separate parts every field reads as in its own part. */
  lemma PartTerms(c: Terms, r: Terms, o: Terms)
    requires c.Keys !! r.Keys && c.Keys !! o.Keys && r.Keys !! o.Keys
    ensures (c + r + o).Keys == c.Keys + r.Keys + o.Keys
    ensures forall f :: f in o ==> Same(c + r + o, o, f)
    ensures forall f :: f in r ==> Same(c + r + o, r, f)
    ensures forall f :: f in c ==> Same(c + r + o, c, f)
  {
  }

  lemma RenamedKeys(a: Terms, digest: Text)
    ensures Renamed(a, digest).Keys == RENAMED_FIELDS
  {
  }

  lemma OwnKeys(env: Env, dispatchId: Text, attemptNo: int, at: Instant, id: Identity)
    ensures Own(env, dispatchId, attemptNo, at, id).Keys == OWN_FIELDS
  {
  }

  lemma CopiedKeys(a: Terms)
    requires Typed(V2, a)
    ensures Copied(a).Keys == COPIED_FIELDS
  {
    CopiedInV2();
    CopiedOf(a, COPIED_FIELDS);
  }

  lemma CopiedOf(a: Terms, fields: set<Field>)
    requires fields <= a.Keys
    ensures (map f | f in a && f in fields :: a[f]).Keys == fields
  {
  }

  lemma StatementTyped(env: Env, a: Envelope, dispatchId: Text, attemptNo: int, at: Instant, id: Identity)
    requires Typed(V2, a.statement)
    ensures Typed(DISPATCH, DispatchStatement(env, a, dispatchId, attemptNo, at, id))
  {
    OwnKinds(env, dispatchId, attemptNo, at, id);
    OwnKeys(env, dispatchId, attemptNo, at, id);
    PartsTyped(a.statement, EnvelopeDigest(env, a), Own(env, dispatchId, attemptNo, at, id));
  }

  lemma PartsTyped(a: Terms, digest: Text, own: Terms)
    requires Typed(V2, a) && WellKinded(own) && own.Keys == OWN_FIELDS
    ensures Typed(DISPATCH, Parts(a, digest, own))
  {
    CopiedKeys(a);
    RenamedKeys(a, digest);
    RenamedKinds(a, digest);
    UnionTyped(Copied(a), Renamed(a, digest), own);
  }

  lemma UnionTyped(c: Terms, r: Terms, o: Terms)
    requires WellKinded(c) && WellKinded(r) && WellKinded(o)
    requires c.Keys + r.Keys + o.Keys == DISPATCH.fields
    ensures Typed(DISPATCH, c + r + o)
  {
  }

  /** What the statement says is what the authorization and the signer say. */
  lemma StatementBinds(env: Env, a: Envelope, dispatchId: Text, attemptNo: int, at: Instant, id: Identity)
    requires Typed(V2, a.statement)
    ensures var s := DispatchStatement(env, a, dispatchId, attemptNo, at, id);
            Binds(env, s, a) && AtOf(s, IssuedAt) == at && IdentityOf(s) == id
  {
    var own := Own(env, dispatchId, attemptNo, at, id);
    OwnKeys(env, dispatchId, attemptNo, at, id);
    OwnTerms(env, dispatchId, attemptNo, at, id);
    PartsBind(a.statement, EnvelopeDigest(env, a), own);
    OwnRead(Parts(a.statement, EnvelopeDigest(env, a), own), own);
  }

  lemma PartsBind(a: Terms, digest: Text, own: Terms)
    requires Typed(V2, a) && own.Keys == OWN_FIELDS
    ensures BindsCopied(Parts(a, digest, own), a) && BindsRenamed(Parts(a, digest, own), a, digest)
    ensures forall f :: f in OWN_FIELDS ==> Same(Parts(a, digest, own), own, f)
  {
    CopiedKeys(a);
    RenamedKeys(a, digest);
    PartsSeparate();
    PartTerms(Copied(a), Renamed(a, digest), own);
    CopiedBinds(Parts(a, digest, own), a);
    RenamedBinds(Parts(a, digest, own), a, digest);
  }

  lemma CopiedBinds(s: Terms, a: Terms)
    requires forall f :: f in COPIED_FIELDS ==> Same(s, Copied(a), f)
    ensures BindsCopied(s, a)
  {
    forall f | f in COPIED_FIELDS
      ensures Same(s, a, f)
    {
      assert Same(s, Copied(a), f);
    }
  }

  lemma RenamedBinds(s: Terms, a: Terms, digest: Text)
    requires forall f :: f in RENAMED_FIELDS ==> Same(s, Renamed(a, digest), f)
    ensures BindsRenamed(s, a, digest)
  {
    forall f | f in RENAMED_FIELDS
      ensures TextOf(s, f) == RenamedText(a, digest, f)
    {
      RenamedRead(s, a, digest, f);
    }
  }

  lemma RenamedRead(s: Terms, a: Terms, digest: Text, f: Field)
    requires f in RENAMED_FIELDS && Same(s, Renamed(a, digest), f)
    ensures TextOf(s, f) == RenamedText(a, digest, f)
  {
  }

  lemma OwnRead(s: Terms, o: Terms)
    requires forall f :: f in OWN_FIELDS ==> Same(s, o, f)
    ensures AtOf(s, IssuedAt) == AtOf(o, IssuedAt) && IdentityOf(s) == IdentityOf(o)
  {
  }

  // ---------------------------------------------------------------- the window

  /** A dispatch verifies against the authorization it was issued over at exactly the instants from its own issue
      to the authorization's expiry; there is such an instant, and the others are refused as too early or expired. */
  lemma DispatchVerifies(env: Env, authorizationVerifier: Verifier, dispatchVerifier: Verifier, a: Envelope,
                         dispatchId: Text, attemptNo: int, at: Instant, signer: Signer, now: Instant)
    requires Authentic(env, authorizationVerifier, a) && Agree(signer, dispatchVerifier)
    requires IssueDispatch(env, a, dispatchId, attemptNo, at, signer).Success?
    ensures var d := IssueDispatch(env, a, dispatchId, attemptNo, at, signer).value;
            var verdict := VerifyDispatch(env, authorizationVerifier, dispatchVerifier, d, a, now);
            && WellFormed(DISPATCH, d)
            && at < AtOf(a.statement, ExpiresAt)
            && (verdict == None <==> at <= now < AtOf(a.statement, ExpiresAt))
            && (verdict == Some(NOT_YET_VALID) <==> now < at)
            && (verdict == Some(EXPIRED) <==> AtOf(a.statement, ExpiresAt) <= now)
  {
    StatementTyped(env, a, dispatchId, attemptNo, at, signer.identity);
    StatementBinds(env, a, dispatchId, attemptNo, at, signer.identity);
    var s := DispatchStatement(env, a, dispatchId, attemptNo, at, signer.identity);
    IssuedSteps(env, a, dispatchId, attemptNo, at, signer);
    SignedIsAccepted(env.iso, DISPATCH, s, signer, dispatchVerifier);
    var d := IssueDispatch(env, a, dispatchId, attemptNo, at, signer).value;
    Verdict(env, authorizationVerifier, dispatchVerifier, d, a, now);
  }

  lemma IssuedSteps(env: Env, a: Envelope, dispatchId: Text, attemptNo: int, at: Instant, signer: Signer)
    requires IssueDispatch(env, a, dispatchId, attemptNo, at, signer).Success?
    ensures var s := DispatchStatement(env, a, dispatchId, attemptNo, at, signer.identity);
            && signer.identity.fingerprint != TextOf(a.statement, PublicKeyFingerprint) && InLifetime(a.statement, at)
            && Fault(DISPATCH, s) == None
            && IssueDispatch(env, a, dispatchId, attemptNo, at, signer) == Sign(env.iso, DISPATCH, s, signer)
  {
  }

  /** The verdict that the instant alone decides. */
  function TimeVerdict(issued: Instant, expires: Instant, now: Instant): Option<Refusal> {
    if now < issued then Some(NOT_YET_VALID) else if now >= expires then Some(EXPIRED) else None
  }

  lemma VerdictV2(env: Env, av: Verifier, a: Envelope, now: Instant)
    requires Accepts(env.iso, V2, av, a) && StandingApproval(a.statement)
    ensures VerifyV2(env, av, a, now) == TimeVerdict(AtOf(a.statement, IssuedAt), AtOf(a.statement, ExpiresAt), now)
  {
  }

  lemma Verdict(env: Env, av: Verifier, dv: Verifier, d: Envelope, a: Envelope, now: Instant)
    requires Authentic(env, av, a) && Accepts(env.iso, DISPATCH, dv, d) && Binds(env, d.statement, a)
    requires TextOf(d.statement, PublicKeyFingerprint) != TextOf(a.statement, PublicKeyFingerprint)
    requires InLifetime(a.statement, AtOf(d.statement, IssuedAt))
    ensures VerifyDispatch(env, av, dv, d, a, now)
         == TimeVerdict(AtOf(d.statement, IssuedAt), AtOf(a.statement, ExpiresAt), now)
  {
    VerdictV2(env, av, a, now);
  }

  lemma ReadableImages(form: Form, s: Terms)
    requires Typed(form, s) && AuthorizedImages in form.fields && RequiredComponentRoster !in form.fields
    ensures Readable(s) <==> forall i :: i in ImagesOf(s) ==> NamesOk(i)
  {
    forall f | f in s
      ensures (s[f].ImagesV? <==> f == AuthorizedImages) && !s[f].RosterV?
    {
      SpecialKinds(f);
    }
  }

  lemma NoRoster()
    ensures RequiredComponentRoster !in DISPATCH.fields
  {
  }

  /** The dispatch survives as_mapping and reading exactly when the authorization's images are well named. */
  lemma DispatchRoundTrip(env: Env, a: Envelope, dispatchId: Text, attemptNo: int, at: Instant, signer: Signer)
    requires Honest(env.iso) && Proper(DISPATCH) && WellFormed(V2, a)
    requires IssueDispatch(env, a, dispatchId, attemptNo, at, signer).Success?
    ensures var s := IssueDispatch(env, a, dispatchId, attemptNo, at, signer).value.statement;
            Parse(env.iso, DISPATCH, Given(Mapping(env.iso, DISPATCH, s))) == Success(s) <==>
              forall i :: i in ImagesOf(a.statement) ==> NamesOk(i)
  {
    var s := DispatchStatement(env, a, dispatchId, attemptNo, at, signer.identity);
    StatementTyped(env, a, dispatchId, attemptNo, at, signer.identity);
    StatementBinds(env, a, dispatchId, attemptNo, at, signer.identity);
    IssuedSteps(env, a, dispatchId, attemptNo, at, signer);
    SignKeeps(env.iso, DISPATCH, s, signer);
    RoundTrip(env.iso, DISPATCH, s);
    NoRoster();
    ReadableImages(DISPATCH, s);
    SameImages(env, s, a);
  }

  lemma SameImages(env: Env, s: Terms, a: Envelope)
    requires Binds(env, s, a)
    ensures ImagesOf(s) == ImagesOf(a.statement)
  {
    ImagesCopied();
    assert Same(s, a.statement, AuthorizedImages);
  }

  lemma ImagesCopied()
    ensures AuthorizedImages in COPIED_FIELDS
  {
  }

  /** The authorization's own key never signs a dispatch, whatever else holds. */
  lemma OwnKeyRefused(env: Env, a: Envelope, dispatchId: Text, attemptNo: int, at: Instant, signer: Signer)
    ensures IssueDispatch(env, a, dispatchId, attemptNo, at, signer) == Failure(SIGNER_PURPOSE_REUSED)
       <==> signer.identity.fingerprint == TextOf(a.statement, PublicKeyFingerprint)
  {
    if signer.identity.fingerprint != TextOf(a.statement, PublicKeyFingerprint) {
      SignCheckedCodes(env, DispatchStatement(env, a, dispatchId, attemptNo, at, signer.identity), signer);
    }
  }

  lemma SignCheckedCodes(env: Env, s: Terms, signer: Signer)
    ensures SignChecked(env, s, signer) != Failure(SIGNER_PURPOSE_REUSED)
  {
    FaultCodes(DISPATCH, s);
    SignCodes(env.iso, DISPATCH, s, signer);
  }

  lemma SignCodes(iso: Iso, form: Form, s: Terms, signer: Signer)
    ensures Sign(iso, form, s, signer) != Failure(SIGNER_PURPOSE_REUSED)
  {
  }

  // ---------------------------------------------------------------- what can be dispatched

  /** What a signer's identity checks when it is made. */
  predicate IdentityOk(id: Identity) {
    && BoundedText(id.keyId, MAX_TEXT) && BoundedText(id.algorithm, MAX_TEXT) && DigestOk(id.fingerprint)
    && id.purpose == T(DISPATCH.purpose)
  }

  /** The checks on one field of a record, whatever form it has. */
  predicate TermOk(f: Field, v: Value) {
    && (v.TextV? && !IsDigest(f) && f != Purpose ==> BoundedText(v.text, MAX_TEXT))
    && (v.TextV? && IsDigest(f) ==> DigestOk(v.text))
    && (v.IntV? ==> v.n >= 1)
  }

  ghost predicate TermsOk(s: Terms) { forall f :: f in s ==> TermOk(f, s[f]) }

  lemma TermsOkExact(s: Terms)
    ensures TermsOk(s) <==>
            TextsBounded(s) && DigestsOk(s, OUTER_DIGESTS) && DigestsOk(s, EVIDENCE_DIGESTS) && CountsPositive(s)
  {
    if TermsOk(s) {
      forall f | f in s
        ensures TermOk(f, s[f])
      {
      }
    }
  }

  lemma FaultFreeTerms(form: Form, s: Terms)
    requires Fault(form, s) == None
    ensures TermsOk(s)
  {
    TermsOkExact(s);
  }

  lemma CopiedOk(a: Terms)
    requires TermsOk(a)
    ensures TermsOk(Copied(a))
  {
  }

  /** A bounded text field of an authorization that passed its checks. */
  lemma NamedText(a: Terms, f: Field)
    requires Typed(V2, a) && TermsOk(a) && f in {PlanId, ControlVersion, KeyId}
    ensures BoundedText(TextOf(a, f), MAX_TEXT)
  {
    NamedInV2(f);
    TextEntry(a, f);
    assert TermOk(f, a[f]);
  }

  lemma NamedInV2(f: Field)
    requires f in {PlanId, ControlVersion, KeyId}
    ensures f in V2.fields && KindOf(f) == TEXT && !IsDigest(f) && f != Purpose
  {
  }

  lemma KeyFingerprintText(a: Terms)
    requires Typed(V2, a) && TermsOk(a)
    ensures DigestOk(TextOf(a, PublicKeyFingerprint))
  {
    FingerprintInV2();
    TextEntry(a, PublicKeyFingerprint);
    assert TermOk(PublicKeyFingerprint, a[PublicKeyFingerprint]);
  }

  lemma FingerprintInV2()
    ensures PublicKeyFingerprint in V2.fields && KindOf(PublicKeyFingerprint) == TEXT && IsDigest(PublicKeyFingerprint)
  {
  }

  lemma RenamedDigests(f: Field)
    requires f in RENAMED_FIELDS
    ensures IsDigest(f) <==> f == AuthorizationEnvelopeDigest || f == AuthorizationPublicKeyFingerprint
  {
  }

  lemma RenamedOk(a: Terms, digest: Text)
    requires Typed(V2, a) && TermsOk(a) && DigestOk(digest)
    ensures TermsOk(Renamed(a, digest))
  {
    NamedText(a, PlanId);
    NamedText(a, ControlVersion);
    NamedText(a, KeyId);
    KeyFingerprintText(a);
    RenamedTermsOk(a, digest);
  }

  lemma RenamedTermsOk(a: Terms, digest: Text)
    requires BoundedText(TextOf(a, PlanId), MAX_TEXT) && BoundedText(TextOf(a, ControlVersion), MAX_TEXT)
    requires BoundedText(TextOf(a, KeyId), MAX_TEXT) && DigestOk(TextOf(a, PublicKeyFingerprint)) && DigestOk(digest)
    ensures TermsOk(Renamed(a, digest))
  {
    forall f | f in RENAMED_FIELDS
      ensures TermOk(f, TextV(RenamedText(a, digest, f)))
    {
      RenamedDigests(f);
      RenamedTermOk(a, digest, f);
    }
  }

  lemma RenamedTermOk(a: Terms, digest: Text, f: Field)
    requires f in RENAMED_FIELDS
    requires IsDigest(f) <==> f == AuthorizationEnvelopeDigest || f == AuthorizationPublicKeyFingerprint
    requires BoundedText(TextOf(a, PlanId), MAX_TEXT) && BoundedText(TextOf(a, ControlVersion), MAX_TEXT)
    requires BoundedText(TextOf(a, KeyId), MAX_TEXT) && DigestOk(TextOf(a, PublicKeyFingerprint)) && DigestOk(digest)
    ensures TermOk(f, TextV(RenamedText(a, digest, f)))
  {
    RenamedBounded(a, digest, f);
    TextTermOk(f, RenamedText(a, digest, f));
  }

  lemma RenamedBounded(a: Terms, digest: Text, f: Field)
    requires f in RENAMED_FIELDS
    requires BoundedText(TextOf(a, PlanId), MAX_TEXT) && BoundedText(TextOf(a, ControlVersion), MAX_TEXT)
    requires BoundedText(TextOf(a, KeyId), MAX_TEXT) && DigestOk(TextOf(a, PublicKeyFingerprint)) && DigestOk(digest)
    ensures if f == AuthorizationEnvelopeDigest || f == AuthorizationPublicKeyFingerprint
            then DigestOk(RenamedText(a, digest, f)) else BoundedText(RenamedText(a, digest, f), MAX_TEXT)
  {
    RenamedCases(f);
  }

  lemma RenamedCases(f: Field)
    requires f in RENAMED_FIELDS
    ensures f == AuthorizationPlanId || f == AuthorizationControlVersion || f == AuthorizationKeyId
         || f == AuthorizationPublicKeyFingerprint || f == AuthorizationEnvelopeDigest
  {
  }

  lemma TextTermOk(f: Field, t: Text)
    requires if IsDigest(f) then DigestOk(t) else f == Purpose || BoundedText(t, MAX_TEXT)
    ensures TermOk(f, TextV(t))
  {
  }

  lemma OwnDigests(f: Field)
    requires f in OWN_FIELDS
    ensures IsDigest(f) <==> f == PublicKeyFingerprint
  {
  }

  lemma OwnOk(env: Env, dispatchId: Text, attemptNo: int, at: Instant, id: Identity)
    requires BoundedText(dispatchId, MAX_TEXT) && attemptNo >= 1 && BoundedText(env.version, MAX_TEXT) && IdentityOk(id)
    ensures TermsOk(Own(env, dispatchId, attemptNo, at, id))
  {
    forall f | f in OWN_FIELDS
      ensures TermOk(f, OwnValue(env, dispatchId, attemptNo, at, id, f))
    {
      OwnDigests(f);
      if f != AttemptNo && f != IssuedAt {
        OwnTextOk(env, dispatchId, id, f);
      }
    }
  }

  lemma OwnTextOk(env: Env, dispatchId: Text, id: Identity, f: Field)
    requires BoundedText(dispatchId, MAX_TEXT) && BoundedText(env.version, MAX_TEXT) && IdentityOk(id)
    requires f in OWN_FIELDS && f != AttemptNo && f != IssuedAt
    requires IsDigest(f) <==> f == PublicKeyFingerprint
    ensures TermOk(f, TextV(OwnText(env, dispatchId, id, f)))
  {
    OwnTextBounded(env, dispatchId, id, f);
    TextTermOk(f, OwnText(env, dispatchId, id, f));
  }

  lemma OwnTextBounded(env: Env, dispatchId: Text, id: Identity, f: Field)
    requires BoundedText(dispatchId, MAX_TEXT) && BoundedText(env.version, MAX_TEXT) && IdentityOk(id)
    requires f in OWN_FIELDS && f != AttemptNo && f != IssuedAt
    ensures if f == PublicKeyFingerprint then DigestOk(OwnText(env, dispatchId, id, f))
            else f == Purpose || BoundedText(OwnText(env, dispatchId, id, f), MAX_TEXT)
  {
    OwnTextCases(f);
  }

  lemma OwnTextCases(f: Field)
    requires f in OWN_FIELDS && f != AttemptNo && f != IssuedAt
    ensures f == DispatchId || f == ControlVersion || f == KeyId || f == Algorithm || f == PublicKeyFingerprint
         || f == Purpose
  {
  }

  lemma PartsOk(a: Terms, digest: Text, own: Terms)
    requires Typed(V2, a) && TermsOk(a) && DigestOk(digest) && TermsOk(own)
    ensures TermsOk(Parts(a, digest, own))
  {
    CopiedOk(a);
    RenamedOk(a, digest);
    UnionOk(Copied(a), Renamed(a, digest), own);
  }

  lemma UnionOk(c: Terms, r: Terms, o: Terms)
    requires TermsOk(c) && TermsOk(r) && TermsOk(o)
    ensures TermsOk(c + r + o)
  {
  }

  lemma NoEvidence()
    ensures RequiredComponentRoster !in DISPATCH.fields && ExpiresAt !in DISPATCH.fields
    ensures HealthEvidenceValidUntil !in DISPATCH.fields
  {
  }

  lemma NoFault(s: Terms)
    requires Typed(DISPATCH, s) && TermsOk(s) && TextOf(s, Purpose) == T(DISPATCH.purpose)
    requires ImagesFault(ImagesOf(s)) == None
    ensures Fault(DISPATCH, s) == None
  {
    TermsOkExact(s);
    NoEvidence();
  }

  lemma ImagesPass(a: Envelope)
    requires Fault(V2, a.statement) == None
    ensures ImagesFault(ImagesOf(a.statement)) == None
  {
  }

  /** Every well-formed authorization can be dispatched by any other key, at any instant of its lifetime, and as any
      attempt; and by no other key, instant or attempt. */
  lemma DispatchExact(env: Env, a: Envelope, dispatchId: Text, attemptNo: int, at: Instant, signer: Signer)
    requires WellFormed(V2, a) && Signs(signer) && IdentityOk(signer.identity) && BoundedText(env.version, MAX_TEXT)
    ensures IssueDispatch(env, a, dispatchId, attemptNo, at, signer).Success? <==>
              && signer.identity.fingerprint != TextOf(a.statement, PublicKeyFingerprint)
              && InLifetime(a.statement, at) && BoundedText(dispatchId, MAX_TEXT) && attemptNo >= 1
  {
    if BoundedText(dispatchId, MAX_TEXT) && attemptNo >= 1 {
      Dispatchable(env, a, dispatchId, attemptNo, at, signer);
    }
    if IssueDispatch(env, a, dispatchId, attemptNo, at, signer).Success? {
      Dispatched(env, a, dispatchId, attemptNo, at, signer);
    }
  }

  lemma Dispatchable(env: Env, a: Envelope, dispatchId: Text, attemptNo: int, at: Instant, signer: Signer)
    requires WellFormed(V2, a) && Signs(signer) && IdentityOk(signer.identity) && BoundedText(env.version, MAX_TEXT)
    requires BoundedText(dispatchId, MAX_TEXT) && attemptNo >= 1
    ensures signer.identity.fingerprint != TextOf(a.statement, PublicKeyFingerprint) && InLifetime(a.statement, at) ==>
              IssueDispatch(env, a, dispatchId, attemptNo, at, signer).Success?
  {
    var s := DispatchStatement(env, a, dispatchId, attemptNo, at, signer.identity);
    StatementBinds(env, a, dispatchId, attemptNo, at, signer.identity);
    DispatchFaultFree(env, a, dispatchId, attemptNo, at, signer.identity);
    SignCompletes(env.iso, DISPATCH, s, signer);
    assert SignChecked(env, s, signer).Success?;
  }

  lemma Dispatched(env: Env, a: Envelope, dispatchId: Text, attemptNo: int, at: Instant, signer: Signer)
    requires IssueDispatch(env, a, dispatchId, attemptNo, at, signer).Success?
    ensures signer.identity.fingerprint != TextOf(a.statement, PublicKeyFingerprint) && InLifetime(a.statement, at)
    ensures BoundedText(dispatchId, MAX_TEXT) && attemptNo >= 1
  {
    var s := DispatchStatement(env, a, dispatchId, attemptNo, at, signer.identity);
    IssuedSteps(env, a, dispatchId, attemptNo, at, signer);
    FaultFreeTerms(DISPATCH, s);
    AttemptIs(env, a, dispatchId, attemptNo, at, signer.identity);
    assert TermOk(AttemptNo, s[AttemptNo]);
  }

  lemma DispatchFaultFree(env: Env, a: Envelope, dispatchId: Text, attemptNo: int, at: Instant, id: Identity)
    requires WellFormed(V2, a) && BoundedText(dispatchId, MAX_TEXT) && attemptNo >= 1
    requires BoundedText(env.version, MAX_TEXT) && IdentityOk(id)
    ensures Fault(DISPATCH, DispatchStatement(env, a, dispatchId, attemptNo, at, id)) == None
  {
    var s := DispatchStatement(env, a, dispatchId, attemptNo, at, id);
    var digest := env.sha(EnvelopeBytes(env, V2, a));
    StatementTyped(env, a, dispatchId, attemptNo, at, id);
    StatementBinds(env, a, dispatchId, attemptNo, at, id);
    DigestSpellings(DigestText(digest), digest);
    FaultFreeTerms(V2, a.statement);
    OwnOk(env, dispatchId, attemptNo, at, id);
    PartsOk(a.statement, EnvelopeDigest(env, a), Own(env, dispatchId, attemptNo, at, id));
    SameImages(env, s, a);
    ImagesPass(a);
    NoFault(s);
  }

  lemma AttemptIs(env: Env, a: Envelope, dispatchId: Text, attemptNo: int, at: Instant, id: Identity)
    ensures var s := DispatchStatement(env, a, dispatchId, attemptNo, at, id);
            AttemptNo in s && s[AttemptNo] == IntV(attemptNo)
  {
    OwnAt(env, dispatchId, attemptNo, at, id, AttemptNo);
    LastWins(Copied(a.statement) + Renamed(a.statement, EnvelopeDigest(env, a)),
             Own(env, dispatchId, attemptNo, at, id), AttemptNo);
  }

  lemma LastWins(a: Terms, b: Terms, f: Field)
    requires f in b
    ensures f in a + b && (a + b)[f] == b[f]
  {
  }

  // ---------------------------------------------------------------- one authorization only

  lemma EnvelopePlain(env: Env, form: Form, e: Envelope)
    requires PlainTerms(env.iso, e.statement) && NoAdjacentSurrogates(e.signature)
    ensures PlainRow(EnvelopeRow(env, form, e))
  {
    MappingPlain(env.iso, form, e.statement);
    DocPlain(Mapping(env.iso, form, e.statement));
    PlainText(e.signature);
  }

  lemma EnvelopeRowsIdentify(env: Env, form: Form, a: Envelope, b: Envelope)
    requires PlainTerms(env.iso, a.statement) && NoAdjacentSurrogates(a.signature)
    requires PlainTerms(env.iso, b.statement) && NoAdjacentSurrogates(b.signature)
    ensures EnvelopeBytes(env, form, a) == EnvelopeBytes(env, form, b)
       <==> SameRow(EnvelopeRow(env, form, a), EnvelopeRow(env, form, b))
  {
    EnvelopePlain(env, form, a);
    EnvelopePlain(env, form, b);
    DocIdentifies(EnvelopeRow(env, form, a), EnvelopeRow(env, form, b));
  }

  /** Two envelopes of one form have the same bytes exactly when statement and signature are the same. */
  lemma EnvelopeIdentified(env: Env, form: Form, a: Envelope, b: Envelope)
    requires Honest(env.iso) && Proper(form) && Typed(form, a.statement) && Typed(form, b.statement)
    requires PlainTerms(env.iso, a.statement) && NoAdjacentSurrogates(a.signature)
    requires PlainTerms(env.iso, b.statement) && NoAdjacentSurrogates(b.signature)
    ensures EnvelopeBytes(env, form, a) == EnvelopeBytes(env, form, b) <==> a == b
  {
    EnvelopeRowsIdentify(env, form, a, b);
    if SameRow(EnvelopeRow(env, form, a), EnvelopeRow(env, form, b)) {
      EnvelopePartsSame(env, form, a, b);
      StatementSame(env.iso, form, a.statement, b.statement);
    }
  }

  lemma EnvelopePartsSame(env: Env, form: Form, a: Envelope, b: Envelope)
    requires SameRow(EnvelopeRow(env, form, a), EnvelopeRow(env, form, b))
    ensures a.signature == b.signature
    ensures SameValue(Doc(Mapping(env.iso, form, a.statement)), Doc(Mapping(env.iso, form, b.statement)))
  {
    var m, n := EnvelopeRow(env, form, a), EnvelopeRow(env, form, b);
    TextAt(m, n, Signature, a.signature, b.signature);
    assert SameValue(m[Statement], n[Statement]);
  }

  lemma StatementSame(iso: Iso, form: Form, s: Terms, t: Terms)
    requires Honest(iso) && Proper(form) && Typed(form, s) && Typed(form, t)
    ensures SameValue(Doc(Mapping(iso, form, s)), Doc(Mapping(iso, form, t))) <==> s == t
  {
    DocSame(Mapping(iso, form, s), Mapping(iso, form, t));
    MappingSame(iso, form, s, form, t);
    BodySame(iso, form, s, t);
  }

  lemma BoundDigest(d: Terms, a: Terms, digest: Text)
    requires BindsRenamed(d, a, digest)
    ensures TextOf(d, AuthorizationEnvelopeDigest) == digest
  {
    assert AuthorizationEnvelopeDigest in RENAMED_FIELDS;
    assert TextOf(d, AuthorizationEnvelopeDigest) == RenamedText(a, digest, AuthorizationEnvelopeDigest);
  }

  lemma VerifiedBinds(env: Env, av: Verifier, dv: Verifier, d: Envelope, a: Envelope, now: Instant)
    requires VerifyDispatch(env, av, dv, d, a, now) == None
    ensures Binds(env, d.statement, a)
  {
  }

  /** A dispatch that verifies against one authorization envelope verifies against no other that the hash tells
      apart from it, at any instant. */
  lemma DispatchBindsOne(env: Env, verifier: Verifier, verifier': Verifier, d: Envelope, a: Envelope, b: Envelope,
                         now: Instant, now': Instant, dv: Verifier, dv': Verifier)
    requires Honest(env.iso) && WellFormed(V2, a) && WellFormed(V2, b)
    requires PlainTerms(env.iso, a.statement) && NoAdjacentSurrogates(a.signature)
    requires PlainTerms(env.iso, b.statement) && NoAdjacentSurrogates(b.signature)
    requires env.sha(EnvelopeBytes(env, V2, a)) == env.sha(EnvelopeBytes(env, V2, b)) ==>
               EnvelopeBytes(env, V2, a) == EnvelopeBytes(env, V2, b)
    requires VerifyDispatch(env, verifier, dv, d, a, now) == None
    requires VerifyDispatch(env, verifier', dv', d, b, now') == None
    ensures a == b
  {
    FormsProper();
    VerifiedBinds(env, verifier, dv, d, a, now);
    VerifiedBinds(env, verifier', dv', d, b, now');
    BoundDigest(d.statement, a.statement, EnvelopeDigest(env, a));
    BoundDigest(d.statement, b.statement, EnvelopeDigest(env, b));
    DigestTextInjective(env.sha(EnvelopeBytes(env, V2, a)), env.sha(EnvelopeBytes(env, V2, b)));
    EnvelopeIdentified(env, V2, a, b);
  }
}
