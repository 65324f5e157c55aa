/**
 What the signed statements have in common: a record of typed fields, the mapping it is written as, the
 strict reader of that mapping, the checks every statement makes of itself, and the signing step.
 */
module SignedStatements {
  import opened Prelude
  import opened Texts
  import opened CanonicalJson
  import opened CanonicalDocuments
  import opened KeyEncoding
  import opened FieldNames
  import opened Fields
  import opened Images

  type Instant = int

  // ---------------------------------------------------------------- statements

  /** The value of a field, by its declared type. */
  datatype Value =
    | TextV(text: Text)
    | OptTextV(optText: Option<Text>)
    | IntV(n: int)
    | OptIntV(optInt: Option<int>)
    | InstantV(at: Instant)
    | OptInstantV(optAt: Option<Instant>)
    | ImagesV(images: seq<Image>)
    | RosterV(roster: seq<Text>)

  datatype Kind =
    | TEXT | OPTIONAL_TEXT | POSITIVE | OPTIONAL_INT | INSTANT | OPTIONAL_INSTANT | IMAGES | ROSTER

  function ValueKind(v: Value): Kind {
    match v
    case TextV(_) => TEXT
    case OptTextV(_) => OPTIONAL_TEXT
    case IntV(_) => POSITIVE
    case OptIntV(_) => OPTIONAL_INT
    case InstantV(_) => INSTANT
    case OptInstantV(_) => OPTIONAL_INSTANT
    case ImagesV(_) => IMAGES
    case RosterV(_) => ROSTER
  }

  function KindOf(f: Field): Kind {
    if f == AuthorizedImages then IMAGES
    else if f == RequiredComponentRoster then ROSTER
    else if f == ExecutionSequence || f == AttemptNo then POSITIVE
    else if f == ApprovalPolicyVersion then OPTIONAL_INT
    else if f == ApprovalPolicyCode || f == ApprovalDecisionRef then OPTIONAL_TEXT
    else if f == ApprovedAt then OPTIONAL_INSTANT
    else if f == IssuedAt || f == ExpiresAt || f == HealthEvidenceEvaluatedAt || f == HealthEvidenceValidUntil
    then INSTANT
    else TEXT
  }

  /** A statement: its fields by name. */
  type Terms = map<Field, Value>

  /** Which statement: the constants it is written with and the fields its record has. */
  datatype Form = Form(schema: string, version: int, purpose: string, fields: set<Field>, schemaRefusal: Refusal)

  datatype Refusal =
    | MALFORMED | SCHEMA_MISMATCH | UNSUPPORTED_VERSION | UNSIGNED | SIGNER_IDENTITY_MISMATCH | SIGNATURE_INVALID
    | APPROVAL_NOT_STANDING | EXPIRED | NOT_YET_VALID | PURPOSE_MISMATCH | DIGEST_ENCODING | IMAGES_REFUSED
    | EVIDENCE_SIGNATURE_INVALID | EVIDENCE_DIGEST_MISMATCH | EVIDENCE_ROSTER_MISMATCH | EVIDENCE_WINDOW_EXCEEDED
    | EVIDENCE_EXPIRED | EVIDENCE_FUTURE_DATED | CONTROL_PLAN_DIGEST_MISMATCH
    | PRODUCT_MISMATCH | ENVIRONMENT_MISMATCH | TARGET_MISMATCH | ROLLOUT_MISMATCH | EXECUTION_SEQUENCE_MISMATCH
    | APPROVAL_MISMATCH | OPERATION_MISMATCH | RELEASE_MISMATCH | IMAGES_MISMATCH | PLAN_MISMATCH
    | DESCRIPTOR_MISMATCH | EXECUTION_PLAN_MISMATCH
    | SIGNER_PURPOSE_REUSED | AUTHORIZATION_MISMATCH

  predicate Proper(form: Form) {
    AuthorizedImages in form.fields && Schema !in form.fields && Version !in form.fields
  }

  /** The record has exactly the form's fields, each with a value of its declared type. */
  predicate Typed(form: Form, s: Terms) {
    s.Keys == form.fields && forall f | f in s :: ValueKind(s[f]) == KindOf(f)
  }

  /** Fields of a typed statement, by type. */
  function TextOf(s: Terms, f: Field): Text { if f in s && s[f].TextV? then s[f].text else [] }

  function AtOf(s: Terms, f: Field): Instant { if f in s && s[f].InstantV? then s[f].at else 0 }

  function ImagesOf(s: Terms): seq<Image> {
    if AuthorizedImages in s && s[AuthorizedImages].ImagesV? then s[AuthorizedImages].images else []
  }

  function RosterIn(s: Terms): seq<Text> {
    if RequiredComponentRoster in s && s[RequiredComponentRoster].RosterV? then s[RequiredComponentRoster].roster
    else []
  }

  // ---------------------------------------------------------------- writing

  /** Instants as ISO 8601 text, and the reader of such text. */
  datatype Iso = Iso(write: Instant -> Text, read: Text -> Option<Instant>)

  ghost predicate Honest(iso: Iso) { forall t :: iso.read(iso.write(t)) == Some(t) }

  lemma ReadBack(iso: Iso, t: Instant)
    requires Honest(iso)
    ensures iso.read(iso.write(t)) == Some(t)
  {
  }

  function Strings(roster: seq<Text>): seq<Json> { seq(|roster|, i requires 0 <= i < |roster| => Str(roster[i])) }

  function Write(iso: Iso, v: Value): Json {
    match v
    case TextV(t) => Str(t)
    case OptTextV(t) => if t.Some? then Str(t.value) else Null
    case IntV(n) => Int(n)
    case OptIntV(n) => if n.Some? then Int(n.value) else Null
    case InstantV(t) => Str(iso.write(t))
    case OptInstantV(t) => if t.Some? then Str(iso.write(t.value)) else Null
    case ImagesV(images) => Payload(Some(images))
    case RosterV(roster) => Arr(Strings(roster))
  }

  function Header(form: Form): Row { map[Schema := Str(T(form.schema)), Version := Int(form.version)] }

  function Body(iso: Iso, s: Terms): Row { map f | f in s :: Write(iso, s[f]) }

  /** as_mapping. */
  function Mapping(iso: Iso, form: Form, s: Terms): Row { Header(form) + Body(iso, s) }

  /** The bytes that are signed. */
  function SignedBytes(iso: Iso, form: Form, s: Terms): Bytes { Canonical(Doc(Mapping(iso, form, s))) }

  // ---------------------------------------------------------------- reading

  /** What a caller may put under a key: a JSON value, an instant object, or a list of images. */
  datatype Input = Plainly(json: Json) | Moment(at: Instant) | Listing(items: seq<Item>)

  type Inputs = map<Field, Input>

  function Given(row: Row): Inputs { map f | f in row :: Plainly(row[f]) }

  function ItemsOf(i: Input): Option<seq<Item>> {
    match i
    case Plainly(Arr(items)) => Some(RawAll(items))
    case Listing(items) => Some(items)
    case _ => None
  }

  predicate RosterItems(items: seq<Json>) { forall j | j in items :: j.Str? && j.s != [] }

  function RosterOf(items: seq<Json>): seq<Text>
    requires RosterItems(items)
  {
    seq(|items|, i requires 0 <= i < |items| => assert items[i] in items; items[i].s)
  }

  function ReadImages(i: Input): (r: Result<Value, Refusal>)
    ensures r.Success? ==> r.value.ImagesV?
  {
    match ItemsOf(i)
    case None => Failure(MALFORMED)
    case Some(items) =>
      match ImageSet(items)
      case None => Failure(IMAGES_REFUSED)
      case Some(images) => Success(ImagesV(images))
  }

  /** The value a JSON value gives for a field of this type, images apart. */
  function ReadJson(iso: Iso, k: Kind, j: Json): (r: Option<Value>)
    ensures r.Some? ==> ValueKind(r.value) == k
  {
    match (k, j)
    case (TEXT, Str(t)) => Some(TextV(t))
    case (OPTIONAL_TEXT, Null) => Some(OptTextV(None))
    case (OPTIONAL_TEXT, Str(t)) => Some(OptTextV(Some(t)))
    case (POSITIVE, Int(n)) => if n >= 1 then Some(IntV(n)) else None
    case (OPTIONAL_INT, Null) => Some(OptIntV(None))
    case (OPTIONAL_INT, Int(n)) => Some(OptIntV(Some(n)))
    case (INSTANT, Str(t)) => if iso.read(t).Some? then Some(InstantV(iso.read(t).value)) else None
    case (OPTIONAL_INSTANT, Null) => Some(OptInstantV(None))
    case (OPTIONAL_INSTANT, Str(t)) => if iso.read(t).Some? then Some(OptInstantV(iso.read(t))) else None
    case (ROSTER, Arr(items)) => if RosterItems(items) then Some(RosterV(RosterOf(items))) else None
    case _ => None
  }

  function Read(iso: Iso, f: Field, i: Input): (r: Result<Value, Refusal>)
    ensures r.Success? ==> ValueKind(r.value) == KindOf(f)
  {
    if KindOf(f) == IMAGES then ReadImages(i)
    else if !i.Plainly? then Failure(MALFORMED)
    else
      match ReadJson(iso, KindOf(f), i.json)
      case None => Failure(MALFORMED)
      case Some(v) => Success(v)
  }

  predicate AllRead(iso: Iso, fields: set<Field>, row: Inputs)
    requires fields <= row.Keys
  {
    forall f | f in fields :: Read(iso, f, row[f]).Success?
  }

  function Values(iso: Iso, fields: set<Field>, row: Inputs): (s: Terms)
    requires fields <= row.Keys && AllRead(iso, fields, row)
    ensures s.Keys == fields && forall f :: f in fields ==> ValueKind(s[f]) == KindOf(f)
  {
    map f | f in fields :: Read(iso, f, row[f]).value
  }

  /** Images, every other field, and the statement's own checks. */
  function ParseFields(iso: Iso, form: Form, row: Inputs): (r: Result<Terms, Refusal>)
    requires AuthorizedImages in form.fields && form.fields <= row.Keys
    ensures r.Success? ==> Typed(form, r.value) && Fault(form, r.value) == None
  {
    if ReadImages(row[AuthorizedImages]).Failure? then Failure(ReadImages(row[AuthorizedImages]).error)
    else if !AllRead(iso, form.fields, row) then Failure(MALFORMED)
    else
      match Fault(form, Values(iso, form.fields, row))
      case Some(refusal) => Failure(refusal)
      case None => Success(Values(iso, form.fields, row))
  }

  /** Reading the mapping of a statement: exact keys, schema and version, then the fields. */
  function Parse(iso: Iso, form: Form, row: Inputs): (r: Result<Terms, Refusal>)
    requires Proper(form)
    ensures r.Success? ==> Typed(form, r.value) && Fault(form, r.value) == None
  {
    if row.Keys != form.fields + {Schema, Version} then Failure(MALFORMED)
    else if row[Schema] != Plainly(Str(T(form.schema))) then Failure(form.schemaRefusal)
    else if row[Version] != Plainly(Int(form.version)) then Failure(UNSUPPORTED_VERSION)
    else ParseFields(iso, form, row)
  }

  lemma ParsedTerm(iso: Iso, form: Form, row: Inputs, f: Field)
    requires Proper(form) && Parse(iso, form, row).Success? && f in form.fields
    ensures f in row && Read(iso, f, row[f]) == Success(Parse(iso, form, row).value[f])
  {
  }

  // ---------------------------------------------------------------- what a statement checks of itself

  predicate BoundedText(t: Text, maximum: nat) { ExactText(t) && |t| <= maximum }

  const MAX_TEXT := 512
  const MAX_SIGNATURE := 16384

  const OUTER_DIGESTS := {PlanDigest, DescriptorDigest, ExecutionPlanDigest, PublicKeyFingerprint,
                          AuthorizationEnvelopeDigest, AuthorizationPublicKeyFingerprint}
  const EVIDENCE_DIGESTS := {HealthEvidenceDigest, ControlPlanDigest}

  predicate IsDigest(f: Field) { f in OUTER_DIGESTS || f in EVIDENCE_DIGESTS }

  predicate DigestOk(t: Text) { ParseDigest(t, false).Some? }

  function RosterKey(t: Text): seq<Text> { [t] }

  /** Already sorted, and nothing twice. */
  predicate RosterOk(roster: seq<Text>) {
    roster != [] && Sort(RosterKey, roster) == roster && DistinctKeys(RosterKey, roster)
  }

  predicate TextsBounded(s: Terms) {
    forall f | f in s :: s[f].TextV? && !IsDigest(f) && f != Purpose ==> BoundedText(s[f].text, MAX_TEXT)
  }

  predicate DigestsOk(s: Terms, fields: set<Field>) {
    forall f | f in s :: s[f].TextV? && f in fields ==> DigestOk(s[f].text)
  }

  predicate CountsPositive(s: Terms) { forall f | f in s :: s[f].IntV? ==> s[f].n >= 1 }

  /** The texts of the record, one by one. */
  function TextFault(form: Form, s: Terms): Option<Refusal> {
    if !TextsBounded(s) then Some(MALFORMED)
    else if TextOf(s, Purpose) != T(form.purpose) then Some(PURPOSE_MISMATCH)
    else if !DigestsOk(s, OUTER_DIGESTS) then Some(DIGEST_ENCODING)
    else if !DigestsOk(s, EVIDENCE_DIGESTS) then Some(MALFORMED)
    else None
  }

  /** authorized_image_set on the images must give them back. */
  function ImagesFault(images: seq<Image>): Option<Refusal> {
    match ImageSet(ReadyAll(images))
    case None => Some(IMAGES_REFUSED)
    case Some(canonical) => if canonical == images then None else Some(MALFORMED)
  }

  function TimesFault(issued: Instant, expires: Instant): Option<Refusal> {
    if expires <= issued then Some(MALFORMED) else None
  }

  function EvidenceTimesFault(expires: Instant, validUntil: Instant): Option<Refusal> {
    if expires > validUntil then Some(EVIDENCE_WINDOW_EXCEEDED) else None
  }

  /** Roster, counts, images and times, as far as the form has them. */
  function OtherFaultOf(hasRoster: bool, roster: seq<Text>, counts: bool, images: seq<Image>, hasExpiry: bool,
                        issued: Instant, expires: Instant, hasEvidence: bool, validUntil: Instant): Option<Refusal>
  {
    if hasRoster && !RosterOk(roster) then Some(MALFORMED)
    else if !counts then Some(MALFORMED)
    else if ImagesFault(images).Some? then ImagesFault(images)
    else if hasExpiry && TimesFault(issued, expires).Some? then Some(MALFORMED)
    else if hasEvidence then EvidenceTimesFault(expires, validUntil)
    else None
  }

  function OtherFault(s: Terms): Option<Refusal> {
    OtherFaultOf(RequiredComponentRoster in s, RosterIn(s), CountsPositive(s), ImagesOf(s), ExpiresAt in s,
                 AtOf(s, IssuedAt), AtOf(s, ExpiresAt), HealthEvidenceValidUntil in s,
                 AtOf(s, HealthEvidenceValidUntil))
  }

  /** Why a typed record cannot be a statement of this form; None when it can. */
  function Fault(form: Form, s: Terms): Option<Refusal> {
    if TextFault(form, s).Some? then TextFault(form, s) else OtherFault(s)
  }

  /** No statement is at fault for the key that will sign it. */
  lemma FaultCodes(form: Form, s: Terms)
    ensures Fault(form, s) != Some(SIGNER_PURPOSE_REUSED) && Fault(form, s) != Some(AUTHORIZATION_MISMATCH)
  {
  }

  /** A roster passes exactly when it is non-empty and strictly increasing. */
  lemma RosterExact(roster: seq<Text>)
    ensures RosterOk(roster) <==> roster != [] && Increasing(RosterKey, roster)
  {
    SortCorrect(RosterKey, roster);
    if Increasing(RosterKey, roster) {
      SortFixedPoint(RosterKey, roster);
    }
  }

  // ---------------------------------------------------------------- writing, then reading

  /** What reading asks of images and component codes, and building a statement directly does not. */
  ghost predicate Readable(s: Terms) {
    forall f :: f in s ==> ReadableValue(s[f])
  }

  lemma ReadWrittenImages(iso: Iso, images: seq<Image>)
    requires CanonicalImages(images)
    ensures ReadImages(Plainly(Write(iso, ImagesV(images)))) == Success(ImagesV(images))
       <==> forall i :: i in images ==> NamesOk(i)
    ensures ReadImages(Plainly(Write(iso, ImagesV(images)))).Success?
        ==> ReadImages(Plainly(Write(iso, ImagesV(images)))) == Success(ImagesV(images))
  {
    PayloadRoundTrip(Some(images));
    ParsedDocs(images);
    CanonicalExact(images);
    assert Parsed(ReadyAll(images)) == images;
  }

  lemma ReadWrittenRoster(roster: seq<Text>)
    ensures RosterItems(Strings(roster)) <==> [] !in roster
    ensures RosterItems(Strings(roster)) ==> RosterOf(Strings(roster)) == roster
  {
    if [] in roster {
      var i :| 0 <= i < |roster| && roster[i] == [];
      assert Strings(roster)[i] in Strings(roster);
    }
  }

  /** The part of Readable that concerns one field. */
  ghost predicate ReadableValue(v: Value) {
    && (v.ImagesV? ==> forall i :: i in v.images ==> NamesOk(i))
    && (v.RosterV? ==> [] !in v.roster)
  }

  lemma ReadWrittenJson(iso: Iso, v: Value)
    requires Honest(iso) && !v.ImagesV? && (v.IntV? ==> v.n >= 1)
    ensures var r := ReadJson(iso, ValueKind(v), Write(iso, v));
            (r == Some(v) <==> ReadableValue(v)) && (r.Some? ==> r == Some(v))
  {
    match v
    case RosterV(roster) => ReadWrittenRoster(roster);
    case InstantV(t) => ReadBack(iso, t);
    case OptInstantV(t) => if t.Some? { ReadBack(iso, t.value); }
    case _ =>
  }

  /** One field, written and read back. */
  lemma ReadWritten(iso: Iso, f: Field, v: Value)
    requires Honest(iso) && ValueKind(v) == KindOf(f)
    requires (v.IntV? ==> v.n >= 1) && (v.ImagesV? ==> CanonicalImages(v.images))
    ensures var r := Read(iso, f, Plainly(Write(iso, v)));
            (r == Success(v) <==> ReadableValue(v)) && (r.Success? ==> r == Success(v))
  {
    if v.ImagesV? {
      ReadWrittenImages(iso, v.images);
    } else {
      ReadWrittenJson(iso, v);
    }
  }

  lemma ImagesOnly(form: Form, s: Terms, f: Field)
    requires Typed(form, s) && f in s && s[f].ImagesV?
    ensures f == AuthorizedImages
  {
    assert KindOf(f) == IMAGES;
  }

  lemma FreeImages(s: Terms)
    requires OtherFault(s) == None
    ensures CanonicalImages(ImagesOf(s)) && CountsPositive(s)
  {
    CanonicalExact(ImagesOf(s));
  }

  lemma FreeTimes(s: Terms)
    requires OtherFault(s) == None
    ensures ExpiresAt in s ==> AtOf(s, IssuedAt) < AtOf(s, ExpiresAt)
    ensures HealthEvidenceValidUntil in s ==> AtOf(s, ExpiresAt) <= AtOf(s, HealthEvidenceValidUntil)
    ensures RequiredComponentRoster in s ==> RosterOk(RosterIn(s))
  {
  }

  lemma FreeTerm(form: Form, s: Terms, f: Field)
    requires Typed(form, s) && OtherFault(s) == None && f in s
    ensures (s[f].IntV? ==> s[f].n >= 1) && (s[f].ImagesV? ==> CanonicalImages(s[f].images))
  {
    FreeImages(s);
    if s[f].ImagesV? {
      ImagesOnly(form, s, f);
    }
  }

  lemma FreeTexts(form: Form, s: Terms)
    requires TextFault(form, s) == None
    ensures DigestsOk(s, OUTER_DIGESTS) && DigestsOk(s, EVIDENCE_DIGESTS) && TextOf(s, Purpose) == T(form.purpose)
  {
  }

  /** What a statement without fault has. */
  lemma FaultFree(form: Form, s: Terms)
    requires Proper(form) && Typed(form, s) && Fault(form, s) == None
    ensures CanonicalImages(ImagesOf(s))
    ensures forall f :: f in s ==> (s[f].IntV? ==> s[f].n >= 1) && (s[f].ImagesV? ==> CanonicalImages(s[f].images))
    ensures DigestsOk(s, OUTER_DIGESTS) && DigestsOk(s, EVIDENCE_DIGESTS) && TextOf(s, Purpose) == T(form.purpose)
    ensures ExpiresAt in s ==> AtOf(s, IssuedAt) < AtOf(s, ExpiresAt)
    ensures HealthEvidenceValidUntil in s ==> AtOf(s, ExpiresAt) <= AtOf(s, HealthEvidenceValidUntil)
    ensures RequiredComponentRoster in s ==> RosterOk(RosterIn(s))
  {
    FreeTexts(form, s);
    FreeImages(s);
    FreeTimes(s);
    forall f | f in s
      ensures (s[f].IntV? ==> s[f].n >= 1) && (s[f].ImagesV? ==> CanonicalImages(s[f].images))
    {
      FreeTerm(form, s, f);
    }
  }

  /** A statement survives as_mapping and reading exactly when its images and component codes are well named. */
  lemma RoundTrip(iso: Iso, form: Form, s: Terms)
    requires Honest(iso) && Proper(form) && Typed(form, s) && Fault(form, s) == None
    ensures Parse(iso, form, Given(Mapping(iso, form, s))) == Success(s) <==> Readable(s)
  {
    MappingEntries(iso, form, s);
    ReadsBack(iso, form, s, Given(Mapping(iso, form, s)));
  }

  ghost predicate Holds(iso: Iso, row: Inputs, s: Terms) {
    forall f :: f in s ==> f in row && row[f] == Plainly(Write(iso, s[f]))
  }

  lemma ReadsBack(iso: Iso, form: Form, s: Terms, row: Inputs)
    requires Honest(iso) && Proper(form) && Typed(form, s) && Fault(form, s) == None
    requires Holds(iso, row, s) && row.Keys == form.fields + {Schema, Version}
    requires row[Schema] == Plainly(Str(T(form.schema))) && row[Version] == Plainly(Int(form.version))
    ensures Parse(iso, form, row) == Success(s) <==> Readable(s)
  {
    FaultFree(form, s);
    forall f | f in s
      ensures Read(iso, f, row[f]) == Success(s[f]) <==> ReadableValue(s[f])
      ensures Read(iso, f, row[f]).Success? ==> Read(iso, f, row[f]) == Success(s[f])
    {
      ReadWritten(iso, f, s[f]);
    }
    assert AllRead(iso, form.fields, row) <==> Readable(s);
    if AllRead(iso, form.fields, row) {
      SameValues(iso, form.fields, row, s);
    }
    assert Read(iso, AuthorizedImages, row[AuthorizedImages]) == ReadImages(row[AuthorizedImages]);
  }

  lemma SameValues(iso: Iso, fields: set<Field>, row: Inputs, s: Terms)
    requires fields <= row.Keys && AllRead(iso, fields, row) && s.Keys == fields
    requires forall f :: f in s ==> Read(iso, f, row[f]) == Success(s[f])
    ensures Values(iso, fields, row) == s
  {
  }

  /** Every field of the mapping reads as the statement's value. */
  ghost predicate ReadsAs(iso: Iso, row: Inputs, s: Terms) {
    forall f :: f in s ==> f in row && Read(iso, f, row[f]) == Success(s[f])
  }

  lemma ParseReads(iso: Iso, form: Form, row: Inputs, s: Terms)
    requires Proper(form) && Typed(form, s) && Fault(form, s) == None
    requires ReadsAs(iso, row, s) && row.Keys == form.fields + {Schema, Version}
    requires row[Schema] == Plainly(Str(T(form.schema))) && row[Version] == Plainly(Int(form.version))
    ensures Parse(iso, form, row) == Success(s)
  {
    assert AllRead(iso, form.fields, row);
    SameValues(iso, form.fields, row, s);
    assert Read(iso, AuthorizedImages, row[AuthorizedImages]) == ReadImages(row[AuthorizedImages]);
  }

  lemma MappingEntries(iso: Iso, form: Form, s: Terms)
    requires Proper(form) && Typed(form, s)
    ensures var row := Given(Mapping(iso, form, s));
            && row.Keys == form.fields + {Schema, Version}
            && row[Schema] == Plainly(Str(T(form.schema))) && row[Version] == Plainly(Int(form.version))
            && Holds(iso, row, s)
  {
    HeaderEntries(form);
    WithHeader(iso, Header(form), s);
  }

  lemma WithHeader(iso: Iso, h: Row, s: Terms)
    requires h.Keys !! s.Keys
    ensures var row := Given(h + Body(iso, s));
            && row.Keys == s.Keys + h.Keys
            && (forall f :: f in h ==> row[f] == Plainly(h[f]))
            && Holds(iso, row, s)
  {
    GivenUnion(h, Body(iso, s));
  }

  lemma GivenUnion(h: Row, b: Row)
    requires h.Keys !! b.Keys
    ensures Given(h + b).Keys == h.Keys + b.Keys
    ensures forall f :: f in h ==> Given(h + b)[f] == Plainly(h[f])
    ensures forall f :: f in b ==> Given(h + b)[f] == Plainly(b[f])
  {
  }

  lemma HeaderEntries(form: Form)
    ensures Header(form).Keys == {Schema, Version}
    ensures Header(form)[Schema] == Str(T(form.schema)) && Header(form)[Version] == Int(form.version)
  {
  }

  // ---------------------------------------------------------------- signed bytes identify

  /** No text of the value holds a high surrogate directly before a low one. */
  ghost predicate PlainValue(iso: Iso, v: Value) {
    match v
    case TextV(t) => NoAdjacentSurrogates(t)
    case OptTextV(t) => t.Some? ==> NoAdjacentSurrogates(t.value)
    case InstantV(t) => NoAdjacentSurrogates(iso.write(t))
    case OptInstantV(t) => t.Some? ==> NoAdjacentSurrogates(iso.write(t.value))
    case ImagesV(images) => forall i :: i in images ==> PlainImage(i)
    case RosterV(roster) => forall t :: t in roster ==> NoAdjacentSurrogates(t)
    case _ => true
  }

  ghost predicate PlainTerms(iso: Iso, s: Terms) { forall f :: f in s ==> PlainValue(iso, s[f]) }

  lemma PlainRoster(roster: seq<Text>)
    ensures Plain(Arr(Strings(roster))) <==> forall t :: t in roster ==> NoAdjacentSurrogates(t)
  {
    PlainItems(Strings(roster));
    forall k | 0 <= k < |roster|
      ensures Plain(Strings(roster)[k]) <==> NoAdjacentSurrogates(roster[k])
    {
      PlainText(roster[k]);
    }
    forall t | t in roster
      ensures Str(t) in Strings(roster)
    {
      var k :| 0 <= k < |roster| && roster[k] == t;
      assert Strings(roster)[k] == Str(t);
    }
  }

  lemma PlainValueExact(iso: Iso, v: Value)
    ensures Plain(Write(iso, v)) <==> PlainValue(iso, v)
  {
    match v
    case TextV(t) => PlainText(t);
    case OptTextV(t) => if t.Some? { PlainText(t.value); }
    case InstantV(t) => PlainText(iso.write(t));
    case OptInstantV(t) => if t.Some? { PlainText(iso.write(t.value)); }
    case ImagesV(images) => PayloadPlainExact(images);
    case RosterV(roster) => PlainRoster(roster);
    case _ =>
  }

  /** What a statement writes survives printing exactly when its own texts are plain. */
  lemma PlainTermsExact(iso: Iso, s: Terms)
    ensures PlainTerms(iso, s) <==> PlainRow(Body(iso, s))
  {
    forall f | f in s
      ensures Plain(Body(iso, s)[f]) <==> PlainValue(iso, s[f])
    {
      PlainValueExact(iso, s[f]);
    }
  }

  lemma RosterSame(x: seq<Text>, y: seq<Text>)
    ensures SameValue(Arr(Strings(x)), Arr(Strings(y))) <==> x == y
  {
    ListSame(Strings(x), Strings(y));
    forall i | 0 <= i < |x| && i < |y|
      ensures SameValue(Strings(x)[i], Strings(y)[i]) <==> x[i] == y[i]
    {
    }
  }

  lemma WriteIdentifies(iso: Iso, v: Value, w: Value)
    requires Honest(iso) && ValueKind(v) == ValueKind(w)
    ensures SameValue(Write(iso, v), Write(iso, w)) <==> v == w
  {
    match v
    case ImagesV(images) => PayloadIdentifies(Some(images), Some(w.images));
    case RosterV(roster) => RosterSame(roster, w.roster);
    case InstantV(t) => ReadBack(iso, t); ReadBack(iso, w.at);
    case OptInstantV(t) =>
      if t.Some? && w.optAt.Some? {
        ReadBack(iso, t.value);
        ReadBack(iso, w.optAt.value);
      }
    case _ =>
  }

  lemma MappingPlain(iso: Iso, form: Form, s: Terms)
    requires PlainTerms(iso, s)
    ensures PlainRow(Mapping(iso, form, s))
  {
    PlainText(T(form.schema));
    PlainTermsExact(iso, s);
  }

  lemma MappingSame(iso: Iso, a: Form, s: Terms, b: Form, t: Terms)
    requires Proper(a) && Proper(b) && Typed(a, s) && Typed(b, t)
    ensures SameRow(Mapping(iso, a, s), Mapping(iso, b, t)) <==>
            a.schema == b.schema && a.version == b.version && SameRow(Body(iso, s), Body(iso, t))
  {
    HeaderEntries(a);
    HeaderEntries(b);
    HeaderSame(a, b);
    UnionSame(Header(a), Body(iso, s), Header(b), Body(iso, t));
  }

  lemma UnionSame(a: Row, b: Row, c: Row, d: Row)
    requires a.Keys == c.Keys && a.Keys !! b.Keys && c.Keys !! d.Keys
    ensures SameRow(a + b, c + d) <==> SameRow(a, c) && SameRow(b, d)
  {
    assert (a + b).Keys - a.Keys == b.Keys && (c + d).Keys - c.Keys == d.Keys;
    if b.Keys == d.Keys {
      SameParts(a, b, c, d);
    }
  }

  lemma HeaderSame(a: Form, b: Form)
    ensures SameRow(Header(a), Header(b)) <==> a.schema == b.schema && a.version == b.version
  {
    if a.schema != b.schema {
      LiteralsDiffer(a.schema, b.schema);
    }
    assert SameValue(Header(a)[Schema], Header(b)[Schema]) <==> a.schema == b.schema;
    assert SameValue(Header(a)[Version], Header(b)[Version]) <==> a.version == b.version;
  }

  lemma BodySame(iso: Iso, form: Form, s: Terms, t: Terms)
    requires Honest(iso) && Typed(form, s) && Typed(form, t)
    ensures SameRow(Body(iso, s), Body(iso, t)) <==> s == t
  {
    forall f | f in s
      ensures SameValue(Body(iso, s)[f], Body(iso, t)[f]) <==> s[f] == t[f]
    {
      WriteIdentifies(iso, s[f], t[f]);
    }
    assert s == t <==> forall f :: f in s ==> s[f] == t[f];
    assert SameRow(Body(iso, s), Body(iso, t)) <==> forall f :: f in s ==> SameValue(Body(iso, s)[f], Body(iso, t)[f]);
  }

  lemma SignedRowsIdentify(iso: Iso, a: Form, s: Terms, b: Form, t: Terms)
    requires PlainTerms(iso, s) && PlainTerms(iso, t)
    ensures SignedBytes(iso, a, s) == SignedBytes(iso, b, t) <==> SameRow(Mapping(iso, a, s), Mapping(iso, b, t))
  {
    MappingPlain(iso, a, s);
    MappingPlain(iso, b, t);
    DocIdentifies(Mapping(iso, a, s), Mapping(iso, b, t));
  }

  lemma BodiesIdentify(iso: Iso, a: Form, s: Terms, b: Form, t: Terms)
    requires Honest(iso) && Typed(a, s) && Typed(b, t)
    ensures SameRow(Body(iso, s), Body(iso, t)) <==> s == t
  {
    if a.fields == b.fields {
      BodySame(iso, a, s, t);
    } else {
      assert Body(iso, s).Keys == a.fields && Body(iso, t).Keys == b.fields;
    }
  }

  /** Two statements have the same signed bytes exactly when they are one statement of one schema and version. */
  lemma SignedBytesIdentify(iso: Iso, a: Form, s: Terms, b: Form, t: Terms)
    requires Honest(iso) && Proper(a) && Proper(b) && Typed(a, s) && Typed(b, t)
    requires PlainTerms(iso, s) && PlainTerms(iso, t)
    ensures SignedBytes(iso, a, s) == SignedBytes(iso, b, t) <==>
            a.schema == b.schema && a.version == b.version && s == t
  {
    SignedRowsIdentify(iso, a, s, b, t);
    MappingSame(iso, a, s, b, t);
    BodiesIdentify(iso, a, s, b, t);
  }

  // ---------------------------------------------------------------- signing

  datatype Identity = Identity(keyId: Text, algorithm: Text, fingerprint: Text, purpose: Text)

  datatype Signed = Signed(identity: Identity, signature: Text)

  datatype Signer = Signer(identity: Identity, sign: Bytes -> Signed)

  type Verifier = (Identity, Bytes, Text) -> bool

  /** The verifier accepts what the signer produces. */
  ghost predicate Agree(signer: Signer, verifier: Verifier) {
    forall b :: verifier(signer.sign(b).identity, b, signer.sign(b).signature)
  }

  datatype Envelope = Envelope(statement: Terms, signature: Text)

  function IdentityOf(s: Terms): Identity {
    Identity(TextOf(s, KeyId), TextOf(s, Algorithm), TextOf(s, PublicKeyFingerprint), TextOf(s, Purpose))
  }

  /** The signature over the statement's bytes, refused when it names another identity or is empty. */
  function Sign(iso: Iso, form: Form, s: Terms, signer: Signer): Result<Envelope, Refusal> {
    var signed := signer.sign(SignedBytes(iso, form, s));
    if signed.identity != IdentityOf(s) then Failure(SIGNER_IDENTITY_MISMATCH)
    else if signed.signature == [] then Failure(UNSIGNED)
    else if !BoundedText(signed.signature, MAX_SIGNATURE) then Failure(MALFORMED)
    else Success(Envelope(s, signed.signature))
  }

  lemma SignKeeps(iso: Iso, form: Form, s: Terms, signer: Signer)
    requires Sign(iso, form, s, signer).Success?
    ensures Sign(iso, form, s, signer).value.statement == s
    ensures signer.sign(SignedBytes(iso, form, s)).identity == IdentityOf(s)
  {
  }

  predicate Accepts(iso: Iso, form: Form, verifier: Verifier, e: Envelope) {
    verifier(IdentityOf(e.statement), SignedBytes(iso, form, e.statement), e.signature)
  }

  /** A signing that succeeds is accepted by the verifier that agrees with the signer. */
  lemma SignedIsAccepted(iso: Iso, form: Form, s: Terms, signer: Signer, verifier: Verifier)
    requires Agree(signer, verifier) && Sign(iso, form, s, signer).Success?
    ensures var e := Sign(iso, form, s, signer).value; e.statement == s && Accepts(iso, form, verifier, e)
  {
    var signed := signer.sign(SignedBytes(iso, form, s));
    assert verifier(signed.identity, SignedBytes(iso, form, s), signed.signature);
  }

  predicate StandingApproval(s: Terms) {
    TextOf(s, ApprovalDecisionStatus) == T("granted") || TextOf(s, ApprovalDecisionStatus) == T("approval_exempt")
  }
}
