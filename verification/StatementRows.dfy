/**
 The signed statements field by field: which fields a record has and of which type, what as_mapping writes under which
 key, how each field is read, and which fault a record has, in terms of literal keys and values.
 */
module StatementRows {
  import opened Prelude
  import opened Texts
  import opened CanonicalJson
  import opened KeyEncoding
  import opened FieldNames
  import opened Fields
  import opened Images
  import opened ImageRows
  import opened SignedStatements
  import opened AuthorizationV3
  import opened Dispatch

  // ---------------------------------------------------------------- fields and types

  const TEXT_FIELDS := {
    Purpose, AuthorizationId, RolloutRef, PlanId, TargetId, TargetRef, ProductCode, Environment, Operation, ReleaseRef,
    PlanDigest, DescriptorDigest, ExecutionPlanDigest, ApprovalDecisionStatus, ControlVersion, KeyId, Algorithm,
    PublicKeyFingerprint, HealthEvidenceDigest, ControlPlanDigest, DispatchId, AuthorizationPlanId,
    AuthorizationControlVersion, AuthorizationKeyId, AuthorizationPublicKeyFingerprint, AuthorizationEnvelopeDigest}

  /** The type of a field of any of the three statements. */
  lemma FieldTypes(f: Field)
    ensures f in TEXT_FIELDS ==> KindOf(f) == TEXT
    ensures f in {ApprovalPolicyCode, ApprovalDecisionRef} ==> KindOf(f) == OPTIONAL_TEXT
    ensures f in {ExecutionSequence, AttemptNo} ==> KindOf(f) == POSITIVE
    ensures f == ApprovalPolicyVersion ==> KindOf(f) == OPTIONAL_INT
    ensures f in {IssuedAt, ExpiresAt, HealthEvidenceEvaluatedAt, HealthEvidenceValidUntil} ==> KindOf(f) == INSTANT
    ensures f == ApprovedAt ==> KindOf(f) == OPTIONAL_INSTANT
    ensures f == AuthorizedImages ==> KindOf(f) == IMAGES
    ensures f == RequiredComponentRoster ==> KindOf(f) == ROSTER
  {
  }

  /** A V2 authorization has this header and purpose, and exactly these fields. */
  lemma V2Record()
    ensures V2.schema == "dotmac.deployment-authorization" && V2.version == 2
    ensures V2.purpose == "deployment_authorization" && V2.schemaRefusal == UNSUPPORTED_VERSION
    ensures V2.fields == {
      Purpose, AuthorizationId, ExecutionSequence, RolloutRef, PlanId, TargetId, TargetRef, ProductCode, Environment,
      Operation, ReleaseRef, AuthorizedImages, PlanDigest, DescriptorDigest, ExecutionPlanDigest, ApprovalPolicyCode,
      ApprovalPolicyVersion, ApprovalDecisionRef, ApprovalDecisionStatus, ApprovedAt, IssuedAt, ExpiresAt,
      ControlVersion, KeyId, Algorithm, PublicKeyFingerprint}
  {
  }

  /** A V3 authorization has the same schema and purpose, those fields and five more. */
  lemma V3Record()
    ensures V3.schema == "dotmac.deployment-authorization" && V3.version == 3
    ensures V3.purpose == "deployment_authorization" && V3.schemaRefusal == SCHEMA_MISMATCH
    ensures V3.fields == V2.fields + {HealthEvidenceDigest, RequiredComponentRoster, HealthEvidenceEvaluatedAt,
                                      HealthEvidenceValidUntil, ControlPlanDigest}
  {
  }

  /** A dispatch has this header and purpose, and exactly these fields. */
  lemma DispatchRecord()
    ensures DISPATCH.schema == "dotmac.deployment-dispatch" && DISPATCH.version == 1
    ensures DISPATCH.purpose == "deployment_dispatch" && DISPATCH.schemaRefusal == UNSUPPORTED_VERSION
    ensures DISPATCH.fields == {
      Purpose, DispatchId, AttemptNo, AuthorizationId, AuthorizationPlanId, AuthorizationControlVersion,
      AuthorizationKeyId, AuthorizationPublicKeyFingerprint, AuthorizationEnvelopeDigest, ExecutionSequence,
      RolloutRef, TargetId, TargetRef, ProductCode, Environment, Operation, ReleaseRef, AuthorizedImages, PlanDigest,
      DescriptorDigest, ExecutionPlanDigest, IssuedAt, ControlVersion, KeyId, Algorithm, PublicKeyFingerprint}
  {
  }

  lemma ValueTypes(v: Value)
    ensures ValueKind(v) == TEXT <==> v.TextV?
    ensures ValueKind(v) == OPTIONAL_TEXT <==> v.OptTextV?
    ensures ValueKind(v) == POSITIVE <==> v.IntV?
    ensures ValueKind(v) == OPTIONAL_INT <==> v.OptIntV?
    ensures ValueKind(v) == INSTANT <==> v.InstantV?
    ensures ValueKind(v) == OPTIONAL_INSTANT <==> v.OptInstantV?
    ensures ValueKind(v) == IMAGES <==> v.ImagesV?
    ensures ValueKind(v) == ROSTER <==> v.RosterV?
  {
  }

  // ---------------------------------------------------------------- as_mapping

  lemma HeaderKeys()
    ensures Name(Schema) == "schema" && Name(Version) == "version"
  {
  }

  lemma TermUnder(iso: Iso, form: Form, s: Terms, f: Field)
    requires Proper(form) && Typed(form, s) && f in s
    ensures Under(Doc(Mapping(iso, form, s)), Name(f), Write(iso, s[f]))
  {
    var m := Mapping(iso, form, s);
    assert f in Body(iso, s) && f !in {Schema, Version};
    DocUnder(m, f);
  }

  /** The header, and how many entries there are. */
  lemma HeaderUnder(iso: Iso, form: Form, s: Terms)
    requires Proper(form) && Typed(form, s)
    ensures Under(Doc(Mapping(iso, form, s)), "schema", Str(T(form.schema)))
    ensures Under(Doc(Mapping(iso, form, s)), "version", Int(form.version))
  {
    var m := Mapping(iso, form, s);
    HeaderEntries(form);
    HeaderKept(Header(form), Body(iso, s));
    DocUnder(m, Schema);
    DocUnder(m, Version);
    HeaderKeys();
  }

  lemma HeaderKept(h: Row, b: Row)
    requires h.Keys == {Schema, Version} && Schema !in b && Version !in b
    ensures Schema in h + b && (h + b)[Schema] == h[Schema] && Version in h + b && (h + b)[Version] == h[Version]
    ensures |h + b| == |b| + 2
  {
    assert (h + b).Keys == b.Keys + {Schema, Version};
    assert |b.Keys + {Schema, Version}| == |b.Keys| + |{Schema, Version}|;
  }

  /** The entries are those two and one for each field. */
  lemma MappingSize(iso: Iso, form: Form, s: Terms)
    requires Proper(form) && Typed(form, s)
    ensures |Doc(Mapping(iso, form, s)).entries| == |form.fields| + 2
  {
    HeaderEntries(form);
    HeaderKept(Header(form), Body(iso, s));
    DocSize(Mapping(iso, form, s));
    assert Body(iso, s).Keys == form.fields;
  }

  /** How a value is written. */
  lemma WriteAnswer(iso: Iso, v: Value)
    ensures v.TextV? ==> Write(iso, v) == Str(v.text)
    ensures v.OptTextV? ==> Write(iso, v) == if v.optText == None then Null else Str(v.optText.value)
    ensures v.IntV? ==> Write(iso, v) == Int(v.n)
    ensures v.OptIntV? ==> Write(iso, v) == if v.optInt == None then Null else Int(v.optInt.value)
    ensures v.InstantV? ==> Write(iso, v) == Str(iso.write(v.at))
    ensures v.OptInstantV? ==> Write(iso, v) == if v.optAt == None then Null else Str(iso.write(v.optAt.value))
    ensures v.ImagesV? ==>
              Write(iso, v).Arr? && |Write(iso, v).items| == |v.images|
              && forall i :: 0 <= i < |v.images| ==> ImageWritten(Write(iso, v).items[i], v.images[i])
    ensures v.RosterV? ==>
              Write(iso, v).Arr? && |Write(iso, v).items| == |v.roster|
              && forall i :: 0 <= i < |v.roster| ==> Write(iso, v).items[i] == Str(v.roster[i])
  {
    if v.ImagesV? {
      forall i | 0 <= i < |v.images|
        ensures ImageWritten(Write(iso, v).items[i], v.images[i])
      {
        ImageUnder(v.images[i]);
      }
    }
  }

  // ---------------------------------------------------------------- reading

  /** What a caller gives under a key reads as this value. */
  ghost predicate Reads(iso: Iso, i: Input, v: Value) {
    match v
    case TextV(t) => i == Plainly(Str(t))
    case OptTextV(t) => i == Plainly(if t == None then Null else Str(t.value))
    case IntV(n) => i == Plainly(Int(n)) && n >= 1
    case OptIntV(n) => i == Plainly(if n == None then Null else Int(n.value))
    case InstantV(t) => i.Plainly? && i.json.Str? && iso.read(i.json.s) == Some(t)
    case OptInstantV(t) =>
      i.Plainly? && if t == None then i.json == Null else i.json.Str? && iso.read(i.json.s) == t
    case ImagesV(images) => exists xs :: Lists(i, xs) && ImageSet(xs) == Some(images)
    case RosterV(codes) =>
      && i.Plainly? && i.json.Arr? && |i.json.items| == |codes|
      && forall k :: 0 <= k < |codes| ==> codes[k] != [] && i.json.items[k] == Str(codes[k])
  }

  /** A list of image objects and mappings, or a list of mappings. */
  ghost predicate Lists(i: Input, xs: seq<Item>) {
    || i == Listing(xs)
    || (i.Plainly? && i.json.Arr? && |i.json.items| == |xs|
        && forall k :: 0 <= k < |xs| ==> xs[k] == Raw(i.json.items[k]))
  }

  lemma ListsExact(i: Input, xs: seq<Item>)
    ensures Lists(i, xs) <==> ItemsOf(i) == Some(xs)
  {
    if i.Plainly? && i.json.Arr? && Lists(i, xs) {
      assert xs == RawAll(i.json.items);
    }
  }

  /** A field is read as a value exactly when the input reads as it and it has the field's type. */
  lemma ReadAnswer(iso: Iso, f: Field, i: Input, v: Value)
    ensures Read(iso, f, i) == Success(v) <==> Reads(iso, i, v) && ValueKind(v) == KindOf(f)
  {
    match v
    case ImagesV(images) => ImagesRead(iso, f, i, images);
    case RosterV(codes) => RosterReads(iso, f, i, codes);
    case TextV(_) => TextReads(iso, f, i, v);
    case OptTextV(_) => TextReads(iso, f, i, v);
    case IntV(_) => CountReads(iso, f, i, v);
    case OptIntV(_) => CountReads(iso, f, i, v);
    case _ => InstantReads(iso, f, i, v);
  }

  lemma TextReads(iso: Iso, f: Field, i: Input, v: Value)
    requires v.TextV? || v.OptTextV?
    ensures Read(iso, f, i) == Success(v) <==> Reads(iso, i, v) && ValueKind(v) == KindOf(f)
  {
  }

  lemma CountReads(iso: Iso, f: Field, i: Input, v: Value)
    requires v.IntV? || v.OptIntV?
    ensures Read(iso, f, i) == Success(v) <==> Reads(iso, i, v) && ValueKind(v) == KindOf(f)
  {
  }

  lemma InstantReads(iso: Iso, f: Field, i: Input, v: Value)
    requires v.InstantV? || v.OptInstantV?
    ensures Read(iso, f, i) == Success(v) <==> Reads(iso, i, v) && ValueKind(v) == KindOf(f)
  {
  }

  lemma ImagesRead(iso: Iso, f: Field, i: Input, images: seq<Image>)
    ensures Read(iso, f, i) == Success(ImagesV(images)) <==> Reads(iso, i, ImagesV(images)) && KindOf(f) == IMAGES
  {
    if KindOf(f) == IMAGES {
      ListedImages(iso, i, images);
    }
  }

  lemma ListedImages(iso: Iso, i: Input, images: seq<Image>)
    ensures ReadImages(i) == Success(ImagesV(images)) <==> Reads(iso, i, ImagesV(images))
  {
    if ItemsOf(i).Some? {
      ListsExact(i, ItemsOf(i).value);
    }
    if xs :| Lists(i, xs) && ImageSet(xs) == Some(images) {
      ListsExact(i, xs);
    }
  }

  lemma RosterReads(iso: Iso, f: Field, i: Input, codes: seq<Text>)
    ensures Read(iso, f, i) == Success(RosterV(codes)) <==> Reads(iso, i, RosterV(codes)) && KindOf(f) == ROSTER
  {
    if i.Plainly? && KindOf(f) == ROSTER {
      RosterJson(iso, i.json, codes);
    }
  }

  lemma RosterJson(iso: Iso, j: Json, codes: seq<Text>)
    ensures ReadJson(iso, ROSTER, j) == Some(RosterV(codes)) <==> Reads(iso, Plainly(j), RosterV(codes))
  {
    if j.Arr? {
      RosterRead(j.items, codes);
    }
  }

  lemma RosterRead(items: seq<Json>, codes: seq<Text>)
    ensures RosterItems(items) && RosterOf(items) == codes <==>
            |items| == |codes| && forall k :: 0 <= k < |codes| ==> codes[k] != [] && items[k] == Str(codes[k])
  {
    if RosterItems(items) && RosterOf(items) == codes {
      forall k | 0 <= k < |codes|
        ensures codes[k] != [] && items[k] == Str(codes[k])
      {
        assert items[k] in items;
      }
    }
    if |items| == |codes| && forall k :: 0 <= k < |codes| ==> codes[k] != [] && items[k] == Str(codes[k]) {
      assert RosterItems(items);
      assert RosterOf(items) == codes;
    }
  }

  /** The refusal that a field which cannot be read earns. */
  lemma ReadRefusal(iso: Iso, f: Field, i: Input)
    requires Read(iso, f, i).Failure?
    ensures Read(iso, f, i) == Failure(if KindOf(f) == IMAGES && exists xs :: Lists(i, xs) then IMAGES_REFUSED
                                       else MALFORMED)
  {
    if ItemsOf(i).Some? {
      ListsExact(i, ItemsOf(i).value);
    }
    if xs :| Lists(i, xs) {
      ListsExact(i, xs);
    }
  }

  // ---------------------------------------------------------------- what a statement checks of itself

  /** At most 512 code points, no blank at either end, not empty. */
  ghost predicate Bounded(t: Text) { Stripped(t) && |t| <= 512 }

  /** "sha256:" and sixty-four lower-case hexadecimal digits. */
  ghost predicate DigestForm(t: Text) {
    && |t| == 71 && t[..7] == T("sha256:")
    && forall k :: 7 <= k < 71 ==> 0x30 <= t[k] <= 0x39 || 0x61 <= t[k] <= 0x66
  }

  lemma DigestFormExact(t: Text)
    ensures DigestOk(t) <==> DigestForm(t)
  {
    if |t| == 71 {
      assert forall k :: 7 <= k < 71 ==> t[7..][k - 7] == t[k] && t[7..][k - 7] in t[7..];
      if DigestForm(t) {
        forall c | c in t[7..]
          ensures IsLowerHex(c)
        {
          var k :| 0 <= k < |t[7..]| && t[7..][k] == c;
          assert t[k + 7] == c;
        }
      }
    }
  }

  lemma BoundedExact(t: Text)
    ensures BoundedText(t, MAX_TEXT) <==> Bounded(t)
  {
    StrippedExact(t);
  }

  /** The texts that are no digests and not the purpose. */
  ghost predicate PlainTextsBounded(s: Terms) {
    forall f :: f in s && s[f].TextV? && f !in DIGEST_FIELDS && f != Purpose ==> Bounded(s[f].text)
  }

  const DIGEST_FIELDS := {
    PlanDigest, DescriptorDigest, ExecutionPlanDigest, PublicKeyFingerprint, AuthorizationEnvelopeDigest,
    AuthorizationPublicKeyFingerprint, HealthEvidenceDigest, ControlPlanDigest}

  ghost predicate DigestsFormed(s: Terms, fields: set<Field>) {
    forall f :: f in fields && f in s && s[f].TextV? ==> DigestForm(s[f].text)
  }

  lemma TextsExact(s: Terms)
    ensures TextsBounded(s) <==> PlainTextsBounded(s)
    ensures DigestsOk(s, OUTER_DIGESTS) <==>
            DigestsFormed(s, {PlanDigest, DescriptorDigest, ExecutionPlanDigest, PublicKeyFingerprint,
                              AuthorizationEnvelopeDigest, AuthorizationPublicKeyFingerprint})
    ensures DigestsOk(s, EVIDENCE_DIGESTS) <==> DigestsFormed(s, {HealthEvidenceDigest, ControlPlanDigest})
  {
    forall f | f in s && s[f].TextV?
      ensures BoundedText(s[f].text, MAX_TEXT) <==> Bounded(s[f].text)
      ensures DigestOk(s[f].text) <==> DigestForm(s[f].text)
    {
      BoundedExact(s[f].text);
      DigestFormExact(s[f].text);
    }
    assert forall f :: IsDigest(f) <==> f in DIGEST_FIELDS;
  }

  /** Not empty, and every code after the one before it. */
  ghost predicate RosterAscends(codes: seq<Text>) {
    codes != [] && forall i, k :: 0 <= i < k < |codes| ==> Precedes(codes[i], codes[k])
  }

  lemma RosterAscendsExact(codes: seq<Text>)
    ensures RosterOk(codes) <==> RosterAscends(codes)
  {
    RosterExact(codes);
    forall i, k | 0 <= i < k < |codes|
      ensures LessKey(RosterKey(codes[i]), RosterKey(codes[k])) <==> Precedes(codes[i], codes[k])
    {
      LessExact(codes[i], codes[k]);
    }
  }

  ghost predicate SamePairTwice(s: seq<Image>) {
    exists i, k :: 0 <= i < k < |s| && s[i].service == s[k].service && s[i].repository == s[k].repository
  }

  lemma ImagesFaultAnswer(s: seq<Image>)
    ensures ImagesFault(s) == if SamePairTwice(s) then Some(IMAGES_REFUSED)
                              else if !Ascend(s) then Some(MALFORMED)
                              else None
  {
    ReadyListed(s);
    CanonicalExact(s);
    AscendExact(s);
  }

  lemma ReadyListed(s: seq<Image>)
    ensures ImageSet(ReadyAll(s)) == None <==> SamePairTwice(s)
  {
    ListableExact(ReadyAll(s));
    assert forall k :: 0 <= k < |s| ==> ImageOf(ReadyAll(s)[k]) == Some(s[k]);
    if SamePairTwice(s) {
      var i, k :| 0 <= i < k < |s| && s[i].service == s[k].service && s[i].repository == s[k].repository;
      assert ImageOf(ReadyAll(s)[i]) == Some(s[i]) && ImageOf(ReadyAll(s)[k]) == Some(s[k]);
    }
  }

  /** Which fault the texts of a record have, in the order they are checked. */
  lemma TextFaultAnswer(form: Form, s: Terms)
    requires Purpose in s && s[Purpose].TextV?
    ensures TextFault(form, s)
            == if !PlainTextsBounded(s) then Some(MALFORMED)
               else if s[Purpose].text != T(form.purpose) then Some(PURPOSE_MISMATCH)
               else if !DigestsFormed(s, {PlanDigest, DescriptorDigest, ExecutionPlanDigest, PublicKeyFingerprint,
                                          AuthorizationEnvelopeDigest, AuthorizationPublicKeyFingerprint})
               then Some(DIGEST_ENCODING)
               else if !DigestsFormed(s, {HealthEvidenceDigest, ControlPlanDigest}) then Some(MALFORMED)
               else None
  {
    TextsExact(s);
  }

  ghost predicate CountFails(s: Terms) { exists f :: f in s && s[f].IntV? && s[f].n < 1 }

  /** Which other fault it has, in the order they are checked: roster, count, images, then the times. */
  lemma OtherFaultAnswer(s: Terms, issued: Instant, expires: Instant, until: Instant, images: seq<Image>)
    requires AuthorizedImages in s && s[AuthorizedImages] == ImagesV(images)
    requires IssuedAt in s && s[IssuedAt] == InstantV(issued)
    requires ExpiresAt in s ==> s[ExpiresAt] == InstantV(expires)
    requires HealthEvidenceValidUntil in s ==> ExpiresAt in s && s[HealthEvidenceValidUntil] == InstantV(until)
    requires RequiredComponentRoster in s ==> s[RequiredComponentRoster].RosterV?
    ensures OtherFault(s)
            == if RequiredComponentRoster in s && !RosterAscends(s[RequiredComponentRoster].roster)
               then Some(MALFORMED)
               else if CountFails(s) then Some(MALFORMED)
               else if SamePairTwice(images) then Some(IMAGES_REFUSED)
               else if !Ascend(images) then Some(MALFORMED)
               else if ExpiresAt in s && expires <= issued then Some(MALFORMED)
               else if HealthEvidenceValidUntil in s && until < expires then Some(EVIDENCE_WINDOW_EXCEEDED)
               else None
  {
    ImagesFaultAnswer(images);
    if RequiredComponentRoster in s {
      RosterAscendsExact(s[RequiredComponentRoster].roster);
    }
  }

  /** The text faults come before all others. */
  lemma FaultAnswer(form: Form, s: Terms)
    ensures Fault(form, s) == if TextFault(form, s) != None then TextFault(form, s) else OtherFault(s)
  {
  }

  // ---------------------------------------------------------------- parsing

  /** A mapping is read as a statement exactly when it has the header, the record's keys and no others, every field
      reads as the statement's value, and the statement has no fault. */
  lemma ParseAnswer(iso: Iso, form: Form, row: Inputs, s: Terms)
    requires Proper(form)
    ensures Parse(iso, form, row) == Success(s) <==>
            && row.Keys == s.Keys + {Schema, Version} && Typed(form, s)
            && row[Schema] == Plainly(Str(T(form.schema))) && row[Version] == Plainly(Int(form.version))
            && (forall f :: f in s ==> Reads(iso, row[f], s[f])) && Fault(form, s) == None
  {
    forall f, v | f in row
      ensures Read(iso, f, row[f]) == Success(v) <==> Reads(iso, row[f], v) && ValueKind(v) == KindOf(f)
    {
      ReadAnswer(iso, f, row[f], v);
    }
    if Parse(iso, form, row) == Success(s) {
      forall f | f in s
        ensures Read(iso, f, row[f]) == Success(s[f])
      {
        ParsedTerm(iso, form, row, f);
      }
    }
    if row.Keys == s.Keys + {Schema, Version} && Typed(form, s)
       && row[Schema] == Plainly(Str(T(form.schema))) && row[Version] == Plainly(Int(form.version))
       && (forall f :: f in s ==> Reads(iso, row[f], s[f])) && Fault(form, s) == None {
      ParseReads(iso, form, row, s);
    }
  }

  /** The refusal a mapping that is no statement earns, in the order the checks run. */
  lemma ParseRefusal(iso: Iso, form: Form, row: Inputs)
    requires Proper(form) && Parse(iso, form, row).Failure?
    ensures Parse(iso, form, row)
            == if row.Keys != form.fields + {Schema, Version} then Failure(MALFORMED)
               else if row[Schema] != Plainly(Str(T(form.schema))) then Failure(form.schemaRefusal)
               else if row[Version] != Plainly(Int(form.version)) then Failure(UNSUPPORTED_VERSION)
               else if forall images :: !Reads(iso, row[AuthorizedImages], ImagesV(images))
               then Failure(if exists xs :: Lists(row[AuthorizedImages], xs) then IMAGES_REFUSED else MALFORMED)
               else if exists f :: f in form.fields && Read(iso, f, row[f]).Failure? then Failure(MALFORMED)
               else Failure(Fault(form, Values(iso, form.fields, row)).value)
  {
    FieldTypes(AuthorizedImages);
    if row.Keys == form.fields + {Schema, Version} {
      var i := row[AuthorizedImages];
      if ReadImages(i).Success? {
        ReadAnswer(iso, AuthorizedImages, i, ReadImages(i).value);
      } else {
        forall images
          ensures !Reads(iso, i, ImagesV(images))
        {
          ReadAnswer(iso, AuthorizedImages, i, ImagesV(images));
        }
        ReadRefusal(iso, AuthorizedImages, i);
      }
    }
  }
}
