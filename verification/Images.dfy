/** The set of images a plan authorizes: read, checked for repetition, and put into one canonical order. */
module Images {
  import opened Prelude
  import opened Texts
  import opened CanonicalJson
  import opened CanonicalDocuments
  import opened KeyEncoding
  import opened FieldNames
  import opened Fields

  const MAX_NAME_LENGTH := 200

  datatype Image = Image(service: Text, repository: Text, digest: Sha)

  /** What a caller may list: an image already built, or a mapping to be read. */
  datatype Item = Ready(image: Image) | Raw(value: Json)

  datatype ImageRefusal = IMAGE_SET_REFUSED

  predicate NameOk(t: Text) { ExactText(t) && |t| <= MAX_NAME_LENGTH }

  /** What reading guarantees about an image, and building one directly does not. */
  predicate NamesOk(i: Image) { NameOk(i.service) && NameOk(i.repository) }

  // ---------------------------------------------------------------- one image

  function ImageRow(i: Image): Row {
    map[Service := Str(i.service), Repository := Str(i.repository), Digest := Str(DigestText(i.digest))]
  }

  function ImageDoc(i: Image): Json { Doc(ImageRow(i)) }

  function ReadImage(row: Row): Option<Image> {
    if row.Keys != {Service, Repository, Digest} then None
    else
      match (row[Service], row[Repository], row[Digest])
      case (Str(s), Str(r), Str(d)) =>
        if NameOk(s) && NameOk(r) && ParseDigest(d, false).Some?
        then Some(Image(s, r, ParseDigest(d, false).value))
        else None
      case _ => None
  }

  /** AuthorizedImage.parse. */
  function ImageOf(x: Item): Option<Image> {
    match x
    case Ready(i) => Some(i)
    case Raw(j) => match RowOf(j) case None => None case Some(row) => ReadImage(row)
  }

  /** A written image reads back as itself exactly when its names are well formed. */
  lemma ImageRoundTrip(i: Image)
    ensures ImageOf(Raw(ImageDoc(i))) == if NamesOk(i) then Some(i) else None
  {
    ReadDoc(ImageRow(i));
    DigestSpellings(DigestText(i.digest), i.digest);
    assert ImageRow(i).Keys == {Service, Repository, Digest};
  }

  lemma ReadNamesOk(x: Item)
    ensures x.Raw? && ImageOf(x).Some? ==> NamesOk(ImageOf(x).value)
  {
  }

  // ---------------------------------------------------------------- the set

  function Pair(i: Image): seq<Text> { [i.service, i.repository] }

  function ImageKey(i: Image): seq<Text> { [i.service, i.repository, DigestText(i.digest)] }

  predicate AllParse(xs: seq<Item>) { forall x | x in xs :: ImageOf(x).Some? }

  function Parsed(xs: seq<Item>): (r: seq<Image>)
    requires AllParse(xs)
    ensures |r| == |xs| && forall i :: 0 <= i < |xs| ==> Some(r[i]) == ImageOf(xs[i])
  {
    seq(|xs|, i requires 0 <= i < |xs| => assert xs[i] in xs; ImageOf(xs[i]).value)
  }

  /** authorized_image_set over a listing: refused on an unreadable image or a repeated service and repository. */
  function ImageSet(xs: seq<Item>): Option<seq<Image>> {
    if AllParse(xs) && DistinctKeys(Pair, Parsed(xs)) then Some(Sort(ImageKey, Parsed(xs))) else None
  }

  function Answer(values: Option<seq<Item>>): Result<Option<seq<Image>>, ImageRefusal> {
    match values
    case None => Success(None)
    case Some(xs) =>
      match ImageSet(xs)
      case None => Failure(IMAGE_SET_REFUSED)
      case Some(images) => Success(Some(images))
  }

  /** Every listed image, or none when one of them cannot be read. */
  method ParseAll(xs: seq<Item>) returns (r: Option<seq<Image>>)
    ensures r == if AllParse(xs) then Some(Parsed(xs)) else None
  {
    var parsed: seq<Image> := [];
    for n := 0 to |xs|
      invariant AllParse(xs[..n]) && parsed == Parsed(xs[..n])
    {
      var image := ImageOf(xs[n]);
      if image.None? {
        assert xs[n] in xs;
        return None;
      }
      assert xs[..n + 1] == xs[..n] + [xs[n]];
      parsed := parsed + [image.value];
    }
    assert xs[..|xs|] == xs;
    r := Some(parsed);
  }

  method AuthorizedImageSet(values: Option<seq<Item>>) returns (r: Result<Option<seq<Image>>, ImageRefusal>)
    ensures r == Answer(values)
  {
    if values.None? {
      return Success(None);
    }
    var images := ParseAll(values.value);
    if images.None? {
      return Failure(IMAGE_SET_REFUSED);
    }
    var parsed := images.value;
    var seen: map<seq<Text>, Image> := map[];
    for n := 0 to |parsed|
      invariant forall i, k :: 0 <= i < k < n ==> Pair(parsed[i]) != Pair(parsed[k])
      invariant forall p :: p in seen <==> exists i :: 0 <= i < n && Pair(parsed[i]) == p
    {
      if Pair(parsed[n]) in seen {
        return Failure(IMAGE_SET_REFUSED);
      }
      seen := seen[Pair(parsed[n]) := parsed[n]];
    }
    r := Success(Some(Sort(ImageKey, parsed)));
  }

  /** The canonical form: strictly sorted, one entry for each service and repository. */
  predicate CanonicalImages(s: seq<Image>) { Increasing(ImageKey, s) && DistinctKeys(Pair, s) }

  lemma PairsGiveKeys(s: seq<Image>)
    requires DistinctKeys(Pair, s)
    ensures DistinctKeys(ImageKey, s)
  {
    forall i, k | 0 <= i < k < |s|
      ensures ImageKey(s[i]) != ImageKey(s[k])
    {
      assert Pair(s[i]) == ImageKey(s[i])[..2] && Pair(s[k]) == ImageKey(s[k])[..2];
    }
  }

  /** Every accepted listing comes out canonical, holding exactly the images listed. */
  lemma SetExact(xs: seq<Item>)
    requires ImageSet(xs).Some?
    ensures CanonicalImages(ImageSet(xs).value)
    ensures forall i :: i in ImageSet(xs).value <==> i in Parsed(xs)
  {
    var parsed, s := Parsed(xs), ImageSet(xs).value;
    PairsGiveKeys(parsed);
    SortCorrect(ImageKey, parsed);
    forall i, k | 0 <= i < k < |s|
      ensures Pair(s[i]) != Pair(s[k])
    {
      LessKeyOrder(ImageKey(s[i]), [], []);
      assert s[i] in parsed && s[k] in parsed;
      var a :| 0 <= a < |parsed| && parsed[a] == s[i];
      var b :| 0 <= b < |parsed| && parsed[b] == s[k];
    }
  }

  function ReadyAll(s: seq<Image>): seq<Item> { seq(|s|, i requires 0 <= i < |s| => Ready(s[i])) }

  /** The check every statement makes of its images: a set passes unchanged exactly when it is canonical. */
  lemma CanonicalExact(s: seq<Image>)
    ensures ImageSet(ReadyAll(s)) == Some(s) <==> CanonicalImages(s)
  {
    var xs := ReadyAll(s);
    assert AllParse(xs) && Parsed(xs) == s;
    if ImageSet(xs) == Some(s) {
      SetExact(xs);
    }
    if CanonicalImages(s) {
      SortFixedPoint(ImageKey, s);
    }
  }

  /** Reading an accepted set again changes nothing. */
  lemma SetFixedPoint(xs: seq<Item>)
    requires ImageSet(xs).Some?
    ensures ImageSet(ReadyAll(ImageSet(xs).value)) == ImageSet(xs)
  {
    SetExact(xs);
    CanonicalExact(ImageSet(xs).value);
  }

  /** Two accepted listings give equal results exactly when they list the same images. */
  lemma EqualIffSameImages(xs: seq<Item>, ys: seq<Item>)
    requires ImageSet(xs).Some? && ImageSet(ys).Some?
    ensures ImageSet(xs) == ImageSet(ys) <==> forall i :: i in Parsed(xs) <==> i in Parsed(ys)
  {
    SetExact(xs);
    SetExact(ys);
    if forall i :: i in Parsed(xs) <==> i in Parsed(ys) {
      IncreasingUnique(ImageKey, ImageSet(xs).value, ImageSet(ys).value);
    }
  }

  lemma {:induction false} Twice<A>(xs: seq<A>, x: A)
    ensures multiset(xs)[x] >= 1 <==> x in xs
    ensures multiset(xs)[x] >= 2 <==> exists i, k :: 0 <= i < k < |xs| && xs[i] == xs[k] == x
  {
    if xs == [] {
    } else {
      var n := |xs| - 1;
      Twice(xs[..n], x);
      assert xs == xs[..n] + [xs[n]];
      if xs[n] == x && x in xs[..n] {
        var i :| 0 <= i < n && xs[..n][i] == x;
        assert xs[i] == xs[n] == x;
      }
      if exists i, k :: 0 <= i < k < n && xs[i] == xs[k] == x {
        var i, k :| 0 <= i < k < n && xs[i] == xs[k] == x;
        assert xs[..n][i] == xs[..n][k] == x;
      }
    }
  }

  lemma RepeatedPair(xs: seq<Item>, x: Item)
    requires AllParse(xs) && multiset(xs)[x] >= 2
    ensures !DistinctKeys(Pair, Parsed(xs))
  {
    Twice(xs, x);
    var a, b :| 0 <= a < b < |xs| && xs[a] == xs[b] == x;
    assert Pair(Parsed(xs)[a]) == Pair(Parsed(xs)[b]);
  }

  lemma PermutedDistinct(xs: seq<Item>, ys: seq<Item>)
    requires multiset(xs) == multiset(ys) && AllParse(xs) && AllParse(ys)
    requires DistinctKeys(Pair, Parsed(xs))
    ensures DistinctKeys(Pair, Parsed(ys))
  {
    forall i, k | 0 <= i < k < |ys|
      ensures Pair(Parsed(ys)[i]) != Pair(Parsed(ys)[k])
    {
      Twice(ys, ys[i]);
      if multiset(xs)[ys[i]] >= 2 {
        RepeatedPair(xs, ys[i]);
      }
      assert ys[i] in multiset(ys) && ys[k] in multiset(ys);
      var a :| 0 <= a < |xs| && xs[a] == ys[i];
      var b :| 0 <= b < |xs| && xs[b] == ys[k];
      assert Parsed(xs)[a] == Parsed(ys)[i] && Parsed(xs)[b] == Parsed(ys)[k];
    }
  }

  /** The order of the listing does not matter: both orders are refused, or both give the same set. */
  lemma OrderIrrelevant(xs: seq<Item>, ys: seq<Item>)
    requires multiset(xs) == multiset(ys)
    ensures ImageSet(xs) == ImageSet(ys)
  {
    forall x
      ensures x in xs <==> x in ys
    {
      assert x in multiset(xs) <==> x in multiset(ys);
    }
    if AllParse(xs) {
      if DistinctKeys(Pair, Parsed(xs)) {
        PermutedDistinct(xs, ys);
      }
      if DistinctKeys(Pair, Parsed(ys)) {
        PermutedDistinct(ys, xs);
      }
      if ImageSet(xs).Some? {
        SameMembers(xs, ys);
        SameMembers(ys, xs);
        EqualIffSameImages(xs, ys);
      }
    }
  }

  lemma SameMembers(xs: seq<Item>, ys: seq<Item>)
    requires AllParse(xs) && AllParse(ys) && forall x :: x in xs ==> x in ys
    ensures forall i :: i in Parsed(xs) ==> i in Parsed(ys)
  {
    forall i | i in Parsed(xs)
      ensures i in Parsed(ys)
    {
      var a :| 0 <= a < |xs| && Parsed(xs)[a] == i;
      assert xs[a] in xs;
      var b :| 0 <= b < |ys| && ys[b] == xs[a];
      assert Parsed(ys)[b] == i;
    }
  }

  // ---------------------------------------------------------------- the stored payload

  function ImageDocs(s: seq<Image>): seq<Json> { seq(|s|, i requires 0 <= i < |s| => ImageDoc(s[i])) }

  /** image_set_payload: nothing declared is null, an empty set is an empty list. */
  function Payload(s: Option<seq<Image>>): Json {
    match s
    case None => Null
    case Some(images) => Arr(ImageDocs(images))
  }

  function RawAll(items: seq<Json>): seq<Item> { seq(|items|, i requires 0 <= i < |items| => Raw(items[i])) }

  /** image_set_from_payload. */
  function FromPayload(j: Json): Result<Option<seq<Image>>, ImageRefusal> {
    match j
    case Null => Success(None)
    case Arr(items) => Answer(Some(RawAll(items)))
    case _ => Failure(IMAGE_SET_REFUSED)
  }

  ghost predicate Storable(s: Option<seq<Image>>) {
    s.Some? ==> CanonicalImages(s.value) && forall i :: i in s.value ==> NamesOk(i)
  }

  lemma ParsedDocs(s: seq<Image>)
    ensures AllParse(RawAll(ImageDocs(s))) <==> forall i :: i in s ==> NamesOk(i)
    ensures AllParse(RawAll(ImageDocs(s))) ==> Parsed(RawAll(ImageDocs(s))) == s
  {
    var xs := RawAll(ImageDocs(s));
    forall k | 0 <= k < |s|
      ensures ImageOf(xs[k]) == if NamesOk(s[k]) then Some(s[k]) else None
    {
      ImageRoundTrip(s[k]);
    }
    forall i | i in s && AllParse(xs)
      ensures NamesOk(i)
    {
      var k :| 0 <= k < |s| && s[k] == i;
      assert xs[k] in xs;
    }
  }

  /** Writing and reading back is the identity exactly on canonical sets of well-named images and on no set. */
  lemma PayloadRoundTrip(s: Option<seq<Image>>)
    ensures FromPayload(Payload(s)) == Success(s) <==> Storable(s)
  {
    if s.Some? {
      DocsRoundTrip(s.value);
    }
  }

  lemma DocsRoundTrip(s: seq<Image>)
    ensures ImageSet(RawAll(ImageDocs(s))) == Some(s) <==> CanonicalImages(s) && forall i :: i in s ==> NamesOk(i)
  {
    ParsedDocs(s);
    CanonicalExact(s);
    ParsedReady(s);
  }

  lemma ParsedReady(s: seq<Image>)
    ensures AllParse(ReadyAll(s)) && Parsed(ReadyAll(s)) == s
  {
  }

  /** Whatever was read from a payload is written and read back unchanged. */
  lemma ReadIsStorable(j: Json)
    requires FromPayload(j).Success?
    ensures FromPayload(Payload(FromPayload(j).value)) == FromPayload(j)
  {
    if j.Arr? {
      var xs, s := RawAll(j.items), FromPayload(j).value.value;
      SetExact(xs);
      forall i | i in s
        ensures NamesOk(i)
      {
        var k :| 0 <= k < |xs| && Parsed(xs)[k] == i;
        ReadNamesOk(xs[k]);
      }
    }
    PayloadRoundTrip(FromPayload(j).value);
  }

  /** Stored payloads tell sets apart, and nothing declared from the empty set. */
  lemma PayloadIdentifies(a: Option<seq<Image>>, b: Option<seq<Image>>)
    ensures SameValue(Payload(a), Payload(b)) <==> a == b
  {
    if a.Some? && b.Some? {
      SameImageDocs(a.value, b.value);
    }
  }

  lemma SameImageDocs(xs: seq<Image>, ys: seq<Image>)
    ensures SameValue(Arr(ImageDocs(xs)), Arr(ImageDocs(ys))) <==> xs == ys
  {
    ListSame(ImageDocs(xs), ImageDocs(ys));
    forall i | 0 <= i < |xs| && i < |ys|
      ensures SameValue(ImageDocs(xs)[i], ImageDocs(ys)[i]) <==> xs[i] == ys[i]
    {
      SameImageDoc(xs[i], ys[i]);
    }
  }

  lemma SameImageDoc(a: Image, b: Image)
    ensures SameValue(ImageDoc(a), ImageDoc(b)) <==> a == b
  {
    DocSame(ImageRow(a), ImageRow(b));
    if SameRow(ImageRow(a), ImageRow(b)) {
      assert SameValue(ImageRow(a)[Service], ImageRow(b)[Service]);
      assert SameValue(ImageRow(a)[Repository], ImageRow(b)[Repository]);
      assert SameValue(ImageRow(a)[Digest], ImageRow(b)[Digest]);
      DigestTextInjective(a.digest, b.digest);
    }
  }

  ghost predicate PlainImage(i: Image) { NoAdjacentSurrogates(i.service) && NoAdjacentSurrogates(i.repository) }

  lemma ImageRowPlain(i: Image)
    ensures PlainRow(ImageRow(i)) <==> PlainImage(i)
  {
    PlainText(i.service);
    PlainText(i.repository);
    DigestTextAscii(i.digest);
    PlainText(DigestText(i.digest));
    var row := ImageRow(i);
    assert row[Service] == Str(i.service) && row[Repository] == Str(i.repository);
  }

  lemma ImagePlainExact(i: Image)
    ensures Plain(ImageDoc(i)) <==> PlainImage(i)
  {
    ImageRowPlain(i);
    DocPlainExact(ImageRow(i));
  }

  lemma ImageDocsPlain(s: seq<Image>)
    ensures (forall x :: x in ImageDocs(s) ==> Plain(x)) <==> forall i :: i in s ==> PlainImage(i)
  {
    forall k | 0 <= k < |s|
      ensures Plain(ImageDocs(s)[k]) <==> PlainImage(s[k])
    {
      ImagePlainExact(s[k]);
    }
    forall i | i in s
      ensures ImageDoc(i) in ImageDocs(s)
    {
      var k :| 0 <= k < |s| && s[k] == i;
      assert ImageDocs(s)[k] == ImageDoc(i);
    }
  }

  /** A set is written plainly exactly when the names of its images are plain. */
  lemma PayloadPlainExact(s: seq<Image>)
    ensures Plain(Payload(Some(s))) <==> forall i :: i in s ==> PlainImage(i)
  {
    ImageDocsPlain(s);
    PlainItems(ImageDocs(s));
  }
}
