/**
 Documents and images by their keys and values: what an object has under which key, when a mapping reads as an image,
 and exactly which listing gives which set of images, in which order.
 */
module ImageRows {
  import opened Prelude
  import opened Texts
  import opened CanonicalJson
  import opened CanonicalDocuments
  import opened KeyEncoding
  import opened FieldNames
  import opened Fields
  import opened Images

  // ---------------------------------------------------------------- entries of a document

  /** The object has this value under this key. */
  ghost predicate Under(j: Json, name: string, v: Json) { j.Obj? && Entry(T(name), v) in j.entries }

  lemma DocUnder(m: Row, f: Field)
    requires f in m
    ensures Under(Doc(m), Name(f), m[f])
  {
    var i := PositionOf(m, f);
  }

  /** A document has one entry for each field of its row, under different keys. */
  lemma DocSize(m: Row)
    ensures |Doc(m).entries| == |m|
    ensures forall i, k :: 0 <= i < k < |Doc(m).entries| ==> Doc(m).entries[i].key != Doc(m).entries[k].key
  {
    EntriesExact(m);
    ListedSize(m.Keys);
  }

  lemma {:induction false} ListedSize(s: set<Field>)
    ensures |Listed(s)| == |s|
  {
    if s == {} {
    } else {
      ListedSize(s - {FirstOf(s)});
    }
  }

  ghost predicate NoKeyTwice(es: seq<Entry>) { forall i, k :: 0 <= i < k < |es| ==> es[i].key != es[k].key }

  lemma OtherKeys(es: seq<Entry>)
    requires es != [] && NoKeyTwice(es)
    ensures forall e :: e in es[1..] ==> e.key != es[0].key
    ensures NoKeyTwice(es[1..])
  {
    forall e | e in es[1..]
      ensures e.key != es[0].key
    {
      var k :| 0 <= k < |es[1..]| && es[1..][k] == e;
      assert es[k + 1] == e;
    }
  }

  ghost predicate HasEntries(es: seq<Entry>, m: Row) { forall f :: f in m ==> Entry(Key(f), m[f]) in es }

  /** A list of entries without a repeated key reads as the mapping that has exactly those entries. */
  lemma ReadEntriesExact(es: seq<Entry>, m: Row)
    requires NoKeyTwice(es)
    ensures ReadEntries(es) == Some(m) <==> |es| == |m| && HasEntries(es, m)
  {
    if ReadEntries(es) == Some(m) {
      ReadHas(es, m);
    }
    if |es| == |m| && HasEntries(es, m) {
      HasReads(es, m);
    }
  }

  lemma {:induction false} ReadHas(es: seq<Entry>, m: Row)
    requires NoKeyTwice(es) && ReadEntries(es) == Some(m)
    ensures |es| == |m| && HasEntries(es, m)
    decreases |es|
  {
    if es == [] {
    } else {
      OtherKeys(es);
      var f, before := FieldNamed(es[0].key).value, ReadEntries(es[1..]).value;
      ReadHas(es[1..], before);
      assert es == [es[0]] + es[1..];
      assert f !in before;
      AddedSize(before, f, es[0].value);
      forall g | g in m
        ensures Entry(Key(g), m[g]) in es
      {
        assert g != f ==> m[g] == before[g];
      }
    }
  }

  lemma AddedSize(m: Row, f: Field, v: Json)
    requires f !in m
    ensures |m[f := v]| == |m| + 1
  {
    assert m[f := v].Keys == m.Keys + {f};
  }

  lemma {:induction false} HasReads(es: seq<Entry>, m: Row)
    requires NoKeyTwice(es) && |es| == |m| && HasEntries(es, m)
    ensures ReadEntries(es) == Some(m)
    decreases |es|
  {
    if es == [] {
      assert m == map[];
    } else {
      HeadRead(es, m);
      OtherKeys(es);
      var f := FieldNamed(es[0].key).value;
      Restored(m, f);
      HasReads(es[1..], m - {f});
      ReadFirst(es, f);
    }
  }

  lemma Restored(m: Row, f: Field)
    requires f in m
    ensures |m - {f}| == |m| - 1 && (m - {f})[f := m[f]] == m
  {
    AddedSize(m - {f}, f, m[f]);
    assert (m - {f})[f := m[f]] == m;
  }

  /** Where there are as many entries as fields and each field has its own, every entry is a field's. */
  lemma HeadRead(es: seq<Entry>, m: Row)
    requires es != [] && NoKeyTwice(es) && |es| == |m| && HasEntries(es, m)
    ensures FieldNamed(es[0].key).Some?
    ensures var f := FieldNamed(es[0].key).value;
            && f in m && es[0] == Entry(Key(f), m[f])
            && HasEntries(es[1..], m - {f})
  {
    var found := set f | f in m :: Entry(Key(f), m[f]);
    var all := set e | e in es;
    FoundSize(m);
    AllSize(es);
    SubsetCardinality(found, all);
    assert es[0] in all;
    var f :| f in m && Entry(Key(f), m[f]) == es[0];
    KeyDecodes(f);
    forall g | g in m - {f}
      ensures Entry(Key(g), m[g]) in es[1..]
    {
      KeysDiffer(f, g);
      var k :| 0 <= k < |es| && es[k] == Entry(Key(g), m[g]);
      assert es[1..][k - 1] == es[k];
    }
  }

  lemma {:induction false} FoundSize(m: Row)
    ensures |set f | f in m :: Entry(Key(f), m[f])| == |m|
    decreases |m|
  {
    var found := set f | f in m :: Entry(Key(f), m[f]);
    if m == map[] {
      assert found == {};
    } else {
      var f :| f in m;
      var less := m - {f};
      FoundSize(less);
      forall g | g in less
        ensures Entry(Key(g), m[g]) != Entry(Key(f), m[f])
      {
        KeysDiffer(f, g);
      }
      assert found == (set g | g in less :: Entry(Key(g), less[g])) + {Entry(Key(f), m[f])};
      assert less.Keys == m.Keys - {f};
    }
  }

  lemma {:induction false} AllSize(es: seq<Entry>)
    requires NoKeyTwice(es)
    ensures |set e | e in es| == |es|
    decreases |es|
  {
    var all := set e | e in es;
    if es == [] {
      assert all == {};
    } else {
      AllSize(es[1..]);
      OtherKeys(es);
      assert es == [es[0]] + es[1..];
      assert all == (set e | e in es[1..]) + {es[0]};
    }
  }

  // ---------------------------------------------------------------- one image

  /** An object of exactly three texts. */
  ghost predicate ImageWritten(j: Json, i: Image) {
    && Under(j, "service", Str(i.service)) && Under(j, "repository", Str(i.repository))
    && Under(j, "digest", Str(DigestText(i.digest))) && |j.entries| == 3
  }

  /** No blank at either end, and one to two hundred code points. */
  ghost predicate Named(t: Text) { Stripped(t) && |t| <= 200 }

  lemma ImageKeys()
    ensures Name(Service) == "service" && Name(Repository) == "repository" && Name(Digest) == "digest"
  {
  }

  lemma ImageUnder(i: Image)
    ensures ImageWritten(ImageDoc(i), i)
  {
    var m := ImageRow(i);
    ImageKeys();
    DocUnder(m, Service);
    DocUnder(m, Repository);
    DocUnder(m, Digest);
    DocSize(m);
    ThreeKeys(m);
  }

  lemma ThreeKeys(m: Row)
    requires m.Keys == {Service, Repository, Digest}
    ensures |m| == 3
  {
    assert |m| == |m.Keys|;
  }

  lemma ImageEntries(j: Json, i: Image)
    requires j.Obj?
    ensures ImageWritten(j, i) <==> |j.entries| == |ImageRow(i)| && HasEntries(j.entries, ImageRow(i))
  {
    ImageKeys();
    ThreeKeys(ImageRow(i));
    var m := ImageRow(i);
    assert m[Service] == Str(i.service) && m[Repository] == Str(i.repository) && m[Digest] == Str(DigestText(i.digest));
  }

  lemma ReadImageExact(row: Row, i: Image)
    ensures ReadImage(row) == Some(i) <==> row == ImageRow(i) && Named(i.service) && Named(i.repository)
  {
    StrippedExact(i.service);
    StrippedExact(i.repository);
    DigestSpellings(DigestText(i.digest), i.digest);
    if ReadImage(row) == Some(i) {
      DigestSpellings(row[Digest].s, i.digest);
      assert row == ImageRow(i);
    }
  }

  /** A mapping reads as an image exactly when it is the object of that image's three texts, its names well formed. */
  lemma ImageAnswer(j: Json, i: Image)
    requires j.Obj? ==> NoKeyTwice(j.entries)
    ensures ImageOf(Raw(j)) == Some(i) <==> j.Obj? && ImageWritten(j, i) && Named(i.service) && Named(i.repository)
  {
    if j.Obj? {
      ReadEntriesExact(j.entries, ImageRow(i));
      ImageEntries(j, i);
      if RowOf(j).Some? {
        ReadImageExact(RowOf(j).value, i);
      }
      ReadImageExact(ImageRow(i), i);
    }
  }

  // ---------------------------------------------------------------- the set

  /** By service, then by repository, and no two alike in both. */
  ghost predicate Ascend(r: seq<Image>) {
    forall i, k :: 0 <= i < k < |r| ==>
      || Precedes(r[i].service, r[k].service)
      || (r[i].service == r[k].service && Precedes(r[i].repository, r[k].repository))
  }

  lemma OrderedPair(a: Image, b: Image)
    ensures LessKey(ImageKey(a), ImageKey(b)) && Pair(a) != Pair(b) <==>
            Precedes(a.service, b.service) || (a.service == b.service && Precedes(a.repository, b.repository))
  {
    LessExact(a.service, b.service);
    LessExact(a.repository, b.repository);
    LessOrder(a.service, b.service, []);
    LessOrder(b.service, b.service, []);
    LessOrder(b.repository, b.repository, []);
    assert ImageKey(a)[1..] == [a.repository, DigestText(a.digest)];
    assert ImageKey(b)[1..] == [b.repository, DigestText(b.digest)];
    assert Pair(a) == Pair(b) <==> a.service == b.service && a.repository == b.repository by {
      assert Pair(a)[0] == a.service && Pair(a)[1] == a.repository;
      assert Pair(b)[0] == b.service && Pair(b)[1] == b.repository;
    }
  }

  lemma AscendExact(r: seq<Image>)
    ensures CanonicalImages(r) <==> Ascend(r)
  {
    forall i, k | 0 <= i < k < |r|
      ensures LessKey(ImageKey(r[i]), ImageKey(r[k])) && Pair(r[i]) != Pair(r[k]) <==>
              || Precedes(r[i].service, r[k].service)
              || (r[i].service == r[k].service && Precedes(r[i].repository, r[k].repository))
    {
      OrderedPair(r[i], r[k]);
    }
  }

  /** Every item reads as an image, and no two images share service and repository. */
  ghost predicate Listable(xs: seq<Item>) {
    && (forall x :: x in xs ==> ImageOf(x).Some?)
    && (forall i, k :: 0 <= i < k < |xs| && ImageOf(xs[i]).Some? && ImageOf(xs[k]).Some? ==>
          || ImageOf(xs[i]).value.service != ImageOf(xs[k]).value.service
          || ImageOf(xs[i]).value.repository != ImageOf(xs[k]).value.repository)
  }

  /** A listing gives this set exactly when it can be a set, this holds its images and this is in order. */
  lemma ImageSetAnswer(xs: seq<Item>, r: seq<Image>)
    ensures ImageSet(xs) == Some(r) <==>
            Listable(xs) && Ascend(r) && forall i :: i in r <==> exists x :: x in xs && ImageOf(x) == Some(i)
  {
    ListableExact(xs);
    AscendExact(r);
    if Listable(xs) {
      SetExact(xs);
      ParsedMembers(xs);
      if Ascend(r) && forall i :: i in r <==> exists x :: x in xs && ImageOf(x) == Some(i) {
        IncreasingUnique(ImageKey, r, ImageSet(xs).value);
      }
    }
  }

  /** And it gives none exactly when it cannot be a set. */
  lemma ListableExact(xs: seq<Item>)
    ensures ImageSet(xs).Some? <==> Listable(xs)
  {
    if AllParse(xs) {
      forall i, k | 0 <= i < k < |xs|
        ensures Pair(Parsed(xs)[i]) == Pair(Parsed(xs)[k]) <==>
                ImageOf(xs[i]).value.service == ImageOf(xs[k]).value.service
                && ImageOf(xs[i]).value.repository == ImageOf(xs[k]).value.repository
      {
        var a, b := Parsed(xs)[i], Parsed(xs)[k];
        assert xs[i] in xs && xs[k] in xs;
        assert Pair(a)[0] == a.service && Pair(a)[1] == a.repository;
        assert Pair(b)[0] == b.service && Pair(b)[1] == b.repository;
      }
    }
  }

  lemma ParsedMembers(xs: seq<Item>)
    requires AllParse(xs)
    ensures forall i :: i in Parsed(xs) <==> exists x :: x in xs && ImageOf(x) == Some(i)
  {
    forall i
      ensures i in Parsed(xs) <==> exists x :: x in xs && ImageOf(x) == Some(i)
    {
      if i in Parsed(xs) {
        var k :| 0 <= k < |xs| && Parsed(xs)[k] == i;
        assert xs[k] in xs && ImageOf(xs[k]) == Some(i);
      }
      if x :| x in xs && ImageOf(x) == Some(i) {
        var k :| 0 <= k < |xs| && xs[k] == x;
        assert Parsed(xs)[k] == i;
      }
    }
  }
}
