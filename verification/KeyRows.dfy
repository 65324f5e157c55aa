/**
 Keys and digests character by character: the two base64 alphabets, how three bytes become four characters, the padded
 form, and the sixty-four digits of a digest.
 */
module KeyRows {
  import opened Prelude
  import opened Texts
  import opened CanonicalJson
  import opened CanonicalForm
  import opened KeyEncoding

  // ---------------------------------------------------------------- alphabets

  /** The characters of the URL-safe alphabet, and of the standard one, which differ in the last two. */
  lemma Alphabets(v: Sextet)
    ensures v < 26 ==> UrlChar(v) == Ascii("ABCDEFGHIJKLMNOPQRSTUVWXYZ")[v]
    ensures 26 <= v < 52 ==> UrlChar(v) == Ascii("abcdefghijklmnopqrstuvwxyz")[v - 26]
    ensures 52 <= v < 62 ==> UrlChar(v) == Ascii("0123456789")[v - 52]
    ensures v == 62 ==> UrlChar(v) == '-' as int && StdChar(v) == '+' as int
    ensures v == 63 ==> UrlChar(v) == '_' as int && StdChar(v) == '/' as int
    ensures v < 62 ==> StdChar(v) == UrlChar(v)
  {
  }

  // ---------------------------------------------------------------- three bytes, four characters

  /** Four groups of six bits make up the twenty-four bits of three bytes. */
  lemma CutAnswer(x: Byte, y: Byte, z: Byte)
    ensures var g := Cut(x, y, z);
            g[0] as int * 0x4_0000 + g[1] as int * 0x1000 + g[2] as int * 0x40 + g[3] as int
            == x as int * 0x1_0000 + y as int * 0x100 + z as int
  {
  }

  /** The unpadded text, three bytes at a time; one byte gives two characters and two bytes give three. */
  lemma EncodeAnswer(raw: Bytes)
    ensures raw == [] ==> Encode(raw) == []
    ensures |raw| == 1 ==> Encode(raw) == UrlText(Cut(raw[0], 0, 0)[..2])
    ensures |raw| == 2 ==> Encode(raw) == UrlText(Cut(raw[0], raw[1], 0)[..3])
    ensures |raw| >= 3 ==> Encode(raw) == UrlText(Cut(raw[0], raw[1], raw[2])) + Encode(raw[3..])
  {
  }

  /** A key text has a fingerprint exactly when it is the text of some bytes; it is the digest text of their hash. */
  lemma FingerprintAnswer(sha: Bytes -> Sha, t: Text, fingerprint: Text)
    ensures KeyFingerprint(sha, t) == Some(fingerprint) <==>
            exists raw: Bytes :: raw != [] && Encode(raw) == t && fingerprint == DigestText(sha(raw))
  {
    AcceptedExact(t);
    forall raw: Bytes | raw != [] && Encode(raw) == t
      ensures AcceptedBytes(t) == Some(raw)
    {
      EncodedIsAccepted(raw);
    }
  }

  // ---------------------------------------------------------------- the padded form

  lemma {:induction false} FoundInStdText(s: seq<Sextet>)
    ensures FoundSextets(StdText(s)) == s
  {
    if s == [] {
    } else {
      FoundInStdText(s[1..]);
      assert StdText(s)[1..] == StdText(s[1..]);
    }
  }

  lemma {:induction false} FoundBeforePadding(t: Text, n: nat)
    ensures FoundSextets(t + Padding(n)) == FoundSextets(t)
  {
    if t == [] {
      assert t + Padding(n) == Padding(n);
      PaddingHoldsNothing(n);
    } else {
      FoundBeforePadding(t[1..], n);
      assert (t + Padding(n))[1..] == t[1..] + Padding(n);
    }
  }

  lemma {:induction false} PaddingHoldsNothing(n: nat)
    ensures FoundSextets(Padding(n)) == []
  {
    if n == 0 {
    } else {
      PaddingHoldsNothing(n - 1);
      assert Padding(n)[1..] == Padding(n - 1);
    }
  }

  /** The padded text decodes to the bytes. */
  lemma PaddedDecodes(raw: Bytes)
    ensures FromSextets(FoundSextets(PaddedText(raw)), PadsFor(|Sextets(raw)|)) == Some(raw)
  {
    SextetsDecode(raw);
    FoundInStdText(Sextets(raw));
    FoundBeforePadding(StdText(Sextets(raw)), PadsFor(|Sextets(raw)|));
  }

  /** It has a multiple of four characters. */
  lemma PaddedSize(raw: Bytes)
    ensures |PaddedText(raw)| == (|raw| + 2) / 3 * 4
  {
    SextetCount(raw);
    PaddedLength(|raw|);
  }

  /** No more than the last two are padding, and none is one of the two that only the URL-safe alphabet has. */
  lemma PaddedChars(raw: Bytes, i: nat)
    requires i < |PaddedText(raw)|
    ensures PaddedText(raw)[i] == '=' as int <==> i >= |Sextets(raw)|
    ensures PaddedText(raw)[i] == '=' as int ==> i >= |PaddedText(raw)| - 2
    ensures PaddedText(raw)[i] != '-' as int && PaddedText(raw)[i] != '_' as int
  {
    var s := Sextets(raw);
    SextetCount(raw);
    PaddedLength(|raw|);
    if i < |s| {
      assert PaddedText(raw)[i] == StdChar(s[i]);
      NeverPadding(s[i]);
    } else {
      assert PaddedText(raw)[i] == PAD;
    }
  }

  lemma NeverPadding(v: Sextet)
    ensures StdChar(v) != '=' as int && StdChar(v) != '-' as int && StdChar(v) != '_' as int
  {
  }

  lemma PaddedLength(n: nat)
    ensures var m := (n * 4 + 2) / 3;
            PadsFor(m) <= 2 && m + PadsFor(m) == (n + 2) / 3 * 4
  {
    var q, r := n / 3, n % 3;
    assert n == 3 * q + r;
    if r == 0 {
      assert (n * 4 + 2) / 3 == 4 * q;
    } else if r == 1 {
      assert (n * 4 + 2) / 3 == 4 * q + 2;
    } else {
      assert (n * 4 + 2) / 3 == 4 * q + 3;
    }
  }

  /** The conversion gives the padded text of the key's bytes exactly when the fingerprint is that of the key. */
  lemma FoundationAnswer(sha: Bytes -> Sha, t: Text, fingerprint: Text, k: Text)
    ensures FoundationKey(sha, t, fingerprint) == Some(k) <==>
            exists raw: Bytes :: raw != [] && Encode(raw) == t && fingerprint == DigestText(sha(raw))
                                 && k == PaddedText(raw)
  {
    AcceptedExact(t);
    forall raw: Bytes | raw != [] && Encode(raw) == t
      ensures AcceptedBytes(t) == Some(raw)
    {
      EncodedIsAccepted(raw);
    }
  }

  // ---------------------------------------------------------------- digests

  /** Two lower-case hexadecimal digits for each byte, high half first. */
  lemma {:induction false} HexAnswer(raw: Bytes, k: nat)
    requires k < |raw|
    ensures |HexText(raw)| == 2 * |raw|
    ensures HexText(raw)[2 * k] == Ascii("0123456789abcdef")[raw[k] / 16]
    ensures HexText(raw)[2 * k + 1] == Ascii("0123456789abcdef")[raw[k] % 16]
  {
    HexRoundTrip(raw);
    if k == 0 {
      HexSpelt(raw[0] / 16);
      HexSpelt(raw[0] % 16);
    } else {
      HexAnswer(raw[1..], k - 1);
      HexRoundTrip(raw[1..]);
      assert HexText(raw)[2..] == HexText(raw[1..]);
      assert HexText(raw)[2 * k] == HexText(raw)[2..][2 * (k - 1)];
      assert HexText(raw)[2 * k + 1] == HexText(raw)[2..][2 * (k - 1) + 1];
    }
  }

  /** The text of a digest: the name of the hash, a colon, and the hexadecimal digits. */
  lemma DigestAnswer(d: Sha)
    ensures DigestText(d) == T("sha256:") + HexText(d) && |DigestText(d)| == 71
  {
    HexRoundTrip(d);
  }
}
