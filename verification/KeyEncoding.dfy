/**
 The text encodings of keys, signatures and digests: canonical unpadded base64url, its padded base64 form,
 and the one spelling of a SHA-256 digest.
 */
module KeyEncoding {
  import opened Prelude
  import opened Texts
  import opened CanonicalJson

  type Sextet = v: int | 0 <= v < 64

  // ---------------------------------------------------------------- bytes and sextets

  /** Three bytes cut into four six-bit groups. */
  function Cut(x: Byte, y: Byte, z: Byte): (r: seq<Sextet>)
    ensures |r| == 4
  {
    [x / 4, x % 4 * 16 + y / 16, y % 16 * 4 + z / 64, z % 64]
  }

  /** Four six-bit groups put back together as three bytes. */
  function Paste(a: Sextet, b: Sextet, c: Sextet, d: Sextet): (r: Bytes)
    ensures |r| == 3
  {
    var x: int, y: int, z: int := a, b, c;
    [x * 4 + y / 16, y % 16 * 16 + z / 4, z % 4 * 64 + d]
  }

  /** The six-bit groups of the bytes, the last one filled with zero bits. */
  function Sextets(raw: Bytes): seq<Sextet> {
    if raw == [] then []
    else if |raw| == 1 then Cut(raw[0], 0, 0)[..2]
    else if |raw| == 2 then Cut(raw[0], raw[1], 0)[..3]
    else Cut(raw[0], raw[1], raw[2]) + Sextets(raw[3..])
  }

  /** What the lenient decoder makes of the groups it found, followed by a number of padding signs. */
  function FromSextets(s: seq<Sextet>, pads: nat): Option<Bytes> {
    if s == [] then Some([])
    else if |s| == 1 then None
    else if |s| == 2 then if pads >= 2 then Some(Paste(s[0], s[1], 0, 0)[..1]) else None
    else if |s| == 3 then if pads >= 1 then Some(Paste(s[0], s[1], s[2], 0)[..2]) else None
    else
      match FromSextets(s[4..], pads)
      case None => None
      case Some(rest) => Some(Paste(s[0], s[1], s[2], s[3]) + rest)
  }

  function PadsFor(length: nat): nat { (4 - length % 4) % 4 }

  /** A number written as a high part and a low part gives both back. */
  lemma Parts(high: int, low: int)
    ensures 0 <= low < 16 ==> (high * 16 + low) / 16 == high && (high * 16 + low) % 16 == low
    ensures 0 <= low < 4 ==> (high * 4 + low) / 4 == high && (high * 4 + low) % 4 == low
  {
  }

  /** Cutting and pasting restores the bytes. */
  lemma PasteCut(x: Byte, y: Byte, z: Byte)
    ensures var g := Cut(x, y, z); Paste(g[0], g[1], g[2], g[3]) == [x, y, z]
  {
    Parts(x % 4, y / 16);
    Parts(y % 16, z / 64);
    var g := Cut(x, y, z);
    assert Paste(g[0], g[1], g[2], g[3])[0] == x;
    assert Paste(g[0], g[1], g[2], g[3])[1] == y;
    assert Paste(g[0], g[1], g[2], g[3])[2] == z;
  }

  /** The bits a shorter group leaves out are zero, and pasting does not look at them. */
  lemma PasteCutShort(x: Byte, y: Byte)
    ensures var g := Cut(x, y, 0); Paste(g[0], g[1], g[2], 0)[..2] == [x, y]
    ensures var g := Cut(x, 0, 0); Paste(g[0], g[1], 0, 0)[..1] == [x]
  {
    PasteCut(x, y, 0);
    PasteCut(x, 0, 0);
  }

  lemma {:induction false} SextetsDecode(raw: Bytes)
    ensures FromSextets(Sextets(raw), PadsFor(|Sextets(raw)|)) == Some(raw)
    decreases |raw|
  {
    if raw == [] {
    } else if |raw| == 1 {
      PasteCutShort(raw[0], 0);
      assert raw == [raw[0]];
    } else if |raw| == 2 {
      PasteCutShort(raw[0], raw[1]);
      assert raw == [raw[0], raw[1]];
    } else {
      var rest := Sextets(raw[3..]);
      SextetsDecode(raw[3..]);
      PasteCut(raw[0], raw[1], raw[2]);
      var g := Cut(raw[0], raw[1], raw[2]);
      DecodeStep(g, rest, PadsFor(|rest|));
      PadsRepeat(|rest|);
      assert Sextets(raw) == g + rest;
      assert raw == [raw[0], raw[1], raw[2]] + raw[3..];
    }
  }

  lemma PadsRepeat(n: nat)
    ensures PadsFor(4 + n) == PadsFor(n)
  {
  }

  lemma DecodeStep(g: seq<Sextet>, rest: seq<Sextet>, pads: nat)
    requires |g| == 4 && FromSextets(rest, pads).Some?
    ensures FromSextets(g + rest, pads) == Some(Paste(g[0], g[1], g[2], g[3]) + FromSextets(rest, pads).value)
  {
    assert (g + rest)[4..] == rest;
  }

  // ---------------------------------------------------------------- alphabets

  function UrlChar(v: Sextet): CodePoint {
    if v < 26 then 65 + v else if v < 52 then 71 + v else if v < 62 then v - 4 else if v == 62 then 45 else 95
  }

  function StdChar(v: Sextet): CodePoint {
    if v == 62 then 43 else if v == 63 then 47 else UrlChar(v)
  }

  /** The group a character stands for; the decoder takes both alphabets and skips everything else. */
  function SextetOf(c: CodePoint): Option<Sextet> {
    if 65 <= c <= 90 then Some(c - 65)
    else if 97 <= c <= 122 then Some(c - 71)
    else if 48 <= c <= 57 then Some(c + 4)
    else if c == 43 || c == 45 then Some(62)
    else if c == 47 || c == 95 then Some(63)
    else None
  }

  function UrlText(s: seq<Sextet>): Text { seq(|s|, i requires 0 <= i < |s| => UrlChar(s[i])) }

  function StdText(s: seq<Sextet>): Text { seq(|s|, i requires 0 <= i < |s| => StdChar(s[i])) }

  function FoundSextets(t: Text): seq<Sextet> {
    if t == [] then []
    else
      match SextetOf(t[0])
      case None => FoundSextets(t[1..])
      case Some(v) => [v] + FoundSextets(t[1..])
  }

  /** Decoding after padding to a multiple of four; None for non-ASCII text and for bad group counts. */
  function Decode(t: Text): Option<Bytes> {
    if exists c | c in t :: c >= 128 then None else FromSextets(FoundSextets(t), PadsFor(|t|))
  }

  /** The unpadded base64url text of the bytes. */
  function Encode(raw: Bytes): Text { UrlText(Sextets(raw)) }

  const PAD: CodePoint := 61

  /** The check shared by public keys and signatures: exact text without padding that decodes to something
      and is the encoding of what it decodes to. */
  function AcceptedBytes(t: Text): Option<Bytes> {
    if !ExactText(t) || PAD in t then None
    else
      match Decode(t)
      case None => None
      case Some(raw) => if raw == [] || Encode(raw) != t then None else Some(raw)
  }

  lemma {:induction false} FoundInUrlText(s: seq<Sextet>)
    ensures FoundSextets(UrlText(s)) == s
  {
    if s == [] {
    } else {
      FoundInUrlText(s[1..]);
      assert UrlText(s)[1..] == UrlText(s[1..]);
    }
  }

  lemma EncodeDecodes(raw: Bytes)
    ensures Decode(Encode(raw)) == Some(raw)
    ensures forall c :: c in Encode(raw) ==> c < 128 && !IsSpace(c) && c != PAD
  {
    SextetsDecode(raw);
    FoundInUrlText(Sextets(raw));
  }

  /** Exactly the encodings of non-empty byte strings are accepted, each as the bytes it encodes. */
  lemma AcceptedExact(t: Text)
    ensures AcceptedBytes(t).Some? <==> exists raw: Bytes :: raw != [] && Encode(raw) == t
    ensures AcceptedBytes(t).Some? ==> AcceptedBytes(t).value != [] && Encode(AcceptedBytes(t).value) == t
  {
    forall raw: Bytes | raw != [] && Encode(raw) == t
      ensures AcceptedBytes(t) == Some(raw)
    {
      EncodedIsAccepted(raw);
    }
  }

  /** Every non-empty byte string, whatever its length modulo three, has an accepted text, and only one. */
  lemma EncodedIsAccepted(raw: Bytes)
    requires raw != []
    ensures AcceptedBytes(Encode(raw)) == Some(raw)
    ensures forall t :: AcceptedBytes(t) == Some(raw) ==> t == Encode(raw)
    ensures |Encode(raw)| == (|raw| * 4 + 2) / 3
  {
    EncodeDecodes(raw);
    SextetCount(raw);
    var t := Encode(raw);
    assert t[0] in t && t[|t| - 1] in t;
  }

  lemma {:induction false} SextetCount(raw: Bytes)
    ensures |Sextets(raw)| == (|raw| * 4 + 2) / 3
    decreases |raw|
  {
    if |raw| < 3 {
    } else {
      SextetCount(raw[3..]);
    }
  }

  // ---------------------------------------------------------------- digests as text

  predicate IsLowerHex(c: CodePoint) { 48 <= c <= 57 || 97 <= c <= 102 }

  function Nibble(c: CodePoint): int
    requires IsLowerHex(c)
  {
    if c <= 57 then c - 48 else c - 87
  }

  function HexText(raw: Bytes): Text {
    if raw == [] then [] else [HexDigit(raw[0] / 16), HexDigit(raw[0] % 16)] + HexText(raw[1..])
  }

  function FromHex(t: Text): (r: Bytes)
    requires |t| % 2 == 0 && forall c :: c in t ==> IsLowerHex(c)
    ensures |r| == |t| / 2
  {
    if t == [] then []
    else
      assert t[0] in t && t[1] in t;
      [Nibble(t[0]) * 16 + Nibble(t[1])] + FromHex(t[2..])
  }

  const DIGEST_BYTES := 32

  /** The bytes of a SHA-256 digest. */
  type Sha = d: Bytes | |d| == DIGEST_BYTES witness seq(DIGEST_BYTES, _ => 0)

  function Prefix(): Text { T("sha256:") }

  /** The one spelling that leaves this program. */
  function DigestText(raw: Sha): Text { Prefix() + HexText(raw) }

  predicate BareHex(t: Text) { |t| == 2 * DIGEST_BYTES && forall c :: c in t ==> IsLowerHex(c) }

  /** _parse_hex: the canonical spelling, or bare hexadecimal where the legacy form is allowed. */
  function ParseDigest(t: Text, allowBare: bool): Option<Sha> {
    if |t| == 7 + 2 * DIGEST_BYTES && t[..7] == Prefix() && BareHex(t[7..]) then Some(FromHex(t[7..]))
    else if BareHex(t) && allowBare then Some(FromHex(t))
    else None
  }

  lemma {:induction false} HexRoundTrip(raw: Bytes)
    ensures |HexText(raw)| == 2 * |raw|
    ensures forall c :: c in HexText(raw) ==> IsLowerHex(c)
    ensures FromHex(HexText(raw)) == raw
  {
    if raw == [] {
    } else {
      HexRoundTrip(raw[1..]);
      assert HexText(raw)[2..] == HexText(raw[1..]);
    }
  }

  lemma {:induction false} HexUnique(t: Text)
    requires |t| % 2 == 0 && forall c :: c in t ==> IsLowerHex(c)
    ensures HexText(FromHex(t)) == t
  {
    if t == [] {
    } else {
      assert t[0] in t && t[1] in t;
      HexUnique(t[2..]);
      HexPair(t[0], t[1]);
      assert FromHex(t)[1..] == FromHex(t[2..]);
      assert t == [t[0], t[1]] + t[2..];
    }
  }

  lemma HexPair(a: CodePoint, b: CodePoint)
    requires IsLowerHex(a) && IsLowerHex(b)
    ensures var x := Nibble(a) * 16 + Nibble(b); HexDigit(x / 16) == a && HexDigit(x % 16) == b
  {
    Parts(Nibble(a), Nibble(b));
  }

  lemma HexTextInjective(a: Bytes, b: Bytes)
    requires HexText(a) == HexText(b)
    ensures a == b
  {
    HexRoundTrip(a);
    HexRoundTrip(b);
  }

  /** A digest has exactly one accepted spelling, and where the legacy form is allowed exactly one more. */
  lemma DigestSpellings(t: Text, d: Sha)
    ensures ParseDigest(t, false) == Some(d) <==> t == DigestText(d)
    ensures ParseDigest(t, true) == Some(d) <==> t == DigestText(d) || t == HexText(d)
  {
    HexRoundTrip(d);
    if BareHex(t) {
      HexUnique(t);
    }
    if |t| == 7 + 2 * DIGEST_BYTES {
      assert t == t[..7] + t[7..];
      if BareHex(t[7..]) {
        HexUnique(t[7..]);
      }
    }
    assert DigestText(d)[..7] == Prefix() && DigestText(d)[7..] == HexText(d);
  }

  /** Two digests with the same text are the same digest. */
  lemma DigestTextInjective(a: Sha, b: Sha)
    requires DigestText(a) == DigestText(b)
    ensures a == b
  {
    DigestSpellings(DigestText(a), a);
    DigestSpellings(DigestText(a), b);
  }

  lemma DigestTextAscii(d: Sha)
    ensures forall c :: c in DigestText(d) ==> c < 128
  {
    HexRoundTrip(d);
    assert forall i :: 0 <= i < 7 ==> Prefix()[i] < 128;
  }

  /** PublicKeyFingerprintV1.from_public_key_b64 rendered, over a given hash. */
  function KeyFingerprint(sha: Bytes -> Sha, t: Text): Option<Text> {
    match AcceptedBytes(t)
    case None => None
    case Some(raw) => Some(DigestText(sha(raw)))
  }

  /** Two keys that the hash tells apart have different fingerprints. */
  lemma FingerprintIdentifiesKey(sha: Bytes -> Sha, a: Text, b: Text)
    requires KeyFingerprint(sha, a).Some? && KeyFingerprint(sha, a) == KeyFingerprint(sha, b)
    requires sha(AcceptedBytes(a).value) == sha(AcceptedBytes(b).value) ==> AcceptedBytes(a) == AcceptedBytes(b)
    ensures a == b
  {
    DigestTextInjective(sha(AcceptedBytes(a).value), sha(AcceptedBytes(b).value));
    AcceptedExact(a);
    AcceptedExact(b);
  }

  // ---------------------------------------------------------------- Foundation's padded form

  function Padding(n: nat): Text { seq(n, _ => PAD) }

  /** The bytes in padded base64 over the standard alphabet. */
  function PaddedText(raw: Bytes): Text { StdText(Sextets(raw)) + Padding(PadsFor(|Sextets(raw)|)) }

  /** foundation_public_key_base64: the key's bytes in padded base64, if the fingerprint is the key's own. */
  function FoundationKey(sha: Bytes -> Sha, t: Text, fingerprint: Text): Option<Text> {
    if KeyFingerprint(sha, t) == Some(fingerprint) then Some(PaddedText(AcceptedBytes(t).value)) else None
  }

  lemma FoundationKeyExact(sha: Bytes -> Sha, t: Text, fingerprint: Text)
    ensures FoundationKey(sha, t, fingerprint).Some? <==>
              exists raw: Bytes :: raw != [] && Encode(raw) == t && fingerprint == DigestText(sha(raw))
  {
    AcceptedExact(t);
    forall raw: Bytes | raw != [] && Encode(raw) == t
      ensures AcceptedBytes(t) == Some(raw)
    {
      EncodedIsAccepted(raw);
    }
  }

  /** The conversion loses nothing: two keys with the same padded form are the same text. */
  lemma FoundationKeyInjective(sha: Bytes -> Sha, a: Text, f: Text, b: Text, g: Text)
    requires FoundationKey(sha, a, f).Some? && FoundationKey(sha, a, f) == FoundationKey(sha, b, g)
    ensures a == b && f == g
  {
    var x, y := Sextets(AcceptedBytes(a).value), Sextets(AcceptedBytes(b).value);
    var k := FoundationKey(sha, a, f).value;
    PaddingShows(x, k);
    PaddingShows(y, k);
    assert |x| < |k| ==> k[|x|] == PAD;
    assert |y| < |k| ==> k[|y|] == PAD;
    StdTextInjective(x, y, k);
    SextetsDecode(AcceptedBytes(a).value);
    SextetsDecode(AcceptedBytes(b).value);
    AcceptedExact(a);
    AcceptedExact(b);
  }

  lemma StdTextInjective(x: seq<Sextet>, y: seq<Sextet>, k: Text)
    requires |x| == |y| && StdText(x) <= k && StdText(y) <= k
    ensures x == y
  {
    forall i | 0 <= i < |x|
      ensures x[i] == y[i]
    {
      assert StdChar(x[i]) == k[i] == StdChar(y[i]);
    }
  }

  /** Where the padding starts shows how many groups there are. */
  lemma PaddingShows(s: seq<Sextet>, k: Text)
    requires k == StdText(s) + Padding(PadsFor(|s|))
    ensures |s| <= |k| && (forall i :: 0 <= i < |s| ==> k[i] != PAD) && (forall i :: |s| <= i < |k| ==> k[i] == PAD)
  {
    assert forall i :: 0 <= i < |s| ==> k[i] == StdChar(s[i]);
  }
}
