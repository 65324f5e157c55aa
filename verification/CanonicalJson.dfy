/**
 The canonical JSON bytes that every digest and signature is taken over (digests.canonical_json),
 and the strict reader that accepts nothing but such bytes (foundation_consumption._document).

 An object is the list of its entries in insertion order, as a dictionary is.  Printing sorts the
 entries of every object by key; reading returns the entries in the order found.
 */
module CanonicalJson {
  import opened Prelude
  import opened Texts

  type Byte = b: int | 0 <= b < 256

  type Bytes = seq<Byte>

  datatype Json =
    | Null
    | Bool(b: bool)
    | Int(n: int)
    | Float(lit: FloatLit)
    | Str(s: Text)
    | Arr(items: seq<Json>)
    | Obj(entries: seq<Entry>)

  datatype Entry = Entry(key: Text, value: Json)

  predicate IsDigit(b: Byte) { 48 <= b < 58 }

  type DigitText = d: Bytes | d != [] && forall i :: 0 <= i < |d| ==> IsDigit(d[i]) witness [48]

  /** A floating-point literal as it is written; an integer part alone is no such literal. */
  datatype FloatLit =
    | Fraction(negative: bool, whole: nat, fraction: DigitText, exponent: Option<Exponent>)
    | Scaled(negative: bool, whole: nat, power: Exponent)
    | NotANumber
    | Infinite(negative: bool)

  /** The letter is E when capital; a sign is Some(true) for minus and Some(false) for plus. */
  datatype Exponent = Exponent(capital: bool, sign: Option<bool>, digits: DigitText)

  const NULL: Bytes := [110, 117, 108, 108]
  const TRUE: Bytes := [116, 114, 117, 101]
  const FALSE: Bytes := [102, 97, 108, 115, 101]
  const NAN: Bytes := [78, 97, 78]
  const INFINITY: Bytes := [73, 110, 102, 105, 110, 105, 116, 121]

  const QUOTE: Byte := 34
  const BACKSLASH: Byte := 92
  const COMMA: Byte := 44
  const COLON: Byte := 58
  const OPEN_LIST: Byte := 91
  const CLOSE_LIST: Byte := 93
  const OPEN_OBJECT: Byte := 123
  const CLOSE_OBJECT: Byte := 125
  const MINUS: Byte := 45
  const POINT: Byte := 46

  // ---------------------------------------------------------------- printing

  function HexDigit(d: int): Byte
    requires 0 <= d < 16
  {
    if d < 10 then 48 + d else 87 + d
  }

  /** The six bytes of one UTF-16 code unit escape. */
  function UnitEscape(u: int): Bytes
    requires 0 <= u < 0x1_0000
  {
    [BACKSLASH, 117, HexDigit(u / 4096), HexDigit(u / 256 % 16), HexDigit(u / 16 % 16), HexDigit(u % 16)]
  }

  /** The letter of a two-byte escape, for the code points that have one. */
  function ShortEscape(c: CodePoint): Option<Byte> {
    if c == 34 then Some(34)
    else if c == 92 then Some(92)
    else if c == 8 then Some(98)
    else if c == 12 then Some(102)
    else if c == 10 then Some(110)
    else if c == 13 then Some(114)
    else if c == 9 then Some(116)
    else None
  }

  predicate IsHigh(u: int) { 0xD800 <= u < 0xDC00 }

  predicate IsLow(u: int) { 0xDC00 <= u < 0xE000 }

  function HighUnit(c: CodePoint): int
    requires c >= 0x1_0000
  {
    0xD800 + (c - 0x1_0000) / 1024
  }

  function LowUnit(c: CodePoint): int
    requires c >= 0x1_0000
  {
    0xDC00 + (c - 0x1_0000) % 1024
  }

  function FromUnits(high: int, low: int): CodePoint
    requires IsHigh(high) && IsLow(low)
  {
    0x1_0000 + (high - 0xD800) * 1024 + (low - 0xDC00)
  }

  function Escape(c: CodePoint): Bytes {
    match ShortEscape(c)
    case Some(letter) => [BACKSLASH, letter]
    case None =>
      if 32 <= c < 127 then [c]
      else if c < 0x1_0000 then UnitEscape(c)
      else UnitEscape(HighUnit(c)) + UnitEscape(LowUnit(c))
  }

  function EscapeAll(s: Text): Bytes {
    if s == [] then [] else Escape(s[0]) + EscapeAll(s[1..])
  }

  function Digits(n: nat): Bytes {
    if n < 10 then [48 + n] else Digits(n / 10) + [48 + n % 10]
  }

  function PrintInt(n: int): Bytes {
    if n < 0 then [MINUS] + Digits(-n) else Digits(n)
  }

  function MinusSign(negative: bool): Bytes { if negative then [MINUS] else [] }

  function PrintExponent(e: Exponent): Bytes {
    [if e.capital then 69 else 101]
    + (if e.sign.None? then [] else [if e.sign.value then MINUS else 43])
    + e.digits
  }

  function PrintFloat(f: FloatLit): Bytes {
    match f
    case Fraction(negative, whole, fraction, exponent) =>
      MinusSign(negative)
      + (Digits(whole) + ([POINT] + (fraction + (if exponent.Some? then PrintExponent(exponent.value) else []))))
    case Scaled(negative, whole, power) => MinusSign(negative) + (Digits(whole) + PrintExponent(power))
    case NotANumber => NAN
    case Infinite(negative) => MinusSign(negative) + INFINITY
  }

  /** JSON text with the entries of every object in the order given. */
  function Print(j: Json): Bytes
    decreases j
  {
    match j
    case Null => NULL
    case Bool(b) => if b then TRUE else FALSE
    case Int(n) => PrintInt(n)
    case Float(f) => PrintFloat(f)
    case Str(s) => [QUOTE] + EscapeAll(s) + [QUOTE]
    case Arr(items) => if items == [] then [OPEN_LIST, CLOSE_LIST] else [OPEN_LIST] + PrintItems(items) + [CLOSE_LIST]
    case Obj(entries) =>
      if entries == [] then [OPEN_OBJECT, CLOSE_OBJECT]
      else [OPEN_OBJECT] + PrintEntries(entries) + [CLOSE_OBJECT]
  }

  function PrintItems(items: seq<Json>): Bytes
    requires items != []
    decreases items
  {
    if |items| == 1 then Print(items[0]) else Print(items[0]) + [COMMA] + PrintItems(items[1..])
  }

  function PrintEntry(e: Entry): Bytes
    decreases e
  {
    [QUOTE] + EscapeAll(e.key) + [QUOTE, COLON] + Print(e.value)
  }

  function PrintEntries(entries: seq<Entry>): Bytes
    requires entries != []
    decreases entries
  {
    if |entries| == 1 then PrintEntry(entries[0])
    else PrintEntry(entries[0]) + [COMMA] + PrintEntries(entries[1..])
  }

  /** The same value with the entries of every object sorted by key. */
  function Sorted(j: Json): Json
    decreases j, 1
  {
    match j
    case Arr(items) => Arr(SortedItems(items))
    case Obj(entries) => Obj(SortedList(entries))
    case _ => j
  }

  function EntryKey(e: Entry): seq<Text> { [e.key] }

  /** The entries, their values sorted, in key order. */
  function SortedList(entries: seq<Entry>): seq<Entry>
    decreases entries, 1
  {
    Sort(EntryKey, SortedValues(entries))
  }

  function SortedItems(items: seq<Json>): (r: seq<Json>)
    ensures |r| == |items|
    decreases items, 0
  {
    if items == [] then [] else [Sorted(items[0])] + SortedItems(items[1..])
  }

  function SortedValues(entries: seq<Entry>): (r: seq<Entry>)
    ensures |r| == |entries|
    decreases entries, 0
  {
    if entries == [] then []
    else [Entry(entries[0].key, Sorted(entries[0].value))] + SortedValues(entries[1..])
  }

  /** canonical_json: separators without spaces, keys sorted, ASCII escapes only. */
  function Canonical(j: Json): Bytes {
    Print(Sorted(j))
  }

  // ---------------------------------------------------------------- reading

  function HexValue(b: Byte): Option<int> {
    if 48 <= b < 58 then Some(b - 48)
    else if 65 <= b < 71 then Some(b - 55)
    else if 97 <= b < 103 then Some(b - 87)
    else None
  }

  /** The code unit of an escape at the front, if there is one. */
  function ReadUnit(b: Bytes): (r: Option<int>)
    ensures r.Some? ==> |b| >= 6 && 0 <= r.value < 0x1_0000
  {
    if |b| >= 6 && b[0] == BACKSLASH && b[1] == 117 then
      match (HexValue(b[2]), HexValue(b[3]), HexValue(b[4]), HexValue(b[5]))
      case (Some(w), Some(x), Some(y), Some(z)) => Some(w * 4096 + x * 256 + y * 16 + z)
      case _ => None
    else None
  }

  function ShortUnescape(letter: Byte): Option<CodePoint> {
    if letter == 34 then Some(34)
    else if letter == 92 then Some(92)
    else if letter == 47 then Some(47)
    else if letter == 98 then Some(8)
    else if letter == 102 then Some(12)
    else if letter == 110 then Some(10)
    else if letter == 114 then Some(13)
    else if letter == 116 then Some(9)
    else None
  }

  function ParseChar(b: Bytes): (r: Option<(CodePoint, Bytes)>)
    requires b != []
    ensures r.Some? ==> |r.value.1| < |b|
  {
    if b[0] != BACKSLASH then
      if 32 <= b[0] < 128 then Some((b[0], b[1..])) else None
    else if |b| < 2 then None
    else if b[1] != 117 then
      match ShortUnescape(b[1])
      case Some(c) => Some((c, b[2..]))
      case None => None
    else
      match ReadUnit(b)
      case None => None
      case Some(u) =>
        if IsHigh(u) && ReadUnit(b[6..]).Some? && IsLow(ReadUnit(b[6..]).value)
        then Some((FromUnits(u, ReadUnit(b[6..]).value), b[12..]))
        else Some((u, b[6..]))
  }

  /** The rest of a string after its opening quote, up to and including the closing one. */
  function ParseChars(b: Bytes): (r: Option<(Text, Bytes)>)
    ensures r.Some? ==> |r.value.1| < |b|
  {
    if b == [] then None
    else if b[0] == QUOTE then Some(([], b[1..]))
    else
      match ParseChar(b)
      case None => None
      case Some((c, rest)) =>
        match ParseChars(rest)
        case None => None
        case Some((s, after)) => Some(([c] + s, after))
  }

  function DigitRun(b: Bytes): (k: nat)
    ensures k <= |b|
    ensures forall i :: 0 <= i < k ==> IsDigit(b[i])
  {
    if b != [] && IsDigit(b[0]) then 1 + DigitRun(b[1..]) else 0
  }

  function FromDigits(b: Bytes): (n: int)
    ensures (forall i :: 0 <= i < |b| ==> IsDigit(b[i])) ==> n >= 0
  {
    if b == [] then 0 else FromDigits(b[..|b| - 1]) * 10 + (b[|b| - 1] as int - 48)
  }

  /** The integer part of a number; a leading zero stands alone. */
  function ParseNat(b: Bytes): (r: Option<(nat, Bytes)>)
    ensures r.Some? ==> |r.value.1| < |b|
  {
    var k := if b != [] && b[0] == 48 then 1 else DigitRun(b);
    if k == 0 then None else Some((FromDigits(b[..k]), b[k..]))
  }

  function ParseExponent(b: Bytes): (r: Option<(Exponent, Bytes)>)
    ensures r.Some? ==> |r.value.1| < |b|
  {
    if b == [] || (b[0] != 69 && b[0] != 101) then None
    else
      var signed := |b| > 1 && (b[1] == 43 || b[1] == MINUS);
      var d := if signed then b[2..] else b[1..];
      var k := DigitRun(d);
      if k == 0 then None
      else Some((Exponent(b[0] == 69, if signed then Some(b[1] == MINUS) else None, d[..k]), d[k..]))
  }

  function Signed(negative: bool, n: nat): int { if negative then -(n as int) else n }

  /** The rest of a number after its sign.  A point without digits after it, or a letter without a power, is left
      unread, as the reader's pattern leaves it. */
  function ParseUnsigned(negative: bool, b: Bytes): (r: Option<(Json, Bytes)>)
    ensures r.Some? ==> |r.value.1| < |b|
  {
    match ParseNat(b)
    case None => None
    case Some((n, rest)) =>
      if |rest| > 1 && rest[0] == POINT && IsDigit(rest[1]) then
        var k := DigitRun(rest[1..]);
        var fraction, after := rest[1..][..k], rest[1..][k..];
        match ParseExponent(after)
        case None => Some((Float(Fraction(negative, n, fraction, None)), after))
        case Some((e, end)) => Some((Float(Fraction(negative, n, fraction, Some(e))), end))
      else
        match ParseExponent(rest)
        case None => Some((Int(Signed(negative, n)), rest))
        case Some((e, end)) => Some((Float(Scaled(negative, n, e)), end))
  }

  /** A number, or one of the three names the reader takes for numbers. */
  function ParseNumber(b: Bytes): (r: Option<(Json, Bytes)>)
    ensures r.Some? ==> |r.value.1| < |b|
  {
    if b != [] && b[0] == MINUS then
      if INFINITY <= b[1..] then Some((Float(Infinite(true)), b[1..][8..])) else ParseUnsigned(true, b[1..])
    else if INFINITY <= b then Some((Float(Infinite(false)), b[8..]))
    else if NAN <= b then Some((Float(NotANumber), b[3..]))
    else ParseUnsigned(false, b)
  }

  function ParseValue(b: Bytes): (r: Option<(Json, Bytes)>)
    ensures r.Some? ==> |r.value.1| < |b|
    decreases |b|, 0
  {
    if b == [] then None
    else if b[0] == QUOTE then
      match ParseChars(b[1..])
      case None => None
      case Some((s, rest)) => Some((Str(s), rest))
    else if b[0] == OPEN_LIST then
      if |b| > 1 && b[1] == CLOSE_LIST then Some((Arr([]), b[2..]))
      else
        match ParseItems(b[1..])
        case None => None
        case Some((items, rest)) => Some((Arr(items), rest))
    else if b[0] == OPEN_OBJECT then
      if |b| > 1 && b[1] == CLOSE_OBJECT then Some((Obj([]), b[2..]))
      else
        match ParseEntries(b[1..])
        case None => None
        case Some((entries, rest)) => Some((Obj(entries), rest))
    else if NULL <= b then Some((Null, b[4..]))
    else if TRUE <= b then Some((Bool(true), b[4..]))
    else if FALSE <= b then Some((Bool(false), b[5..]))
    else ParseNumber(b)
  }

  function ParseItems(b: Bytes): (r: Option<(seq<Json>, Bytes)>)
    ensures r.Some? ==> |r.value.1| < |b|
    decreases |b|, 1
  {
    match ParseValue(b)
    case None => None
    case Some((v, rest)) =>
      if rest == [] then None
      else if rest[0] == CLOSE_LIST then Some(([v], rest[1..]))
      else if rest[0] != COMMA then None
      else
        match ParseItems(rest[1..])
        case None => None
        case Some((vs, after)) => Some(([v] + vs, after))
  }

  function ParseEntry(b: Bytes): (r: Option<(Entry, Bytes)>)
    ensures r.Some? ==> |r.value.1| < |b|
    decreases |b|, 1
  {
    if b == [] || b[0] != QUOTE then None
    else
      match ParseChars(b[1..])
      case None => None
      case Some((key, rest)) =>
        if rest == [] || rest[0] != COLON then None
        else
          match ParseValue(rest[1..])
          case None => None
          case Some((v, after)) => Some((Entry(key, v), after))
  }

  function ParseEntries(b: Bytes): (r: Option<(seq<Entry>, Bytes)>)
    ensures r.Some? ==> |r.value.1| < |b|
    decreases |b|, 2
  {
    match ParseEntry(b)
    case None => None
    case Some((e, rest)) =>
      if rest == [] then None
      else if rest[0] == CLOSE_OBJECT then Some(([e], rest[1..]))
      else if rest[0] != COMMA then None
      else
        match ParseEntries(rest[1..])
        case None => None
        case Some((es, after)) => Some(([e] + es, after))
  }

  // ---------------------------------------------------------------- adjacent surrogates

  /** What reading back makes of a text: a high surrogate directly before a low one becomes one code point. */
  function JoinSurrogates(s: Text): Text {
    if |s| >= 2 && IsHigh(s[0]) && IsLow(s[1]) then [FromUnits(s[0], s[1])] + JoinSurrogates(s[2..])
    else if s == [] then []
    else [s[0]] + JoinSurrogates(s[1..])
  }

  function Joined(j: Json): Json
    decreases j, 1
  {
    match j
    case Str(s) => Str(JoinSurrogates(s))
    case Arr(items) => Arr(JoinedItems(items))
    case Obj(entries) => Obj(JoinedEntries(entries))
    case _ => j
  }

  function JoinedItems(items: seq<Json>): (r: seq<Json>)
    ensures |r| == |items|
    decreases items, 0
  {
    if items == [] then [] else [Joined(items[0])] + JoinedItems(items[1..])
  }

  function JoinedEntries(entries: seq<Entry>): (r: seq<Entry>)
    ensures |r| == |entries|
    decreases entries, 0
  {
    if entries == [] then []
    else [Entry(JoinSurrogates(entries[0].key), Joined(entries[0].value))] + JoinedEntries(entries[1..])
  }

  // ---------------------------------------------------------------- reading back what was printed

  lemma ReadUnitEscape(u: int, tail: Bytes)
    requires 0 <= u < 0x1_0000
    ensures ReadUnit(UnitEscape(u) + tail) == Some(u)
    ensures (UnitEscape(u) + tail)[6..] == tail
  {
    UnitDigits(u);
    var b := UnitEscape(u) + tail;
    assert b[..6] == UnitEscape(u);
    assert HexValue(b[2]) == Some(u / 4096) && HexValue(b[3]) == Some(u / 256 % 16);
    assert HexValue(b[4]) == Some(u / 16 % 16) && HexValue(b[5]) == Some(u % 16);
  }

  lemma UnitDigits(u: int)
    requires 0 <= u < 0x1_0000
    ensures u == u / 4096 * 4096 + u / 256 % 16 * 256 + u / 16 % 16 * 16 + u % 16
    ensures 0 <= u / 4096 < 16
  {
  }

  /** An escape sequence carries a code unit only when its code point has no shorter form. */
  lemma ReadUnitOfEscape(c: CodePoint, tail: Bytes)
    ensures var r := ReadUnit(Escape(c) + tail);
            r == if ShortEscape(c).Some? || 32 <= c < 127 then None
                 else if c < 0x1_0000 then Some(c) else Some(HighUnit(c))
  {
    if ShortEscape(c).None? && !(32 <= c < 127) {
      if c < 0x1_0000 {
        ReadUnitEscape(c, tail);
      } else {
        ReadUnitEscape(HighUnit(c), UnitEscape(LowUnit(c)) + tail);
        assert Escape(c) + tail == UnitEscape(HighUnit(c)) + (UnitEscape(LowUnit(c)) + tail);
      }
    }
  }

  /** Reading one printed code point; only a high surrogate looks at what follows it. */
  lemma ParseEscape(c: CodePoint, tail: Bytes)
    requires IsHigh(c) ==> ReadUnit(tail).None? || !IsLow(ReadUnit(tail).value)
    ensures Escape(c) + tail != [] && (Escape(c) + tail)[0] != QUOTE
    ensures ParseChar(Escape(c) + tail) == Some((c, tail))
  {
    var b := Escape(c) + tail;
    if ShortEscape(c).Some? {
      assert b[2..] == tail;
    } else if 32 <= c < 127 {
      assert b[1..] == tail;
    } else if c < 0x1_0000 {
      ReadUnitEscape(c, tail);
    } else {
      var low := UnitEscape(LowUnit(c)) + tail;
      assert b == UnitEscape(HighUnit(c)) + low;
      ReadUnitEscape(HighUnit(c), low);
      ReadUnitEscape(LowUnit(c), tail);
      assert b[12..] == tail;
      assert c - 0x1_0000 == ((c - 0x1_0000) / 1024) * 1024 + (c - 0x1_0000) % 1024;
    }
  }

  lemma ParseCharsStep(b: Bytes, c: CodePoint, tail: Bytes)
    requires b != [] && b[0] != QUOTE
    requires ParseChar(b) == Some((c, tail)) && ParseChars(tail).Some?
    ensures ParseChars(b) == Some(([c] + ParseChars(tail).value.0, ParseChars(tail).value.1))
  {
  }

  /** Two adjacent surrogate escapes read as one code point. */
  lemma ParseSurrogatePair(high: int, low: int, tail: Bytes)
    requires IsHigh(high) && IsLow(low)
    ensures var b := UnitEscape(high) + (UnitEscape(low) + tail);
            b[0] != QUOTE && ParseChar(b) == Some((FromUnits(high, low), tail))
  {
    ReadUnitEscape(high, UnitEscape(low) + tail);
    ReadUnitEscape(low, tail);
    assert (UnitEscape(high) + (UnitEscape(low) + tail))[12..] == tail;
  }

  /** A high surrogate escape that no low one follows stays alone. */
  lemma LoneSurrogateTail(s: Text, rest: Bytes)
    requires s == [] || !IsLow(s[0])
    ensures var r := ReadUnit(EscapeAll(s) + [QUOTE] + rest); r.None? || !IsLow(r.value)
  {
    if s != [] {
      PrintedSingle(s, rest);
      ReadUnitOfEscape(s[0], EscapeAll(s[1..]) + [QUOTE] + rest);
    } else {
      assert EscapeAll(s) + [QUOTE] + rest == [QUOTE] + rest;
    }
  }

  lemma EscapeCons(c: CodePoint, t: Text)
    ensures EscapeAll([c] + t) == Escape(c) + EscapeAll(t)
  {
    assert ([c] + t)[1..] == t;
  }

  lemma EscapeTwo(s: Text)
    requires |s| >= 2
    ensures EscapeAll(s) == Escape(s[0]) + Escape(s[1]) + EscapeAll(s[2..])
  {
    EscapeCons(s[0], s[1..]);
    EscapeCons(s[1], s[2..]);
    assert s == [s[0]] + s[1..] && s[1..] == [s[1]] + s[2..];
    Regroup(Escape(s[0]), Escape(s[1]), EscapeAll(s[2..]), []);
  }

  lemma PrintedPair(s: Text, rest: Bytes)
    requires |s| >= 2 && IsHigh(s[0]) && IsLow(s[1])
    ensures EscapeAll(s) + [QUOTE] + rest
         == UnitEscape(s[0]) + (UnitEscape(s[1]) + (EscapeAll(s[2..]) + [QUOTE] + rest))
  {
    EscapeTwo(s);
    var x, y, t := UnitEscape(s[0]), UnitEscape(s[1]), EscapeAll(s[2..]);
    assert Escape(s[0]) == x && Escape(s[1]) == y;
    Regroup(x + y, t, [QUOTE], rest);
    Regroup(x, y, t + [QUOTE] + rest, []);
    Regroup(t, [QUOTE], rest, []);
  }

  lemma PrintedSingle(s: Text, rest: Bytes)
    requires s != []
    ensures EscapeAll(s) + [QUOTE] + rest == Escape(s[0]) + (EscapeAll(s[1..]) + [QUOTE] + rest)
  {
  }

  /** A printed string reads back with adjacent surrogates joined, whatever follows it. */
  lemma {:induction false} ParsePrintedString(s: Text, rest: Bytes)
    ensures ParseChars(EscapeAll(s) + [QUOTE] + rest) == Some((JoinSurrogates(s), rest))
    decreases |s|
  {
    if s == [] {
      assert EscapeAll(s) + [QUOTE] + rest == [QUOTE] + rest;
    } else if |s| >= 2 && IsHigh(s[0]) && IsLow(s[1]) {
      var tail := EscapeAll(s[2..]) + [QUOTE] + rest;
      ParsePrintedString(s[2..], rest);
      PrintedPair(s, rest);
      ParseSurrogatePair(s[0], s[1], tail);
      ParseCharsStep(UnitEscape(s[0]) + (UnitEscape(s[1]) + tail), FromUnits(s[0], s[1]), tail);
    } else {
      var tail := EscapeAll(s[1..]) + [QUOTE] + rest;
      ParsePrintedString(s[1..], rest);
      PrintedSingle(s, rest);
      if IsHigh(s[0]) {
        LoneSurrogateTail(s[1..], rest);
      }
      ParseEscape(s[0], tail);
      ParseCharsStep(Escape(s[0]) + tail, s[0], tail);
    }
  }

  /** What may follow a number: the end, or a byte that cannot continue it. */
  predicate EndsNumber(rest: Bytes) {
    rest == [] || (!IsDigit(rest[0]) && rest[0] !in {46, 69, 101})
  }

  lemma {:induction false} DigitsShape(n: nat)
    ensures Digits(n) != [] && FromDigits(Digits(n)) == n
    ensures forall i :: 0 <= i < |Digits(n)| ==> IsDigit(Digits(n)[i])
    ensures Digits(n)[0] == 48 ==> |Digits(n)| == 1
    ensures n > 0 ==> Digits(n)[0] != 48
  {
    if n >= 10 {
      DigitsShape(n / 10);
      assert Digits(n)[..|Digits(n)| - 1] == Digits(n / 10);
    } else {
      assert Digits(n)[..0] == [];
    }
  }

  predicate NoDigit(rest: Bytes) { rest == [] || !IsDigit(rest[0]) }

  lemma {:induction false} DigitRunOf(ds: Bytes, rest: Bytes)
    requires forall i :: 0 <= i < |ds| ==> IsDigit(ds[i])
    requires NoDigit(rest)
    ensures DigitRun(ds + rest) == |ds|
    ensures (ds + rest)[..|ds|] == ds && (ds + rest)[|ds|..] == rest
  {
    if ds == [] {
      assert ds + rest == rest;
    } else {
      DigitRunOf(ds[1..], rest);
      assert (ds + rest)[1..] == ds[1..] + rest;
    }
  }

  lemma ParsePrintedNat(n: nat, rest: Bytes)
    requires NoDigit(rest)
    ensures ParseNat(Digits(n) + rest) == Some((n, rest))
  {
    DigitsShape(n);
    DigitRunOf(Digits(n), rest);
  }

  lemma ParsePrintedExponent(e: Exponent, rest: Bytes)
    requires NoDigit(rest)
    ensures ParseExponent(PrintExponent(e) + rest) == Some((e, rest))
    ensures NoDigit(PrintExponent(e) + rest) && (PrintExponent(e) + rest)[0] != POINT
  {
    DigitRunOf(e.digits, rest);
    var b := PrintExponent(e) + rest;
    if e.sign.Some? {
      assert b[2..] == e.digits + rest;
    } else {
      assert b[1..] == e.digits + rest;
      assert b[1] == e.digits[0];
    }
  }

  lemma ParsePrintedWhole(negative: bool, n: nat, rest: Bytes)
    requires EndsNumber(rest)
    ensures ParseUnsigned(negative, Digits(n) + rest) == Some((Int(Signed(negative, n)), rest))
  {
    ParsePrintedNat(n, rest);
  }

  lemma ParsePrintedScaled(negative: bool, n: nat, e: Exponent, rest: Bytes)
    requires NoDigit(rest)
    ensures ParseUnsigned(negative, Digits(n) + (PrintExponent(e) + rest))
         == Some((Float(Scaled(negative, n, e)), rest))
  {
    ParsePrintedExponent(e, rest);
    ParsePrintedNat(n, PrintExponent(e) + rest);
  }

  lemma ParsePrintedFraction(negative: bool, n: nat, fraction: DigitText, tail: Bytes)
    requires NoDigit(tail)
    ensures ParseUnsigned(negative, Digits(n) + ([POINT] + (fraction + tail)))
         == if ParseExponent(tail).None? then Some((Float(Fraction(negative, n, fraction, None)), tail))
            else Some((Float(Fraction(negative, n, fraction, Some(ParseExponent(tail).value.0))),
                       ParseExponent(tail).value.1))
  {
    var rest := [POINT] + (fraction + tail);
    ParsePrintedNat(n, rest);
    DigitRunOf(fraction, tail);
    assert rest[1..] == fraction + tail;
    assert rest[1] == fraction[0];
  }

  /** The sign in front of digits is read as the number's sign. */
  lemma SignStep(negative: bool, n: nat, tail: Bytes)
    ensures ParseNumber(MinusSign(negative) + (Digits(n) + tail)) == ParseUnsigned(negative, Digits(n) + tail)
    ensures var b := MinusSign(negative) + (Digits(n) + tail); b != [] && (b[0] == MINUS || IsDigit(b[0]))
  {
    var u := Digits(n) + tail;
    DigitsShape(n);
    assert u[0] == Digits(n)[0];
    assert (MinusSign(negative) + u)[|MinusSign(negative)|..] == u;
  }

  lemma ParsePrintedInt(n: int, rest: Bytes)
    requires EndsNumber(rest)
    ensures ParseNumber(PrintInt(n) + rest) == Some((Int(n), rest))
  {
    if n < 0 {
      ParsePrintedNegative(-n, rest);
    } else {
      ParsePrintedPositive(n, rest);
    }
  }

  lemma ParsePrintedNegative(m: nat, rest: Bytes)
    requires EndsNumber(rest)
    ensures ParseNumber([MINUS] + Digits(m) + rest) == Some((Int(-(m as int)), rest))
  {
    Regroup([MINUS], Digits(m), rest, []);
    ParsePrintedWhole(true, m, rest);
    SignStep(true, m, rest);
  }

  lemma ParsePrintedPositive(n: nat, rest: Bytes)
    requires EndsNumber(rest)
    ensures ParseNumber(Digits(n) + rest) == Some((Int(n), rest))
  {
    assert [] + (Digits(n) + rest) == Digits(n) + rest;
    ParsePrintedWhole(false, n, rest);
    SignStep(false, n, rest);
  }

  lemma PrintIntStart(n: int)
    ensures PrintInt(n) != [] && (PrintInt(n)[0] == MINUS || IsDigit(PrintInt(n)[0]))
  {
    DigitsShape(if n < 0 then -n else n);
  }

  /** A printed literal is read as itself. */
  lemma ParsePrintedFloat(f: FloatLit, rest: Bytes)
    requires EndsNumber(rest)
    ensures ParseNumber(PrintFloat(f) + rest) == Some((Float(f), rest))
  {
    match f
    case Fraction(negative, n, fraction, exponent) =>
      var power := if exponent.Some? then PrintExponent(exponent.value) else [];
      FractionRegroup(negative, n, fraction, power, rest);
      SignStep(negative, n, [POINT] + (fraction + (power + rest)));
      if exponent.Some? {
        ParsePrintedExponent(exponent.value, rest);
      } else {
        assert power + rest == rest;
      }
      ParsePrintedFraction(negative, n, fraction, power + rest);
    case Scaled(negative, n, e) =>
      Regroup(MinusSign(negative), Digits(n) + PrintExponent(e), rest, []);
      Regroup(Digits(n), PrintExponent(e), rest, []);
      SignStep(negative, n, PrintExponent(e) + rest);
      ParsePrintedScaled(negative, n, e, rest);
    case _ => ParsePrintedName(f, rest);
  }

  lemma FractionRegroup(negative: bool, n: nat, fraction: Bytes, power: Bytes, rest: Bytes)
    ensures MinusSign(negative) + (Digits(n) + ([POINT] + (fraction + power))) + rest
         == MinusSign(negative) + (Digits(n) + ([POINT] + (fraction + (power + rest))))
  {
  }

  lemma ParsePrintedName(f: FloatLit, rest: Bytes)
    requires f.NotANumber? || f.Infinite?
    ensures ParseNumber(PrintFloat(f) + rest) == Some((Float(f), rest))
  {
    if f.NotANumber? {
      assert (NAN + rest)[3..] == rest;
    } else if f.negative {
      var b := [MINUS] + INFINITY + rest;
      assert b[1..] == INFINITY + rest;
      assert (INFINITY + rest)[8..] == rest;
    } else {
      assert [] + INFINITY == INFINITY;
      assert (INFINITY + rest)[8..] == rest;
    }
  }

  lemma PrintFloatStart(f: FloatLit)
    ensures PrintFloat(f) != [] && NumberStart(PrintFloat(f)[0])
  {
    if f.Fraction? || f.Scaled? {
      DigitsShape(f.whole);
    }
  }

  predicate NumberStart(b: Byte) { b == MINUS || IsDigit(b) || b == NAN[0] || b == INFINITY[0] }

  /** Every printed value starts with a byte that is none of the three closing or separating ones. */
  lemma PrintStart(j: Json)
    ensures Print(j) != [] && Print(j)[0] !in {CLOSE_LIST, CLOSE_OBJECT, COMMA}
  {
    if j.Int? {
      PrintIntStart(j.n);
    } else if j.Float? {
      PrintFloatStart(j.lit);
    }
  }

  lemma NumberDispatch(b: Bytes)
    requires b != [] && NumberStart(b[0])
    ensures ParseValue(b) == ParseNumber(b)
  {
  }

  lemma ListDispatch(tail: Bytes)
    requires tail != [] && tail[0] != CLOSE_LIST && ParseItems(tail).Some?
    ensures ParseValue([OPEN_LIST] + tail) == Some((Arr(ParseItems(tail).value.0), ParseItems(tail).value.1))
  {
    assert ([OPEN_LIST] + tail)[1..] == tail;
  }

  lemma ObjectDispatch(tail: Bytes)
    requires tail != [] && tail[0] != CLOSE_OBJECT && ParseEntries(tail).Some?
    ensures ParseValue([OPEN_OBJECT] + tail) == Some((Obj(ParseEntries(tail).value.0), ParseEntries(tail).value.1))
  {
    assert ([OPEN_OBJECT] + tail)[1..] == tail;
  }

  lemma StringDispatch(tail: Bytes)
    requires ParseChars(tail).Some?
    ensures ParseValue([QUOTE] + tail) == Some((Str(ParseChars(tail).value.0), ParseChars(tail).value.1))
  {
    assert ([QUOTE] + tail)[1..] == tail;
  }

  lemma ConstantDispatch(rest: Bytes)
    ensures ParseValue(NULL + rest) == Some((Null, rest))
    ensures ParseValue(TRUE + rest) == Some((Bool(true), rest))
    ensures ParseValue(FALSE + rest) == Some((Bool(false), rest))
    ensures ParseValue([OPEN_LIST, CLOSE_LIST] + rest) == Some((Arr([]), rest))
    ensures ParseValue([OPEN_OBJECT, CLOSE_OBJECT] + rest) == Some((Obj([]), rest))
  {
    assert (NULL + rest)[4..] == rest && (TRUE + rest)[4..] == rest && (FALSE + rest)[5..] == rest;
    assert ([OPEN_LIST, CLOSE_LIST] + rest)[2..] == rest;
    assert ([OPEN_OBJECT, CLOSE_OBJECT] + rest)[2..] == rest;
  }

  /** Reading a printed value gives it back, adjacent surrogates joined, and stops exactly at its end. */
  lemma {:induction false} ParsePrinted(j: Json, rest: Bytes)
    requires EndsNumber(rest)
    ensures ParseValue(Print(j) + rest) == Some((Joined(j), rest))
    decreases j, 1
  {
    match j
    case Int(n) =>
      ParsePrintedInt(n, rest);
      PrintIntStart(n);
      NumberDispatch(PrintInt(n) + rest);
    case Float(f) =>
      ParsePrintedFloat(f, rest);
      PrintFloatStart(f);
      NumberDispatch(PrintFloat(f) + rest);
    case Str(s) => ParsePrintedText(s, rest);
    case Arr(items) =>
      if items == [] { ConstantDispatch(rest); } else { ParsePrintedList(items, rest); }
    case Obj(entries) =>
      if entries == [] { ConstantDispatch(rest); } else { ParsePrintedObject(entries, rest); }
    case _ =>
      ConstantDispatch(rest);
  }

  lemma ParsePrintedText(s: Text, rest: Bytes)
    ensures ParseValue(Print(Str(s)) + rest) == Some((Str(JoinSurrogates(s)), rest))
  {
    ParsePrintedString(s, rest);
    Regroup([QUOTE], EscapeAll(s), [QUOTE], rest);
    Regroup(EscapeAll(s), [QUOTE], rest, []);
    StringDispatch(EscapeAll(s) + [QUOTE] + rest);
  }

  lemma {:induction false} ParsePrintedList(items: seq<Json>, rest: Bytes)
    requires items != []
    ensures ParseValue(Print(Arr(items)) + rest) == Some((Arr(JoinedItems(items)), rest))
    decreases items, 1
  {
    ParsePrintedItems(items, rest);
    PrintStart(items[0]);
    var tail := PrintItems(items) + [CLOSE_LIST] + rest;
    assert tail[0] == Print(items[0])[0];
    assert Print(Arr(items)) + rest == [OPEN_LIST] + tail;
    ListDispatch(tail);
  }

  lemma {:induction false} ParsePrintedObject(entries: seq<Entry>, rest: Bytes)
    requires entries != []
    ensures ParseValue(Print(Obj(entries)) + rest) == Some((Obj(JoinedEntries(entries)), rest))
    decreases entries, 1
  {
    ParsePrintedEntries(entries, rest);
    var tail := PrintEntries(entries) + [CLOSE_OBJECT] + rest;
    assert tail[0] == QUOTE;
    assert Print(Obj(entries)) + rest == [OPEN_OBJECT] + tail;
    ObjectDispatch(tail);
  }

  lemma ItemsStep(b: Bytes, v: Json, tail: Bytes)
    requires ParseValue(b) == Some((v, [COMMA] + tail)) && ParseItems(tail).Some?
    ensures ParseItems(b) == Some(([v] + ParseItems(tail).value.0, ParseItems(tail).value.1))
  {
    assert ([COMMA] + tail)[1..] == tail;
  }

  lemma ItemsEnd(b: Bytes, v: Json, rest: Bytes)
    requires ParseValue(b) == Some((v, [CLOSE_LIST] + rest))
    ensures ParseItems(b) == Some(([v], rest))
  {
    assert ([CLOSE_LIST] + rest)[1..] == rest;
  }

  lemma {:induction false} ParsePrintedItems(items: seq<Json>, rest: Bytes)
    requires items != []
    ensures ParseItems(PrintItems(items) + [CLOSE_LIST] + rest) == Some((JoinedItems(items), rest))
    decreases items, 0
  {
    if |items| == 1 {
      ParsePrinted(items[0], [CLOSE_LIST] + rest);
      PrintItemsSplit(items, rest);
      ItemsEnd(Print(items[0]) + ([CLOSE_LIST] + rest), Joined(items[0]), rest);
    } else {
      var tail := PrintItems(items[1..]) + [CLOSE_LIST] + rest;
      ParsePrinted(items[0], [COMMA] + tail);
      ParsePrintedItems(items[1..], rest);
      PrintItemsSplit(items, rest);
      ItemsStep(Print(items[0]) + ([COMMA] + tail), Joined(items[0]), tail);
    }
  }

  lemma PrintItemsSplit(items: seq<Json>, rest: Bytes)
    requires items != []
    ensures var printed := PrintItems(items) + [CLOSE_LIST] + rest;
            if |items| == 1 then printed == Print(items[0]) + ([CLOSE_LIST] + rest)
            else printed == Print(items[0]) + ([COMMA] + (PrintItems(items[1..]) + [CLOSE_LIST] + rest))
    ensures |items| == 1 ==> JoinedItems(items) == [Joined(items[0])]
  {
    var first := Print(items[0]);
    if |items| == 1 {
      Regroup(first, [CLOSE_LIST], rest, []);
    } else {
      Regroup(first, [COMMA], PrintItems(items[1..]) + [CLOSE_LIST], rest);
      Regroup(first + [COMMA], PrintItems(items[1..]), [CLOSE_LIST], rest);
    }
  }

  lemma {:induction false} ParsePrintedEntry(e: Entry, rest: Bytes)
    requires EndsNumber(rest)
    ensures ParseEntry(PrintEntry(e) + rest) == Some((Entry(JoinSurrogates(e.key), Joined(e.value)), rest))
    decreases e, 0
  {
    var value := Print(e.value) + rest;
    var tail := EscapeAll(e.key) + [QUOTE] + ([COLON] + value);
    PrintEntrySplit(e, rest);
    ParsePrintedString(e.key, [COLON] + value);
    ParsePrinted(e.value, rest);
    EntryStep(tail, JoinSurrogates(e.key), value);
  }

  lemma PrintEntrySplit(e: Entry, rest: Bytes)
    ensures PrintEntry(e) + rest == [QUOTE] + (EscapeAll(e.key) + [QUOTE] + ([COLON] + (Print(e.value) + rest)))
  {
    var k, v := EscapeAll(e.key), Print(e.value);
    assert [QUOTE, COLON] == [QUOTE] + [COLON];
    assert PrintEntry(e) + rest == [QUOTE] + (k + ([QUOTE] + ([COLON] + (v + rest))));
  }

  lemma EntryStep(tail: Bytes, key: Text, value: Bytes)
    requires ParseChars(tail) == Some((key, [COLON] + value)) && ParseValue(value).Some?
    ensures ParseEntry([QUOTE] + tail) == Some((Entry(key, ParseValue(value).value.0), ParseValue(value).value.1))
  {
    assert ([QUOTE] + tail)[1..] == tail && ([COLON] + value)[1..] == value;
  }

  lemma EntriesStep(b: Bytes, e: Entry, tail: Bytes)
    requires ParseEntry(b) == Some((e, [COMMA] + tail)) && ParseEntries(tail).Some?
    ensures ParseEntries(b) == Some(([e] + ParseEntries(tail).value.0, ParseEntries(tail).value.1))
  {
    assert ([COMMA] + tail)[1..] == tail;
  }

  lemma EntriesEnd(b: Bytes, e: Entry, rest: Bytes)
    requires ParseEntry(b) == Some((e, [CLOSE_OBJECT] + rest))
    ensures ParseEntries(b) == Some(([e], rest))
  {
    assert ([CLOSE_OBJECT] + rest)[1..] == rest;
  }

  lemma Regroup(a: Bytes, b: Bytes, c: Bytes, d: Bytes)
    ensures (a + b) + c + d == a + (b + (c + d))
    ensures a + b + c == a + (b + c)
  {
  }

  lemma PrintEntriesSplit(entries: seq<Entry>, rest: Bytes)
    requires entries != []
    ensures var printed := PrintEntries(entries) + [CLOSE_OBJECT] + rest;
            if |entries| == 1 then printed == PrintEntry(entries[0]) + ([CLOSE_OBJECT] + rest)
            else printed == PrintEntry(entries[0]) + ([COMMA] + (PrintEntries(entries[1..]) + [CLOSE_OBJECT] + rest))
    ensures |entries| == 1 ==>
              JoinedEntries(entries) == [Entry(JoinSurrogates(entries[0].key), Joined(entries[0].value))]
  {
    var first := PrintEntry(entries[0]);
    if |entries| == 1 {
      Regroup(first, [CLOSE_OBJECT], rest, []);
    } else {
      Regroup(first, [COMMA], PrintEntries(entries[1..]) + [CLOSE_OBJECT], rest);
      Regroup(first + [COMMA], PrintEntries(entries[1..]), [CLOSE_OBJECT], rest);
    }
  }

  lemma {:induction false} ParsePrintedEntries(entries: seq<Entry>, rest: Bytes)
    requires entries != []
    ensures ParseEntries(PrintEntries(entries) + [CLOSE_OBJECT] + rest) == Some((JoinedEntries(entries), rest))
    decreases entries, 0
  {
    var e := Entry(JoinSurrogates(entries[0].key), Joined(entries[0].value));
    if |entries| == 1 {
      ParsePrintedEntry(entries[0], [CLOSE_OBJECT] + rest);
      PrintEntriesSplit(entries, rest);
      EntriesEnd(PrintEntry(entries[0]) + ([CLOSE_OBJECT] + rest), e, rest);
    } else {
      var tail := PrintEntries(entries[1..]) + [CLOSE_OBJECT] + rest;
      ParsePrintedEntry(entries[0], [COMMA] + tail);
      ParsePrintedEntries(entries[1..], rest);
      PrintEntriesSplit(entries, rest);
      EntriesStep(PrintEntry(entries[0]) + ([COMMA] + tail), e, tail);
    }
  }
}
