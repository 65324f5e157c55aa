/**
 The canonical bytes spelt out: what json.dumps writes with sorted keys, the separators "," and ":" and ASCII
 escapes only, given once more by literals, and the order of the keys by code points.
 */
module CanonicalForm {
  import opened Prelude
  import opened Texts
  import opened CanonicalJson
  import opened CanonicalDocuments

  // ---------------------------------------------------------------- ascending keys

  /** The keys of every object, at every depth, come in ascending order. */
  ghost predicate Ascending(j: Json) {
    match j
    case Arr(items) => forall x | x in items :: Ascending(x)
    case Obj(entries) =>
      && (forall i, k | 0 <= i < k < |entries| :: Precedes(entries[i].key, entries[k].key))
      && forall e | e in entries :: Ascending(e.value)
    case _ => true
  }

  lemma EntryOrder(es: seq<Entry>)
    ensures Increasing(EntryKey, es) <==>
            forall i, k :: 0 <= i < k < |es| ==> Precedes(es[i].key, es[k].key)
  {
    forall i, k | 0 <= i < k < |es|
      ensures LessKey(EntryKey(es[i]), EntryKey(es[k])) <==> Precedes(es[i].key, es[k].key)
    {
      LessExact(es[i].key, es[k].key);
    }
  }

  /** Sorting a dictionary puts the keys of every object in ascending order. */
  lemma {:induction false} SortedAscends(j: Json)
    requires Dictionary(j)
    ensures Ascending(Sorted(j))
    decreases j, 1
  {
    match j
    case Arr(items) =>
      SortedItemsAt(items);
      forall i | 0 <= i < |items|
        ensures Ascending(SortedItems(items)[i])
      {
        assert items[i] in items;
        SortedAscends(items[i]);
      }
    case Obj(entries) =>
      SortedEntriesAscend(entries);
    case _ =>
  }

  lemma {:induction false} SortedEntriesAscend(entries: seq<Entry>)
    requires Dictionary(Obj(entries))
    ensures Ascending(Obj(SortedList(entries)))
    decreases entries, 1
  {
    SortedEntries(entries);
    EntryOrder(SortedList(entries));
    forall e | e in SortedList(entries)
      ensures Ascending(e.value)
    {
      var i :| 0 <= i < |entries| && e == Entry(entries[i].key, Sorted(entries[i].value));
      assert entries[i] in entries;
      SortedAscends(entries[i].value);
    }
  }

  /** What is in ascending order already is left as it is. */
  lemma {:induction false} AscendingIsSorted(j: Json)
    requires Ascending(j)
    ensures Sorted(j) == j
    decreases j
  {
    match j
    case Arr(items) =>
      SortedItemsAt(items);
      forall i | 0 <= i < |items|
        ensures SortedItems(items)[i] == items[i]
      {
        assert items[i] in items;
        AscendingIsSorted(items[i]);
      }
      assert SortedItems(items) == items;
    case Obj(entries) =>
      SortedValuesAt(entries);
      forall i | 0 <= i < |entries|
        ensures SortedValues(entries)[i] == entries[i]
      {
        assert entries[i] in entries;
        AscendingIsSorted(entries[i].value);
      }
      assert SortedValues(entries) == entries;
      EntryOrder(entries);
      SortFixedPoint(EntryKey, entries);
    case _ =>
  }

  // ---------------------------------------------------------------- the text, by literals

  /** The bytes of an ASCII literal. */
  function Ascii(s: string): (b: Bytes)
    requires forall i :: 0 <= i < |s| ==> s[i] < 128 as char
    ensures |b| == |s| && forall i :: 0 <= i < |s| ==> b[i] == s[i] as int
  {
    seq(|s|, i requires 0 <= i < |s| => s[i] as int)
  }

  /** sep.join(parts). */
  function Join(sep: Bytes, parts: seq<Bytes>): Bytes {
    if parts == [] then []
    else if |parts| == 1 then parts[0]
    else parts[0] + sep + Join(sep, parts[1..])
  }

  /** How many decimal digits a number has. */
  function DigitCount(n: nat): nat { if n < 10 then 1 else 1 + DigitCount(n / 10) }

  function Decimal(n: nat): Bytes {
    seq(DigitCount(n), k requires 0 <= k < DigitCount(n) => DecimalDigit(n, DigitCount(n) - 1 - k))
  }

  /** The digit of n that stands before k others. */
  function DecimalDigit(n: nat, k: nat): Byte {
    if k == 0 then Ascii("0123456789")[n % 10] else DecimalDigit(n / 10, k - 1)
  }

  /** Four lower-case hexadecimal digits. */
  function Hex4(u: int): Bytes
    requires 0 <= u < 0x1_0000
  {
    var d := Ascii("0123456789abcdef");
    [d[u / 0x1000], d[u / 0x100 % 0x10], d[u / 0x10 % 0x10], d[u % 0x10]]
  }

  /** One code point of a string. */
  function SpeltChar(c: CodePoint): Bytes {
    if c == 0x22 then Ascii("\\\"")
    else if c == 0x5C then Ascii("\\\\")
    else if c == 0x08 then Ascii("\\b")
    else if c == 0x0C then Ascii("\\f")
    else if c == 0x0A then Ascii("\\n")
    else if c == 0x0D then Ascii("\\r")
    else if c == 0x09 then Ascii("\\t")
    else if 0x20 <= c <= 0x7E then [c]
    else if c <= 0xFFFF then Ascii("\\u") + Hex4(c)
    else Ascii("\\u") + Hex4(0xD800 + (c - 0x1_0000) / 0x400) + Ascii("\\u") + Hex4(0xDC00 + (c - 0x1_0000) % 0x400)
  }

  function SpeltText(s: Text): Bytes {
    Ascii("\"") + Join([], seq(|s|, i requires 0 <= i < |s| => SpeltChar(s[i]))) + Ascii("\"")
  }

  function SpeltSign(negative: bool): Bytes { if negative then Ascii("-") else [] }

  function SpeltExponent(e: Exponent): Bytes {
    Ascii(if e.capital then "E" else "e")
    + Ascii(if e.sign == None then "" else if e.sign == Some(true) then "-" else "+")
    + e.digits
  }

  function SpeltFloat(f: FloatLit): Bytes {
    match f
    case Fraction(negative, whole, fraction, exponent) =>
      SpeltSign(negative) + Decimal(whole) + Ascii(".") + fraction
      + if exponent == None then [] else SpeltExponent(exponent.value)
    case Scaled(negative, whole, power) => SpeltSign(negative) + Decimal(whole) + SpeltExponent(power)
    case NotANumber => Ascii("NaN")
    case Infinite(negative) => SpeltSign(negative) + Ascii("Infinity")
  }

  /** The whole text of a value, its entries in the order given. */
  function Spelt(j: Json): Bytes
    decreases j
  {
    match j
    case Null => Ascii("null")
    case Bool(b) => Ascii(if b then "true" else "false")
    case Int(n) => SpeltSign(n < 0) + Decimal(if n < 0 then -n else n)
    case Float(f) => SpeltFloat(f)
    case Str(s) => SpeltText(s)
    case Arr(items) =>
      Ascii("[") + Join(Ascii(","), seq(|items|, i requires 0 <= i < |items| => Spelt(items[i]))) + Ascii("]")
    case Obj(entries) =>
      Ascii("{")
      + Join(Ascii(","), seq(|entries|, i requires 0 <= i < |entries| =>
                               SpeltText(entries[i].key) + Ascii(":") + Spelt(entries[i].value)))
      + Ascii("}")
  }

  lemma ShortLiterals()
    ensures Ascii("\\\"") == [92, 34] && Ascii("\\\\") == [92, 92]
    ensures Ascii("\\b") == [92, 98] && Ascii("\\f") == [92, 102]
    ensures Ascii("\\n") == [92, 110] && Ascii("\\r") == [92, 114] && Ascii("\\t") == [92, 116]
  {
  }

  lemma ShortSpelt(c: CodePoint)
    requires c in {0x22, 0x5C, 0x08, 0x0C, 0x0A, 0x0D, 0x09}
    ensures ShortEscape(c).Some? && [BACKSLASH, ShortEscape(c).value] == SpeltChar(c)
  {
    ShortLiterals();
  }

  lemma EscapeSpelt(c: CodePoint)
    ensures Escape(c) == SpeltChar(c)
  {
    if c in {0x22, 0x5C, 0x08, 0x0C, 0x0A, 0x0D, 0x09} {
      ShortSpelt(c);
    } else if c < 0x1_0000 {
      UnitSpelt(c);
    } else {
      UnitSpelt(HighUnit(c));
      UnitSpelt(LowUnit(c));
    }
  }

  lemma UnitSpelt(u: int)
    requires 0 <= u < 0x1_0000
    ensures UnitEscape(u) == Ascii("\\u") + Hex4(u)
  {
    HexSpelt(u / 4096);
    HexSpelt(u / 256 % 16);
    HexSpelt(u / 16 % 16);
    HexSpelt(u % 16);
  }

  lemma HexSpelt(d: int)
    requires 0 <= d < 16
    ensures HexDigit(d) == Ascii("0123456789abcdef")[d]
  {
  }

  lemma {:induction false} EscapesSpelt(s: Text)
    ensures EscapeAll(s) == Join([], seq(|s|, i requires 0 <= i < |s| => SpeltChar(s[i])))
  {
    var parts := seq(|s|, i requires 0 <= i < |s| => SpeltChar(s[i]));
    if s == [] {
    } else {
      EscapeSpelt(s[0]);
      EscapesSpelt(s[1..]);
      assert parts[1..] == seq(|s[1..]|, i requires 0 <= i < |s[1..]| => SpeltChar(s[1..][i]));
      JoinStep([], parts);
    }
  }

  lemma JoinStep(sep: Bytes, parts: seq<Bytes>)
    requires parts != []
    ensures Join(sep, parts) == if |parts| == 1 then parts[0] + Join(sep, parts[1..])
                                else parts[0] + sep + Join(sep, parts[1..])
  {
  }

  lemma TextSpelt(s: Text)
    ensures [QUOTE] + EscapeAll(s) + [QUOTE] == SpeltText(s)
  {
    EscapesSpelt(s);
  }

  /** The digits a float literal is written with. */
  lemma DigitBytes(b: Byte)
    ensures IsDigit(b) <==> b in Ascii("0123456789")
  {
    if IsDigit(b) {
      assert Ascii("0123456789")[b - 48] == b;
    }
  }

  lemma DigitChar(d: nat)
    requires d < 10
    ensures Ascii("0123456789")[d] == 48 + d
  {
  }

  lemma {:induction false} DigitsSpelt(n: nat)
    ensures Digits(n) == Decimal(n)
  {
    DigitChar(n % 10);
    if n < 10 {
      assert Decimal(n)[0] == DecimalDigit(n, 0);
    } else {
      DigitsSpelt(n / 10);
      forall k | 0 <= k < DigitCount(n)
        ensures (Decimal(n / 10) + [48 + n % 10])[k] == Decimal(n)[k]
      {
        DecimalStep(n, k);
      }
      assert Decimal(n / 10) + [48 + n % 10] == Decimal(n);
    }
  }

  lemma DecimalStep(n: nat, k: nat)
    requires n >= 10 && k < DigitCount(n)
    ensures Decimal(n)[k] == if k < DigitCount(n / 10) then Decimal(n / 10)[k] else 48 + n % 10
  {
    DigitChar(n % 10);
    assert DigitCount(n) == 1 + DigitCount(n / 10);
    assert Decimal(n)[k] == DecimalDigit(n, DigitCount(n) - 1 - k);
  }

  lemma ExponentSpelt(e: Exponent)
    ensures PrintExponent(e) == SpeltExponent(e)
  {
  }

  lemma FractionSpelt(negative: bool, whole: nat, fraction: DigitText, exponent: Option<Exponent>)
    ensures PrintFloat(Fraction(negative, whole, fraction, exponent))
         == SpeltFloat(Fraction(negative, whole, fraction, exponent))
  {
    DigitsSpelt(whole);
    if exponent.Some? {
      ExponentSpelt(exponent.value);
    }
    var end := if exponent == None then [] else SpeltExponent(exponent.value);
    PointSpelt();
    FivePieces(SpeltSign(negative), Decimal(whole), Ascii("."), fraction, end);
  }

  lemma PointSpelt()
    ensures Ascii(".") == [POINT] && Ascii("-") == [MINUS]
  {
  }

  lemma ScaledSpelt(negative: bool, whole: nat, power: Exponent)
    ensures PrintFloat(Scaled(negative, whole, power)) == SpeltFloat(Scaled(negative, whole, power))
  {
    DigitsSpelt(whole);
    ExponentSpelt(power);
    PointSpelt();
    FivePieces(SpeltSign(negative), Decimal(whole), SpeltExponent(power), [], []);
  }

  lemma NamesSpelt(negative: bool)
    ensures PrintFloat(NotANumber) == SpeltFloat(NotANumber)
    ensures PrintFloat(Infinite(negative)) == SpeltFloat(Infinite(negative))
  {
    PointSpelt();
    assert NAN == Ascii("NaN");
    assert INFINITY == Ascii("Infinity");
  }

  lemma FloatSpelt(f: FloatLit)
    ensures PrintFloat(f) == SpeltFloat(f)
  {
    match f
    case Fraction(negative, whole, fraction, exponent) => FractionSpelt(negative, whole, fraction, exponent);
    case Scaled(negative, whole, power) => ScaledSpelt(negative, whole, power);
    case NotANumber => NamesSpelt(false);
    case Infinite(negative) => NamesSpelt(negative);
  }

  lemma FivePieces(a: Bytes, b: Bytes, c: Bytes, d: Bytes, e: Bytes)
    ensures a + (b + (c + (d + e))) == a + b + c + d + e
    ensures a + (b + c) == a + b + c
  {
  }

  /** Printing is the spelling given by the literals. */
  lemma {:induction false} PrintSpelt(j: Json)
    ensures Print(j) == Spelt(j)
    decreases j
  {
    match j
    case Arr(items) => if items != [] { ItemsSpelt(items); }
    case Obj(entries) => if entries != [] { EntriesSpelt(entries); }
    case _ => ScalarSpelt(j);
  }

  lemma ScalarSpelt(j: Json)
    requires !j.Arr? && !j.Obj?
    ensures Print(j) == Spelt(j)
  {
    match j
    case Int(n) => DigitsSpelt(if n < 0 then -n else n);
    case Float(f) => FloatSpelt(f);
    case Str(s) => TextSpelt(s);
    case _ =>
  }

  lemma {:induction false} ItemsSpelt(items: seq<Json>)
    requires items != []
    ensures PrintItems(items) == Join(Ascii(","), seq(|items|, i requires 0 <= i < |items| => Spelt(items[i])))
    decreases items
  {
    var parts := seq(|items|, i requires 0 <= i < |items| => Spelt(items[i]));
    PrintSpelt(items[0]);
    if |items| == 1 {
    } else {
      var rest := items[1..];
      ItemsSpelt(rest);
      assert parts[1..] == seq(|rest|, i requires 0 <= i < |rest| => Spelt(rest[i]));
    }
  }

  lemma {:induction false} EntriesSpelt(entries: seq<Entry>)
    requires entries != []
    ensures PrintEntries(entries)
         == Join(Ascii(","), seq(|entries|, i requires 0 <= i < |entries| =>
                                   SpeltText(entries[i].key) + Ascii(":") + Spelt(entries[i].value)))
    decreases entries
  {
    var parts := seq(|entries|, i requires 0 <= i < |entries| =>
                       SpeltText(entries[i].key) + Ascii(":") + Spelt(entries[i].value));
    PrintSpelt(entries[0].value);
    TextSpelt(entries[0].key);
    assert PrintEntry(entries[0]) == parts[0];
    if |entries| == 1 {
    } else {
      var rest := entries[1..];
      EntriesSpelt(rest);
      assert parts[1..] == seq(|rest|, i requires 0 <= i < |rest| =>
                                 SpeltText(rest[i].key) + Ascii(":") + Spelt(rest[i].value));
    }
  }

  /** The canonical bytes of a dictionary are the spelling of the same value with every object's keys ascending. */
  lemma CanonicalSpelt(j: Json)
    requires Dictionary(j)
    ensures Canonical(j) == Spelt(Sorted(j)) && Ascending(Sorted(j)) && SameValue(Sorted(j), j)
  {
    PrintSpelt(Sorted(j));
    SortedAscends(j);
    SortedDictionary(j);
    SameValueSorted(Sorted(j), j);
  }

  // ---------------------------------------------------------------- the documents that are accepted

  /** No text in the value, keys included, has a code point of the range D800 to DBFF directly before one of the range
      DC00 to DFFF. */
  ghost predicate Unpaired(j: Json) {
    match j
    case Str(s) => UnpairedText(s)
    case Arr(items) => forall x | x in items :: Unpaired(x)
    case Obj(entries) => forall e | e in entries :: UnpairedText(e.key) && Unpaired(e.value)
    case _ => true
  }

  ghost predicate UnpairedText(s: Text) {
    forall i :: 0 < i < |s| && 0xD800 <= s[i - 1] <= 0xDBFF ==> !(0xDC00 <= s[i] <= 0xDFFF)
  }

  lemma UnpairedTextExact(s: Text)
    ensures UnpairedText(s) <==> JoinSurrogates(s) == s
  {
    JoinIdentity(s);
    if UnpairedText(s) {
      forall i | 0 <= i < |s| - 1
        ensures !(IsHigh(s[i]) && IsLow(s[i + 1]))
      {
        assert s[i + 1 - 1] == s[i];
      }
    }
  }

  lemma {:induction false} UnpairedExact(j: Json)
    ensures Unpaired(j) <==> PairFree(j)
    decreases j
  {
    match j
    case Str(s) => UnpairedTextExact(s);
    case Arr(items) =>
      PairFreeItems(items);
      forall x | x in items
        ensures Unpaired(x) <==> PairFree(x)
      {
        UnpairedExact(x);
      }
    case Obj(entries) =>
      PairFreeEntries(entries);
      forall e | e in entries
        ensures UnpairedText(e.key) && Unpaired(e.value) <==> JoinSurrogates(e.key) == e.key && PairFree(e.value)
      {
        UnpairedTextExact(e.key);
        UnpairedExact(e.value);
      }
    case _ =>
  }

  lemma {:induction false} AscendingIsDictionary(j: Json)
    requires Ascending(j)
    ensures Dictionary(j)
    decreases j
  {
    match j
    case Arr(items) =>
      forall x | x in items
        ensures Dictionary(x)
      {
        AscendingIsDictionary(x);
      }
    case Obj(entries) =>
      forall i, k | 0 <= i < k < |entries|
        ensures entries[i].key != entries[k].key
      {
        LessExact(entries[i].key, entries[k].key);
        LessOrder(entries[i].key, [], []);
      }
      forall e | e in entries
        ensures Dictionary(e.value)
      {
        AscendingIsDictionary(e.value);
      }
    case _ =>
  }

  /** The strict reader answers an object exactly for that object's spelling with ascending keys: its texts unpaired,
      its floats under the literals written for them. */
  lemma DocumentSpelt(repr: FloatRepr, raw: Bytes, j: Json)
    ensures Document(repr, raw) == Some(j) <==>
            j.Obj? && Ascending(j) && Unpaired(j) && Settled(repr, j) && Spelt(j) == raw
  {
    UnpairedExact(j);
    PrintSpelt(j);
    if Document(repr, raw) == Some(j) {
      DocumentIsCanonical(repr, raw);
      SortedAscends(j);
    }
    if j.Obj? && Ascending(j) && Unpaired(j) && Settled(repr, j) && Spelt(j) == raw {
      AscendingIsDictionary(j);
      AscendingIsSorted(j);
      DocumentExact(repr, raw);
      assert PlainObject(j);
    }
  }

  /** Two keys come out in order, whichever was inserted first. */
  lemma TwoKeysSpelt(x: nat, y: nat)
    requires x < 10 && y < 10
    ensures var a, b := Entry(T("a"), Int(x)), Entry(T("b"), Int(y));
            Canonical(Obj([b, a])) == Canonical(Obj([a, b]))
              == Ascii("{\"a\":") + [48 + x] + Ascii(",\"b\":") + [48 + y] + Ascii("}")
  {
    var a, b := Entry(T("a"), Int(x)), Entry(T("b"), Int(y));
    LiteralsDiffer("a", "b");
    InsertionOrderIrrelevant([b, a], [a, b]);
    assert Precedes(a.key, b.key) by {
      assert a.key[..0] == b.key[..0];
    }
    AscendingIsSorted(Obj([a, b]));
    TwoEntriesPrinted(a, b, x, y);
  }

  lemma TwoEntriesPrinted(a: Entry, b: Entry, x: nat, y: nat)
    requires x < 10 && y < 10 && a == Entry(T("a"), Int(x)) && b == Entry(T("b"), Int(y))
    ensures Print(Obj([a, b])) == Ascii("{\"a\":") + [48 + x] + Ascii(",\"b\":") + [48 + y] + Ascii("}")
  {
    OneEntryPrinted(a, 97, x);
    OneEntryPrinted(b, 98, y);
    assert [a, b][1..] == [b];
    assert PrintEntries([b]) == PrintEntry(b);
  }

  lemma OneEntryPrinted(e: Entry, letter: CodePoint, x: nat)
    requires x < 10 && 97 <= letter <= 98 && e == Entry([letter], Int(x))
    ensures PrintEntry(e) == [34, letter, 34, 58, 48 + x]
  {
    assert [letter][1..] == [];
    assert EscapeAll([letter]) == [letter];
  }
}
