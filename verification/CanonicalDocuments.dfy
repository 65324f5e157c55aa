/**
 What the canonical bytes identify: two values print alike exactly when they are the same value, and
 the strict reader accepts exactly the canonical bytes of an object.
 */
module CanonicalDocuments {
  import opened Prelude
  import opened Texts
  import opened CanonicalJson

  /** No object anywhere in the value repeats a key: what a dictionary guarantees. */
  predicate Dictionary(j: Json) {
    match j
    case Arr(items) => forall x | x in items :: Dictionary(x)
    case Obj(entries) =>
      && (forall i, k | 0 <= i < k < |entries| :: entries[i].key != entries[k].key)
      && forall e | e in entries :: Dictionary(e.value)
    case _ => true
  }

  /** Equality of values as the program compares them: the order of an object's entries does not matter.  Floats
      are compared by the literal that is written for them. */
  ghost predicate SameValue(a: Json, b: Json)
    decreases a
  {
    match (a, b)
    case (Arr(xs), Arr(ys)) => |xs| == |ys| && forall i | 0 <= i < |xs| :: SameValue(xs[i], ys[i])
    case (Obj(es), Obj(fs)) =>
      && Keys(es) == Keys(fs)
      && forall i, k | 0 <= i < |es| && 0 <= k < |fs| && es[i].key == fs[k].key ::
           SameValue(es[i].value, fs[k].value)
    case _ => a == b
  }

  /** Lists are the same value when their items are, in order. */
  lemma ListSame(xs: seq<Json>, ys: seq<Json>)
    ensures SameValue(Arr(xs), Arr(ys)) <==> |xs| == |ys| && forall i :: 0 <= i < |xs| ==> SameValue(xs[i], ys[i])
  {
  }

  ghost function Keys(entries: seq<Entry>): set<Text> {
    set e | e in entries :: e.key
  }

  /** No text in the value holds a high surrogate directly before a low one. */
  ghost predicate PairFree(j: Json) { Joined(j) == j }

  ghost predicate NoAdjacentSurrogates(s: Text) {
    forall i :: 0 <= i < |s| - 1 ==> !(IsHigh(s[i]) && IsLow(s[i + 1]))
  }

  // ---------------------------------------------------------------- adjacent surrogates

  lemma {:induction false} JoinLeavesNone(s: Text)
    ensures NoAdjacentSurrogates(JoinSurrogates(s))
    ensures s != [] ==> JoinSurrogates(s) != [] && (IsLow(JoinSurrogates(s)[0]) ==> IsLow(s[0]))
    decreases |s|
  {
    if s == [] {
    } else if |s| >= 2 && IsHigh(s[0]) && IsLow(s[1]) {
      JoinLeavesNone(s[2..]);
    } else {
      JoinLeavesNone(s[1..]);
    }
  }

  /** A text survives printing and reading exactly when it has no adjacent surrogates. */
  lemma {:induction false} JoinIdentity(s: Text)
    ensures JoinSurrogates(s) == s <==> NoAdjacentSurrogates(s)
  {
    if NoAdjacentSurrogates(s) {
      JoinNothing(s);
    }
    JoinLeavesNone(s);
  }

  lemma {:induction false} JoinNothing(s: Text)
    requires NoAdjacentSurrogates(s)
    ensures JoinSurrogates(s) == s
  {
    if s == [] {
    } else {
      assert |s| >= 2 ==> !(IsHigh(s[0]) && IsLow(s[0 + 1]));
      JoinNothing(s[1..]);
    }
  }

  lemma {:induction false} JoinTwice(j: Json)
    ensures Joined(Joined(j)) == Joined(j)
    decreases j, 1
  {
    match j
    case Str(s) => JoinLeavesNone(s); JoinIdentity(JoinSurrogates(s));
    case Arr(items) => JoinItemsTwice(items);
    case Obj(entries) => JoinEntriesTwice(entries);
    case _ =>
  }

  lemma {:induction false} JoinItemsTwice(items: seq<Json>)
    ensures JoinedItems(JoinedItems(items)) == JoinedItems(items)
    decreases items, 0
  {
    if items == [] {
    } else {
      JoinTwice(items[0]);
      JoinItemsTwice(items[1..]);
      assert JoinedItems(items)[1..] == JoinedItems(items[1..]);
    }
  }

  lemma {:induction false} JoinEntriesTwice(entries: seq<Entry>)
    ensures JoinedEntries(JoinedEntries(entries)) == JoinedEntries(entries)
    decreases entries, 0
  {
    if entries == [] {
    } else {
      JoinLeavesNone(entries[0].key);
      JoinIdentity(JoinSurrogates(entries[0].key));
      JoinTwice(entries[0].value);
      JoinEntriesTwice(entries[1..]);
      assert JoinedEntries(entries)[1..] == JoinedEntries(entries[1..]);
    }
  }

  /** A code point beyond the basic plane prints as its two surrogates would. */
  lemma EscapePair(high: int, low: int)
    requires IsHigh(high) && IsLow(low)
    ensures Escape(FromUnits(high, low)) == Escape(high) + Escape(low)
  {
    var c := FromUnits(high, low);
    assert HighUnit(c) == high && LowUnit(c) == low;
  }

  lemma {:induction false} EscapeJoined(s: Text)
    ensures EscapeAll(JoinSurrogates(s)) == EscapeAll(s)
    decreases |s|
  {
    if s == [] {
    } else if |s| >= 2 && IsHigh(s[0]) && IsLow(s[1]) {
      EscapeJoined(s[2..]);
      EscapeTwo(s);
      EscapePair(s[0], s[1]);
      EscapeCons(FromUnits(s[0], s[1]), JoinSurrogates(s[2..]));
    } else {
      EscapeJoined(s[1..]);
      EscapeCons(s[0], JoinSurrogates(s[1..]));
    }
  }

  lemma {:induction false} PrintJoined(j: Json)
    ensures Print(Joined(j)) == Print(j)
    decreases j, 1
  {
    match j
    case Str(s) => EscapeJoined(s);
    case Arr(items) => if items != [] { PrintItemsJoined(items); }
    case Obj(entries) => if entries != [] { PrintEntriesJoined(entries); }
    case _ =>
  }

  lemma {:induction false} PrintItemsJoined(items: seq<Json>)
    requires items != []
    ensures PrintItems(JoinedItems(items)) == PrintItems(items)
    decreases items, 0
  {
    PrintJoined(items[0]);
    if |items| == 1 {
    } else {
      PrintItemsJoined(items[1..]);
      assert JoinedItems(items)[1..] == JoinedItems(items[1..]);
    }
  }

  lemma {:induction false} PrintEntriesJoined(entries: seq<Entry>)
    requires entries != []
    ensures PrintEntries(JoinedEntries(entries)) == PrintEntries(entries)
    decreases entries, 0
  {
    EscapeJoined(entries[0].key);
    PrintJoined(entries[0].value);
    assert PrintEntry(JoinedEntries(entries)[0]) == PrintEntry(entries[0]);
    if |entries| == 1 {
    } else {
      PrintEntriesJoined(entries[1..]);
      assert JoinedEntries(entries)[1..] == JoinedEntries(entries[1..]);
    }
  }

  /** Exactly which values print to the same bytes, with no condition on the values. */
  lemma PrintAlike(a: Json, b: Json)
    ensures Print(a) == Print(b) <==> Joined(a) == Joined(b)
  {
    PrintJoined(a);
    PrintJoined(b);
    ParsePrinted(a, []);
    ParsePrinted(b, []);
    assert Print(a) + [] == Print(a) && Print(b) + [] == Print(b);
  }

  /** The same of canonical bytes, for whole values and with no condition on them. */
  lemma CanonicalAlike(a: Json, b: Json)
    ensures Canonical(a) == Canonical(b) <==> Joined(Sorted(a)) == Joined(Sorted(b))
  {
    PrintAlike(Sorted(a), Sorted(b));
  }

  // ---------------------------------------------------------------- sorting and sameness

  lemma {:induction false} SortedItemsAt(items: seq<Json>)
    ensures forall i :: 0 <= i < |items| ==> SortedItems(items)[i] == Sorted(items[i])
  {
    if items == [] {
    } else {
      SortedItemsAt(items[1..]);
    }
  }

  lemma {:induction false} SortedValuesAt(entries: seq<Entry>)
    ensures forall i :: 0 <= i < |entries| ==>
              SortedValues(entries)[i] == Entry(entries[i].key, Sorted(entries[i].value))
  {
    if entries == [] {
    } else {
      SortedValuesAt(entries[1..]);
    }
  }

  /** The sorted entries of a dictionary: strictly increasing, one for each entry. */
  lemma SortedEntries(entries: seq<Entry>)
    requires Dictionary(Obj(entries))
    ensures Increasing(EntryKey, SortedList(entries))
    ensures forall e :: e in SortedList(entries) <==> HasSorted(entries, e)
  {
    SortedValuesAt(entries);
    var values := SortedValues(entries);
    forall i, k | 0 <= i < k < |values|
      ensures EntryKey(values[i]) != EntryKey(values[k])
    {
      assert EntryKey(values[i])[0] == entries[i].key && EntryKey(values[k])[0] == entries[k].key;
    }
    SortCorrect(EntryKey, values);
    forall e
      ensures e in values <==> HasSorted(entries, e)
    {
      if e in values {
        var i :| 0 <= i < |values| && values[i] == e;
      }
      if HasSorted(entries, e) {
        var i :| 0 <= i < |entries| && e == Entry(entries[i].key, Sorted(entries[i].value));
        assert values[i] == e;
      }
    }
  }

  ghost predicate HasSorted(entries: seq<Entry>, e: Entry) {
    exists i :: 0 <= i < |entries| && e == Entry(entries[i].key, Sorted(entries[i].value))
  }

  lemma KeyAt(entries: seq<Entry>, k: Text)
    ensures k in Keys(entries) <==> exists i :: 0 <= i < |entries| && entries[i].key == k
  {
    if k in Keys(entries) {
      var e :| e in entries && e.key == k;
    }
    if exists i :: 0 <= i < |entries| && entries[i].key == k {
      var i :| 0 <= i < |entries| && entries[i].key == k;
      assert entries[i] in entries;
    }
  }

  /** Two dictionaries are the same value exactly when sorting makes them identical. */
  lemma {:induction false} SameValueSorted(a: Json, b: Json)
    requires Dictionary(a) && Dictionary(b)
    ensures SameValue(a, b) <==> Sorted(a) == Sorted(b)
    decreases a
  {
    match (a, b)
    case (Arr(xs), Arr(ys)) =>
      SortedItemsAt(xs);
      SortedItemsAt(ys);
      if |xs| == |ys| {
        forall i | 0 <= i < |xs|
          ensures SameValue(xs[i], ys[i]) <==> SortedItems(xs)[i] == SortedItems(ys)[i]
        {
          assert xs[i] in xs && ys[i] in ys;
          SameValueSorted(xs[i], ys[i]);
        }
      }
    case (Obj(es), Obj(fs)) =>
      forall i, k | 0 <= i < |es| && 0 <= k < |fs|
        ensures SameValue(es[i].value, fs[k].value) <==> Sorted(es[i].value) == Sorted(fs[k].value)
      {
        assert es[i] in es && fs[k] in fs;
        SameValueSorted(es[i].value, fs[k].value);
      }
      SameEntriesSorted(es, fs);
    case _ =>
  }

  /** Same keys, and under each key values with the same sorted form. */
  ghost predicate SameEntries(es: seq<Entry>, fs: seq<Entry>) {
    && Keys(es) == Keys(fs)
    && forall i, k :: 0 <= i < |es| && 0 <= k < |fs| && es[i].key == fs[k].key ==>
         Sorted(es[i].value) == Sorted(fs[k].value)
  }

  lemma SameEntriesSorted(es: seq<Entry>, fs: seq<Entry>)
    requires Dictionary(Obj(es)) && Dictionary(Obj(fs))
    ensures SameEntries(es, fs) <==> SortedList(es) == SortedList(fs)
  {
    SortedEntries(es);
    SortedEntries(fs);
    if SameEntries(es, fs) {
      forall e
        ensures e in SortedList(es) <==> e in SortedList(fs)
      {
        if HasSorted(es, e) { SameEntriesIncluded(es, fs, e); }
        if HasSorted(fs, e) { SameEntriesIncluded(fs, es, e); }
      }
      IncreasingUnique(EntryKey, SortedList(es), SortedList(fs));
    }
    if SortedList(es) == SortedList(fs) {
      SortedEqualKeys(es, fs);
      forall i, k | 0 <= i < |es| && 0 <= k < |fs| && es[i].key == fs[k].key
        ensures Sorted(es[i].value) == Sorted(fs[k].value)
      {
        var e, f := Entry(es[i].key, Sorted(es[i].value)), Entry(fs[k].key, Sorted(fs[k].value));
        assert HasSorted(es, e) && HasSorted(fs, f);
        IncreasingKeyUnique(SortedList(es), e, f);
      }
    }
  }

  lemma SameEntriesIncluded(es: seq<Entry>, fs: seq<Entry>, e: Entry)
    requires SameEntries(es, fs) && HasSorted(es, e)
    ensures HasSorted(fs, e)
  {
    var i :| 0 <= i < |es| && e == Entry(es[i].key, Sorted(es[i].value));
    KeyAt(es, es[i].key);
    KeyAt(fs, es[i].key);
    var k :| 0 <= k < |fs| && fs[k].key == es[i].key;
    assert e == Entry(fs[k].key, Sorted(fs[k].value));
  }

  lemma IncreasingKeyUnique(list: seq<Entry>, e: Entry, f: Entry)
    requires Increasing(EntryKey, list) && e in list && f in list && e.key == f.key
    ensures e == f
  {
    var p :| 0 <= p < |list| && list[p] == e;
    var q :| 0 <= q < |list| && list[q] == f;
    LessKeyOrder(EntryKey(e), [], []);
    assert EntryKey(e) == EntryKey(f);
  }

  lemma SortedEqualKeys(es: seq<Entry>, fs: seq<Entry>)
    requires Dictionary(Obj(es)) && Dictionary(Obj(fs))
    requires SortedList(es) == SortedList(fs)
    ensures Keys(es) == Keys(fs)
  {
    SortedKeysIncluded(es, fs);
    SortedKeysIncluded(fs, es);
  }

  lemma SortedKeysIncluded(es: seq<Entry>, fs: seq<Entry>)
    requires Dictionary(Obj(es)) && Dictionary(Obj(fs))
    requires SortedList(es) == SortedList(fs)
    ensures Keys(es) <= Keys(fs)
  {
    SortedEntries(es);
    SortedEntries(fs);
    forall k | k in Keys(es)
      ensures k in Keys(fs)
    {
      KeyAt(es, k);
      var i :| 0 <= i < |es| && es[i].key == k;
      var e := Entry(es[i].key, Sorted(es[i].value));
      assert HasSorted(es, e) && e in SortedList(fs);
      var n :| 0 <= n < |fs| && e == Entry(fs[n].key, Sorted(fs[n].value));
      KeyAt(fs, k);
    }
  }

  // ---------------------------------------------------------------- canonical bytes

  lemma {:induction false} JoinedItemsAt(items: seq<Json>)
    ensures forall i :: 0 <= i < |items| ==> JoinedItems(items)[i] == Joined(items[i])
  {
    if items == [] {
    } else {
      JoinedItemsAt(items[1..]);
    }
  }

  lemma PairFreeItems(items: seq<Json>)
    ensures JoinedItems(items) == items <==> forall x :: x in items ==> PairFree(x)
  {
    JoinedItemsAt(items);
    if forall x :: x in items ==> PairFree(x) {
      forall i | 0 <= i < |items|
        ensures JoinedItems(items)[i] == items[i]
      {
        assert items[i] in items;
      }
    }
  }

  lemma {:induction false} PairFreeEntries(entries: seq<Entry>)
    ensures JoinedEntries(entries) == entries <==>
            forall e :: e in entries ==> JoinSurrogates(e.key) == e.key && PairFree(e.value)
  {
    if entries == [] {
    } else {
      PairFreeEntries(entries[1..]);
      assert entries == [entries[0]] + entries[1..];
    }
  }

  lemma {:induction false} PairFreeSorted(j: Json)
    requires PairFree(j)
    ensures PairFree(Sorted(j))
    decreases j, 1
  {
    match j
    case Arr(items) => PairFreeSortedItems(items);
    case Obj(entries) => PairFreeSortedEntries(entries);
    case _ =>
  }

  lemma {:induction false} PairFreeSortedItems(items: seq<Json>)
    requires PairFree(Arr(items))
    ensures PairFree(Arr(SortedItems(items)))
    decreases items, 0
  {
    PairFreeItems(items);
    SortedItemsAt(items);
    forall x | x in SortedItems(items)
      ensures PairFree(x)
    {
      var i :| 0 <= i < |items| && SortedItems(items)[i] == x;
      assert items[i] in items;
      PairFreeSorted(items[i]);
    }
    PairFreeItems(SortedItems(items));
  }

  lemma {:induction false} PairFreeSortedEntries(entries: seq<Entry>)
    requires PairFree(Obj(entries))
    ensures PairFree(Obj(SortedList(entries)))
    decreases entries, 0
  {
    PairFreeEntries(entries);
    SortedValuesAt(entries);
    SortCorrect(EntryKey, SortedValues(entries));
    forall e | e in SortedList(entries)
      ensures JoinSurrogates(e.key) == e.key && PairFree(e.value)
    {
      var i :| 0 <= i < |entries| && SortedValues(entries)[i] == e;
      assert entries[i] in entries;
      PairFreeSorted(entries[i].value);
    }
    PairFreeEntries(SortedList(entries));
  }

  /** The canonical bytes identify the value: equal bytes exactly for equal values. */
  lemma CanonicalIdentifies(a: Json, b: Json)
    requires Dictionary(a) && Dictionary(b)
    requires PairFree(a) && PairFree(b)
    ensures Canonical(a) == Canonical(b) <==> SameValue(a, b)
  {
    SameValueSorted(a, b);
    PairFreeSorted(a);
    PairFreeSorted(b);
    PrintAlike(Sorted(a), Sorted(b));
  }

  /** Without the condition on surrogates two different texts can have the same canonical bytes. */
  lemma CanonicalConfusesSurrogates()
    ensures var pair: Text, single: Text := [0xD83D, 0xDE00], [0x1_F600];
            && !SameValue(Str(pair), Str(single))
            && Canonical(Str(pair)) == Canonical(Str(single))
  {
    var pair: Text, single: Text := [0xD83D, 0xDE00], [0x1_F600];
    assert JoinSurrogates(pair) == single;
    EscapeJoined(pair);
  }

  /** A code point beyond the basic plane is two surrogates when printed. */
  lemma SplitJoins(pre: Text, c: CodePoint, post: Text)
    requires c >= 0x1_0000
    ensures var pair := pre + [HighUnit(c), LowUnit(c)] + post;
            pair != pre + [c] + post && Canonical(Str(pair)) == Canonical(Str(pre + [c] + post))
  {
    SplitEscapes(pre, c, post);
    assert |pre + [HighUnit(c), LowUnit(c)] + post| == |pre + [c] + post| + 1;
  }

  lemma SplitEscapes(pre: Text, c: CodePoint, post: Text)
    requires c >= 0x1_0000
    ensures EscapeAll(pre + [HighUnit(c), LowUnit(c)] + post) == EscapeAll(pre + [c] + post)
  {
    EscapeSplit(pre, [HighUnit(c), LowUnit(c)] + post);
    EscapeSplit(pre, [c] + post);
    PairEscapesAlike(c, post);
    assert pre + [HighUnit(c), LowUnit(c)] + post == pre + ([HighUnit(c), LowUnit(c)] + post);
    assert pre + [c] + post == pre + ([c] + post);
  }

  lemma PairEscapesAlike(c: CodePoint, post: Text)
    requires c >= 0x1_0000
    ensures EscapeAll([HighUnit(c), LowUnit(c)] + post) == EscapeAll([c] + post)
  {
    EscapeTwo([HighUnit(c), LowUnit(c)] + post);
    EscapeCons(c, post);
    assert FromUnits(HighUnit(c), LowUnit(c)) == c;
    EscapePair(HighUnit(c), LowUnit(c));
    assert ([HighUnit(c), LowUnit(c)] + post)[2..] == post;
  }

  lemma {:induction false} EscapeSplit(s: Text, t: Text)
    ensures EscapeAll(s + t) == EscapeAll(s) + EscapeAll(t)
  {
    if s == [] {
      assert s + t == t;
    } else {
      EscapeSplit(s[1..], t);
      assert s + t == [s[0]] + (s[1..] + t);
      EscapeCons(s[0], s[1..] + t);
      Regroup(Escape(s[0]), EscapeAll(s[1..]), EscapeAll(t), []);
    }
  }

  lemma {:induction false} JoinKeepsBasic(t: Text)
    ensures (forall c :: c in JoinSurrogates(t) ==> c < 0x1_0000) ==> JoinSurrogates(t) == t
    decreases |t|
  {
    if t == [] {
    } else if |t| >= 2 && IsHigh(t[0]) && IsLow(t[1]) {
      assert FromUnits(t[0], t[1]) in JoinSurrogates(t);
    } else {
      assert forall c :: c in JoinSurrogates(t[1..]) ==> c in JoinSurrogates(t);
      JoinKeepsBasic(t[1..]);
    }
  }

  /** Which texts no other text shares its canonical bytes with: those without adjacent surrogates and without any
      code point beyond the basic plane. */
  lemma TextIdentityExact(s: Text)
    ensures (forall t: Text :: Canonical(Str(s)) == Canonical(Str(t)) ==> s == t)
       <==> NoAdjacentSurrogates(s) && forall c :: c in s ==> c < 0x1_0000
  {
    JoinIdentity(s);
    if NoAdjacentSurrogates(s) && forall c :: c in s ==> c < 0x1_0000 {
      forall t: Text | Canonical(Str(s)) == Canonical(Str(t))
        ensures s == t
      {
        PrintAlike(Str(s), Str(t));
        JoinKeepsBasic(t);
      }
    } else {
      var t := SharesBytes(s);
    }
  }

  /** A different text with the same canonical bytes, for every text that has one. */
  lemma SharesBytes(s: Text) returns (t: Text)
    requires !NoAdjacentSurrogates(s) || exists c :: c in s && c >= 0x1_0000
    ensures t != s && Canonical(Str(s)) == Canonical(Str(t))
  {
    if !NoAdjacentSurrogates(s) {
      t := JoinSurrogates(s);
      JoinIdentity(s);
      EscapeJoined(s);
    } else {
      var i :| 0 <= i < |s| && s[i] >= 0x1_0000;
      assert s == s[..i] + [s[i]] + s[i + 1..];
      SplitJoins(s[..i], s[i], s[i + 1..]);
      t := s[..i] + [HighUnit(s[i]), LowUnit(s[i])] + s[i + 1..];
    }
  }

  /** Among texts without adjacent surrogates, canonical bytes identify the text. */
  lemma PlainTextsIdentified(s: Text, t: Text)
    requires NoAdjacentSurrogates(s) && NoAdjacentSurrogates(t) && Canonical(Str(s)) == Canonical(Str(t))
    ensures s == t
  {
    JoinIdentity(s);
    JoinIdentity(t);
    PrintAlike(Str(s), Str(t));
  }

  /** The order in which an object's entries were inserted does not reach the canonical bytes. */
  lemma InsertionOrderIrrelevant(es: seq<Entry>, fs: seq<Entry>)
    requires Dictionary(Obj(es)) && Dictionary(Obj(fs))
    requires forall e :: e in es <==> e in fs
    ensures Canonical(Obj(es)) == Canonical(Obj(fs))
  {
    forall i, k | 0 <= i < |es| && 0 <= k < |fs| && es[i].key == fs[k].key
      ensures es[i] == fs[k]
    {
      assert es[i] in fs;
      var n :| 0 <= n < |fs| && fs[n] == es[i];
      assert n == k;
    }
    assert Keys(es) == Keys(fs);
    SameEntriesSorted(es, fs);
  }

  // ---------------------------------------------------------------- the strict reader

  /** The dictionary a list of pairs builds, refused at the first repeated key. */
  method UniquePairs(pairs: seq<Entry>) returns (ok: bool, result: map<Text, Json>)
    ensures ok <==> forall i, k :: 0 <= i < k < |pairs| ==> pairs[i].key != pairs[k].key
    ensures ok ==> result.Keys == Keys(pairs) && forall e :: e in pairs ==> result[e.key] == e.value
  {
    ok, result := true, map[];
    for n := 0 to |pairs|
      invariant ok
      invariant forall i, k :: 0 <= i < k < n ==> pairs[i].key != pairs[k].key
      invariant forall k :: k in result <==> exists i :: 0 <= i < n && pairs[i].key == k
      invariant forall i :: 0 <= i < n ==> pairs[i].key in result && result[pairs[i].key] == pairs[i].value
    {
      if pairs[n].key in result {
        return false, map[];
      }
      result := result[pairs[n].key := pairs[n].value];
    }
    forall k
      ensures k in result <==> k in Keys(pairs)
    {
      KeyAt(pairs, k);
    }
  }

  /** The literal that is written for the float a literal reads as. */
  type FloatRepr = FloatLit -> FloatLit

  /** The value as it is held and written again: every float under its own literal. */
  function Reprinted(repr: FloatRepr, j: Json): Json
    decreases j, 1
  {
    match j
    case Float(f) => Float(repr(f))
    case Arr(items) => Arr(ReprintedItems(repr, items))
    case Obj(entries) => Obj(ReprintedEntries(repr, entries))
    case _ => j
  }

  function ReprintedItems(repr: FloatRepr, items: seq<Json>): (r: seq<Json>)
    ensures |r| == |items|
    decreases items, 0
  {
    if items == [] then [] else [Reprinted(repr, items[0])] + ReprintedItems(repr, items[1..])
  }

  function ReprintedEntries(repr: FloatRepr, entries: seq<Entry>): (r: seq<Entry>)
    ensures |r| == |entries|
    decreases entries, 0
  {
    if entries == [] then []
    else [Entry(entries[0].key, Reprinted(repr, entries[0].value))] + ReprintedEntries(repr, entries[1..])
  }

  /** Every float stands under the literal that is written for it. */
  predicate Settled(repr: FloatRepr, j: Json) {
    match j
    case Float(f) => repr(f) == f
    case Arr(items) => forall x | x in items :: Settled(repr, x)
    case Obj(entries) => forall e | e in entries :: Settled(repr, e.value)
    case _ => true
  }

  /** _document: parse, refuse a repeated key, anything that is not an object, and any non-canonical spelling. */
  function Document(repr: FloatRepr, raw: Bytes): Option<Json> {
    match ParseValue(raw)
    case None => None
    case Some((j, rest)) =>
      if rest == [] && Dictionary(j) && j.Obj? && Canonical(Reprinted(repr, j)) == raw then Some(Reprinted(repr, j))
      else None
  }

  /** An object whose texts and keys survive printing. */
  ghost predicate PlainObject(j: Json) {
    j.Obj? && Dictionary(j) && PairFree(j)
  }

  lemma {:induction false} SortedDictionary(j: Json)
    requires Dictionary(j)
    ensures Dictionary(Sorted(j)) && Sorted(Sorted(j)) == Sorted(j)
    decreases j, 1
  {
    match j
    case Arr(items) =>
      SortedItemsAt(items);
      forall i | 0 <= i < |items|
        ensures Dictionary(Sorted(items[i])) && Sorted(Sorted(items[i])) == Sorted(items[i])
      {
        assert items[i] in items;
        SortedDictionary(items[i]);
      }
      SortedItemsAt(SortedItems(items));
    case Obj(entries) =>
      SortedListDictionary(entries);
    case _ =>
  }

  lemma {:induction false} SortedListDictionary(entries: seq<Entry>)
    requires Dictionary(Obj(entries))
    ensures Dictionary(Obj(SortedList(entries))) && SortedList(SortedList(entries)) == SortedList(entries)
    decreases entries, 1
  {
    SortedEntries(entries);
    var list := SortedList(entries);
    forall e | e in list
      ensures Dictionary(e.value) && Sorted(e.value) == e.value
    {
      var i :| 0 <= i < |entries| && e == Entry(entries[i].key, Sorted(entries[i].value));
      assert entries[i] in entries;
      SortedDictionary(entries[i].value);
    }
    SortFixedPoint(EntryKey, list);
    forall i, k | 0 <= i < k < |list|
      ensures list[i].key != list[k].key
    {
      assert EntryKey(list[i]) != EntryKey(list[k]);
    }
    SortedValuesAt(list);
    assert SortedValues(list) == list;
  }

  lemma {:induction false} ReprintedItemsAt(repr: FloatRepr, items: seq<Json>)
    ensures forall i :: 0 <= i < |items| ==> ReprintedItems(repr, items)[i] == Reprinted(repr, items[i])
  {
    if items == [] {
    } else {
      ReprintedItemsAt(repr, items[1..]);
    }
  }

  lemma {:induction false} ReprintedEntriesAt(repr: FloatRepr, entries: seq<Entry>)
    ensures forall i :: 0 <= i < |entries| ==>
              ReprintedEntries(repr, entries)[i] == Entry(entries[i].key, Reprinted(repr, entries[i].value))
  {
    if entries == [] {
    } else {
      ReprintedEntriesAt(repr, entries[1..]);
    }
  }

  /** A value is written again as it is exactly when its floats are settled. */
  lemma {:induction false} ReprintedSettled(repr: FloatRepr, j: Json)
    ensures Reprinted(repr, j) == j <==> Settled(repr, j)
    decreases j
  {
    match j
    case Arr(items) =>
      ReprintedItemsAt(repr, items);
      forall i | 0 <= i < |items|
        ensures ReprintedItems(repr, items)[i] == items[i] <==> Settled(repr, items[i])
      {
        ReprintedSettled(repr, items[i]);
      }
      SameItems(ReprintedItems(repr, items), items);
    case Obj(entries) =>
      ReprintedEntriesAt(repr, entries);
      forall i | 0 <= i < |entries|
        ensures ReprintedEntries(repr, entries)[i] == entries[i] <==> Settled(repr, entries[i].value)
      {
        ReprintedSettled(repr, entries[i].value);
      }
      SameItems(ReprintedEntries(repr, entries), entries);
    case _ =>
  }

  lemma SameItems<A>(a: seq<A>, b: seq<A>)
    requires |a| == |b|
    ensures a == b <==> forall i :: 0 <= i < |b| ==> a[i] == b[i]
  {
  }

  lemma {:induction false} ReprintedPlain(repr: FloatRepr, j: Json)
    requires Dictionary(j) && PairFree(j)
    ensures Dictionary(Reprinted(repr, j)) && PairFree(Reprinted(repr, j))
    decreases j, 1
  {
    match j
    case Arr(items) => ReprintedPlainItems(repr, items);
    case Obj(entries) => ReprintedPlainEntries(repr, entries);
    case _ =>
  }

  lemma {:induction false} ReprintedPlainItems(repr: FloatRepr, items: seq<Json>)
    requires Dictionary(Arr(items)) && PairFree(Arr(items))
    ensures Dictionary(Arr(ReprintedItems(repr, items))) && PairFree(Arr(ReprintedItems(repr, items)))
    decreases items, 0
  {
    PairFreeItems(items);
    ReprintedItemsAt(repr, items);
    forall x | x in ReprintedItems(repr, items)
      ensures Dictionary(x) && PairFree(x)
    {
      var i :| 0 <= i < |items| && ReprintedItems(repr, items)[i] == x;
      assert items[i] in items;
      ReprintedPlain(repr, items[i]);
    }
    PairFreeItems(ReprintedItems(repr, items));
  }

  lemma {:induction false} ReprintedPlainEntries(repr: FloatRepr, entries: seq<Entry>)
    requires Dictionary(Obj(entries)) && PairFree(Obj(entries))
    ensures Dictionary(Obj(ReprintedEntries(repr, entries))) && PairFree(Obj(ReprintedEntries(repr, entries)))
    decreases entries, 0
  {
    PairFreeEntries(entries);
    ReprintedEntriesAt(repr, entries);
    forall e | e in ReprintedEntries(repr, entries)
      ensures Dictionary(e.value) && PairFree(e.value) && JoinSurrogates(e.key) == e.key
    {
      var i :| 0 <= i < |entries| && ReprintedEntries(repr, entries)[i] == e;
      assert entries[i] in entries;
      ReprintedPlain(repr, entries[i].value);
    }
    PairFreeEntries(ReprintedEntries(repr, entries));
  }

  /** Writing floats under their own literals keeps a sorted value sorted. */
  lemma {:induction false} ReprintedStaysSorted(repr: FloatRepr, j: Json)
    requires Dictionary(j) && Sorted(j) == j
    ensures Sorted(Reprinted(repr, j)) == Reprinted(repr, j)
    decreases j, 1
  {
    match j
    case Arr(items) =>
      SortedItemsAt(items);
      ReprintedItemsAt(repr, items);
      SortedItemsAt(ReprintedItems(repr, items));
      forall i | 0 <= i < |items|
        ensures Sorted(Reprinted(repr, items[i])) == Reprinted(repr, items[i])
      {
        assert items[i] in items;
        ReprintedStaysSorted(repr, items[i]);
      }
      SameItems(SortedItems(ReprintedItems(repr, items)), ReprintedItems(repr, items));
    case Obj(entries) => ReprintedListSorted(repr, entries);
    case _ =>
  }

  /** In a sorted dictionary every value is sorted. */
  lemma SortedListValues(entries: seq<Entry>, k: nat)
    requires Dictionary(Obj(entries)) && SortedList(entries) == entries && k < |entries|
    ensures Sorted(entries[k].value) == entries[k].value
  {
    SortedEntries(entries);
    assert entries[k] in entries;
    var i :| 0 <= i < |entries| && entries[k] == Entry(entries[i].key, Sorted(entries[i].value));
    assert entries[i] in entries;
    IncreasingKeyUnique(entries, entries[i], entries[k]);
  }

  lemma {:induction false} ReprintedListSorted(repr: FloatRepr, entries: seq<Entry>)
    requires Dictionary(Obj(entries)) && SortedList(entries) == entries
    ensures SortedList(ReprintedEntries(repr, entries)) == ReprintedEntries(repr, entries)
    decreases entries, 0
  {
    var again := ReprintedEntries(repr, entries);
    ReprintedEntriesAt(repr, entries);
    SortedValuesAt(again);
    forall i | 0 <= i < |entries|
      ensures SortedValues(again)[i] == again[i]
    {
      assert entries[i] in entries;
      SortedListValues(entries, i);
      ReprintedStaysSorted(repr, entries[i].value);
    }
    SameItems(SortedValues(again), again);
    SortedEntries(entries);
    forall i, k | 0 <= i < k < |again|
      ensures LessKey(EntryKey(again[i]), EntryKey(again[k]))
    {
      assert EntryKey(again[i]) == EntryKey(entries[i]) && EntryKey(again[k]) == EntryKey(entries[k]);
    }
    SortFixedPoint(EntryKey, again);
  }

  lemma {:induction false} SettledSorted(repr: FloatRepr, j: Json)
    requires Settled(repr, j)
    ensures Settled(repr, Sorted(j))
    decreases j, 1
  {
    match j
    case Arr(items) =>
      SortedItemsAt(items);
      forall x | x in SortedItems(items)
        ensures Settled(repr, x)
      {
        var i :| 0 <= i < |items| && SortedItems(items)[i] == x;
        assert items[i] in items;
        SettledSorted(repr, items[i]);
      }
    case Obj(entries) => SettledSortedList(repr, entries);
    case _ =>
  }

  lemma {:induction false} SettledSortedList(repr: FloatRepr, entries: seq<Entry>)
    requires Settled(repr, Obj(entries))
    ensures Settled(repr, Obj(SortedList(entries)))
    decreases entries, 0
  {
    SortedValuesAt(entries);
    SortCorrect(EntryKey, SortedValues(entries));
    forall e | e in SortedList(entries)
      ensures Settled(repr, e.value)
    {
      var i :| 0 <= i < |entries| && SortedValues(entries)[i] == e;
      assert entries[i] in entries;
      SettledSorted(repr, entries[i].value);
    }
  }

  /** What is accepted is plain, settled and sorted, and has the bytes it was read from. */
  lemma DocumentIsCanonical(repr: FloatRepr, raw: Bytes)
    requires Document(repr, raw).Some?
    ensures var v := Document(repr, raw).value;
            PlainObject(v) && Settled(repr, v) && Sorted(v) == v && Canonical(v) == raw
  {
    var j := ParseValue(raw).value.0;
    var v := Reprinted(repr, j);
    ParsePrinted(Sorted(v), []);
    assert Print(Sorted(v)) + [] == raw;
    JoinTwice(Sorted(v));
    ReprintedPlain(repr, j);
    PairFreeSorted(v);
    SortedDictionary(v);
    ReprintedStaysSorted(repr, j);
    ReprintedSettled(repr, j);
  }

  /** The strict reader accepts exactly the canonical bytes of a plain object whose floats are settled, and answers
      that object sorted. */
  lemma DocumentExact(repr: FloatRepr, raw: Bytes)
    ensures Document(repr, raw).Some? <==> exists j :: PlainObject(j) && Settled(repr, j) && Canonical(j) == raw
    ensures forall j :: PlainObject(j) && Settled(repr, j) && Canonical(j) == raw ==>
              Document(repr, raw) == Some(Sorted(j))
  {
    if Document(repr, raw).Some? {
      DocumentIsCanonical(repr, raw);
      assert PlainObject(Document(repr, raw).value);
    }
    forall j | PlainObject(j) && Settled(repr, j) && Canonical(j) == raw
      ensures Document(repr, raw) == Some(Sorted(j))
    {
      PairFreeSorted(j);
      SortedDictionary(j);
      ParsePrinted(Sorted(j), []);
      assert Print(Sorted(j)) + [] == raw;
      SettledSorted(repr, j);
      ReprintedSettled(repr, Sorted(j));
    }
  }

  /** A float stands in an accepted document exactly under the literal that is written for it; the names for
      infinities and for what is no number are literals like any other. */
  lemma FloatAccepted(repr: FloatRepr, key: Text, f: FloatLit)
    requires NoAdjacentSurrogates(key)
    ensures Document(repr, Canonical(Obj([Entry(key, Float(f))]))).Some? <==> repr(f) == f
  {
    var j := Obj([Entry(key, Float(f))]);
    JoinIdentity(key);
    PairFreeEntries(j.entries);
    assert PlainObject(j);
    assert repr(f) == f ==> Settled(repr, j);
    DocumentExact(repr, Canonical(j));
    if Document(repr, Canonical(j)).Some? {
      DocumentIsCanonical(repr, Canonical(j));
      var v := Document(repr, Canonical(j)).value;
      CanonicalIdentifies(j, v);
      SingleSame(key, Float(f), v);
    }
  }

  lemma SingleSame(key: Text, x: Json, v: Json)
    requires SameValue(Obj([Entry(key, x)]), v)
    ensures v.Obj? && exists e :: e in v.entries && SameValue(x, e.value)
  {
    var es := [Entry(key, x)];
    KeyAt(es, key);
    assert es[0].key == key;
    KeyAt(v.entries, key);
    var k :| 0 <= k < |v.entries| && v.entries[k].key == key;
    assert SameValue(es[0].value, v.entries[k].value);
    assert v.entries[k] in v.entries;
  }
}
