/** Stable JSON text for hashing: objects print with their keys sorted. */
module CanonicalJson {
  import opened JsonReader
  import opened Text

  /* ---- Values ---- */

  /** A JSON value in memory: an object lists its entries in creation order. */
  datatype Json =
    | Null
    | Bool(b: bool)
    | Number(n: Numeral)
    | String(s: Text)
    | Array(items: seq<Json>)
    | Object(entries: seq<Entry>)

  datatype Entry = Entry(key: Text, value: Json)

  function Meaning(j: Json): Value {
    match j
    case Null => NullValue
    case Bool(b) => BoolValue(b)
    case Number(n) => NumberValue(n)
    case String(s) => StringValue(s)
    case Array(items) => ArrayValue(seq(|items|, i requires 0 <= i < |items| => Meaning(items[i])))
    case Object(entries) => ObjectValue(Fields(entries))
  }

  function Fields(entries: seq<Entry>): map<Text, Value> {
    if entries == [] then map[]
    else
      var last := |entries| - 1;
      Fields(entries[..last])[entries[last].key := Meaning(entries[last].value)]
  }

  predicate DistinctKeys(entries: seq<Entry>) {
    forall i, j | 0 <= i < j < |entries| :: entries[i].key != entries[j].key
  }

  /** Objects have each key once, at every depth. */
  predicate WellFormed(j: Json) {
    match j
    case Array(items) => forall i | 0 <= i < |items| :: WellFormed(items[i])
    case Object(entries) => DistinctKeys(entries) && forall i | 0 <= i < |entries| :: WellFormed(entries[i].value)
    case _ => true
  }

  /* ---- Strings: section 7 of RFC 8259, as JSON.stringify writes them ---- */

  const QUOTE: CodeUnit := 34
  const BACKSLASH: CodeUnit := 92
  const LOWER_U: CodeUnit := 117

  function Hex(d: int): (c: CodeUnit)
    requires 0 <= d < 16
    ensures HexDigit(c) == Some(d)
  {
    if d < 10 then 48 + d else 87 + d
  }

  function UnicodeEscape(c: CodeUnit): Text {
    [BACKSLASH, LOWER_U, Hex(c / 16 / 16 / 16), Hex(c / 16 / 16 % 16), Hex(c / 16 % 16), Hex(c % 16)]
  }

  /** The letter of a two-character escape, or None. */
  function ShortEscape(c: CodeUnit): Option<CodeUnit> {
    match c
    case 8 => Some(98)
    case 9 => Some(116)
    case 10 => Some(110)
    case 12 => Some(102)
    case 13 => Some(114)
    case 34 => Some(QUOTE)
    case 92 => Some(BACKSLASH)
    case _ => None
  }

  function EscapeUnit(c: CodeUnit): Text {
    if ShortEscape(c).Some? then [BACKSLASH, ShortEscape(c).value]
    else if c < 0x20 || HighSurrogate(c) || LowSurrogate(c) then UnicodeEscape(c)
    else [c]
  }

  /** Surrogate pairs stay as they are; a lone surrogate is escaped. */
  function Escape(s: Text): Text {
    if s == [] then []
    else if |s| >= 2 && HighSurrogate(s[0]) && LowSurrogate(s[1]) then s[..2] + Escape(s[2..])
    else EscapeUnit(s[0]) + Escape(s[1..])
  }

  function Quoted(s: Text): Text {
    [QUOTE] + Escape(s) + [QUOTE]
  }

  /** Text without quotes, backslashes, control characters and lone surrogates prints as it is. */
  lemma {:induction false} PlainTextPrints(s: Text)
    requires WellFormedText(s) && forall i | 0 <= i < |s| :: s[i] >= 0x20 && s[i] != '\"' as int && s[i] != '\\' as int
    ensures Escape(s) == s
    decreases |s|
  {
    if s != [] {
      if |s| >= 2 && HighSurrogate(s[0]) && LowSurrogate(s[1]) {
        PlainTextPrints(s[2..]);
        assert s == s[..2] + s[2..];
      } else {
        PlainTextPrints(s[1..]);
        assert s == [s[0]] + s[1..];
      }
    }
  }

  /** Any other unit prints as its short escape or, in four lower-case digits, as its number. */
  lemma {:induction false} UnitPrints(c: CodeUnit)
    ensures Escape([c]) ==
      match c
      case 8 => Units("\\b")
      case 9 => Units("\\t")
      case 10 => Units("\\n")
      case 12 => Units("\\f")
      case 13 => Units("\\r")
      case 34 => Units("\\\"")
      case 92 => Units("\\\\")
      case _ =>
        if c < 0x20 || HighSurrogate(c) || LowSurrogate(c)
        then Units("\\u") + [Digit(c / 4096), Digit(c / 256 % 16), Digit(c / 16 % 16), Digit(c % 16)]
        else [c]
  {
    OneUnitEscapes(c);
    if ShortEscape(c).Some? {
      ShortEscapesAreWritten();
    } else {
      assert c / 16 / 16 / 16 == c / 4096 && c / 16 / 16 == c / 256;
      DigitsAreHex();
    }
  }

  lemma OneUnitEscapes(c: CodeUnit)
    ensures Escape([c]) == EscapeUnit(c)
  {
    assert [c][1..] == [] && Escape([]) == [];
    assert EscapeUnit(c) + [] == EscapeUnit(c);
  }

  lemma ShortEscapesAreWritten()
    ensures Units("\\b") == [BACKSLASH, 98] && Units("\\t") == [BACKSLASH, 116] && Units("\\n") == [BACKSLASH, 110]
    ensures Units("\\f") == [BACKSLASH, 102] && Units("\\r") == [BACKSLASH, 114]
    ensures Units("\\\"") == [BACKSLASH, QUOTE] && Units("\\\\") == [BACKSLASH, BACKSLASH]
  {
  }

  function Digit(d: int): CodeUnit
    requires 0 <= d < 16
  {
    Units("0123456789abcdef")[d]
  }

  lemma DigitsAreHex()
    ensures Units("\\u") == [BACKSLASH, LOWER_U]
    ensures forall d | 0 <= d < 16 :: Digit(d) == Hex(d)
  {
    forall d | 0 <= d < 16 ensures Digit(d) == Hex(d) {
      assert d < 10 ==> "0123456789abcdef"[d] as int == 48 + d;
      assert d >= 10 ==> "0123456789abcdef"[d] as int == 87 + d;
    }
  }

  lemma LongEscapeReads(c: CodeUnit, rest: Text)
    ensures FourHexDigits((UnicodeEscape(c) + rest)[2..]) == Some(c)
  {
    var t := UnicodeEscape(c) + rest;
    assert t[2..][0] == Hex(c / 16 / 16 / 16) && t[2..][1] == Hex(c / 16 / 16 % 16);
    assert t[2..][2] == Hex(c / 16 % 16) && t[2..][3] == Hex(c % 16);
  }

  lemma EscapeUnitReads(c: CodeUnit, rest: Text)
    ensures ReadString(EscapeUnit(c) + rest) == Prepend(c, ReadString(rest))
  {
    var t := EscapeUnit(c) + rest;
    if ShortEscape(c).Some? {
      assert t[2..] == rest;
    } else if c < 0x20 || HighSurrogate(c) || LowSurrogate(c) {
      LongEscapeReads(c, rest);
      assert t[6..] == rest;
    } else {
      RawReads(c, rest);
    }
  }

  lemma RawReads(c: CodeUnit, rest: Text)
    requires c != QUOTE && c != BACKSLASH && c >= 0x20
    ensures ReadString([c] + rest) == Prepend(c, ReadString(rest))
  {
    assert ([c] + rest)[1..] == rest;
  }

  /** What follows an escaped text, closing quote included. */
  function Closed(s: Text, rest: Text): Text {
    Escape(s) + ([QUOTE] + rest)
  }

  lemma {:induction false} EscapeReads(s: Text, rest: Text)
    ensures ReadString(Closed(s, rest)) == Some((s, rest))
    decreases |s|
  {
    var t := Closed(s, rest);
    if s == [] {
      assert t == [QUOTE] + rest && t[1..] == rest;
    } else if |s| >= 2 && HighSurrogate(s[0]) && LowSurrogate(s[1]) {
      var tail := Closed(s[2..], rest);
      EscapeReads(s[2..], rest);
      ConcatAssociates(s[..2], Escape(s[2..]), [QUOTE] + rest);
      ConcatAssociates([s[0]], [s[1]], tail);
      assert s[..2] == [s[0]] + [s[1]];
      RawReads(s[1], tail);
      RawReads(s[0], [s[1]] + tail);
      assert s == [s[0]] + ([s[1]] + s[2..]);
    } else {
      EscapeReads(s[1..], rest);
      ConcatAssociates(EscapeUnit(s[0]), Escape(s[1..]), [QUOTE] + rest);
      EscapeUnitReads(s[0], Closed(s[1..], rest));
      assert s == [s[0]] + s[1..];
    }
  }

  lemma QuotedTail(a: Text, x: Text)
    ensures Quoted(a) + x == [QUOTE] + Closed(a, x) && (Quoted(a) + x)[1..] == Closed(a, x)
  {
    ConcatAssociates([QUOTE], Escape(a), [QUOTE]);
    ConcatAssociates(Escape(a), [QUOTE], x);
  }

  /** A quoted text reads as itself, whatever follows. */
  lemma QuotedReads(a: Text, x: Text)
    ensures Opens(Quoted(a) + x, '\"') && ReadString((Quoted(a) + x)[1..]) == Some((a, x))
  {
    QuotedTail(a, x);
    EscapeReads(a, x);
  }

  /** Quoting is injective, and says itself where it ends. */
  lemma QuotedInjective(a: Text, b: Text, x: Text, y: Text)
    requires Quoted(a) + x == Quoted(b) + y
    ensures a == b && x == y
  {
    QuotedReads(a, x);
    QuotedReads(b, y);
  }

  /* ---- Sorting ---- */

  /** A comparison of keys: is the left one before, or level with, the right one? */
  type KeyOrder = (Text, Text) -> bool

  ghost predicate TotalPreorder(le: KeyOrder) {
    && (forall a, b :: le(a, b) || le(b, a))
    && (forall a, b, c :: le(a, b) && le(b, c) ==> le(a, c))
  }

  /** Distinct keys never compare as level. */
  ghost predicate NoTies(le: KeyOrder) {
    forall a, b :: le(a, b) && le(b, a) ==> a == b
  }

  /** Inserts after everything that is not after the new entry: sorting is stable. */
  function Insert(sorted: seq<Entry>, e: Entry, le: KeyOrder): seq<Entry> {
    if sorted == [] then [e]
    else
      var last := |sorted| - 1;
      if le(sorted[last].key, e.key) then sorted + [e]
      else Insert(sorted[..last], e, le) + [sorted[last]]
  }

  function Sorted(entries: seq<Entry>, le: KeyOrder): seq<Entry> {
    if entries == [] then []
    else Insert(Sorted(entries[..|entries| - 1], le), entries[|entries| - 1], le)
  }

  /* ---- Size, for termination through sorting ---- */

  function Size(j: Json): nat {
    match j
    case Array(items) => 1 + SizeOfItems(items)
    case Object(entries) => 1 + SizeOfEntries(entries)
    case _ => 0
  }

  function SizeOfItems(items: seq<Json>): nat {
    if items == [] then 0 else SizeOfItems(items[..|items| - 1]) + 1 + Size(items[|items| - 1])
  }

  function SizeOfEntries(entries: seq<Entry>): nat {
    if entries == [] then 0
    else SizeOfEntries(entries[..|entries| - 1]) + 1 + Size(entries[|entries| - 1].value)
  }

  lemma {:induction false} SizeOfInsert(sorted: seq<Entry>, e: Entry, le: KeyOrder)
    ensures SizeOfEntries(Insert(sorted, e, le)) == SizeOfEntries(sorted) + 1 + Size(e.value)
    decreases |sorted|
  {
    if sorted != [] {
      var last := |sorted| - 1;
      if le(sorted[last].key, e.key) {
        assert (sorted + [e])[..|sorted|] == sorted;
      } else {
        SizeOfInsert(sorted[..last], e, le);
        var r := Insert(sorted[..last], e, le);
        assert (r + [sorted[last]])[..|r|] == r;
      }
    }
  }

  lemma {:induction false} SizeOfSorted(entries: seq<Entry>, le: KeyOrder)
    ensures SizeOfEntries(Sorted(entries, le)) == SizeOfEntries(entries)
    decreases |entries|
  {
    if entries != [] {
      SizeOfSorted(entries[..|entries| - 1], le);
      SizeOfInsert(Sorted(entries[..|entries| - 1], le), entries[|entries| - 1], le);
    }
  }

  lemma SizeOfTail(entries: seq<Entry>)
    requires entries != []
    ensures SizeOfEntries(entries) == SizeOfEntries(entries[1..]) + 1 + Size(entries[0].value)
  {
    if |entries| > 1 {
      var last := |entries| - 1;
      SizeOfTail(entries[..last]);
      assert entries[1..][..last - 1] == entries[..last][1..];
    }
  }

  lemma SizeOfItemsTail(items: seq<Json>)
    requires items != []
    ensures SizeOfItems(items) == SizeOfItems(items[1..]) + 1 + Size(items[0])
  {
    if |items| > 1 {
      var last := |items| - 1;
      SizeOfItemsTail(items[..last]);
      assert items[1..][..last - 1] == items[..last][1..];
    }
  }

  /* ---- Printing ---- */

  const COMMA: CodeUnit := 44
  const COLON: CodeUnit := 58
  const OPEN_ARRAY: CodeUnit := 91
  const CLOSE_ARRAY: CodeUnit := 93
  const OPEN_OBJECT: CodeUnit := 123
  const CLOSE_OBJECT: CodeUnit := 125
  const NULL_TEXT: Text := [110, 117, 108, 108]
  const TRUE_TEXT: Text := [116, 114, 117, 101]
  const FALSE_TEXT: Text := [102, 97, 108, 115, 101]

  function Canonical(j: Json, le: KeyOrder): Text
    decreases Size(j), 1
  {
    match j
    case Null => NULL_TEXT
    case Bool(b) => if b then TRUE_TEXT else FALSE_TEXT
    case Number(n) => n
    case String(s) => Quoted(s)
    case Array(items) => [OPEN_ARRAY] + ItemsText(items, le) + [CLOSE_ARRAY]
    case Object(entries) =>
      SizeOfSorted(entries, le);
      [OPEN_OBJECT] + EntriesText(Sorted(entries, le), le) + [CLOSE_OBJECT]
  }

  /** Canonical texts joined by commas. */
  function ItemsText(items: seq<Json>, le: KeyOrder): Text
    decreases SizeOfItems(items), 0
  {
    if items == [] then []
    else
      SizeOfItemsTail(items);
      Canonical(items[0], le) + if |items| == 1 then [] else [COMMA] + ItemsText(items[1..], le)
  }

  function EntriesText(entries: seq<Entry>, le: KeyOrder): Text
    decreases SizeOfEntries(entries), 0
  {
    if entries == [] then []
    else
      SizeOfTail(entries);
      Quoted(entries[0].key) + [COLON] + Canonical(entries[0].value, le)
      + if |entries| == 1 then [] else [COMMA] + EntriesText(entries[1..], le)
  }

  /* ---- What JSON.stringify prints: entries in creation order, and no control character ---- */

  /** An order in which everything is level, so that a stable sort leaves entries as they were created. */
  const CREATION_ORDER: KeyOrder := (a: Text, b: Text) => true

  function Stringified(j: Json): Text {
    Canonical(j, CREATION_ORDER)
  }

  lemma {:induction false} CreationOrderStays(entries: seq<Entry>)
    ensures Sorted(entries, CREATION_ORDER) == entries
    decreases |entries|
  {
    if entries != [] {
      CreationOrderStays(entries[..|entries| - 1]);
      assert entries == entries[..|entries| - 1] + [entries[|entries| - 1]];
    }
  }

  predicate NoControls(t: Text) {
    forall i | 0 <= i < |t| :: t[i] >= 0x20
  }

  lemma {:induction false} EscapeHasNoControls(s: Text)
    ensures NoControls(Escape(s))
    decreases |s|
  {
    if s == [] {
    } else if |s| >= 2 && HighSurrogate(s[0]) && LowSurrogate(s[1]) {
      EscapeHasNoControls(s[2..]);
    } else {
      EscapeHasNoControls(s[1..]);
      EscapedUnitHasNoControls(s[0]);
    }
  }

  lemma EscapedUnitHasNoControls(c: CodeUnit)
    ensures NoControls(EscapeUnit(c))
  {
  }

  lemma {:induction false} CanonicalHasNoControls(j: Json, le: KeyOrder)
    ensures NoControls(Canonical(j, le))
    decreases Size(j), 1
  {
    match j
    case String(s) => EscapeHasNoControls(s);
    case Array(items) => ItemsHaveNoControls(items, le);
    case Object(entries) =>
      SizeOfSorted(entries, le);
      EntriesHaveNoControls(Sorted(entries, le), le);
    case _ =>
  }

  lemma {:induction false} ItemsHaveNoControls(items: seq<Json>, le: KeyOrder)
    ensures NoControls(ItemsText(items, le))
    decreases SizeOfItems(items), 0
  {
    if items != [] {
      SizeOfItemsTail(items);
      CanonicalHasNoControls(items[0], le);
      ItemsHaveNoControls(items[1..], le);
    }
  }

  lemma {:induction false} EntriesHaveNoControls(entries: seq<Entry>, le: KeyOrder)
    ensures NoControls(EntriesText(entries, le))
    decreases SizeOfEntries(entries), 0
  {
    if entries != [] {
      SizeOfTail(entries);
      EscapeHasNoControls(entries[0].key);
      CanonicalHasNoControls(entries[0].value, le);
      EntriesHaveNoControls(entries[1..], le);
    }
  }

  /* ---- Sorting keeps the meaning ---- */

  lemma {:induction false} InsertHolds(sorted: seq<Entry>, e: Entry, le: KeyOrder)
    ensures forall d :: d in Insert(sorted, e, le) <==> d in sorted || d == e
    decreases |sorted|
  {
    if sorted != [] && !le(sorted[|sorted| - 1].key, e.key) {
      InsertHolds(sorted[..|sorted| - 1], e, le);
      assert sorted == sorted[..|sorted| - 1] + [sorted[|sorted| - 1]];
    }
  }

  lemma {:induction false} InsertKeepsKeys(sorted: seq<Entry>, e: Entry, le: KeyOrder)
    requires DistinctKeys(sorted) && forall i | 0 <= i < |sorted| :: sorted[i].key != e.key
    ensures DistinctKeys(Insert(sorted, e, le))
    decreases |sorted|
  {
    if sorted != [] && !le(sorted[|sorted| - 1].key, e.key) {
      var last := |sorted| - 1;
      InsertKeepsKeys(sorted[..last], e, le);
      InsertHolds(sorted[..last], e, le);
      var r := Insert(sorted[..last], e, le);
      forall i | 0 <= i < |r| ensures r[i].key != sorted[last].key {
        assert r[i] in r;
      }
    }
  }

  lemma {:induction false} InsertAddsField(sorted: seq<Entry>, e: Entry, le: KeyOrder)
    requires forall i | 0 <= i < |sorted| :: sorted[i].key != e.key
    ensures Fields(Insert(sorted, e, le)) == Fields(sorted)[e.key := Meaning(e.value)]
    decreases |sorted|
  {
    var last := |sorted| - 1;
    if sorted == [] || le(sorted[last].key, e.key) {
      assert (sorted + [e])[..|sorted|] == sorted && sorted + [e] == if sorted == [] then [e] else sorted + [e];
    } else {
      InsertAddsField(sorted[..last], e, le);
      var r := Insert(sorted[..last], e, le);
      assert (r + [sorted[last]])[..|r|] == r;
      assert Fields(r + [sorted[last]]) == Fields(r)[sorted[last].key := Meaning(sorted[last].value)];
    }
  }

  lemma {:induction false} SortedKeeps(entries: seq<Entry>, le: KeyOrder)
    requires DistinctKeys(entries)
    ensures var r := Sorted(entries, le);
      && DistinctKeys(r)
      && Fields(r) == Fields(entries)
      && (forall d :: d in r <==> d in entries)
      && ((forall i | 0 <= i < |entries| :: WellFormed(entries[i].value)) ==>
          forall i | 0 <= i < |r| :: WellFormed(r[i].value))
    decreases |entries|
  {
    if entries != [] {
      var last := |entries| - 1;
      SortedKeeps(entries[..last], le);
      var before := Sorted(entries[..last], le);
      forall i | 0 <= i < |before| ensures before[i].key != entries[last].key {
        assert before[i] in before;
      }
      InsertHolds(before, entries[last], le);
      InsertKeepsKeys(before, entries[last], le);
      InsertAddsField(before, entries[last], le);
      forall d ensures d in Sorted(entries, le) <==> d in entries {
        assert entries == entries[..last] + [entries[last]];
      }
    }
    var r := Sorted(entries, le);
    forall i | 0 <= i < |r| ensures r[i] in entries {
      assert r[i] in r;
    }
  }

  /* ---- What is printed reads as the value ---- */

  /** What may follow a value in a larger text: a number ends only where no further number unit follows. */
  predicate Ends(x: Text) {
    x == [] || !IsNumberUnit(x[0])
  }

  ghost function Meanings(items: seq<Json>): seq<Value> {
    seq(|items|, i requires 0 <= i < |items| => Meaning(items[i]))
  }

  ghost function MembersOf(entries: seq<Entry>): seq<Member> {
    seq(|entries|, i requires 0 <= i < |entries| => Member(entries[i].key, Meaning(entries[i].value)))
  }

  lemma {:induction false} FirstMeaning(items: seq<Json>)
    requires items != []
    ensures Meanings(items) == [Meaning(items[0])] + Meanings(items[1..])
    ensures |items| == 1 ==> Meanings(items) == [Meaning(items[0])]
  {
  }

  lemma {:induction false} FirstMember(entries: seq<Entry>)
    requires entries != []
    ensures var first := Member(entries[0].key, Meaning(entries[0].value));
      MembersOf(entries) == [first] + MembersOf(entries[1..]) && (|entries| == 1 ==> MembersOf(entries) == [first])
  {
  }

  lemma {:induction false} FieldsOfMembers(entries: seq<Entry>)
    ensures FieldsOf(MembersOf(entries)) == Fields(entries)
    decreases |entries|
  {
    if entries != [] {
      var last := |entries| - 1;
      FieldsOfMembers(entries[..last]);
      assert MembersOf(entries)[..last] == MembersOf(entries[..last]);
    }
  }

  lemma {:induction false} NumberEnds(n: Text, x: Text)
    requires IsNumberText(n) && Ends(x)
    ensures NumberLength(n + x) == |n|
  {
    if n == [] {
      assert n + x == x;
    } else {
      assert (n + x)[1..] == n[1..] + x;
      NumberEnds(n[1..], x);
    }
  }

  lemma {:induction false} NumeralReads(n: Numeral, x: Text)
    requires Ends(x)
    ensures ReadValue(n + x) == Some((NumberValue(n), x))
  {
    var t := n + x;
    assert t[0] == n[0] && IsNumberUnit(t[0]);
    assert !StartsWith(t, Units("null")) && !StartsWith(t, Units("true")) && !StartsWith(t, Units("false")) by {
      assert Units("null")[0] == 110 && Units("true")[0] == 116 && Units("false")[0] == 102;
    }
    NumberEnds(n, x);
    assert t[..|n|] == n && t[|n|..] == x;
  }

  lemma {:induction false} LiteralsRead(x: Text)
    ensures ReadValue(NULL_TEXT + x) == Some((NullValue, x))
    ensures ReadValue(TRUE_TEXT + x) == Some((BoolValue(true), x))
    ensures ReadValue(FALSE_TEXT + x) == Some((BoolValue(false), x))
  {
    assert NULL_TEXT == Units("null") && TRUE_TEXT == Units("true") && FALSE_TEXT == Units("false");
    assert (NULL_TEXT + x)[4..] == x && (TRUE_TEXT + x)[4..] == x && (FALSE_TEXT + x)[5..] == x;
    assert (TRUE_TEXT + x)[0] == 116 && (FALSE_TEXT + x)[0] == 102;
  }

  lemma {:induction false} StringReads(s: Text, x: Text)
    ensures ReadValue(Quoted(s) + x) == Some((StringValue(s), x))
  {
    QuotedReads(s, x);
    StringOpens(Quoted(s) + x, s, x);
  }

  /** No value opens with a closing bracket or brace. */
  lemma {:induction false} ValueOpens(j: Json, le: KeyOrder, x: Text)
    ensures var t := Canonical(j, le) + x; t != [] && t[0] != CLOSE_ARRAY && t[0] != CLOSE_OBJECT
  {
    var c := Canonical(j, le);
    assert c != [] && (c + x)[0] == c[0];
  }

  /** After an item: the other items and the closing bracket. */
  function ItemsRest(items: seq<Json>, le: KeyOrder, x: Text): Text {
    (if items == [] then [] else [COMMA] + ItemsText(items, le)) + ([CLOSE_ARRAY] + x)
  }

  function EntriesRest(entries: seq<Entry>, le: KeyOrder, x: Text): Text {
    (if entries == [] then [] else [COMMA] + EntriesText(entries, le)) + ([CLOSE_OBJECT] + x)
  }

  lemma ItemsSplit(items: seq<Json>, le: KeyOrder, x: Text)
    requires items != []
    ensures ItemsText(items, le) + ([CLOSE_ARRAY] + x) == Canonical(items[0], le) + ItemsRest(items[1..], le, x)
    ensures Ends(ItemsRest(items[1..], le, x))
  {
    var more := if |items| == 1 then [] else [COMMA] + ItemsText(items[1..], le);
    ConcatAssociates(Canonical(items[0], le), more, [CLOSE_ARRAY] + x);
  }

  lemma EntriesSplit(entries: seq<Entry>, le: KeyOrder, x: Text)
    requires entries != []
    ensures EntriesText(entries, le) + ([CLOSE_OBJECT] + x)
         == Quoted(entries[0].key) + ([COLON] + (Canonical(entries[0].value, le) + EntriesRest(entries[1..], le, x)))
    ensures Ends(EntriesRest(entries[1..], le, x))
  {
    var (k, v) := (Quoted(entries[0].key), Canonical(entries[0].value, le));
    var more := if |entries| == 1 then [] else [COMMA] + EntriesText(entries[1..], le);
    var end := [CLOSE_OBJECT] + x;
    ConcatAssociates(k + [COLON] + v, more, end);
    ConcatAssociates(k + [COLON], v, more + end);
    ConcatAssociates(k, [COLON], v + (more + end));
  }

  lemma ItemsRestOpens(items: seq<Json>, le: KeyOrder, x: Text)
    ensures var t := ItemsRest(items, le, x);
      if items == [] then Opens(t, ']') && t[1..] == x
      else Opens(t, ',') && t[1..] == ItemsText(items, le) + ([CLOSE_ARRAY] + x)
  {
    if items != [] {
      ConcatAssociates([COMMA], ItemsText(items, le), [CLOSE_ARRAY] + x);
    }
  }

  lemma EntriesRestOpens(entries: seq<Entry>, le: KeyOrder, x: Text)
    ensures var t := EntriesRest(entries, le, x);
      if entries == [] then Opens(t, '}') && t[1..] == x
      else Opens(t, ',') && t[1..] == EntriesText(entries, le) + ([CLOSE_OBJECT] + x)
  {
    if entries != [] {
      ConcatAssociates([COMMA], EntriesText(entries, le), [CLOSE_OBJECT] + x);
    }
  }

  /** A printed value reads as its meaning, and what follows it is left over. */
  lemma {:induction false} CanonicalReads(j: Json, x: Text, le: KeyOrder)
    requires WellFormed(j) && Ends(x)
    ensures ReadValue(Canonical(j, le) + x) == Some((Meaning(j), x))
    decreases Size(j), 1
  {
    var t := Canonical(j, le) + x;
    match j
    case Null => LiteralsRead(x);
    case Bool(_) => LiteralsRead(x);
    case Number(n) => NumeralReads(n, x);
    case String(s) => StringReads(s, x);
    case Array(items) =>
      ArrayReads(items, x, le);
      ArrayOpens(t, Meanings(items), x);
    case Object(entries) =>
      ObjectReads(entries, x, le);
      ObjectOpens(t, MembersOf(Sorted(entries, le)), x);
      SortedKeeps(entries, le);
      FieldsOfMembers(Sorted(entries, le));
  }

  lemma {:induction false} ArrayReads(items: seq<Json>, x: Text, le: KeyOrder)
    requires forall i | 0 <= i < |items| :: WellFormed(items[i])
    ensures ReadArray((Canonical(Array(items), le) + x)[1..]) == Some((Meanings(items), x))
    decreases SizeOfItems(items), 1
  {
    ArrayTail(items, x, le);
    if items == [] {
      assert ItemsText(items, le) + ([CLOSE_ARRAY] + x) == [CLOSE_ARRAY] + x && ([CLOSE_ARRAY] + x)[1..] == x;
      assert Meanings(items) == [];
    } else {
      ItemsSplit(items, le, x);
      ValueOpens(items[0], le, ItemsRest(items[1..], le, x));
      ItemsRead(items, x, le);
    }
  }

  lemma {:induction false} ItemsRead(items: seq<Json>, x: Text, le: KeyOrder)
    requires items != [] && forall i | 0 <= i < |items| :: WellFormed(items[i])
    ensures ReadItems(ItemsText(items, le) + ([CLOSE_ARRAY] + x)) == Some((Meanings(items), x))
    decreases SizeOfItems(items), 0
  {
    ItemsSplit(items, le, x);
    SizeOfItemsTail(items);
    var rest := ItemsRest(items[1..], le, x);
    CanonicalReads(items[0], rest, le);
    ItemsRestOpens(items[1..], le, x);
    var t := ItemsText(items, le) + ([CLOSE_ARRAY] + x);
    FirstMeaning(items);
    if |items| > 1 {
      ItemsRead(items[1..], x, le);
      OneMoreItem(t, Meaning(items[0]), rest, Meanings(items[1..]), x);
    } else {
      LastItem(t, Meaning(items[0]), rest);
    }
  }

  /** An object's members are read in the order in which its sorted entries were printed. */
  lemma {:induction false} ObjectReads(entries: seq<Entry>, x: Text, le: KeyOrder)
    requires WellFormed(Object(entries))
    ensures ReadObject((Canonical(Object(entries), le) + x)[1..]) == Some((MembersOf(Sorted(entries, le)), x))
    decreases Size(Object(entries)), 0
  {
    var sorted := Sorted(entries, le);
    ObjectTail(entries, x, le);
    SortedKeeps(entries, le);
    SizeOfSorted(entries, le);
    if sorted == [] {
      assert EntriesText(sorted, le) + ([CLOSE_OBJECT] + x) == [CLOSE_OBJECT] + x && ([CLOSE_OBJECT] + x)[1..] == x;
      assert MembersOf(sorted) == [];
    } else {
      EntriesSplit(sorted, le, x);
      EntriesRead(sorted, x, le);
    }
  }

  lemma {:induction false} EntriesRead(entries: seq<Entry>, x: Text, le: KeyOrder)
    requires entries != [] && forall i | 0 <= i < |entries| :: WellFormed(entries[i].value)
    ensures ReadMembers(EntriesText(entries, le) + ([CLOSE_OBJECT] + x)) == Some((MembersOf(entries), x))
    decreases SizeOfEntries(entries), 0
  {
    EntriesSplit(entries, le, x);
    SizeOfTail(entries);
    var (first, rest) := (Member(entries[0].key, Meaning(entries[0].value)), EntriesRest(entries[1..], le, x));
    EntryReads(entries[0], rest, le);
    EntriesRestOpens(entries[1..], le, x);
    var t := EntriesText(entries, le) + ([CLOSE_OBJECT] + x);
    FirstMember(entries);
    if |entries| > 1 {
      EntriesRead(entries[1..], x, le);
      OneMoreMember(t, first, rest, MembersOf(entries[1..]), x);
    } else {
      LastMember(t, first, rest);
    }
  }

  lemma {:induction false} EntryReads(e: Entry, x: Text, le: KeyOrder)
    requires WellFormed(e.value) && Ends(x)
    ensures ReadMember(Quoted(e.key) + ([COLON] + (Canonical(e.value, le) + x)))
         == Some((Member(e.key, Meaning(e.value)), x))
    decreases Size(e.value), 2
  {
    var colon := [COLON] + (Canonical(e.value, le) + x);
    QuotedReads(e.key, colon);
    assert colon[1..] == Canonical(e.value, le) + x;
    CanonicalReads(e.value, x, le);
  }

  lemma ArrayTail(items: seq<Json>, x: Text, le: KeyOrder)
    ensures (Canonical(Array(items), le) + x)[1..] == ItemsText(items, le) + ([CLOSE_ARRAY] + x)
  {
    ConcatAssociates([OPEN_ARRAY] + ItemsText(items, le), [CLOSE_ARRAY], x);
    ConcatAssociates([OPEN_ARRAY], ItemsText(items, le), [CLOSE_ARRAY] + x);
  }

  lemma ObjectTail(entries: seq<Entry>, x: Text, le: KeyOrder)
    ensures (Canonical(Object(entries), le) + x)[1..] == EntriesText(Sorted(entries, le), le) + ([CLOSE_OBJECT] + x)
  {
    var text := EntriesText(Sorted(entries, le), le);
    ConcatAssociates([OPEN_OBJECT] + text, [CLOSE_OBJECT], x);
    ConcatAssociates([OPEN_OBJECT], text, [CLOSE_OBJECT] + x);
  }

  /** A whole printed text reads as its value, and nothing is left over. */
  lemma WholeReads(j: Json, le: KeyOrder)
    requires WellFormed(j)
    ensures ReadValue(Canonical(j, le)) == Some((Meaning(j), []))
  {
    CanonicalReads(j, [], le);
    assert Canonical(j, le) + [] == Canonical(j, le);
  }

  lemma OneFieldReads(key: Text, value: Json, le: KeyOrder)
    requires WellFormed(value)
    ensures ReadValue(Canonical(Object([Entry(key, value)]), le)) == Some((ObjectValue(map[key := Meaning(value)]), []))
  {
    var entry := Entry(key, value);
    WholeReads(Object([entry]), le);
    assert Fields([entry]) == Fields([])[key := Meaning(value)] by {
      assert [entry][..0] == [];
    }
  }

  /** Equal texts stand for equal values, and end in the same place. */
  lemma PrefixInjective(a: Json, b: Json, x: Text, y: Text, le: KeyOrder)
    requires WellFormed(a) && WellFormed(b)
    requires Canonical(a, le) + x == Canonical(b, le) + y && Ends(x) && Ends(y)
    ensures Meaning(a) == Meaning(b) && x == y
  {
    CanonicalReads(a, x, le);
    CanonicalReads(b, y, le);
  }

  /** Under a total preorder the names of an object are printed in ascending order, each with its value. */
  lemma NamesAscend(entries: seq<Entry>, x: Text, le: KeyOrder) returns (members: seq<Member>)
    requires WellFormed(Object(entries)) && TotalPreorder(le)
    ensures ReadObject((Canonical(Object(entries), le) + x)[1..]) == Some((members, x))
    ensures forall i, j | 0 <= i < j < |members| :: le(members[i].key, members[j].key)
    ensures forall m :: m in members <==> exists e :: e in entries && m == Member(e.key, Meaning(e.value))
  {
    var sorted := Sorted(entries, le);
    members := MembersOf(sorted);
    ObjectReads(entries, x, le);
    SortedIsOrdered(entries, le);
    SortedKeeps(entries, le);
    forall m ensures m in members <==> exists e :: e in entries && m == Member(e.key, Meaning(e.value)) {
      if i :| 0 <= i < |members| && members[i] == m {
        assert sorted[i] in sorted;
      }
      if e :| e in sorted && m == Member(e.key, Meaning(e.value)) {
        var i :| 0 <= i < |sorted| && sorted[i] == e;
        assert members[i] == m;
      }
    }
  }

  /** Equal keys and meanings, entry by entry. */
  ghost predicate SameEntries(a: seq<Entry>, b: seq<Entry>) {
    && |a| == |b|
    && forall i | 0 <= i < |a| :: a[i].key == b[i].key && Meaning(a[i].value) == Meaning(b[i].value)
  }

  ghost predicate SameItems(a: seq<Json>, b: seq<Json>) {
    |a| == |b| && forall i | 0 <= i < |a| :: Meaning(a[i]) == Meaning(b[i])
  }

  /* ---- Order-blindness ---- */

  ghost predicate Ordered(entries: seq<Entry>, le: KeyOrder) {
    forall i, j | 0 <= i < j < |entries| :: le(entries[i].key, entries[j].key)
  }

  lemma {:induction false} InsertOrders(sorted: seq<Entry>, e: Entry, le: KeyOrder)
    requires TotalPreorder(le) && Ordered(sorted, le)
    ensures Ordered(Insert(sorted, e, le), le)
    ensures forall d | d in Insert(sorted, e, le) :: d in sorted || d == e
    decreases |sorted|
  {
    if sorted != [] {
      var last := |sorted| - 1;
      var top := sorted[last];
      if le(top.key, e.key) {
        forall i | 0 <= i < last ensures le(sorted[i].key, e.key) {
          assert le(sorted[i].key, top.key);
        }
      } else {
        InsertOrders(sorted[..last], e, le);
        var r := Insert(sorted[..last], e, le);
        forall i | 0 <= i < |r| ensures le(r[i].key, top.key) {
          assert r[i] in r;
          assert r[i] == e || exists k :: 0 <= k < last && sorted[k] == r[i];
        }
      }
    }
  }

  lemma {:induction false} SortedIsOrdered(entries: seq<Entry>, le: KeyOrder)
    requires TotalPreorder(le)
    ensures Ordered(Sorted(entries, le), le)
    decreases |entries|
  {
    if entries != [] {
      SortedIsOrdered(entries[..|entries| - 1], le);
      InsertOrders(Sorted(entries[..|entries| - 1], le), entries[|entries| - 1], le);
    }
  }

  lemma FieldsHold(entries: seq<Entry>, key: Text)
    ensures key in Fields(entries) <==> exists i :: 0 <= i < |entries| && entries[i].key == key
  {
    if entries != [] {
      var last := |entries| - 1;
      FieldsHold(entries[..last], key);
      if exists i :: 0 <= i < |entries| && entries[i].key == key {
        var i :| 0 <= i < |entries| && entries[i].key == key;
        assert i < last ==> entries[..last][i].key == key;
      }
    }
  }

  /** In an order without ties, the fields alone settle the sorted list. */
  lemma {:induction false} FieldsSettleOrder(a: seq<Entry>, b: seq<Entry>, le: KeyOrder)
    requires NoTies(le) && Ordered(a, le) && Ordered(b, le)
    requires DistinctKeys(a) && DistinctKeys(b) && Fields(a) == Fields(b)
    ensures SameEntries(a, b)
    decreases |a|
  {
    if a == [] || b == [] {
      NoFieldsNoEntries(a);
      NoFieldsNoEntries(b);
    } else {
      var (m, n) := (|a| - 1, |b| - 1);
      LastIsGreatest(a, b, le);
      LastIsGreatest(b, a, le);
      assert a[m].key == b[n].key;
      WithoutLast(a);
      WithoutLast(b);
      FieldsSettleOrder(a[..m], b[..n], le);
      SameLast(a, b);
    }
  }

  lemma SameLast(a: seq<Entry>, b: seq<Entry>)
    requires a != [] && b != [] && SameEntries(a[..|a| - 1], b[..|b| - 1])
    requires a[|a| - 1].key == b[|b| - 1].key && Meaning(a[|a| - 1].value) == Meaning(b[|b| - 1].value)
    ensures SameEntries(a, b)
  {
    var last := |a| - 1;
    forall i | 0 <= i < last ensures a[i].key == b[i].key && Meaning(a[i].value) == Meaning(b[i].value) {
      assert a[i] == a[..last][i] && b[i] == b[..last][i];
    }
  }

  lemma NoFieldsNoEntries(a: seq<Entry>)
    ensures a != [] ==> |a| > 0 && a[|a| - 1].key in Fields(a)
  {
  }

  lemma LastIsGreatest(a: seq<Entry>, b: seq<Entry>, le: KeyOrder)
    requires a != [] && b != [] && Ordered(b, le) && Fields(a) == Fields(b)
    ensures a[|a| - 1].key == b[|b| - 1].key || le(a[|a| - 1].key, b[|b| - 1].key)
  {
    FieldsHold(b, a[|a| - 1].key);
  }

  lemma WithoutLast(a: seq<Entry>)
    requires a != [] && DistinctKeys(a)
    ensures var last := |a| - 1;
      && Fields(a[..last]) == Fields(a) - {a[last].key}
      && Fields(a)[a[last].key] == Meaning(a[last].value)
  {
    var before := a[..|a| - 1];
    FieldsHold(before, a[|a| - 1].key);
    AddedIsRemoved(Fields(before), a[|a| - 1].key, Meaning(a[|a| - 1].value));
  }

  lemma AddedIsRemoved(m: map<Text, Value>, key: Text, value: Value)
    requires key !in m
    ensures m[key := value] - {key} == m
  {
  }

  lemma {:induction false} MeaningSettlesText(a: Json, b: Json, le: KeyOrder)
    requires TotalPreorder(le) && NoTies(le) && WellFormed(a) && WellFormed(b) && Meaning(a) == Meaning(b)
    ensures Canonical(a, le) == Canonical(b, le)
    decreases Size(a), 1
  {
    match a
    case Array(items) =>
      assert SameItems(items, b.items) by {
        assert Meaning(a).items == Meaning(b).items;
        assert forall i | 0 <= i < |items| :: Meaning(a).items[i] == Meaning(items[i]);
        assert forall i | 0 <= i < |b.items| :: Meaning(b).items[i] == Meaning(b.items[i]);
      }
      ItemsSettleText(items, b.items, le);
    case Object(entries) =>
      SortedKeeps(entries, le);
      SortedKeeps(b.entries, le);
      SortedIsOrdered(entries, le);
      SortedIsOrdered(b.entries, le);
      SizeOfSorted(entries, le);
      FieldsSettleOrder(Sorted(entries, le), Sorted(b.entries, le), le);
      EntriesSettleText(Sorted(entries, le), Sorted(b.entries, le), le);
    case _ =>
  }

  lemma {:induction false} ItemsSettleText(a: seq<Json>, b: seq<Json>, le: KeyOrder)
    requires TotalPreorder(le) && NoTies(le) && SameItems(a, b)
    requires forall i | 0 <= i < |a| :: WellFormed(a[i])
    requires forall i | 0 <= i < |b| :: WellFormed(b[i])
    ensures ItemsText(a, le) == ItemsText(b, le)
    decreases SizeOfItems(a), 0
  {
    if a != [] {
      SizeOfItemsTail(a);
      MeaningSettlesText(a[0], b[0], le);
      ItemsSettleText(a[1..], b[1..], le);
    }
  }

  lemma {:induction false} EntriesSettleText(a: seq<Entry>, b: seq<Entry>, le: KeyOrder)
    requires TotalPreorder(le) && NoTies(le) && SameEntries(a, b)
    requires forall i | 0 <= i < |a| :: WellFormed(a[i].value)
    requires forall i | 0 <= i < |b| :: WellFormed(b[i].value)
    ensures EntriesText(a, le) == EntriesText(b, le)
    decreases SizeOfEntries(a), 0
  {
    if a != [] {
      SizeOfTail(a);
      MeaningSettlesText(a[0].value, b[0].value, le);
      EntriesSettleText(a[1..], b[1..], le);
    }
  }

  /** Different values never print the same, whatever the order of keys. */
  lemma CanonicalIsInjective(a: Json, b: Json, le: KeyOrder)
    requires WellFormed(a) && WellFormed(b) && Canonical(a, le) == Canonical(b, le)
    ensures Meaning(a) == Meaning(b)
  {
    assert Canonical(a, le) + [] == Canonical(b, le) + [];
    PrefixInjective(a, b, [], [], le);
  }

  /** Values print the same exactly when they are equal up to key order. */
  lemma CanonicalIffSameMeaning(a: Json, b: Json, le: KeyOrder)
    requires TotalPreorder(le) && NoTies(le) && WellFormed(a) && WellFormed(b)
    ensures Canonical(a, le) == Canonical(b, le) <==> Meaning(a) == Meaning(b)
  {
    if Meaning(a) == Meaning(b) {
      MeaningSettlesText(a, b, le);
    } else if Canonical(a, le) == Canonical(b, le) {
      CanonicalIsInjective(a, b, le);
    }
  }

  ghost predicate OrderBlind(le: KeyOrder) {
    forall a, b | WellFormed(a) && WellFormed(b) && Meaning(a) == Meaning(b) :: Canonical(a, le) == Canonical(b, le)
  }

  /** Two keys that compare as level print in creation order. */
  lemma {:induction false} TieShowsOrder(le: KeyOrder, k: Text, l: Text) returns (a: Json, b: Json)
    requires k != l && le(k, l) && le(l, k)
    ensures a == Object([Entry(k, Null), Entry(l, Null)]) && b == Object([Entry(l, Null), Entry(k, Null)])
    ensures WellFormed(a) && WellFormed(b) && Meaning(a) == Meaning(b) && Canonical(a, le) != Canonical(b, le)
  {
    var (d, e) := (Entry(k, Null), Entry(l, Null));
    a, b := Object([d, e]), Object([e, d]);
    TwoEntriesEitherWay(d, e);
    TwoSorted(d, e, le);
    TwoSorted(e, d, le);
    if Canonical(a, le) == Canonical(b, le) {
      SameTextSameFirst([d, e], [e, d], le);
    }
  }

  lemma {:induction false} TwoEntriesEitherWay(d: Entry, e: Entry)
    requires d.key != e.key && WellFormed(d.value) && WellFormed(e.value)
    ensures WellFormed(Object([d, e])) && WellFormed(Object([e, d]))
    ensures Meaning(Object([d, e])) == Meaning(Object([e, d]))
  {
    TwoFields(d, e);
    TwoFields(e, d);
    assert Fields([d, e]) == Fields([e, d]);
  }

  lemma SameTextSameFirst(a: seq<Entry>, b: seq<Entry>, le: KeyOrder)
    requires WellFormed(Object(a)) && WellFormed(Object(b)) && Canonical(Object(a), le) == Canonical(Object(b), le)
    requires Sorted(a, le) == a && Sorted(b, le) == b && a != [] && b != []
    ensures a[0].key == b[0].key
  {
    assert Canonical(Object(a), le) + [] == Canonical(Object(b), le) + [];
    ObjectReads(a, [], le);
    ObjectReads(b, [], le);
    assert MembersOf(a)[0].key == a[0].key && MembersOf(b)[0].key == b[0].key;
  }

  lemma TwoFields(d: Entry, e: Entry)
    ensures Fields([d, e]) == map[d.key := Meaning(d.value)][e.key := Meaning(e.value)]
  {
    assert [d, e][..1] == [d] && [d][..0] == [];
    assert Fields([d]) == map[d.key := Meaning(d.value)];
  }

  lemma TwoSorted(d: Entry, e: Entry, le: KeyOrder)
    requires le(d.key, e.key)
    ensures Sorted([d, e], le) == [d, e]
  {
    assert [d, e][..1] == [d] && [d][..0] == [];
    assert Sorted([d], le) == [d];
  }

  /** Printing forgets the order of keys exactly when the comparison never ties distinct keys. */
  lemma OrderBlindIffNoTies(le: KeyOrder)
    requires TotalPreorder(le)
    ensures OrderBlind(le) <==> NoTies(le)
  {
    if NoTies(le) {
      forall a, b | WellFormed(a) && WellFormed(b) && Meaning(a) == Meaning(b)
        ensures Canonical(a, le) == Canonical(b, le)
      {
        MeaningSettlesText(a, b, le);
      }
    } else {
      var k, l :| le(k, l) && le(l, k) && k != l;
      var a, b := TieShowsOrder(le, k, l);
    }
  }
}
