/**
  * JSON values, and a reader of their texts after sections 3 to 7 of RFC 8259. The reader takes texts
  * without white space between tokens, and says where a value ends.
  */
module JsonReader {
  import opened Text

  /* ---- Values ---- */

  /** The units of a printed number. */
  predicate IsNumberUnit(c: CodeUnit) {
    48 <= c <= 57 || c == 45 || c == 43 || c == 46 || c == 101
  }

  predicate IsNumberText(t: Text) {
    forall i | 0 <= i < |t| :: IsNumberUnit(t[i])
  }

  /** A number, known by the text it prints as. */
  type Numeral = t: Text | t != [] && IsNumberText(t) witness [48]

  /** A JSON value up to key order: an object is a map. */
  datatype Value =
    | NullValue
    | BoolValue(b: bool)
    | NumberValue(n: Numeral)
    | StringValue(s: Text)
    | ArrayValue(items: seq<Value>)
    | ObjectValue(fields: map<Text, Value>)

  datatype Member = Member(key: Text, value: Value)

  /** The fields of an object: of members with one name the last counts. */
  function FieldsOf(members: seq<Member>): map<Text, Value> {
    if members == [] then map[]
    else
      var last := members[|members| - 1];
      FieldsOf(members[..|members| - 1])[last.key := last.value]
  }

  /* ---- Strings: section 7 ---- */

  /** What was read, and what follows it. */
  type Parsed<T> = Option<(T, Text)>

  function HexDigit(c: CodeUnit): (d: Option<int>)
    ensures d.Some? ==> 0 <= d.value < 16
  {
    if '0' as int <= c <= '9' as int then Some(c - '0' as int)
    else if 'a' as int <= c <= 'f' as int then Some(c - 'a' as int + 10)
    else if 'A' as int <= c <= 'F' as int then Some(c - 'A' as int + 10)
    else None
  }

  function FourHexDigits(t: Text): (unit: Option<CodeUnit>)
    requires |t| >= 4
  {
    var (a, b, c, d) := (HexDigit(t[0]), HexDigit(t[1]), HexDigit(t[2]), HexDigit(t[3]));
    if a.Some? && b.Some? && c.Some? && d.Some?
    then Some(((a.value * 16 + b.value) * 16 + c.value) * 16 + d.value)
    else None
  }

  /** The unit that a two-character escape stands for. */
  function EscapedUnit(c: CodeUnit): Option<CodeUnit> {
    if c == '\"' as int || c == '\\' as int || c == '/' as int then Some(c)
    else if c == 'b' as int then Some(8)
    else if c == 'f' as int then Some(12)
    else if c == 'n' as int then Some(10)
    else if c == 'r' as int then Some(13)
    else if c == 't' as int then Some(9)
    else None
  }

  function Prepend(unit: CodeUnit, rest: Parsed<Text>): Parsed<Text> {
    match rest
    case None => None
    case Some((s, after)) => Some(([unit] + s, after))
  }

  /** Reads a string up to its closing quote. */
  function ReadString(t: Text): (r: Parsed<Text>)
    ensures r.Some? ==> |r.value.1| < |t|
  {
    if t == [] then None
    else if t[0] == '\"' as int then Some(([], t[1..]))
    else if t[0] != '\\' as int then if t[0] < 0x20 then None else Prepend(t[0], ReadString(t[1..]))
    else if |t| >= 6 && t[1] == 'u' as int && FourHexDigits(t[2..]).Some? then
      Prepend(FourHexDigits(t[2..]).value, ReadString(t[6..]))
    else if |t| >= 2 && EscapedUnit(t[1]).Some? then Prepend(EscapedUnit(t[1]).value, ReadString(t[2..]))
    else None
  }

  /* ---- Values: sections 3 to 6 ---- */

  predicate Opens(t: Text, c: char)
    requires c as int < 0x1_0000
  {
    t != [] && t[0] == c as int
  }

  function NumberLength(t: Text): (n: nat)
    ensures n <= |t| && IsNumberText(t[..n])
  {
    if t == [] || !IsNumberUnit(t[0]) then 0 else 1 + NumberLength(t[1..])
  }

  function ReadValue(t: Text): (r: Parsed<Value>)
    ensures r.Some? ==> |r.value.1| < |t|
    decreases |t|, 1
  {
    if StartsWith(t, Units("null")) then Some((NullValue, t[4..]))
    else if StartsWith(t, Units("true")) then Some((BoolValue(true), t[4..]))
    else if StartsWith(t, Units("false")) then Some((BoolValue(false), t[5..]))
    else if Opens(t, '\"') then
      match ReadString(t[1..])
      case None => None
      case Some((s, after)) => Some((StringValue(s), after))
    else if Opens(t, '[') then
      match ReadArray(t[1..])
      case None => None
      case Some((items, after)) => Some((ArrayValue(items), after))
    else if Opens(t, '{') then
      match ReadObject(t[1..])
      case None => None
      case Some((members, after)) => Some((ObjectValue(FieldsOf(members)), after))
    else
      var n := NumberLength(t);
      if n == 0 then None else Some((NumberValue(t[..n]), t[n..]))
  }

  /** After an opening bracket. */
  function ReadArray(t: Text): (r: Parsed<seq<Value>>)
    ensures r.Some? ==> |r.value.1| < |t|
    decreases |t|, 3
  {
    if Opens(t, ']') then Some(([], t[1..])) else ReadItems(t)
  }

  /** One value, and after a comma further ones. */
  function ReadItems(t: Text): (r: Parsed<seq<Value>>)
    ensures r.Some? ==> |r.value.1| < |t|
    decreases |t|, 2
  {
    match ReadValue(t)
    case None => None
    case Some((value, after)) =>
      if Opens(after, ']') then Some(([value], after[1..]))
      else if Opens(after, ',') then
        match ReadItems(after[1..])
        case None => None
        case Some((more, end)) => Some(([value] + more, end))
      else None
  }

  /** After an opening brace. */
  function ReadObject(t: Text): (r: Parsed<seq<Member>>)
    ensures r.Some? ==> |r.value.1| < |t|
    decreases |t|, 3
  {
    if Opens(t, '}') then Some(([], t[1..])) else ReadMembers(t)
  }

  /** A name, a colon and a value. */
  function ReadMember(t: Text): (r: Parsed<Member>)
    ensures r.Some? ==> |r.value.1| < |t|
    decreases |t|, 1
  {
    if !Opens(t, '\"') then None
    else
      match ReadString(t[1..])
      case None => None
      case Some((key, colon)) =>
        if !Opens(colon, ':') then None
        else
          match ReadValue(colon[1..])
          case None => None
          case Some((value, after)) => Some((Member(key, value), after))
  }

  function ReadMembers(t: Text): (r: Parsed<seq<Member>>)
    ensures r.Some? ==> |r.value.1| < |t|
    decreases |t|, 2
  {
    match ReadMember(t)
    case None => None
    case Some((member, after)) =>
      if Opens(after, '}') then Some(([member], after[1..]))
      else if Opens(after, ',') then
        match ReadMembers(after[1..])
        case None => None
        case Some((more, end)) => Some(([member] + more, end))
      else None
  }

  /** A value is the last item before a bracket, and one more before a comma. */
  lemma LastItem(t: Text, value: Value, after: Text)
    requires ReadValue(t) == Some((value, after)) && Opens(after, ']')
    ensures ReadItems(t) == Some(([value], after[1..]))
  {
  }

  lemma OneMoreItem(t: Text, value: Value, after: Text, more: seq<Value>, end: Text)
    requires ReadValue(t) == Some((value, after)) && Opens(after, ',')
    requires ReadItems(after[1..]) == Some((more, end))
    ensures ReadItems(t) == Some(([value] + more, end))
  {
  }

  lemma LastMember(t: Text, member: Member, after: Text)
    requires ReadMember(t) == Some((member, after)) && Opens(after, '}')
    ensures ReadMembers(t) == Some(([member], after[1..]))
  {
  }

  lemma OneMoreMember(t: Text, member: Member, after: Text, more: seq<Member>, end: Text)
    requires ReadMember(t) == Some((member, after)) && Opens(after, ',')
    requires ReadMembers(after[1..]) == Some((more, end))
    ensures ReadMembers(t) == Some(([member] + more, end))
  {
  }

  /** A text that opens with a quote, a bracket or a brace is none of the literals. */
  lemma {:induction false} NoLiteral(t: Text)
    requires Opens(t, '\"') || Opens(t, '[') || Opens(t, '{')
    ensures !StartsWith(t, Units("null")) && !StartsWith(t, Units("true")) && !StartsWith(t, Units("false"))
  {
    assert Units("null")[0] == 110 && Units("true")[0] == 116 && Units("false")[0] == 102;
  }

  lemma StringOpens(t: Text, s: Text, after: Text)
    requires Opens(t, '\"') && ReadString(t[1..]) == Some((s, after))
    ensures ReadValue(t) == Some((StringValue(s), after))
  {
    NoLiteral(t);
  }

  lemma ArrayOpens(t: Text, items: seq<Value>, after: Text)
    requires Opens(t, '[') && ReadArray(t[1..]) == Some((items, after))
    ensures ReadValue(t) == Some((ArrayValue(items), after))
  {
    NoLiteral(t);
  }

  lemma ObjectOpens(t: Text, members: seq<Member>, after: Text)
    requires Opens(t, '{') && ReadObject(t[1..]) == Some((members, after))
    ensures ReadValue(t) == Some((ObjectValue(FieldsOf(members)), after))
  {
    NoLiteral(t);
  }
}
