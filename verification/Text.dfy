/** JavaScript strings: finite sequences of 16-bit code units. */
module Text {
  type CodeUnit = c: int | 0 <= c < 0x1_0000
  type Text = seq<CodeUnit>

  datatype Option<+T> = None | Some(value: T)

  /** The units of a string literal. */
  function Units(s: string): (t: Text)
    requires forall i | 0 <= i < |s| :: s[i] as int < 0x1_0000
    ensures |t| == |s|
  {
    seq(|s|, i requires 0 <= i < |s| => s[i] as int)
  }

  const TAB: CodeUnit := 9
  const LF: CodeUnit := 10
  const CR: CodeUnit := 13
  const SPACE: CodeUnit := 32
  const SLASH: CodeUnit := 47

  /** ECMAScript's white space and line terminators: what `trim` removes. */
  predicate IsSpace(c: CodeUnit) {
    || TAB <= c <= CR
    || c == SPACE
    || c == 0xA0
    || c == 0x1680
    || 0x2000 <= c <= 0x200A
    || c == 0x2028
    || c == 0x2029
    || c == 0x202F
    || c == 0x205F
    || c == 0x3000
    || c == 0xFEFF
  }

  /** `t.trim().length === 0`. */
  predicate Blank(t: Text) {
    forall i | 0 <= i < |t| :: IsSpace(t[i])
  }

  predicate HighSurrogate(c: CodeUnit) {
    0xD800 <= c <= 0xDBFF
  }

  predicate LowSurrogate(c: CodeUnit) {
    0xDC00 <= c <= 0xDFFF
  }

  /** Every surrogate is half of a pair. */
  predicate WellFormedText(t: Text) {
    if t == [] then true
    else if |t| >= 2 && HighSurrogate(t[0]) && LowSurrogate(t[1]) then WellFormedText(t[2..])
    else !HighSurrogate(t[0]) && !LowSurrogate(t[0]) && WellFormedText(t[1..])
  }

  predicate StartsWith(t: Text, prefix: Text) {
    prefix <= t
  }

  /** `t.indexOf(c, from)`, with the length of `t` for "not found". */
  function IndexOf(t: Text, c: CodeUnit, from: nat := 0): (i: nat)
    requires from <= |t|
    ensures from <= i <= |t|
    ensures forall j | from <= j < i :: t[j] != c
    ensures i < |t| ==> t[i] == c
    decreases |t| - from
  {
    if from == |t| || t[from] == c then from else IndexOf(t, c, from + 1)
  }

  function Split(t: Text, c: CodeUnit): (parts: seq<Text>)
    ensures |parts| >= 1
    decreases |t|
  {
    var i := IndexOf(t, c);
    if i == |t| then [t] else [t[..i]] + Split(t[i + 1..], c)
  }

  lemma SplitAt(a: Text, rest: Text, c: CodeUnit)
    requires c !in a
    ensures Split(a + [c] + rest, c) == [a] + Split(rest, c)
    ensures Split(a, c) == [a]
  {
    var t := a + [c] + rest;
    assert t[|a|] == c && forall j | 0 <= j < |a| :: t[j] == a[j];
    assert IndexOf(t, c) == |a|;
    assert t[..|a|] == a && t[|a| + 1..] == rest;
  }

  /** `parts.join(separator)`. */
  function Join(parts: seq<Text>, separator: Text): Text {
    if parts == [] then []
    else if |parts| == 1 then parts[0]
    else parts[0] + separator + Join(parts[1..], separator)
  }

  /** The text received over a whole stream of chunks. */
  function Concat(chunks: seq<Text>): Text {
    if chunks == [] then [] else chunks[0] + Concat(chunks[1..])
  }

  /** `items.findIndex(p)`, with the number of items for "not found". */
  function FirstWhere<T>(items: seq<T>, p: T -> bool): (i: nat)
    ensures i <= |items|
    ensures i < |items| ==> p(items[i])
    ensures forall j | 0 <= j < i :: !p(items[j])
  {
    if items == [] || p(items[0]) then 0 else 1 + FirstWhere(items[1..], p)
  }

  lemma ConcatAssociates<T>(a: seq<T>, b: seq<T>, c: seq<T>)
    ensures a + (b + c) == a + b + c
  {
  }
}
