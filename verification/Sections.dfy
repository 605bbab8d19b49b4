/** Strict named Markdown sections: headers, bodies without trailing blank lines, and rendering back. */
module Sections {
  import opened Text

  datatype Error =
    | InvalidHeader(line: Text)
    | DuplicateName(name: Text)
    | TextBeforeHeader
    | NoSections
    | EmptyBody(name: Text)

  datatype Section = Section(name: Text, body: Text)

  datatype Result = Ok(sections: seq<Section>) | Err(error: Error)

  /** A header line as it stands in the source, and the text up to the next header. */
  datatype Block = Block(header: Text, body: Text)

  /** The text before the first header, and the blocks. */
  datatype Blocks = Blocks(preamble: Text, blocks: seq<Block>)

  type NameRule = Text -> bool

  /** "## ". */
  const MARK: Text := [35, 35, SPACE]

  /* ---- Lines ---- */

  /** The lines of a text, each with its LF; the last one, perhaps empty, has none. */
  function LinesOf(t: Text): (lines: seq<Text>)
    ensures |lines| >= 1
    decreases |t|
  {
    var i := IndexOf(t, LF);
    if i == |t| then [t] else [t[..i + 1]] + LinesOf(t[i + 1..])
  }

  function WithoutEnd(t: Text, c: CodeUnit): Text {
    if t != [] && t[|t| - 1] == c then t[..|t| - 1] else t
  }

  /** A line without its LF or CR LF. */
  function Content(line: Text): Text {
    WithoutEnd(WithoutEnd(line, LF), CR)
  }

  predicate IsHeader(line: Text) {
    MARK <= Content(line)
  }

  function NameOf(header: Text): Text {
    if |Content(header)| >= 3 then Content(header)[3..] else []
  }

  /** The lines grouped under their headers. */
  function Grouped(lines: seq<Text>): Blocks {
    if lines == [] then Blocks([], [])
    else
      var rest := Grouped(lines[1..]);
      if IsHeader(lines[0]) then Blocks([], [Block(lines[0], rest.preamble)] + rest.blocks)
      else rest.(preamble := lines[0] + rest.preamble)
  }

  /* ---- Trimming ---- */

  function DropBlank(lines: seq<Text>): seq<Text> {
    if lines == [] then []
    else if Blank(lines[|lines| - 1]) then DropBlank(lines[..|lines| - 1])
    else lines
  }

  function EndedLine(t: Text): Text {
    if t != [] && t[|t| - 1] == LF then t else t + [LF]
  }

  function Trimmed(body: Text): Text {
    EndedLine(Concat(DropBlank(LinesOf(body))))
  }

  /* ---- The result ---- */

  /** The first header that is malformed or repeats a name. */
  function HeaderError(blocks: seq<Block>, names: set<Text>, rule: NameRule): Option<Error> {
    if blocks == [] then None
    else
      var name := NameOf(blocks[0].header);
      if !rule(name) then Some(InvalidHeader(Content(blocks[0].header)))
      else if name in names then Some(DuplicateName(name))
      else HeaderError(blocks[1..], names + {name}, rule)
  }

  function SectionsOf(blocks: seq<Block>): Result {
    if blocks == [] then Ok([])
    else if Blank(blocks[0].body) then Err(EmptyBody(NameOf(blocks[0].header)))
    else
      match SectionsOf(blocks[1..])
      case Ok(rest) => Ok([Section(NameOf(blocks[0].header), Trimmed(blocks[0].body))] + rest)
      case Err(e) => Err(e)
  }

  function Parsed(source: Text, rule: NameRule): Result {
    var g := Grouped(LinesOf(source));
    var headerError := HeaderError(g.blocks, {}, rule);
    if headerError.Some? then Err(headerError.value)
    else if g.blocks == [] then Err(if Blank(source) then NoSections else TextBeforeHeader)
    else if !Blank(g.preamble) then Err(TextBeforeHeader)
    else SectionsOf(g.blocks)
  }

  /* ---- Facts about lines ---- */

  lemma IndexOfInPrefix(a: Text, b: Text)
    requires LF in a
    ensures IndexOf(a + b, LF) == IndexOf(a, LF) < |a|
  {
    var i := IndexOf(a, LF);
    assert (a + b)[i] == a[i];
    assert forall k | 0 <= k < i :: (a + b)[k] == a[k];
  }

  lemma LinesOfStep(s: Text, i: nat)
    requires IndexOf(s, LF) == i < |s|
    ensures LinesOf(s) == [s[..i + 1]] + LinesOf(s[i + 1..])
  {
  }

  lemma FirstLine(a: Text, b: Text)
    requires LF in a
    ensures var i := IndexOf(a, LF);
      i < |a| && LinesOf(a + b) == [a[..i + 1]] + LinesOf(a[i + 1..] + b)
  {
    IndexOfInPrefix(a, b);
    var i := IndexOf(a, LF);
    assert (a + b)[..i + 1] == a[..i + 1] && (a + b)[i + 1..] == a[i + 1..] + b;
  }

  /** The lines of a text made of whole lines. */
  function WholeLines(t: Text): seq<Text>
    decreases |t|
  {
    var i := IndexOf(t, LF);
    if i == |t| then [] else [t[..i + 1]] + WholeLines(t[i + 1..])
  }

  predicate EndsInLine(t: Text) {
    t == [] || t[|t| - 1] == LF
  }

  lemma LaterLinesEnd(a: Text, i: nat)
    requires a != [] && EndsInLine(a) && i == IndexOf(a, LF)
    ensures LF in a && i < |a| && EndsInLine(a[i + 1..])
  {
    assert a[|a| - 1] in a;
  }

  lemma {:induction false} LinesOfConcat(a: Text, b: Text)
    requires EndsInLine(a)
    ensures LinesOf(a + b) == WholeLines(a) + LinesOf(b)
    decreases |a|
  {
    if a == [] {
      assert a + b == b;
    } else {
      var i := IndexOf(a, LF);
      LaterLinesEnd(a, i);
      FirstLine(a, b);
      LinesOfConcat(a[i + 1..], b);
      ConcatAssociates([a[..i + 1]], WholeLines(a[i + 1..]), LinesOf(b));
    }
  }

  lemma {:induction false} LinesRebuild(t: Text)
    ensures Concat(LinesOf(t)) == t
    decreases |t|
  {
    var i := IndexOf(t, LF);
    if i < |t| {
      LinesRebuild(t[i + 1..]);
      assert LinesOf(t)[1..] == LinesOf(t[i + 1..]);
    } else {
      assert [t][1..] == [] && t + [] == t;
    }
  }

  predicate NoHeaders(lines: seq<Text>) {
    forall i | 0 <= i < |lines| :: !IsHeader(lines[i])
  }

  lemma {:induction false} GroupedAfterBody(body: seq<Text>, rest: seq<Text>)
    requires NoHeaders(body)
    ensures Grouped(body + rest) == Grouped(rest).(preamble := Concat(body) + Grouped(rest).preamble)
    decreases |body|
  {
    if body == [] {
      assert body + rest == rest;
    } else {
      GroupedAfterBody(body[1..], rest);
      GroupedBodyLine(body[0], body[1..] + rest);
      ConcatAssociates([body[0]], body[1..], rest);
      assert body == [body[0]] + body[1..];
      ConcatAssociates(body[0], Concat(body[1..]), Grouped(rest).preamble);
    }
  }

  lemma {:induction false} GroupedBodyLine(line: Text, rest: seq<Text>)
    requires !IsHeader(line)
    ensures Grouped([line] + rest) == Grouped(rest).(preamble := line + Grouped(rest).preamble)
  {
    assert ([line] + rest)[1..] == rest;
  }

  /* ---- Bodies ---- */

  /** A line as it comes out of a text: an LF at most at its end. */
  predicate IsLine(line: Text) {
    forall i | 0 <= i < |line| - 1 :: line[i] != LF
  }

  lemma {:induction false} LinesAreLines(t: Text)
    ensures forall i | 0 <= i < |LinesOf(t)| :: IsLine(LinesOf(t)[i])
    decreases |t|
  {
    var i := IndexOf(t, LF);
    if i < |t| {
      LinesAreLines(t[i + 1..]);
    }
  }

  lemma OneWholeLine(line: Text, rest: Text)
    requires IsLine(line) && line != [] && line[|line| - 1] == LF
    ensures LinesOf(line + rest) == [line] + LinesOf(rest)
  {
    assert line[|line| - 1] in line;
    FirstLine(line, rest);
    assert IndexOf(line, LF) == |line| - 1;
    assert line[..|line|] == line && line[|line|..] + rest == rest;
  }

  ghost predicate BodiesHaveNoHeaders(g: Blocks) {
    && NoHeaders(LinesOf(g.preamble))
    && forall i | 0 <= i < |g.blocks| :: NoHeaders(LinesOf(g.blocks[i].body))
  }

  /** No body contains a header line. */
  lemma {:induction false} NoHeaderInBodies(t: Text)
    ensures BodiesHaveNoHeaders(Grouped(LinesOf(t)))
    decreases |t|
  {
    assert LinesOf([]) == [[]] && !IsHeader([]);
    var i := IndexOf(t, LF);
    var line := LinesOf(t)[0];
    if i == |t| {
      assert LinesOf(t)[1..] == [] && t + [] == t;
    } else {
      NoHeaderInBodies(t[i + 1..]);
      assert LinesOf(t)[1..] == LinesOf(t[i + 1..]);
      OneWholeLine(line, Grouped(LinesOf(t[i + 1..])).preamble);
    }
  }

  /** The source is the preamble and then each header with its body: disjoint slices in order. */
  function Rebuilt(blocks: seq<Block>): Text {
    if blocks == [] then [] else blocks[0].header + blocks[0].body + Rebuilt(blocks[1..])
  }

  lemma {:induction false} GroupedRebuilds(lines: seq<Text>)
    ensures Grouped(lines).preamble + Rebuilt(Grouped(lines).blocks) == Concat(lines)
    decreases |lines|
  {
    if lines != [] {
      GroupedRebuilds(lines[1..]);
      var rest := Grouped(lines[1..]);
      ConcatAssociates(lines[0], rest.preamble, Rebuilt(rest.blocks));
      if IsHeader(lines[0]) {
        assert Grouped(lines).blocks[1..] == rest.blocks;
      }
    }
  }

  lemma {:induction false} BlocksPartitionSource(source: Text)
    ensures var g := Grouped(LinesOf(source)); g.preamble + Rebuilt(g.blocks) == source
  {
    GroupedRebuilds(LinesOf(source));
    LinesRebuild(source);
  }

  /* ---- Trimming ---- */

  lemma {:induction false} DropBlankIsPrefix(lines: seq<Text>)
    ensures var kept := DropBlank(lines);
      && kept <= lines
      && (kept != [] ==> !Blank(kept[|kept| - 1]))
    decreases |lines|
  {
    if lines != [] && Blank(lines[|lines| - 1]) {
      DropBlankIsPrefix(lines[..|lines| - 1]);
    }
  }

  lemma {:induction false} ConcatSnoc(lines: seq<Text>, line: Text)
    ensures Concat(lines + [line]) == Concat(lines) + line
  {
    if lines == [] {
      assert [] + [line] == [line] && [line][1..] == [] && line + [] == line && [] + line == line;
    } else {
      ConcatSnoc(lines[1..], line);
      assert (lines + [line])[1..] == lines[1..] + [line];
      ConcatAssociates(lines[0], Concat(lines[1..]), line);
    }
  }

  predicate IsWholeLine(line: Text) {
    IsLine(line) && line != [] && line[|line| - 1] == LF
  }

  /** Whole lines put together come apart again. */
  lemma {:induction false} LinesOfWhole(lines: seq<Text>)
    requires forall i | 0 <= i < |lines| :: IsWholeLine(lines[i])
    ensures LinesOf(Concat(lines)) == lines + [[]]
    decreases |lines|
  {
    if lines == [] {
      assert LinesOf([]) == [[]];
    } else {
      LinesOfWhole(lines[1..]);
      WholeLineFirst(lines[0], lines[1..], Concat(lines[1..]));
      assert lines == [lines[0]] + lines[1..];
    }
  }

  lemma WholeLineFirst(line: Text, lines: seq<Text>, rest: Text)
    requires IsWholeLine(line) && LinesOf(rest) == lines + [[]]
    ensures LinesOf(line + rest) == [line] + lines + [[]]
  {
    OneWholeLine(line, rest);
    ConcatAssociates([line], lines, [[]]);
  }

  lemma WholeEndsInLine(lines: seq<Text>)
    requires forall i | 0 <= i < |lines| :: IsWholeLine(lines[i])
    ensures EndsInLine(Concat(lines))
  {
    if lines != [] {
      WholeEndsInLine(lines[1..]);
    }
  }

  /** Every line but the last ends in LF, and the last has none. */
  lemma {:induction false} LineEnds(t: Text)
    ensures var lines := LinesOf(t);
      && (forall i | 0 <= i < |lines| - 1 :: lines[i] != [] && lines[i][|lines[i]| - 1] == LF)
      && LF !in lines[|lines| - 1]
    decreases |t|
  {
    var i := IndexOf(t, LF);
    if i < |t| {
      LineEnds(t[i + 1..]);
    }
  }

  /** The lines of a trimmed body: what was kept of its lines, each ended. */
  function KeptLines(body: Text): seq<Text> {
    LastEnded(DropBlank(LinesOf(body)))
  }

  function LastEnded(lines: seq<Text>): seq<Text> {
    if lines == [] then [[LF]] else lines[..|lines| - 1] + [EndedLine(lines[|lines| - 1])]
  }

  lemma LastEndedIsWhole(lines: seq<Text>, kept: seq<Text>)
    requires kept <= lines && (kept != [] ==> kept[|kept| - 1] != [])
    requires forall i | 0 <= i < |lines| :: IsLine(lines[i])
    requires forall i | 0 <= i < |lines| - 1 :: lines[i] != [] && lines[i][|lines[i]| - 1] == LF
    ensures forall i | 0 <= i < |LastEnded(kept)| :: IsWholeLine(LastEnded(kept)[i])
  {
    forall i | 0 <= i < |kept| ensures IsLine(kept[i]) {
      assert kept[i] == lines[i];
    }
  }

  lemma KeptLinesAreWhole(body: Text)
    ensures forall i | 0 <= i < |KeptLines(body)| :: IsWholeLine(KeptLines(body)[i])
  {
    DropBlankIsPrefix(LinesOf(body));
    LinesAreLines(body);
    LineEnds(body);
    LastEndedIsWhole(LinesOf(body), DropBlank(LinesOf(body)));
  }

  lemma KeptLinesText(body: Text)
    ensures Concat(KeptLines(body)) == Trimmed(body)
  {
    var kept := DropBlank(LinesOf(body));
    DropBlankIsPrefix(LinesOf(body));
    if kept == [] {
      assert [[LF]][1..] == [] && Concat([[LF]]) == [LF];
    } else {
      var (before, last) := (kept[..|kept| - 1], kept[|kept| - 1]);
      assert kept == before + [last] && !Blank(last);
      ConcatSnoc(before, last);
      ConcatSnoc(before, EndedLine(last));
      EndedAppend(Concat(before), last);
    }
  }

  lemma EndedAppend(before: Text, last: Text)
    requires last != []
    ensures EndedLine(before + last) == before + EndedLine(last)
  {
    var t := before + last;
    assert t[|t| - 1] == last[|last| - 1];
    ConcatAssociates(before, last, [LF]);
  }

  lemma TrimmedLines(body: Text)
    ensures LinesOf(Trimmed(body)) == KeptLines(body) + [[]]
    ensures EndsInLine(Trimmed(body)) && WholeLines(Trimmed(body)) == KeptLines(body)
  {
    KeptLinesAreWhole(body);
    KeptLinesText(body);
    LinesOfWhole(KeptLines(body));
    WholeEndsInLine(KeptLines(body));
    LastLineIsEmpty(Trimmed(body));
    SameBeforeLast(WholeLines(Trimmed(body)), KeptLines(body), [[]]);
  }

  lemma SameBeforeLast(a: seq<Text>, b: seq<Text>, last: seq<Text>)
    requires a + last == b + last
    ensures a == b
  {
    assert a == (a + last)[..|a|] && b == (b + last)[..|b|];
  }

  lemma DropFinalEmpty(lines: seq<Text>)
    ensures DropBlank(lines + [[]]) == DropBlank(lines)
  {
    assert (lines + [[]])[..|lines|] == lines;
  }

  lemma KeptLinesStay(body: Text)
    ensures var lines := KeptLines(body);
      DropBlank(lines) == if DropBlank(LinesOf(body)) == [] then [] else lines
  {
    DropBlankIsPrefix(LinesOf(body));
    LastEndedStays(DropBlank(LinesOf(body)));
  }

  lemma LastEndedStays(kept: seq<Text>)
    requires kept != [] ==> !Blank(kept[|kept| - 1])
    ensures DropBlank(LastEnded(kept)) == if kept == [] then [] else LastEnded(kept)
  {
    if kept == [] {
      assert [[LF]][..0] == [];
    } else {
      StillNotBlank(kept[|kept| - 1]);
    }
  }

  lemma StillNotBlank(line: Text)
    requires !Blank(line)
    ensures !Blank(EndedLine(line))
  {
    var i :| 0 <= i < |line| && !IsSpace(line[i]);
    assert EndedLine(line)[i] == line[i];
  }

  /** Trimming a trimmed body changes nothing. */
  lemma TrimmedIsFixed(body: Text)
    ensures Trimmed(Trimmed(body)) == Trimmed(body)
  {
    TrimmedLines(body);
    DropFinalEmpty(KeptLines(body));
    KeptLinesStay(body);
    KeptLinesText(body);
  }

  /* ---- Rendering and reading again ---- */

  function HeaderLine(name: Text): Text {
    MARK + name + [LF]
  }

  function Rendered(sections: seq<Section>): Text {
    if sections == [] then []
    else HeaderLine(sections[0].name) + (sections[0].body + Rendered(sections[1..]))
  }

  function BlocksOf(sections: seq<Section>): seq<Block> {
    if sections == [] then []
    else [Block(HeaderLine(sections[0].name), sections[0].body)] + BlocksOf(sections[1..])
  }

  /** What the parser hands out: a one-line name, and a body of whole lines without headers. */
  ghost predicate Renderable(section: Section) {
    LF !in section.name && EndsInLine(section.body) && NoHeaders(WholeLines(section.body))
  }

  lemma HeaderLineReads(name: Text)
    requires LF !in name
    ensures IsLine(HeaderLine(name)) && IsHeader(HeaderLine(name))
    ensures NameOf(HeaderLine(name)) == WithoutEnd(name, CR)
  {
    var line := HeaderLine(name);
    assert WithoutEnd(line, LF) == MARK + name;
    if name != [] && name[|name| - 1] == CR {
      assert Content(line) == MARK + name[..|name| - 1];
    } else {
      assert Content(line) == MARK + name;
    }
  }

  /** A header line and a body of whole lines become one block in front of what follows. */
  lemma OneBlock(header: Text, body: Text, rest: Text)
    requires IsWholeLine(header) && IsHeader(header) && EndsInLine(body) && NoHeaders(WholeLines(body))
    ensures var g := Grouped(LinesOf(rest));
      Grouped(LinesOf(header + (body + rest))) == Blocks([], [Block(header, body + g.preamble)] + g.blocks)
  {
    var after := LinesOf(body + rest);
    OneWholeLine(header, body + rest);
    assert ([header] + after)[1..] == after;
    LinesOfConcat(body, rest);
    GroupedAfterBody(WholeLines(body), LinesOf(rest));
    WholeLinesRebuild(body);
  }

  lemma {:induction false} RenderedGroups(sections: seq<Section>)
    requires forall i | 0 <= i < |sections| :: Renderable(sections[i])
    ensures Grouped(LinesOf(Rendered(sections))) == Blocks([], BlocksOf(sections))
    decreases |sections|
  {
    EmptyGroups();
    if sections != [] {
      RenderedGroups(sections[1..]);
      HeaderLineReads(sections[0].name);
      OneBlock(HeaderLine(sections[0].name), sections[0].body, Rendered(sections[1..]));
      assert sections[0].body + [] == sections[0].body;
    }
  }

  lemma EmptyGroups()
    ensures Grouped(LinesOf([])) == Blocks([], [])
  {
    var lines: seq<Text> := LinesOf([]);
    assert lines == [[]] && lines[1..] == [] && !IsHeader([]);
    assert Grouped(lines).preamble == [] + Grouped(lines[1..]).preamble;
  }

  lemma LastLineIsEmpty(t: Text)
    requires EndsInLine(t)
    ensures LinesOf(t) == WholeLines(t) + [[]]
  {
    LinesOfConcat(t, []);
    assert t + [] == t;
  }

  lemma WholeLinesRebuild(t: Text)
    requires EndsInLine(t)
    ensures Concat(WholeLines(t)) == t
  {
    LastLineIsEmpty(t);
    LinesRebuild(t);
    ConcatSnoc(WholeLines(t), []);
    assert Concat(WholeLines(t)) + [] == Concat(WholeLines(t));
  }

  lemma EndedContent(line: Text)
    requires IsLine(line)
    ensures Content(EndedLine(line)) == Content(line)
  {
    if line == [] || line[|line| - 1] != LF {
      assert WithoutEnd(line + [LF], LF) == line;
    }
  }

  lemma KeptLinesHaveNoHeaders(body: Text)
    requires NoHeaders(LinesOf(body))
    ensures NoHeaders(KeptLines(body))
  {
    var kept := DropBlank(LinesOf(body));
    DropBlankIsPrefix(LinesOf(body));
    LinesAreLines(body);
    assert forall i | 0 <= i < |kept| :: kept[i] == LinesOf(body)[i];
    if kept != [] {
      EndedContent(kept[|kept| - 1]);
    } else {
      assert Content([LF]) == [];
    }
  }

  lemma BlankParts(a: Text, b: Text)
    ensures Blank(a + b) <==> Blank(a) && Blank(b)
  {
    assert forall i | 0 <= i < |a| :: (a + b)[i] == a[i];
    assert forall i | 0 <= i < |b| :: (a + b)[|a| + i] == b[i];
  }

  lemma {:induction false} NothingKeptIsBlank(lines: seq<Text>)
    requires DropBlank(lines) == []
    ensures Blank(Concat(lines))
    decreases |lines|
  {
    if lines != [] {
      var (before, last) := (lines[..|lines| - 1], lines[|lines| - 1]);
      DropBlankIsPrefix(lines);
      NothingKeptIsBlank(before);
      ConcatSnoc(before, last);
      BlankParts(Concat(before), last);
      assert lines == before + [last];
    }
  }

  lemma TrimmedIsNotBlank(body: Text)
    requires !Blank(body)
    ensures !Blank(Trimmed(body))
  {
    var kept := DropBlank(LinesOf(body));
    LinesRebuild(body);
    DropBlankIsPrefix(LinesOf(body));
    if kept == [] {
      NothingKeptIsBlank(LinesOf(body));
    } else {
      var (before, last) := (kept[..|kept| - 1], kept[|kept| - 1]);
      assert kept == before + [last];
      ConcatSnoc(before, last);
      BlankParts(Concat(before), last);
      StillNotBlank(Concat(kept));
    }
  }

  lemma {:induction false} HeadersAreLines(lines: seq<Text>)
    requires forall i | 0 <= i < |lines| :: IsLine(lines[i])
    ensures forall i | 0 <= i < |Grouped(lines).blocks| :: IsLine(Grouped(lines).blocks[i].header)
    decreases |lines|
  {
    if lines != [] {
      HeadersAreLines(lines[1..]);
    }
  }

  lemma NameHasNoLf(line: Text)
    requires IsLine(line)
    ensures LF !in NameOf(line)
  {
  }

  lemma {:induction false} SectionsShape(blocks: seq<Block>)
    ensures SectionsOf(blocks).Ok? <==> forall i | 0 <= i < |blocks| :: !Blank(blocks[i].body)
    ensures SectionsOf(blocks).Ok? ==>
      var sections := SectionsOf(blocks).sections;
      && |sections| == |blocks|
      && forall i | 0 <= i < |blocks| :: sections[i] == Section(NameOf(blocks[i].header), Trimmed(blocks[i].body))
    decreases |blocks|
  {
    if blocks != [] {
      SectionsShape(blocks[1..]);
      assert blocks == [blocks[0]] + blocks[1..];
    }
  }

  lemma {:induction false} BlocksOfAt(sections: seq<Section>)
    ensures |BlocksOf(sections)| == |sections|
    ensures forall i | 0 <= i < |sections| ::
      BlocksOf(sections)[i] == Block(HeaderLine(sections[i].name), sections[i].body)
    decreases |sections|
  {
    if sections != [] {
      BlocksOfAt(sections[1..]);
    }
  }

  lemma {:induction false} SameNamesSameVerdict(a: seq<Block>, b: seq<Block>, names: set<Text>, rule: NameRule)
    requires |a| == |b| && forall i | 0 <= i < |a| :: NameOf(a[i].header) == NameOf(b[i].header)
    ensures HeaderError(a, names, rule).None? <==> HeaderError(b, names, rule).None?
    decreases |a|
  {
    if a != [] {
      SameNamesSameVerdict(a[1..], b[1..], names + {NameOf(a[0].header)}, rule);
    }
  }

  /** Everything an accepted source yields can be rendered: names of one line, trimmed bodies without headers. */
  lemma AcceptedIsRenderable(source: Text, rule: NameRule)
    requires Parsed(source, rule).Ok?
    ensures var (blocks, sections) := (Grouped(LinesOf(source)).blocks, Parsed(source, rule).sections);
      && |sections| == |blocks| && sections != []
      && HeaderError(blocks, {}, rule).None?
      && forall i | 0 <= i < |sections| ::
           && Renderable(sections[i])
           && sections[i].name == NameOf(blocks[i].header)
           && Trimmed(sections[i].body) == sections[i].body && !Blank(sections[i].body)
  {
    var g := Grouped(LinesOf(source));
    var sections := Parsed(source, rule).sections;
    SectionsShape(g.blocks);
    NoHeaderInBodies(source);
    LinesAreLines(source);
    HeadersAreLines(LinesOf(source));
    forall i | 0 <= i < |sections|
      ensures Renderable(sections[i])
      ensures Trimmed(sections[i].body) == sections[i].body && !Blank(sections[i].body)
    {
      var block := g.blocks[i];
      NameHasNoLf(block.header);
      TrimmedLines(block.body);
      KeptLinesHaveNoHeaders(block.body);
      TrimmedIsFixed(block.body);
      TrimmedIsNotBlank(block.body);
    }
  }

  /** No name ends in the CR that a header line would swallow. */
  predicate NamesSurvive(sections: seq<Section>) {
    forall i | 0 <= i < |sections| :: WithoutEnd(sections[i].name, CR) == sections[i].name
  }

  /** Rendering the sections of an accepted source and parsing again gives them back exactly when no name ends in CR. */
  lemma RenderedReadsBack(source: Text, rule: NameRule)
    requires Parsed(source, rule).Ok?
    ensures var sections := Parsed(source, rule).sections;
      Parsed(Rendered(sections), rule) == Ok(sections) <==> NamesSurvive(sections)
  {
    var sections := Parsed(source, rule).sections;
    var blocks := BlocksOf(sections);
    AcceptedIsRenderable(source, rule);
    RenderedGroups(sections);
    BlocksOfAt(sections);
    forall i | 0 <= i < |sections| ensures NameOf(blocks[i].header) == WithoutEnd(sections[i].name, CR) {
      HeaderLineReads(sections[i].name);
    }
    SectionsShape(blocks);
    if NamesSurvive(sections) {
      SameNamesSameVerdict(Grouped(LinesOf(source)).blocks, blocks, {}, rule);
      assert SectionsOf(blocks).sections == sections;
    }
  }

  lemma OneSectionReads(section: Section, rule: NameRule)
    requires Renderable(section) && !Blank(section.body) && Trimmed(section.body) == section.body
    requires rule(WithoutEnd(section.name, CR))
    ensures Parsed(HeaderLine(section.name) + section.body, rule)
         == Ok([Section(WithoutEnd(section.name, CR), section.body)])
  {
    var block := Block(HeaderLine(section.name), section.body);
    RenderedGroups([section]);
    OneRendered(section);
    HeaderLineReads(section.name);
    OneBlockReads(block.header + block.body, block, rule);
  }

  lemma OneRendered(section: Section)
    ensures Rendered([section]) == HeaderLine(section.name) + section.body
    ensures BlocksOf([section]) == [Block(HeaderLine(section.name), section.body)]
  {
    assert [section][1..] == [] && section.body + [] == section.body;
  }

  lemma OneBlockReads(source: Text, block: Block, rule: NameRule)
    requires Grouped(LinesOf(source)) == Blocks([], [block]) && rule(NameOf(block.header)) && !Blank(block.body)
    ensures Parsed(source, rule) == Ok([Section(NameOf(block.header), Trimmed(block.body))])
  {
    assert [block][1..] == [];
    assert HeaderError([block], {}, rule) == HeaderError([], {NameOf(block.header)}, rule);
    assert SectionsOf([]) == Ok([]);
  }

  /** A name read from a header that ends in CR CR LF is rendered with one CR, which is then taken for a line end. */
  lemma {:induction false} NameEndingInCrIsLost(rule: NameRule)
    requires rule([97, CR])
    ensures var (source, sections) := (HeaderLine([97, CR, CR]) + [120, LF], [Section([97, CR], [120, LF])]);
      && Parsed(source, rule) == Ok(sections)
      && Parsed(Rendered(sections), rule) != Ok(sections)
  {
    var section := Section([97, CR, CR], [120, LF]);
    OneBodyLine();
    assert WithoutEnd(section.name, CR) == [97, CR];
    OneSectionReads(section, rule);
    EndingInCrIsLost(HeaderLine(section.name) + section.body, Section([97, CR], [120, LF]), rule);
  }

  lemma EndingInCrIsLost(source: Text, section: Section, rule: NameRule)
    requires Parsed(source, rule) == Ok([section]) && section.name != [] && section.name[|section.name| - 1] == CR
    ensures Parsed(Rendered([section]), rule) != Ok([section])
  {
    assert !NamesSurvive([section]) by {
      assert |WithoutEnd(section.name, CR)| < |section.name| && [section][0] == section;
    }
    RenderedReadsBack(source, rule);
  }

  lemma OneBodyLine()
    ensures Renderable(Section([97, CR, CR], [120, LF]))
    ensures !Blank([120, LF]) && Trimmed([120, LF]) == [120, LF]
  {
    var body: Text := [120, LF];
    OneWholeLine(body, []);
    assert body + [] == body;
    LastLineIsEmpty(body);
    SameBeforeLast(WholeLines(body), [body], [[]]);
    assert LinesOf([]) == [[]];
    assert !IsSpace(body[0]) && Content(body) == [120];
    DropFinalEmpty([body]);
    assert DropBlank([body]) == [body] && Concat([body][1..]) == [];
  }

  lemma {:induction false} AcceptedNamesFollowRule(blocks: seq<Block>, names: set<Text>, rule: NameRule)
    requires HeaderError(blocks, names, rule).None?
    ensures forall i | 0 <= i < |blocks| :: rule(NameOf(blocks[i].header)) && NameOf(blocks[i].header) !in names
    ensures forall i, j | 0 <= i < j < |blocks| :: NameOf(blocks[i].header) != NameOf(blocks[j].header)
    decreases |blocks|
  {
    if blocks != [] {
      AcceptedNamesFollowRule(blocks[1..], names + {NameOf(blocks[0].header)}, rule);
    }
  }

  /** For a name rule that excludes CR the round trip always holds, and names are distinct. */
  lemma RuleWithoutCrReadsBack(source: Text, rule: NameRule)
    requires Parsed(source, rule).Ok? && forall name | rule(name) :: CR !in name
    ensures var sections := Parsed(source, rule).sections;
      && Parsed(Rendered(sections), rule) == Ok(sections)
      && forall i, j | 0 <= i < j < |sections| :: sections[i].name != sections[j].name
  {
    AcceptedIsRenderable(source, rule);
    AcceptedNamesFollowRule(Grouped(LinesOf(source)).blocks, {}, rule);
    RenderedReadsBack(source, rule);
  }

  /* ---- The loops ---- */

  lemma BlankWithoutCr(line: Text, end: Text)
    requires Blank(end)
    ensures Blank(WithoutEnd(line, CR)) <==> Blank(line + end)
  {
    BlankParts(line, end);
    if WithoutEnd(line, CR) != line {
      var start := WithoutEnd(line, CR);
      assert line == start + [CR];
      BlankParts(start, [CR]);
    }
  }

  /** `contentEnd` follows the last line so far that is not blank. */
  ghost predicate Scanned(t: Text, done: seq<Text>, offset: nat, contentEnd: nat) {
    && offset <= |t| && contentEnd <= |t|
    && Concat(done) == t[..offset]
    && Concat(DropBlank(done)) == t[..contentEnd]
  }

  lemma ScanLine(t: Text, done: seq<Text>, offset: nat, contentEnd: nat, next: nat, blank: bool)
    requires Scanned(t, done, offset, contentEnd) && offset <= next <= |t|
    requires blank <==> Blank(t[offset..next])
    ensures Scanned(t, done + [t[offset..next]], next, if blank then contentEnd else next)
  {
    var line := t[offset..next];
    ConcatSnoc(done, line);
    assert t[..offset] + line == t[..next];
    assert (done + [line])[..|done|] == done;
  }

  /** Where the line ends whose LF, if any, is at `newline`. */
  function LineEnd(t: Text, newline: nat): nat {
    if newline == |t| then newline else newline + 1
  }

  /** The lines from an offset on. */
  ghost function LinesAt(t: Text, offset: nat): (lines: seq<Text>)
    requires offset <= |t|
    ensures lines != []
    decreases |t| - offset
  {
    var newline := IndexOf(t, LF, offset);
    if newline == |t| then [t[offset..]] else [t[offset..newline + 1]] + LinesAt(t, newline + 1)
  }

  lemma IndexOfFrom(t: Text, offset: nat)
    requires offset <= |t|
    ensures IndexOf(t, LF, offset) == offset + IndexOf(t[offset..], LF)
  {
    var (left, i) := (t[offset..], IndexOf(t[offset..], LF));
    assert i < |left| ==> t[offset + i] == left[i];
    var newline := IndexOf(t, LF, offset);
    assert newline < |t| ==> left[newline - offset] == t[newline];
  }

  lemma {:induction false} LinesAtOffset(t: Text, offset: nat)
    requires offset <= |t|
    ensures LinesAt(t, offset) == LinesOf(t[offset..])
    decreases |t| - offset
  {
    var (left, i) := (t[offset..], IndexOf(t[offset..], LF));
    IndexOfFrom(t, offset);
    if i < |left| {
      LinesOfStep(left, i);
      LinesAtOffset(t, offset + i + 1);
      SameSlices(t, offset, i + 1);
    }
  }

  lemma LinesAtStart(t: Text)
    ensures LinesAt(t, 0) == LinesOf(t)
  {
    LinesAtOffset(t, 0);
    assert t[0..] == t;
  }

  lemma SameSlices(t: Text, offset: nat, n: nat)
    requires offset + n <= |t|
    ensures t[offset..][..n] == t[offset..offset + n] && t[offset..][n..] == t[offset + n..]
  {
  }

  ghost function LinesAfter(t: Text, newline: nat): seq<Text>
    requires newline <= |t|
  {
    if newline == |t| then [] else LinesAt(t, newline + 1)
  }

  /** The line that ends at `newline`, and the lines after it. */
  lemma NextLine(t: Text, offset: nat, newline: nat)
    requires offset <= |t| && newline == IndexOf(t, LF, offset)
    ensures LinesAt(t, offset)
         == [t[offset..LineEnd(t, newline)]] + LinesAfter(t, newline)
  {
    assert newline == |t| ==> t[offset..newline] == t[offset..];
  }

  /** The lines read so far, in front of those that are left. */
  ghost predicate Joins(done: seq<Text>, left: seq<Text>, all: seq<Text>) {
    done + left == all
  }

  lemma FirstMoves(done: seq<Text>, left: seq<Text>, line: Text, rest: seq<Text>, all: seq<Text>)
    requires Joins(done, left, all) && left == [line] + rest
    ensures Joins(done + [line], rest, all)
    ensures rest == [] ==> done + [line] == all
  {
  }

  lemma ScanNext(t: Text, done: seq<Text>, offset: nat, contentEnd: nat, newline: nat, blank: bool)
    requires Scanned(t, done, offset, contentEnd) && offset <= newline < |t| && t[newline] == LF
    requires blank <==> Blank(WithoutEnd(t[offset..newline], CR))
    ensures Scanned(t, done + [t[offset..newline + 1]], newline + 1, if blank then contentEnd else newline + 1)
  {
    BlankWithoutCr(t[offset..newline], [LF]);
    assert t[offset..newline] + [LF] == t[offset..newline + 1];
    ScanLine(t, done, offset, contentEnd, newline + 1, blank);
  }

  lemma ScanLast(t: Text, done: seq<Text>, offset: nat, contentEnd: nat, blank: bool)
    requires Scanned(t, done, offset, contentEnd) && LinesOf(t) == done + [t[offset..]]
    requires blank <==> Blank(WithoutEnd(t[offset..], CR))
    ensures Trimmed(t) == EndedLine(t[..if blank then contentEnd else |t|])
  {
    var line := t[offset..];
    BlankWithoutCr(line, []);
    assert line + [] == line && line == t[offset..|t|];
    ScanLine(t, done, offset, contentEnd, |t|, blank);
  }

  /** Where the loop stands: the lines it has read and those from the offset on are all the lines. */
  ghost predicate Trimming(t: Text, done: seq<Text>, offset: nat, contentEnd: nat) {
    && Scanned(t, done, offset, contentEnd)
    && Joins(done, LinesAt(t, offset), LinesOf(t))
  }

  lemma TrimFirst(t: Text)
    ensures Trimming(t, [], 0, 0)
  {
    LinesAtStart(t);
    assert [] + LinesOf(t) == LinesOf(t);
  }

  lemma TrimNext(t: Text, done: seq<Text>, offset: nat, contentEnd: nat, newline: nat, blank: bool)
    requires Trimming(t, done, offset, contentEnd) && newline == IndexOf(t, LF, offset) < |t|
    requires blank <==> Blank(WithoutEnd(t[offset..newline], CR))
    ensures Trimming(t, done + [t[offset..newline + 1]], newline + 1, if blank then contentEnd else newline + 1)
  {
    NextLine(t, offset, newline);
    FirstMoves(done, LinesAt(t, offset), t[offset..newline + 1], LinesAt(t, newline + 1), LinesOf(t));
    ScanNext(t, done, offset, contentEnd, newline, blank);
  }

  lemma TrimLast(t: Text, done: seq<Text>, offset: nat, contentEnd: nat, blank: bool)
    requires Trimming(t, done, offset, contentEnd) && IndexOf(t, LF, offset) == |t|
    requires blank <==> Blank(WithoutEnd(t[offset..], CR))
    ensures Trimmed(t) == EndedLine(t[..if blank then contentEnd else |t|])
  {
    NextLine(t, offset, |t|);
    assert t[offset..|t|] == t[offset..];
    FirstMoves(done, LinesAt(t, offset), t[offset..], [], LinesOf(t));
    ScanLast(t, done, offset, contentEnd, blank);
  }

  method WithoutTrailingBlankLines(body: Text) returns (r: Text)
    ensures r == Trimmed(body)
  {
    var offset: nat, contentEnd: nat := 0, 0;
    ghost var done: seq<Text> := [];
    TrimFirst(body);
    while true
      invariant offset <= |body| && Trimming(body, done, offset, contentEnd)
      decreases |body| - offset
    {
      var newline := IndexOf(body, LF, offset);
      var blank := Blank(WithoutEnd(body[offset..newline], CR));
      if newline == |body| {
        assert body[offset..newline] == body[offset..];
        TrimLast(body, done, offset, contentEnd, blank);
        contentEnd := if blank then contentEnd else newline;
        break;
      }
      TrimNext(body, done, offset, contentEnd, newline, blank);
      done := done + [body[offset..newline + 1]];
      contentEnd := if blank then contentEnd else newline + 1;
      offset := newline + 1;
    }
    var content := body[..contentEnd];
    return if content != [] && content[|content| - 1] == LF then content else content + [LF];
  }

  datatype Header = Header(name: Text, lineStart: nat, bodyStart: nat)

  ghost predicate InOrder(headers: seq<Header>, end: nat) {
    && (forall i | 0 <= i < |headers| :: headers[i].lineStart <= headers[i].bodyStart <= end)
    && (forall i | 0 <= i < |headers| - 1 :: headers[i].bodyStart <= headers[i + 1].lineStart)
  }

  function BodyEnd(headers: seq<Header>, i: nat, end: nat): nat
    requires i < |headers|
  {
    if i + 1 < |headers| then headers[i + 1].lineStart else end
  }

  /** The blocks that header positions cut out of a source, up to an offset. */
  ghost function CutOut(source: Text, headers: seq<Header>, end: nat): (blocks: seq<Block>)
    requires end <= |source| && InOrder(headers, end)
  {
    seq(|headers|, i requires 0 <= i < |headers| =>
      Block(source[headers[i].lineStart..headers[i].bodyStart], source[headers[i].bodyStart..BodyEnd(headers, i, end)]))
  }

  ghost function Preamble(source: Text, headers: seq<Header>, end: nat): Text
    requires end <= |source| && InOrder(headers, end)
  {
    source[..if headers == [] then end else headers[0].lineStart]
  }

  ghost function Extend(blocks: seq<Block>, more: Text): seq<Block> {
    if blocks == [] then []
    else
      var last := |blocks| - 1;
      blocks[..last] + [blocks[last].(body := blocks[last].body + more)]
  }

  /** What has been read so far, in front of what the remaining lines group into. */
  ghost function Joined(preamble: Text, blocks: seq<Block>, g: Blocks): Blocks {
    Blocks(if blocks == [] then preamble + g.preamble else preamble, Extend(blocks, g.preamble) + g.blocks)
  }

  lemma ExtendByNothing(blocks: seq<Block>)
    ensures Extend(blocks, []) == blocks
  {
    if blocks != [] {
      var last := blocks[|blocks| - 1];
      assert last.body + [] == last.body;
    }
  }

  lemma JoinHeader(preamble: Text, blocks: seq<Block>, line: Text, rest: seq<Text>)
    requires IsHeader(line)
    ensures Joined(preamble, blocks, Grouped([line] + rest))
         == Joined(preamble, blocks + [Block(line, [])], Grouped(rest))
  {
    var g := Grouped(rest);
    assert ([line] + rest)[1..] == rest;
    assert preamble + [] == preamble && [] + g.preamble == g.preamble;
    ExtendByNothing(blocks);
    assert (blocks + [Block(line, [])])[..|blocks|] == blocks;
    ConcatAssociates(blocks, [Block(line, g.preamble)], g.blocks);
  }

  lemma JoinBody(preamble: Text, blocks: seq<Block>, line: Text, rest: seq<Text>)
    requires !IsHeader(line)
    ensures Joined(preamble, blocks, Grouped([line] + rest))
         == Joined(if blocks == [] then preamble + line else preamble, Extend(blocks, line), Grouped(rest))
  {
    var g := Grouped(rest);
    assert ([line] + rest)[1..] == rest;
    if blocks == [] {
      ConcatAssociates(preamble, line, g.preamble);
    } else {
      var last := |blocks| - 1;
      ConcatAssociates(blocks[last].body, line, g.preamble);
      assert Extend(blocks, line)[..last] == blocks[..last];
    }
  }

  lemma CutHeader(source: Text, headers: seq<Header>, offset: nat, next: nat, name: Text)
    requires offset <= next <= |source| && InOrder(headers, offset)
    ensures var after := headers + [Header(name, offset, next)];
      && InOrder(after, next)
      && CutOut(source, after, next) == CutOut(source, headers, offset) + [Block(source[offset..next], [])]
      && Preamble(source, after, next) == Preamble(source, headers, offset)
  {
    var after := headers + [Header(name, offset, next)];
    var (a, b) := (CutOut(source, after, next), CutOut(source, headers, offset) + [Block(source[offset..next], [])]);
    forall i | 0 <= i < |a| ensures a[i] == b[i] {
      if i < |headers| {
        assert after[i] == headers[i] && BodyEnd(after, i, next) == BodyEnd(headers, i, offset);
      }
    }
  }

  lemma CutBody(source: Text, headers: seq<Header>, offset: nat, next: nat)
    requires offset <= next <= |source| && InOrder(headers, offset)
    ensures InOrder(headers, next)
    ensures CutOut(source, headers, next) == Extend(CutOut(source, headers, offset), source[offset..next])
    ensures Preamble(source, headers, next)
         == Preamble(source, headers, offset) + if headers == [] then source[offset..next] else []
  {
    if headers != [] {
      var last := |headers| - 1;
      var start := headers[last].bodyStart;
      assert source[start..next] == source[start..offset] + source[offset..next];
      var (a, b) := (CutOut(source, headers, next), Extend(CutOut(source, headers, offset), source[offset..next]));
      forall i | 0 <= i < |a| ensures a[i] == b[i] {
        assert i < last ==> BodyEnd(headers, i, next) == BodyEnd(headers, i, offset);
      }
    }
  }

  /** Where the scan for headers stands: what it cut out so far joins with what is left. */
  ghost predicate Reading(source: Text, headers: seq<Header>, offset: nat, left: seq<Text>,
                          names: set<Text>, rule: NameRule)
  {
    && offset <= |source| && InOrder(headers, offset)
    && Grouped(LinesOf(source))
       == Joined(Preamble(source, headers, offset), CutOut(source, headers, offset), Grouped(left))
    && HeaderError(Grouped(LinesOf(source)).blocks, {}, rule) == HeaderError(Grouped(left).blocks, names, rule)
    && forall i | 0 <= i < |headers| ::
         headers[i].name == NameOf(source[headers[i].lineStart..headers[i].bodyStart])
  }

  lemma ReadHeader(source: Text, headers: seq<Header>, offset: nat, next: nat, rest: seq<Text>,
                   names: set<Text>, rule: NameRule)
    requires offset <= next <= |source|
    requires Reading(source, headers, offset, [source[offset..next]] + rest, names, rule)
    requires IsHeader(source[offset..next])
    ensures var name := NameOf(source[offset..next]);
      && (rule(name) && name !in names ==>
          Reading(source, headers + [Header(name, offset, next)], next, rest, names + {name}, rule))
      && (!rule(name) ==> Parsed(source, rule) == Err(InvalidHeader(Content(source[offset..next]))))
      && (rule(name) && name in names ==> Parsed(source, rule) == Err(DuplicateName(name)))
  {
    var line := source[offset..next];
    JoinHeader(Preamble(source, headers, offset), CutOut(source, headers, offset), line, rest);
    CutHeader(source, headers, offset, next, NameOf(line));
    assert ([line] + rest)[1..] == rest;
    var g := Grouped([line] + rest);
    assert g.blocks[1..] == Grouped(rest).blocks && NameOf(g.blocks[0].header) == NameOf(line);
  }

  lemma ReadBody(source: Text, headers: seq<Header>, offset: nat, next: nat, rest: seq<Text>,
                 names: set<Text>, rule: NameRule)
    requires offset <= next <= |source|
    requires Reading(source, headers, offset, [source[offset..next]] + rest, names, rule)
    requires !IsHeader(source[offset..next])
    ensures Reading(source, headers, next, rest, names, rule)
  {
    var line := source[offset..next];
    JoinBody(Preamble(source, headers, offset), CutOut(source, headers, offset), line, rest);
    CutBody(source, headers, offset, next);
    assert ([line] + rest)[1..] == rest;
  }

  /** A line read without its LF has the header test and the name of the whole line. */
  lemma RawLineReads(raw: Text)
    requires LF !in raw
    ensures Content(raw + [LF]) == WithoutEnd(raw, CR) == Content(raw)
  {
    assert WithoutEnd(raw + [LF], LF) == raw;
    assert WithoutEnd(raw, LF) == raw;
  }

  lemma StartsReading(source: Text, rule: NameRule)
    ensures Reading(source, [], 0, LinesAt(source, 0), {}, rule)
  {
    LinesAtStart(source);
    var g := Grouped(LinesOf(source));
    assert [] + g.preamble == g.preamble && [] + g.blocks == g.blocks;
    assert Extend([], g.preamble) == [] && CutOut(source, [], 0) == [] && Preamble(source, [], 0) == [];
  }

  lemma {:induction false} ContentAt(source: Text, offset: nat, newline: nat)
    requires offset <= |source| && newline == IndexOf(source, LF, offset)
    ensures Content(source[offset..LineEnd(source, newline)]) == WithoutEnd(source[offset..newline], CR)
  {
    var raw := source[offset..newline];
    forall i | 0 <= i < |raw| ensures raw[i] != LF {
      assert raw[i] == source[offset + i];
    }
    RawLineReads(raw);
    assert newline < |source| ==> raw + [LF] == source[offset..newline + 1];
  }

  /** One turn of the loop over lines: `line` is the line's text without its end. */
  lemma ReadLine(source: Text, headers: seq<Header>, offset: nat, newline: nat, next: nat,
                 line: Text, rest: seq<Text>, names: set<Text>, rule: NameRule)
    requires offset <= |source| && newline == IndexOf(source, LF, offset)
    requires next == LineEnd(source, newline) && rest == LinesAfter(source, newline)
    requires line == WithoutEnd(source[offset..newline], CR)
    requires Reading(source, headers, offset, LinesAt(source, offset), names, rule)
    ensures
      if MARK <= line then
        var name := line[3..];
        if !rule(name) then Parsed(source, rule) == Err(InvalidHeader(line))
        else if name in names then Parsed(source, rule) == Err(DuplicateName(name))
        else Reading(source, headers + [Header(name, offset, next)], next, rest, names + {name}, rule)
      else Reading(source, headers, next, rest, names, rule)
  {
    NextLine(source, offset, newline);
    ContentAt(source, offset, newline);
    if MARK <= line {
      ReadHeader(source, headers, offset, next, rest, names, rule);
    } else {
      ReadBody(source, headers, offset, next, rest, names, rule);
    }
  }

  /** Header `i` and the text up to the next header are this block. */
  ghost predicate Cuts(source: Text, headers: seq<Header>, i: nat, block: Block)
    requires i < |headers|
  {
    var end := BodyEnd(headers, i, |source|);
    && headers[i].bodyStart <= end <= |source|
    && block.body == source[headers[i].bodyStart..end]
    && NameOf(block.header) == headers[i].name
  }

  ghost predicate CutsAll(source: Text, headers: seq<Header>, blocks: seq<Block>) {
    && |headers| == |blocks|
    && forall i | 0 <= i < |headers| :: Cuts(source, headers, i, blocks[i])
  }

  /** The header positions describe the preamble and the blocks, and no header is refused. */
  ghost predicate ReadAll(source: Text, headers: seq<Header>, rule: NameRule) {
    var g := Grouped(LinesOf(source));
    && HeaderError(g.blocks, {}, rule).None?
    && CutsAll(source, headers, g.blocks)
    && (headers != [] ==> headers[0].lineStart <= |source| && g.preamble == source[..headers[0].lineStart])
  }

  lemma {:induction false} ReadToTheEnd(source: Text, headers: seq<Header>, names: set<Text>, rule: NameRule)
    requires Reading(source, headers, |source|, [], names, rule)
    ensures ReadAll(source, headers, rule)
  {
    var (preamble, blocks) := (Preamble(source, headers, |source|), CutOut(source, headers, |source|));
    JoinNothing(preamble, blocks);
    CutOutCuts(source, headers);
  }

  lemma {:induction false} JoinNothing(preamble: Text, blocks: seq<Block>)
    ensures Joined(preamble, blocks, Grouped([])) == Blocks(preamble, blocks)
  {
    ExtendByNothing(blocks);
    assert preamble + [] == preamble && blocks + [] == blocks;
  }

  lemma {:induction false} CutOutCuts(source: Text, headers: seq<Header>)
    requires InOrder(headers, |source|)
    requires forall i | 0 <= i < |headers| ::
      headers[i].name == NameOf(source[headers[i].lineStart..headers[i].bodyStart])
    ensures CutsAll(source, headers, CutOut(source, headers, |source|))
  {
  }

  /** The headers of a source with the places of their bodies, or the first header that is refused. */
  method ReadHeaders(source: Text, rule: NameRule) returns (headers: seq<Header>, error: Option<Error>)
    ensures error.Some? ==> Parsed(source, rule) == Err(error.value)
    ensures error.None? ==> ReadAll(source, headers, rule)
  {
    headers, error := [], None;
    var names: set<Text> := {};
    var offset: nat := 0;
    ghost var left := LinesAt(source, 0);
    StartsReading(source, rule);
    while true
      invariant offset <= |source| && left == LinesAt(source, offset)
      invariant Reading(source, headers, offset, left, names, rule)
      decreases |source| - offset
    {
      var newline := IndexOf(source, LF, offset);
      var rawLine := source[offset..newline];
      var line := WithoutEnd(rawLine, CR);
      var next := LineEnd(source, newline);
      ghost var rest := LinesAfter(source, newline);
      ReadLine(source, headers, offset, newline, next, line, rest, names, rule);
      if MARK <= line {
        var name := line[3..];
        if !rule(name) {
          return headers, Some(InvalidHeader(line));
        }
        if name in names {
          return headers, Some(DuplicateName(name));
        }
        names := names + {name};
        headers := headers + [Header(name, offset, next)];
      }
      offset, left := next, rest;
      if newline == |source| {
        break;
      }
    }
    ReadToTheEnd(source, headers, names, rule);
  }

  function Prefixed(sections: seq<Section>, r: Result): Result {
    match r
    case Ok(rest) => Ok(sections + rest)
    case Err(e) => Err(e)
  }

  lemma ReadBodyOf(blocks: seq<Block>, i: nat, sections: seq<Section>)
    requires i < |blocks|
    ensures var (block, r) := (blocks[i], Prefixed(sections, SectionsOf(blocks[i..])));
      if Blank(block.body) then r == Err(EmptyBody(NameOf(block.header)))
      else r == Prefixed(sections + [Section(NameOf(block.header), Trimmed(block.body))], SectionsOf(blocks[i + 1..]))
  {
    var left := blocks[i..];
    assert left[0] == blocks[i] && left[1..] == blocks[i + 1..];
    match SectionsOf(left[1..])
    case Ok(rest) => ConcatAssociates(sections, [Section(NameOf(blocks[i].header), Trimmed(blocks[i].body))], rest);
    case Err(_) =>
  }

  method ReadBodies(source: Text, headers: seq<Header>, ghost blocks: seq<Block>) returns (r: Result)
    requires CutsAll(source, headers, blocks)
    ensures r == SectionsOf(blocks)
  {
    var sections: seq<Section> := [];
    assert blocks[0..] == blocks;
    for i := 0 to |headers|
      invariant Prefixed(sections, SectionsOf(blocks[i..])) == SectionsOf(blocks)
    {
      assert Cuts(source, headers, i, blocks[i]);
      ReadBodyOf(blocks, i, sections);
      var header := headers[i];
      var bodyEnd := if i + 1 < |headers| then headers[i + 1].lineStart else |source|;
      var body := source[header.bodyStart..bodyEnd];
      if Blank(body) {
        return Err(EmptyBody(header.name));
      }
      var trimmed := WithoutTrailingBlankLines(body);
      sections := sections + [Section(header.name, trimmed)];
    }
    return Ok(sections);
  }

  method ParseSections(source: Text, rule: NameRule) returns (r: Result)
    ensures r == Parsed(source, rule)
  {
    var headers, error := ReadHeaders(source, rule);
    if error.Some? {
      return Err(error.value);
    }
    if headers == [] {
      return Err(if Blank(source) then NoSections else TextBeforeHeader);
    }
    var preamble := source[..headers[0].lineStart];
    if !Blank(preamble) {
      return Err(TextBeforeHeader);
    }
    r := ReadBodies(source, headers, Grouped(LinesOf(source)).blocks);
  }
}
