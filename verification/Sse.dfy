/** Incremental framing of server-sent events, and the frame writer that feeds it. */
module Sse {
  import opened Text
  import CanonicalJson
  import JsonReader

  /* ---- Values ---- */

  datatype SseEvent = SseEvent(event: Text, id: Option<Text>, data: Text)

  datatype Failure = SizeLimit | AlreadyFinished

  /** What a stretch of a stream did: the events handed to the listener, and whether it was cut short. */
  datatype Outcome = Outcome(events: seq<SseEvent>, failed: bool)

  const COLON: CodeUnit := 58
  const EVENT: Text := [101, 118, 101, 110, 116]
  const ID: Text := [105, 100]
  const DATA: Text := [100, 97, 116, 97]
  const MESSAGE: Text := [109, 101, 115, 115, 97, 103, 101]

  /* ---- Frame boundaries ---- */

  /** Does a boundary, two line ends that are each LF or CR LF, of this length start at `i`? */
  predicate MatchAt(t: Text, i: nat, length: nat) {
    && i + length <= |t|
    && match length {
      case 2 => t[i] == LF && t[i + 1] == LF
      case 3 => t[i + 2] == LF && ((t[i] == CR && t[i + 1] == LF) || (t[i] == LF && t[i + 1] == CR))
      case 4 => t[i] == CR && t[i + 1] == LF && t[i + 2] == CR && t[i + 3] == LF
      case _ => false
    }
  }

  predicate IsLineEnd(t: Text) {
    t == [LF] || t == [CR, LF]
  }

  /** Two line ends one after the other. */
  ghost predicate IsBoundary(t: Text) {
    exists a, b :: IsLineEnd(a) && IsLineEnd(b) && t == a + b
  }

  lemma BoundaryForms(t: Text)
    ensures IsBoundary(t) <==> t == [LF, LF] || t == [LF, CR, LF] || t == [CR, LF, LF] || t == [CR, LF, CR, LF]
  {
    var lf: Text, crlf: Text := [LF], [CR, LF];
    assert lf + lf == [LF, LF] && lf + crlf == [LF, CR, LF];
    assert crlf + lf == [CR, LF, LF] && crlf + crlf == [CR, LF, CR, LF];
    assert IsLineEnd(lf) && IsLineEnd(crlf);
    if a, b :| IsLineEnd(a) && IsLineEnd(b) && t == a + b {
      assert (a == lf || a == crlf) && (b == lf || b == crlf);
    }
  }

  /** What is looked for are two line ends one after the other. */
  lemma BoundariesAreLineEnds(t: Text, i: nat, length: nat)
    ensures MatchAt(t, i, length) <==> i + length <= |t| && IsBoundary(t[i..i + length])
  {
    if i + length <= |t| {
      var b := t[i..i + length];
      BoundaryForms(b);
      assert |b| == length && forall k | 0 <= k < length :: b[k] == t[i + k];
      if length == 2 {
        assert b[0] == t[i] && b[1] == t[i + 1];
        assert b == [b[0], b[1]];
      } else if length == 3 {
        assert b[0] == t[i] && b[1] == t[i + 1] && b[2] == t[i + 2];
        assert b == [b[0], b[1], b[2]];
      } else if length == 4 {
        assert b[0] == t[i] && b[1] == t[i + 1] && b[2] == t[i + 2] && b[3] == t[i + 3];
        assert b == [b[0], b[1], b[2], b[3]];
      }
    }
  }

  /** The length of the boundary that starts at `i`, or 0. */
  function BoundaryLength(t: Text, i: nat): (length: nat)
    ensures length == 0 || 2 <= length <= 4
    ensures forall l: nat :: MatchAt(t, i, l) <==> length != 0 && l == length
  {
    if MatchAt(t, i, 2) then 2
    else if MatchAt(t, i, 3) then 3
    else if MatchAt(t, i, 4) then 4
    else 0
  }

  /** The index of the leftmost boundary at or after `from`, or the length of the text. */
  function BoundaryIndex(t: Text, from: nat := 0): (i: nat)
    requires from <= |t|
    ensures from <= i <= |t|
    ensures forall j | from <= j < i :: BoundaryLength(t, j) == 0
    ensures i < |t| ==> i + BoundaryLength(t, i) <= |t| && BoundaryLength(t, i) != 0
    decreases |t| - from
  {
    if from == |t| || BoundaryLength(t, from) != 0 then from else BoundaryIndex(t, from + 1)
  }

  predicate HasBoundary(t: Text) {
    BoundaryIndex(t) < |t|
  }

  predicate EndsWith(t: Text, suffix: Text) {
    |suffix| <= |t| && t[|t| - |suffix|..] == suffix
  }

  /** How much of the end of `t` may be the start of a boundary: the first listed prefix that fits. */
  function HeldBack(t: Text): (n: nat)
    ensures n <= 3 && n <= |t|
  {
    if EndsWith(t, [CR, LF, CR]) then 3
    else if EndsWith(t, [CR, LF]) then 2
    else if EndsWith(t, [LF, CR]) then 2
    else if EndsWith(t, [CR]) then 1
    else if EndsWith(t, [LF]) then 1
    else 0
  }

  /* ---- Lines and fields ---- */

  /** `t.split(/\r?\n/)`. */
  function Lines(t: Text): (lines: seq<Text>)
    ensures |lines| >= 1
  {
    var i := IndexOf(t, LF);
    if i == |t| then [t]
    else [if i > 0 && t[i - 1] == CR then t[..i - 1] else t[..i]] + Lines(t[i + 1..])
  }

  /** Lines end at LF, and lose the CR before it. */
  lemma LinesEnd(line: Text, rest: Text)
    requires LF !in line
    ensures Lines(line) == [line]
    ensures Lines(line + [LF] + rest) ==
      [if line != [] && line[|line| - 1] == CR then line[..|line| - 1] else line] + Lines(rest)
  {
    IndexOfAfter(line, LF, rest);
    var t := line + [LF] + rest;
    assert t[..|line|] == line && t[|line| + 1..] == rest;
    if line != [] {
      assert t[|line| - 1] == line[|line| - 1] && t[..|line| - 1] == line[..|line| - 1];
    }
  }

  /** The field named by a line, or None for an empty line or a comment. */
  function FieldName(line: Text): Option<Text> {
    if line == [] || line[0] == COLON then None else Some(line[..IndexOf(line, COLON)])
  }

  function FieldValue(line: Text): Text {
    var separator := IndexOf(line, COLON);
    var value := if separator == |line| then [] else line[separator + 1..];
    if value != [] && value[0] == SPACE then value[1..] else value
  }

  /** The values a frame gives to one field, in order. */
  function ValuesOf(lines: seq<Text>, name: Text): seq<Text> {
    if lines == [] then []
    else
      var rest := ValuesOf(lines[..|lines| - 1], name);
      var line := lines[|lines| - 1];
      if FieldName(line) == Some(name) then rest + [FieldValue(line)] else rest
  }

  function LastOr<T>(values: seq<T>, default: T): T {
    if values == [] then default else values[|values| - 1]
  }

  /** The event a frame stands for: last `event`, last `id`, and every `data` line. */
  function EventOf(frame: Text): SseEvent {
    var lines := Lines(frame);
    var ids := ValuesOf(lines, ID);
    SseEvent(
      LastOr(ValuesOf(lines, EVENT), MESSAGE),
      if ids == [] then None else Some(ids[|ids| - 1]),
      Join(ValuesOf(lines, DATA), [LF]))
  }

  /** A comment or an empty line says nothing, a name alone has an empty value, and one leading space is dropped. */
  lemma LinesSay(name: Text, value: Text)
    requires name != [] && COLON !in name
    ensures FieldName([]).None? && FieldName([COLON] + value).None?
    ensures FieldName(name) == Some(name) && FieldValue(name) == []
    ensures FieldName(name + [COLON] + value) == Some(name)
    ensures FieldValue(name + [COLON] + value) == if value != [] && value[0] == SPACE then value[1..] else value
  {
    var line := name + [COLON] + value;
    IndexOfAfter(name, COLON, value);
    assert line[0] == name[0] && line[..|name|] == name && line[|name| + 1..] == value && name[..|name|] == name;
  }

  /** The fields that count, and what an event is without them. */
  lemma EventsTakeFields(frame: Text)
    ensures var lines := Lines(frame);
      var ids := ValuesOf(lines, Units("id"));
      EventOf(frame) == SseEvent(
        LastOr(ValuesOf(lines, Units("event")), Units("message")),
        if ids == [] then None else Some(ids[|ids| - 1]),
        Join(ValuesOf(lines, Units("data")), [LF]))
  {
    NamesAreWritten();
  }

  lemma NamesAreWritten()
    ensures EVENT == Units("event") && ID == Units("id") && DATA == Units("data") && MESSAGE == Units("message")
  {
  }

  method ParseEvent(frame: Text) returns (result: SseEvent)
    ensures result == EventOf(frame)
  {
    var lines := Lines(frame);
    var event := MESSAGE;
    var id: Option<Text> := None;
    var data: seq<Text> := [];
    for i := 0 to |lines|
      invariant event == LastOr(ValuesOf(lines[..i], EVENT), MESSAGE)
      invariant var ids := ValuesOf(lines[..i], ID); id == if ids == [] then None else Some(ids[|ids| - 1])
      invariant data == ValuesOf(lines[..i], DATA)
    {
      assert lines[..i + 1][..i] == lines[..i];
      var line := lines[i];
      if line == [] || line[0] == COLON {
        continue;
      }
      var separator := IndexOf(line, COLON);
      var field := line[..separator];
      var value := if separator == |line| then [] else line[separator + 1..];
      if value != [] && value[0] == SPACE {
        value := value[1..];
      }
      if field == EVENT {
        event := value;
      } else if field == ID {
        id := Some(value);
      } else if field == DATA {
        data := data + [value];
      }
    }
    assert lines[..|lines|] == lines;
    return SseEvent(event, id, Join(data, [LF]));
  }

  /* ---- The reference: a whole stream at once ---- */

  /** The stream cut at every boundary; the last piece is what no boundary ends. */
  function Frames(t: Text): (frames: seq<Text>)
    ensures |frames| >= 1
    decreases |t|
  {
    var i := BoundaryIndex(t);
    if i == |t| then [t] else [t[..i]] + Frames(t[i + BoundaryLength(t, i)..])
  }

  /** What the listener hears of one frame. */
  function Announced(frame: Text): seq<SseEvent> {
    if Blank(frame) then [] else [EventOf(frame)]
  }

  /** Frames go out in order, blank ones silently, until one is longer than the limit. */
  function Deliver(frames: seq<Text>, limit: nat): Outcome {
    if frames == [] then Outcome([], false)
    else if |frames[0]| > limit then Outcome([], true)
    else
      var rest := Deliver(frames[1..], limit);
      Outcome(Announced(frames[0]) + rest.events, rest.failed)
  }

  /** The outcome of a whole stream, with no mention of chunks. */
  function Stream(t: Text, limit: nat): Outcome {
    Deliver(Frames(t), limit)
  }

  /* ---- The incremental parser ---- */

  /** One `push`: its events, the text it keeps, and whether a complete frame was over the limit. */
  datatype Drain = Drain(events: seq<SseEvent>, rest: Text, failed: bool)

  function Tail(pending: Text): (tail: Text)
    requires HasBoundary(pending)
    ensures |tail| < |pending|
  {
    var i := BoundaryIndex(pending);
    pending[i + BoundaryLength(pending, i)..]
  }

  function DrainOf(pending: Text, limit: nat): (d: Drain)
    ensures !d.failed ==> !HasBoundary(d.rest)
    decreases |pending|
  {
    var i := BoundaryIndex(pending);
    if i == |pending| then Drain([], pending, false)
    else if i > limit then Drain([], Tail(pending), true)
    else
      var d := DrainOf(Tail(pending), limit);
      d.(events := Announced(pending[..i]) + d.events)
  }

  class SseFrameParser {
    const maximumFrameLength: nat
    var pending: Text
    var finished: bool
    /** Everything the listener was handed, in order. */
    var emitted: seq<SseEvent>

    constructor (maximumFrameLength: nat)
      requires maximumFrameLength >= 1
      ensures this.maximumFrameLength == maximumFrameLength
      ensures pending == [] && !finished && emitted == []
    {
      this.maximumFrameLength := maximumFrameLength;
      pending, finished, emitted := [], false, [];
    }

    method Push(chunk: Text) returns (error: Option<Failure>)
      modifies `pending, `emitted
      ensures old(finished) ==> error == Some(AlreadyFinished) && pending == old(pending) && emitted == old(emitted)
      ensures !old(finished) ==>
        var text := old(pending) + chunk;
        var drained := DrainOf(text, maximumFrameLength);
        && emitted == old(emitted) + drained.events
        && pending == drained.rest
        && error == if drained.failed || |pending| - HeldBack(pending) > maximumFrameLength
                    then Some(SizeLimit) else None
      ensures error == None ==> |pending| <= maximumFrameLength + 3
    {
      if finished {
        return Some(AlreadyFinished);
      }
      pending := pending + chunk;
      ghost var all := DrainOf(pending, maximumFrameLength);
      var boundary := BoundaryIndex(pending);
      while boundary < |pending|
        invariant boundary == BoundaryIndex(pending)
        invariant all.rest == DrainOf(pending, maximumFrameLength).rest
        invariant all.failed == DrainOf(pending, maximumFrameLength).failed
        invariant old(emitted) + all.events == emitted + DrainOf(pending, maximumFrameLength).events
        decreases |pending|
      {
        var frame := pending[..boundary];
        ghost var told, later := emitted, DrainOf(Tail(pending), maximumFrameLength).events;
        ConcatAssociates(told, Announced(frame), later);
        pending := Tail(pending);
        var failed := Dispatch(frame);
        if failed {
          return Some(SizeLimit);
        }
        boundary := BoundaryIndex(pending);
      }
      if |pending| - HeldBack(pending) > maximumFrameLength {
        return Some(SizeLimit);
      }
      return None;
    }

    method Finish() returns (error: Option<Failure>)
      modifies this
      ensures finished
      ensures old(finished) ==> error == None && pending == old(pending) && emitted == old(emitted)
      ensures !old(finished) ==>
        if |old(pending)| > maximumFrameLength
        then error == Some(SizeLimit) && pending == old(pending) && emitted == old(emitted)
        else error == None && pending == [] && emitted == old(emitted) + Announced(old(pending))
    {
      if finished {
        return None;
      }
      finished := true;
      if |pending| > maximumFrameLength {
        return Some(SizeLimit);
      }
      var _ := Dispatch(pending);
      pending := [];
      return None;
    }

    method Dispatch(frame: Text) returns (failed: bool)
      modifies `emitted
      ensures failed == (|frame| > maximumFrameLength)
      ensures emitted == if failed then old(emitted) else old(emitted) + Announced(frame)
    {
      if |frame| > maximumFrameLength {
        return true;
      }
      if !Blank(frame) {
        var event := ParseEvent(frame);
        emitted := emitted + [event];
      }
      return false;
    }
  }

  /* ---- Chunks do not matter ---- */

  /** What finishing with this pending text yields, after draining it. */
  function Total(pending: Text, limit: nat): Outcome {
    var d := DrainOf(pending, limit);
    if d.failed || |d.rest| > limit then Outcome(d.events, true)
    else Outcome(d.events + Announced(d.rest), false)
  }

  /** Draining and finishing is delivering every frame. */
  lemma {:induction false} TotalIsStream(t: Text, limit: nat)
    ensures Total(t, limit) == Stream(t, limit)
    decreases |t|
  {
    var i := BoundaryIndex(t);
    if i < |t| {
      TotalIsStream(Tail(t), limit);
      assert Frames(t)[1..] == Frames(Tail(t));
      var d := DrainOf(Tail(t), limit);
      ConcatAssociates(Announced(t[..i]), d.events, Announced(d.rest));
    } else {
      assert Frames(t) == [t] && Frames(t)[1..] == [];
      assert Deliver([], limit) == Outcome([], false);
      assert Announced(t) + [] == [] + Announced(t);
    }
  }

  lemma BoundaryIndexIs(t: Text, i: nat)
    requires i < |t| && BoundaryLength(t, i) != 0
    requires forall j | 0 <= j < i :: BoundaryLength(t, j) == 0
    ensures BoundaryIndex(t) == i
  {
  }

  /** A boundary that is already visible stays the leftmost one whatever follows. */
  lemma BoundaryIsStable(p: Text, q: Text)
    requires HasBoundary(p)
    ensures HasBoundary(p + q)
    ensures BoundaryIndex(p + q) == BoundaryIndex(p)
    ensures Tail(p + q) == Tail(p) + q
  {
    var i := BoundaryIndex(p);
    var l := BoundaryLength(p, i);
    assert MatchAt(p, i, l) && MatchAt(p + q, i, l);
    forall j | 0 <= j < i ensures BoundaryLength(p + q, j) == 0 {
      NoEarlierMatch(p, q, i, j);
    }
    BoundaryIndexIs(p + q, i);
  }

  lemma NoEarlierMatch(p: Text, q: Text, i: nat, j: nat)
    requires j < i < |p| && BoundaryLength(p, i) != 0 && BoundaryLength(p, j) == 0
    ensures BoundaryLength(p + q, j) == 0
  {
    var m := BoundaryLength(p + q, j);
    assert MatchAt(p, i, BoundaryLength(p, i));
    assert m != 0 ==> MatchAt(p + q, j, m);
    assert !MatchAt(p, j, m);
  }

  /** A boundary completed by later text starts no earlier than the held-back suffix. */
  lemma LateBoundaryStartsInHeldBack(p: Text, q: Text)
    requires !HasBoundary(p)
    ensures BoundaryIndex(p + q) >= |p| - HeldBack(p)
  {
    var i := BoundaryIndex(p + q);
    if i < |p| {
      assert BoundaryLength(p, i) == 0;
      StraddlingMatch(p, q, i);
    }
  }

  lemma StraddlingMatch(p: Text, q: Text, i: nat)
    requires i < |p| && BoundaryLength(p, i) == 0 && BoundaryLength(p + q, i) != 0
    ensures |p| - i <= HeldBack(p)
  {
    var l := BoundaryLength(p + q, i);
    assert MatchAt(p + q, i, l) && !MatchAt(p, i, l);
    var suffix := p[i..];
    if |suffix| == 1 {
      assert suffix == [p[i]];
    } else if |suffix| == 2 {
      assert suffix == [p[i], p[i + 1]];
    } else {
      assert suffix == [CR, LF, CR];
    }
    assert EndsWith(p, suffix);
  }

  /** Draining a longer text goes on from where draining its beginning stopped. */
  lemma {:induction false} DrainGoesOn(p: Text, q: Text, limit: nat)
    ensures var d := DrainOf(p, limit);
      if d.failed then
        DrainOf(p + q, limit) == d.(rest := d.rest + q)
      else
        var e := DrainOf(d.rest + q, limit);
        DrainOf(p + q, limit) == e.(events := d.events + e.events)
    decreases |p|
  {
    var i := BoundaryIndex(p);
    if i < |p| {
      BoundaryIsStable(p, q);
      assert (p + q)[..i] == p[..i];
      if i <= limit {
        DrainGoesOn(Tail(p), q, limit);
        var d := DrainOf(Tail(p), limit);
        var e := DrainOf(d.rest + q, limit);
        ConcatAssociates(Announced(p[..i]), d.events, e.events);
      }
    } else {
      var e := DrainOf(p + q, limit);
      assert [] + e.events == e.events;
    }
  }

  /** A pending text over the limit even without its held-back suffix fails however it goes on. */
  lemma OversizeIsFinal(p: Text, q: Text, limit: nat)
    requires !HasBoundary(p) && |p| - HeldBack(p) > limit
    ensures Total(p + q, limit) == Outcome([], true)
  {
    LateBoundaryStartsInHeldBack(p, q);
  }

  /** One client session: push every chunk, then finish, stopping at the first error. */
  function Session(pending: Text, chunks: seq<Text>, limit: nat): Outcome
    decreases |chunks|
  {
    if chunks == [] then
      if |pending| > limit then Outcome([], true) else Outcome(Announced(pending), false)
    else
      var d := DrainOf(pending + chunks[0], limit);
      if d.failed || |d.rest| - HeldBack(d.rest) > limit then Outcome(d.events, true)
      else
        var later := Session(d.rest, chunks[1..], limit);
        Outcome(d.events + later.events, later.failed)
  }

  /** Any chunking of a stream gives the events and the verdict of the stream taken whole. */
  lemma {:induction false} SessionIsStream(pending: Text, chunks: seq<Text>, limit: nat)
    requires !HasBoundary(pending)
    ensures Session(pending, chunks, limit) == Stream(pending + Concat(chunks), limit)
    decreases |chunks|
  {
    var all := pending + Concat(chunks);
    TotalIsStream(all, limit);
    if chunks == [] {
      assert all == pending;
      assert [] + Announced(pending) == Announced(pending);
    } else {
      var text := pending + chunks[0];
      var later := Concat(chunks[1..]);
      assert all == text + later;
      var d := DrainOf(text, limit);
      DrainGoesOn(text, later, limit);
      if !d.failed {
        var e := DrainOf(d.rest + later, limit);
        ConcatAssociates(d.events, e.events, Announced(e.rest));
        if |d.rest| - HeldBack(d.rest) > limit {
          OversizeIsFinal(d.rest, later, limit);
        } else {
          SessionIsStream(d.rest, chunks[1..], limit);
          TotalIsStream(d.rest + later, limit);
        }
      }
    }
  }

  /** What one more chunk makes of a session, after what has been told already. */
  lemma {:induction false} OneMoreChunk(told: seq<SseEvent>, pending: Text, chunks: seq<Text>, i: nat, limit: nat)
    requires i < |chunks|
    ensures var (left, d) := (Session(pending, chunks[i..], limit), DrainOf(pending + chunks[i], limit));
      Outcome(told + left.events, left.failed) ==
        if d.failed || |d.rest| - HeldBack(d.rest) > limit then Outcome(told + d.events, true)
        else
          var later := Session(d.rest, chunks[i + 1..], limit);
          Outcome(told + d.events + later.events, later.failed)
  {
    var d := DrainOf(pending + chunks[i], limit);
    assert chunks[i..][0] == chunks[i] && chunks[i..][1..] == chunks[i + 1..];
    ConcatAssociates(told, d.events, Session(d.rest, chunks[i + 1..], limit).events);
  }

  /** The subscription loop: one parser fed chunk by chunk. */
  method Subscribe(chunks: seq<Text>, limit: nat) returns (events: seq<SseEvent>, failed: bool)
    requires limit >= 1
    ensures Outcome(events, failed) == Stream(Concat(chunks), limit)
  {
    var parser := new SseFrameParser(limit);
    SessionIsStream([], chunks, limit);
    assert [] + Concat(chunks) == Concat(chunks);
    for i := 0 to |chunks|
      invariant parser.maximumFrameLength == limit && !parser.finished
      invariant var left := Session(parser.pending, chunks[i..], limit);
        Session([], chunks, limit) == Outcome(parser.emitted + left.events, left.failed)
    {
      OneMoreChunk(parser.emitted, parser.pending, chunks, i, limit);
      var error := parser.Push(chunks[i]);
      if error.Some? {
        return parser.emitted, true;
      }
    }
    assert chunks[|chunks|..] == [];
    var error := parser.Finish();
    return parser.emitted, error.Some?;
  }

  /* ---- The frame writer ---- */

  /** One event as the server writes it. */
  datatype Written = Written(id: Text, event: Text, data: Text)

  /** A value that one line can carry: no LF, and no CR where a CR LF would form. */
  predicate LineSafe(v: Text) {
    LF !in v && (v == [] || v[|v| - 1] != CR)
  }

  predicate Writable(w: Written) {
    LineSafe(w.id) && LineSafe(w.event) && LineSafe(w.data)
  }

  function FieldLine(name: Text, value: Text): Text {
    name + [COLON, SPACE] + value
  }

  function FrameBody(w: Written): Text {
    FieldLine(ID, w.id) + [LF] + (FieldLine(EVENT, w.event) + [LF] + FieldLine(DATA, w.data))
  }

  /** The text the stream writer sends for a list of events. */
  function WrittenText(ws: seq<Written>): Text {
    if ws == [] then [] else FrameBody(ws[0]) + [LF, LF] + WrittenText(ws[1..])
  }

  /** The text of one event, as it is written. */
  lemma EventIsWritten(w: Written)
    ensures WrittenText([w]) == Units("id: ") + w.id + [LF] + (Units("event: ") + w.event + [LF])
                              + (Units("data: ") + w.data) + [LF, LF]
  {
    FieldIsWritten(ID, w.id);
    FieldIsWritten(EVENT, w.event);
    FieldIsWritten(DATA, w.data);
    assert ID + [COLON, SPACE] == Units("id: ") && EVENT + [COLON, SPACE] == Units("event: ");
    assert DATA + [COLON, SPACE] == Units("data: ");
    assert [w][1..] == [];
    var (a, b, c) := (FieldLine(ID, w.id), FieldLine(EVENT, w.event), FieldLine(DATA, w.data));
    assert WrittenText([w]) == a + [LF] + (b + [LF] + c) + [LF, LF] + [];
    ConcatAssociates(a + [LF], b + [LF], c);
  }

  lemma FieldIsWritten(name: Text, value: Text)
    ensures FieldLine(name, value) == name + [COLON, SPACE] + value
  {
  }

  /** The events back, in order, up to the first whose frame is over the limit. */
  function ReadBack(ws: seq<Written>, limit: nat): Outcome {
    if ws == [] then Outcome([], false)
    else if |FrameBody(ws[0])| > limit then Outcome([], true)
    else
      var rest := ReadBack(ws[1..], limit);
      Outcome([SseEvent(ws[0].event, Some(ws[0].id), ws[0].data)] + rest.events, rest.failed)
  }

  lemma IndexOfAfter(a: Text, c: CodeUnit, rest: Text)
    requires c !in a
    ensures IndexOf(a + [c] + rest, c) == |a|
    ensures IndexOf(a, c) == |a|
  {
    var t := a + [c] + rest;
    assert t[|a|] == c;
    assert forall j | 0 <= j < |a| :: t[j] == a[j];
  }

  lemma FieldLineReads(name: Text, value: Text)
    requires name != [] && COLON !in name
    ensures FieldName(FieldLine(name, value)) == Some(name)
    ensures FieldValue(FieldLine(name, value)) == value
  {
    var line := FieldLine(name, value);
    assert line == name + [COLON] + ([SPACE] + value);
    IndexOfAfter(name, COLON, [SPACE] + value);
    assert line[0] == name[0];
    assert line[..|name|] == name;
    assert line[|name| + 1..] == [SPACE] + value;
  }

  lemma LinesAfter(line: Text, rest: Text)
    requires LineSafe(line)
    ensures Lines(line + [LF] + rest) == [line] + Lines(rest)
    ensures Lines(line) == [line]
  {
    IndexOfAfter(line, LF, rest);
    var t := line + [LF] + rest;
    assert t[..|line|] == line;
    assert t[|line| + 1..] == rest;
    assert line != [] ==> t[|line| - 1] == line[|line| - 1];
  }

  lemma FieldLineIsSafe(name: Text, value: Text)
    requires LineSafe(value) && LF !in name
    ensures LineSafe(FieldLine(name, value))
  {
  }

  lemma BodyReads(w: Written)
    requires Writable(w)
    ensures EventOf(FrameBody(w)) == SseEvent(w.event, Some(w.id), w.data)
    ensures !Blank(FrameBody(w))
  {
    var (a, b, c) := (FieldLine(ID, w.id), FieldLine(EVENT, w.event), FieldLine(DATA, w.data));
    FieldLineIsSafe(ID, w.id);
    FieldLineIsSafe(EVENT, w.event);
    FieldLineIsSafe(DATA, w.data);
    LinesAfter(a, b + [LF] + c);
    LinesAfter(b, c);
    LinesAfter(c, []);
    assert Lines(FrameBody(w)) == [a, b, c];
    ThreeFields(w);
    assert FrameBody(w)[0] == ID[0] && !IsSpace(ID[0]);
  }

  lemma ValuesOfSnoc(lines: seq<Text>, line: Text, name: Text)
    ensures ValuesOf(lines + [line], name)
         == ValuesOf(lines, name) + if FieldName(line) == Some(name) then [FieldValue(line)] else []
  {
    assert (lines + [line])[..|lines|] == lines;
  }

  lemma ThreeFields(w: Written)
    ensures var lines := [FieldLine(ID, w.id), FieldLine(EVENT, w.event), FieldLine(DATA, w.data)];
      && ValuesOf(lines, ID) == [w.id]
      && ValuesOf(lines, EVENT) == [w.event]
      && ValuesOf(lines, DATA) == [w.data]
  {
    var (a, b, c) := (FieldLine(ID, w.id), FieldLine(EVENT, w.event), FieldLine(DATA, w.data));
    FieldLineReads(ID, w.id);
    FieldLineReads(EVENT, w.event);
    FieldLineReads(DATA, w.data);
    forall name | name in {ID, EVENT, DATA}
      ensures ValuesOf([a, b, c], name)
           == (if name == ID then [w.id] else []) + (if name == EVENT then [w.event] else [])
            + (if name == DATA then [w.data] else [])
    {
      assert ValuesOf([], name) == [];
      ValuesOfSnoc([], a, name);
      ValuesOfSnoc([a], b, name);
      ValuesOfSnoc([a, b], c, name);
      assert [a] + [b] == [a, b] && [a, b] + [c] == [a, b, c] && [] + [a] == [a];
    }
  }

  /** A text with no boundary in it, whatever line end follows. */
  predicate Unbroken(t: Text) {
    && (t == [] || t[|t| - 1] != CR)
    && forall i | 0 <= i < |t| && t[i] == LF :: i + 1 < |t| && t[i + 1] != LF && t[i + 1] != CR
  }

  lemma UnbrokenLines(line: Text, rest: Text)
    requires LineSafe(line) && Unbroken(rest)
    requires rest != [] && rest[0] != LF && rest[0] != CR
    ensures Unbroken(line + [LF] + rest)
  {
    var t := line + [LF] + rest;
    assert t[|t| - 1] == rest[|rest| - 1];
    forall i | 0 <= i < |t| && t[i] == LF
      ensures i + 1 < |t| && t[i + 1] != LF && t[i + 1] != CR
    {
      assert i >= |line|;
      if i > |line| {
        assert t[i] == rest[i - |line| - 1];
      }
    }
  }

  lemma BodyIsUnbroken(w: Written)
    requires Writable(w)
    ensures Unbroken(FrameBody(w))
  {
    var (a, b, c) := (FieldLine(ID, w.id), FieldLine(EVENT, w.event), FieldLine(DATA, w.data));
    FieldLineIsSafe(ID, w.id);
    FieldLineIsSafe(EVENT, w.event);
    FieldLineIsSafe(DATA, w.data);
    assert b[0] == EVENT[0] && c[0] == DATA[0];
    UnbrokenLines(b, c);
    UnbrokenLines(a, b + [LF] + c);
  }

  lemma UnbrokenEndsAtBoundary(t: Text, q: Text)
    requires Unbroken(t)
    ensures var all := t + [LF, LF] + q;
      HasBoundary(all) && BoundaryIndex(all) == |t| && Tail(all) == q
  {
    var all := t + [LF, LF] + q;
    assert MatchAt(all, |t|, 2);
    forall j | 0 <= j < |t| ensures BoundaryLength(all, j) == 0 {
      assert all[j] == t[j];
      assert j + 1 < |t| ==> all[j + 1] == t[j + 1];
      assert j + 2 < |t| ==> all[j + 2] == t[j + 2];
    }
    BoundaryIndexIs(all, |t|);
  }

  /** What the server writes is what the client reads, however the bytes are cut. */
  lemma {:induction false} WrittenIsRead(ws: seq<Written>, chunks: seq<Text>, limit: nat)
    requires forall w | w in ws :: Writable(w)
    requires Concat(chunks) == WrittenText(ws)
    ensures Session([], chunks, limit) == ReadBack(ws, limit)
  {
    assert [] + Concat(chunks) == Concat(chunks);
    SessionIsStream([], chunks, limit);
    WrittenStream(ws, limit);
  }

  lemma {:induction false} WrittenStream(ws: seq<Written>, limit: nat)
    requires forall w | w in ws :: Writable(w)
    ensures Stream(WrittenText(ws), limit) == ReadBack(ws, limit)
    decreases |ws|
  {
    var t := WrittenText(ws);
    if ws == [] {
      assert Frames(t) == [t] && Deliver([t][1..], limit) == Outcome([], false);
    } else {
      var body := FrameBody(ws[0]);
      BodyIsUnbroken(ws[0]);
      UnbrokenEndsAtBoundary(body, WrittenText(ws[1..]));
      BodyReads(ws[0]);
      assert t[..|body|] == body;
      assert Frames(t) == [body] + Frames(WrittenText(ws[1..]));
      assert Frames(t)[1..] == Frames(WrittenText(ws[1..]));
      WrittenStream(ws[1..], limit);
    }
  }

  /* ---- What the project stream writes ---- */

  /** "workflow". */
  const WORKFLOW: Text := [119, 111, 114, 107, 102, 108, 111, 119]

  /** An event of a project: its number, and everything it tells as a JSON value. */
  datatype ProjectEvent = ProjectEvent(sequence: JsonReader.Numeral, body: CanonicalJson.Json)

  function WorkflowWritten(event: ProjectEvent): Written {
    var envelope := CanonicalJson.Object([CanonicalJson.Entry(EVENT, event.body)]);
    Written(event.sequence, WORKFLOW, CanonicalJson.Stringified(envelope))
  }

  function WorkflowsWritten(events: seq<ProjectEvent>): (ws: seq<Written>)
    ensures |ws| == |events| && forall i | 0 <= i < |ws| :: ws[i] == WorkflowWritten(events[i])
  {
    seq(|events|, i requires 0 <= i < |events| => WorkflowWritten(events[i]))
  }

  lemma NoControlsIsLineSafe(v: Text)
    requires CanonicalJson.NoControls(v)
    ensures LineSafe(v)
  {
  }

  /** A number, a fixed name and printed JSON each fit on a line. */
  lemma WorkflowIsWritable(event: ProjectEvent)
    ensures Writable(WorkflowWritten(event))
  {
    var envelope := CanonicalJson.Object([CanonicalJson.Entry(EVENT, event.body)]);
    CanonicalJson.CanonicalHasNoControls(envelope, CanonicalJson.CREATION_ORDER);
    NoControlsIsLineSafe(WorkflowWritten(event).data);
    NoControlsIsLineSafe(event.sequence);
  }

  /** Whatever events the stream writes and however they are cut, the client reads them as they were written. */
  lemma WorkflowsAreRead(events: seq<ProjectEvent>, chunks: seq<Text>, limit: nat)
    requires Concat(chunks) == WrittenText(WorkflowsWritten(events))
    ensures Session([], chunks, limit) == ReadBack(WorkflowsWritten(events), limit)
  {
    var ws := WorkflowsWritten(events);
    forall w | w in ws ensures Writable(w) {
      var i :| 0 <= i < |ws| && ws[i] == w;
      WorkflowIsWritable(events[i]);
    }
    WrittenIsRead(ws, chunks, limit);
  }

  /** The data of an event reads as an object with that event, and nothing after it. */
  lemma DataReadsAsEvent(event: ProjectEvent)
    requires CanonicalJson.WellFormed(event.body)
    ensures JsonReader.ReadValue(WorkflowWritten(event).data)
         == Some((JsonReader.ObjectValue(map[Units("event") := CanonicalJson.Meaning(event.body)]), []))
  {
    CanonicalJson.OneFieldReads(EVENT, event.body, CanonicalJson.CREATION_ORDER);
    NamesAreWritten();
  }

  /** So the data tells the event, up to the order of keys. */
  lemma DataTellsEvent(a: ProjectEvent, b: ProjectEvent)
    requires CanonicalJson.WellFormed(a.body) && CanonicalJson.WellFormed(b.body)
    requires WorkflowWritten(a).data == WorkflowWritten(b).data
    ensures CanonicalJson.Meaning(a.body) == CanonicalJson.Meaning(b.body)
  {
    DataReadsAsEvent(a);
    DataReadsAsEvent(b);
    assert map[Units("event") := CanonicalJson.Meaning(a.body)][Units("event")] == CanonicalJson.Meaning(a.body);
    assert map[Units("event") := CanonicalJson.Meaning(b.body)][Units("event")] == CanonicalJson.Meaning(b.body);
  }
}
