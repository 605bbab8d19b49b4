/** Shortening a redacted text without touching its credential markers. */
module CredentialMarkers {
  import opened Text

  /** "[redacted: credential]". */
  const MARKER: Text := [91, 114, 101, 100, 97, 99, 116, 101, 100, 58, SPACE,
                         99, 114, 101, 100, 101, 110, 116, 105, 97, 108, 93]

  /* ---- Splitting at a marker ---- */

  predicate OccursAt(t: Text, marker: Text, i: nat) {
    i + |marker| <= |t| && t[i..i + |marker|] == marker
  }

  /** The first occurrence at or after `from`, or the length of the text. */
  function Find(t: Text, marker: Text, from: nat := 0): (i: nat)
    requires from <= |t| && marker != []
    ensures from <= i <= |t|
    ensures forall j | from <= j < i :: !OccursAt(t, marker, j)
    ensures i < |t| ==> OccursAt(t, marker, i)
    decreases |t| - from
  {
    if from == |t| || OccursAt(t, marker, from) then from else Find(t, marker, from + 1)
  }

  /** `t.split(marker)`. */
  function SplitOn(t: Text, marker: Text): (parts: seq<Text>)
    requires marker != []
    ensures |parts| >= 1
    decreases |t|
  {
    var i := Find(t, marker);
    if i == |t| then [t] else [t[..i]] + SplitOn(t[i + |marker|..], marker)
  }

  /** Joining the parts gives the text back. */
  lemma {:induction false} JoinSplit(t: Text, marker: Text)
    requires marker != []
    ensures Join(SplitOn(t, marker), marker) == t
    decreases |t|
  {
    var i := Find(t, marker);
    if i < |t| {
      var rest := t[i + |marker|..];
      JoinSplit(rest, marker);
      JoinCons(t[..i], SplitOn(rest, marker), marker);
      CutAtMarker(t, marker, i);
    }
  }

  lemma JoinCons(part: Text, parts: seq<Text>, separator: Text)
    requires parts != []
    ensures Join([part] + parts, separator) == part + separator + Join(parts, separator)
  {
    assert ([part] + parts)[1..] == parts;
  }

  lemma CutAtMarker(t: Text, marker: Text, i: nat)
    requires OccursAt(t, marker, i)
    ensures t == t[..i] + marker + t[i + |marker|..]
  {
    assert t == t[..i] + t[i..i + |marker|] + t[i + |marker|..];
  }

  /** No part holds a marker: the split took them all. */
  lemma {:induction false} PartsHoldNoMarker(t: Text, marker: Text, k: nat, i: nat)
    requires marker != [] && k < |SplitOn(t, marker)|
    ensures !OccursAt(SplitOn(t, marker)[k], marker, i)
    decreases |t|
  {
    var at := Find(t, marker);
    if at == |t| {
      NoMarkerBefore(t, marker, at, i);
      assert t[..at] == t;
    } else {
      var rest := SplitOn(t[at + |marker|..], marker);
      assert SplitOn(t, marker) == [t[..at]] + rest;
      if k == 0 {
        NoMarkerBefore(t, marker, at, i);
      } else {
        PartsHoldNoMarker(t[at + |marker|..], marker, k - 1, i);
        assert ([t[..at]] + rest)[k] == rest[k - 1];
      }
    }
  }

  lemma NoMarkerBefore(t: Text, marker: Text, end: nat, i: nat)
    requires end <= |t| && marker != [] && forall j | 0 <= j < end :: !OccursAt(t, marker, j)
    ensures !OccursAt(t[..end], marker, i)
  {
    if i + |marker| <= end {
      assert i < end && !OccursAt(t, marker, i);
      assert t[..end][i..i + |marker|] == t[i..i + |marker|];
    }
  }

  /* ---- Lengths ---- */

  function TotalLength(parts: seq<Text>): nat {
    if parts == [] then 0 else |parts[0]| + TotalLength(parts[1..])
  }

  /** The length of the markers between this many parts. */
  function MarkersLength(parts: nat): nat {
    if parts <= 1 then 0 else |MARKER| + MarkersLength(parts - 1)
  }

  lemma {:induction false} JoinLength(parts: seq<Text>)
    ensures |Join(parts, MARKER)| == TotalLength(parts) + MarkersLength(|parts|)
    decreases |parts|
  {
    if |parts| == 1 {
      assert TotalLength(parts[1..]) == 0;
    } else if parts != [] {
      JoinLength(parts[1..]);
    }
  }

  lemma {:induction false} TotalLengthAfter(parts: seq<Text>, i: nat, part: Text)
    requires i < |parts|
    ensures TotalLength(parts[i := part]) == TotalLength(parts) - |parts[i]| + |part|
    decreases i
  {
    var after := parts[i := part];
    if i > 0 {
      TotalLengthAfter(parts[1..], i - 1, part);
      assert after[1..] == parts[1..][i - 1 := part];
    } else {
      assert after[1..] == parts[1..];
    }
  }

  lemma {:induction false} AllEmpty(parts: seq<Text>)
    requires forall i | 0 <= i < |parts| :: parts[i] == []
    ensures TotalLength(parts) == 0
    decreases |parts|
  {
    if parts != [] {
      AllEmpty(parts[1..]);
    }
  }

  /* ---- The order in which parts are cut ---- */

  function Insert(parts: seq<Text>, sorted: seq<nat>, index: nat): seq<nat>
    requires index < |parts| && forall i | 0 <= i < |sorted| :: sorted[i] < |parts|
  {
    if sorted == [] then [index]
    else
      var last := |sorted| - 1;
      if |parts[sorted[last]]| >= |parts[index]| then sorted + [index]
      else Insert(parts, sorted[..last], index) + [sorted[last]]
  }

  /** Longer parts come first, and earlier ones among equals. */
  predicate Before(parts: seq<Text>, i: nat, j: nat)
    requires i < |parts| && j < |parts|
  {
    |parts[i]| > |parts[j]| || (|parts[i]| == |parts[j]| && i < j)
  }

  ghost predicate LongestFirst(parts: seq<Text>, order: seq<nat>) {
    && (forall i | 0 <= i < |order| :: order[i] < |parts|)
    && forall i, j | 0 <= i < j < |order| :: Before(parts, order[i], order[j])
  }

  lemma {:induction false} InsertHolds(parts: seq<Text>, sorted: seq<nat>, index: nat)
    requires index < |parts| && forall i | 0 <= i < |sorted| :: sorted[i] < |parts|
    ensures forall k: nat :: k in Insert(parts, sorted, index) <==> k in sorted || k == index
    decreases |sorted|
  {
    if sorted != [] && |parts[sorted[|sorted| - 1]]| < |parts[index]| {
      var last := |sorted| - 1;
      InsertHolds(parts, sorted[..last], index);
      assert sorted == sorted[..last] + [sorted[last]];
    }
  }

  lemma {:induction false} InsertKeepsOrder(parts: seq<Text>, sorted: seq<nat>, index: nat)
    requires LongestFirst(parts, sorted) && index < |parts| && forall i | 0 <= i < |sorted| :: sorted[i] < index
    ensures LongestFirst(parts, Insert(parts, sorted, index))
    decreases |sorted|
  {
    var last := |sorted| - 1;
    if sorted == [] || |parts[sorted[last]]| >= |parts[index]| {
      forall i | 0 <= i < last ensures Before(parts, sorted[i], index) {
        assert Before(parts, sorted[i], sorted[last]);
      }
      AppendKeepsOrder(parts, sorted, index);
    } else {
      InsertKeepsOrder(parts, sorted[..last], index);
      InsertHolds(parts, sorted[..last], index);
      var r := Insert(parts, sorted[..last], index);
      forall i | 0 <= i < |r| ensures Before(parts, r[i], sorted[last]) {
        assert r[i] in r;
      }
      AppendKeepsOrder(parts, r, sorted[last]);
    }
  }

  lemma AppendKeepsOrder(parts: seq<Text>, sorted: seq<nat>, index: nat)
    requires LongestFirst(parts, sorted) && index < |parts|
    requires forall i | 0 <= i < |sorted| :: Before(parts, sorted[i], index)
    ensures LongestFirst(parts, sorted + [index])
  {
  }

  lemma {:induction false} OrderNext(parts: seq<Text>, before: seq<nat>, index: nat)
    requires LongestFirst(parts, before) && index < |parts|
    requires forall k: nat :: k in before <==> k < index
    ensures LongestFirst(parts, Insert(parts, before, index))
    ensures forall k: nat :: k in Insert(parts, before, index) <==> k < index + 1
  {
    assert forall i | 0 <= i < |before| :: before[i] in before;
    InsertKeepsOrder(parts, before, index);
    InsertHolds(parts, before, index);
  }

  /** `sort((left, right) => right.length - left.length)` over the indexes of the parts. */
  function Order(parts: seq<Text>, n: nat): (order: seq<nat>)
    requires n <= |parts|
    ensures LongestFirst(parts, order)
    ensures forall k: nat :: k in order <==> k < n
  {
    if n == 0 then []
    else
      var before := Order(parts, n - 1);
      OrderNext(parts, before, n - 1);
      Insert(parts, before, n - 1)
  }

  /* ---- Cutting ---- */

  /** The first part may have lost its front, every other its end. */
  ghost predicate Cut(parts: seq<Text>, kept: seq<Text>) {
    && |kept| == |parts|
    && forall i | 0 <= i < |parts| ::
         && |kept[i]| <= |parts[i]|
         && kept[i] == if i == 0 then parts[i][|parts[i]| - |kept[i]|..] else parts[i][..|kept[i]|]
  }

  /** A part is cut only when every part before it in the order is gone. */
  ghost predicate LongerGoFirst(parts: seq<Text>, kept: seq<Text>)
    requires |kept| == |parts|
  {
    forall i, j | 0 <= i < |parts| && 0 <= j < |parts| && |kept[i]| < |parts[i]| && Before(parts, j, i) ::
      kept[j] == []
  }

  /** Parts up to place `k` of the order are cut, the last of them perhaps not wholly; the others are as they were. */
  ghost predicate CutUpTo(parts: seq<Text>, kept: seq<Text>, order: seq<nat>, k: nat, excess: nat)
    requires |kept| == |parts| && LongestFirst(parts, order)
  {
    && k <= |order|
    && (forall i | 0 <= i < k - 1 :: kept[order[i]] == [])
    && (k > 0 && excess > 0 ==> kept[order[k - 1]] == [])
    && forall i | k <= i < |order| :: kept[order[i]] == parts[order[i]]
  }

  function Shortened(part: Text, index: nat, removed: nat): Text
    requires removed <= |part|
  {
    if index == 0 then part[removed..] else part[..|part| - removed]
  }

  lemma CutNext(parts: seq<Text>, kept: seq<Text>, order: seq<nat>, k: nat, excess: nat, removed: nat)
    requires Cut(parts, kept) && LongestFirst(parts, order) && CutUpTo(parts, kept, order, k, excess)
    requires k < |order| && 0 < excess
    requires removed == if excess < |kept[order[k]]| then excess else |kept[order[k]]|
    ensures var after := kept[order[k] := Shortened(kept[order[k]], order[k], removed)];
      Cut(parts, after) && CutUpTo(parts, after, order, k + 1, excess - removed)
  {
    var i := order[k];
    CutOne(parts, kept, i, removed);
    var after := kept[i := Shortened(kept[i], i, removed)];
    forall j | 0 <= j < |order| && j != k ensures after[order[j]] == kept[order[j]] {
      assert order[j] != i;
    }
  }

  lemma {:induction false} CutOne(parts: seq<Text>, kept: seq<Text>, i: nat, removed: nat)
    requires Cut(parts, kept) && i < |parts| && kept[i] == parts[i] && removed <= |parts[i]|
    ensures Cut(parts, kept[i := Shortened(kept[i], i, removed)])
  {
    var after := kept[i := Shortened(kept[i], i, removed)];
    forall j | 0 <= j < |parts|
      ensures |after[j]| <= |parts[j]|
      ensures after[j] == if j == 0 then parts[j][|parts[j]| - |after[j]|..] else parts[j][..|after[j]|]
    {
      if j == i {
        ShortenedIsCut(parts[i], i, removed);
      }
    }
  }

  lemma {:induction false} ShortenedIsCut(part: Text, i: nat, removed: nat)
    requires removed <= |part|
    ensures var r := Shortened(part, i, removed);
      && |r| == |part| - removed
      && r == if i == 0 then part[|part| - |r|..] else part[..|r|]
  {
  }

  lemma OrderedCut(parts: seq<Text>, kept: seq<Text>, order: seq<nat>, k: nat, excess: nat)
    requires Cut(parts, kept) && LongestFirst(parts, order) && CutUpTo(parts, kept, order, k, excess)
    requires forall i: nat :: i in order <==> i < |parts|
    ensures LongerGoFirst(parts, kept)
    ensures k == |order| && excess > 0 ==> TotalLength(kept) == 0
  {
    forall i: nat, j: nat | i < |parts| && j < |parts| && |kept[i]| < |parts[i]| && Before(parts, j, i)
      ensures kept[j] == []
    {
      assert i in order && j in order;
      var a :| 0 <= a < |order| && order[a] == i;
      var b :| 0 <= b < |order| && order[b] == j;
      assert a < k && b < a;
    }
    if k == |order| && excess > 0 {
      forall i: nat | i < |parts| ensures kept[i] == [] {
        assert i in order;
        var a :| 0 <= a < |order| && order[a] == i;
      }
      AllEmpty(kept);
    }
  }

  lemma Uncut(parts: seq<Text>)
    ensures Cut(parts, parts) && LongerGoFirst(parts, parts)
  {
  }

  lemma {:induction false} CutStep(parts: seq<Text>, kept: seq<Text>, order: seq<nat>, k: nat, excess: nat,
                                  removed: nat)
    requires Cut(parts, kept) && LongestFirst(parts, order) && CutUpTo(parts, kept, order, k, excess)
    requires k < |order| && 0 < excess
    requires removed == if excess < |kept[order[k]]| then excess else |kept[order[k]]|
    ensures var after := kept[order[k] := Shortened(kept[order[k]], order[k], removed)];
      && Cut(parts, after) && CutUpTo(parts, after, order, k + 1, excess - removed)
      && TotalLength(after) == TotalLength(kept) - removed
  {
    CutNext(parts, kept, order, k, excess, removed);
    TotalLengthAfter(kept, order[k], Shortened(kept[order[k]], order[k], removed));
  }

  /** The loop over the parts, longest first: exactly the excess goes, or all the text between the markers. */
  method CutParts(parts: seq<Text>, excess: nat) returns (kept: seq<Text>)
    requires excess > 0
    ensures Cut(parts, kept) && LongerGoFirst(parts, kept)
    ensures TotalLength(kept) == if excess < TotalLength(parts) then TotalLength(parts) - excess else 0
  {
    kept := parts;
    Uncut(parts);
    var left: nat := excess;
    var indexes := Order(parts, |parts|);
    for i := 0 to |indexes|
      invariant Cut(parts, kept) && CutUpTo(parts, kept, indexes, i, left)
      invariant left > 0 && TotalLength(kept) + excess == TotalLength(parts) + left
    {
      var index := indexes[i];
      var part := kept[index];
      var removed := if left < |part| then left else |part|;
      CutStep(parts, kept, indexes, i, left, removed);
      kept := kept[index := Shortened(part, index, removed)];
      left := left - removed;
      if left == 0 {
        OrderedCut(parts, kept, indexes, i + 1, left);
        return;
      }
    }
    OrderedCut(parts, kept, indexes, |indexes|, left);
  }

  /** Never longer than asked, unless the markers alone are; every marker stays, and only text between them goes. */
  method FitCredentialMarkers(value: Text, maximum: nat) returns (r: Text, ghost kept: seq<Text>)
    ensures |value| <= maximum ==> r == value
    ensures var parts := SplitOn(value, MARKER);
      && r == Join(kept, MARKER) && Cut(parts, kept) && LongerGoFirst(parts, kept)
      && (|value| > maximum ==>
          |r| == if MarkersLength(|parts|) < maximum then maximum else MarkersLength(|parts|))
  {
    var parts := SplitOn(value, MARKER);
    JoinSplit(value, MARKER);
    if |value| <= maximum {
      Uncut(parts);
      return value, parts;
    }
    JoinLength(parts);
    var shortened := CutParts(parts, |value| - maximum);
    JoinLength(shortened);
    return Join(shortened, MARKER), shortened;
  }

  /* ---- The bound its caller asks for ---- */

  /** The length a redacted text may have: that of the text before, or of the new markers if they are longer. */
  function AllowedLength(length: nat, redactions: nat): (allowed: nat)
    ensures length <= allowed && redactions * |MARKER| <= allowed
    ensures allowed == length || allowed == redactions * |MARKER|
  {
    if length < redactions * |MARKER| then redactions * |MARKER| else length
  }

  lemma MarkerFirst(rest: Text)
    ensures SplitOn(MARKER + rest, MARKER) == [[]] + SplitOn(rest, MARKER)
  {
    var t := MARKER + rest;
    assert t[0..|MARKER|] == MARKER;
    assert OccursAt(t, MARKER, 0) && Find(t, MARKER) == 0;
    assert t[..0] == [] && t[|MARKER|..] == rest;
  }

  /**
    * A text that already holds a marker, and after it a 20-unit AWS access key that one more marker
    * replaces: 42 units become 44, and nothing but markers is left to cut.
    */
  lemma ShortCredentialOverruns(kept: seq<Text>)
    requires Cut(SplitOn(MARKER + MARKER, MARKER), kept)
    ensures |Join(kept, MARKER)| > AllowedLength(|MARKER| + 20, 1)
  {
    MarkerFirst([]);
    MarkerFirst(MARKER);
    assert MARKER + [] == MARKER && SplitOn([], MARKER) == [[]];
    assert SplitOn(MARKER + MARKER, MARKER) == [[], [], []];
    assert |kept| == 3;
    JoinLength(kept);
    assert MarkersLength(3) == |MARKER| + MarkersLength(2);
  }

  /** When every marker came from a redaction, the caller's bound is always kept. */
  lemma OwnMarkersFit(value: Text, length: nat, redactions: nat)
    requires |SplitOn(value, MARKER)| == redactions + 1
    ensures MarkersLength(|SplitOn(value, MARKER)|) <= AllowedLength(length, redactions)
  {
    MarkersLengthIs(redactions);
  }

  lemma {:induction false} MarkersLengthIs(redactions: nat)
    ensures MarkersLength(redactions + 1) == redactions * |MARKER|
  {
    if redactions > 0 {
      MarkersLengthIs(redactions - 1);
    }
  }
}
