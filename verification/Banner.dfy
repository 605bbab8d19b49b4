/** The provenance banner of a mirrored page, and how a later run reads it back. */
module Banner {
  import opened Text

  datatype DocSource = DocSource(path: Text, markdown: Text, blobSha: Text)

  const DOT: CodeUnit := 46
  const BACKTICK: CodeUnit := 96
  const EM_DASH: CodeUnit := 0x2014

  const OPENING: Text := Units("> **Read-only mirror.** Source: `")
  const CLOSING: Text :=
    Units(" Edit in the repository ") + [EM_DASH]
    + Units(" this page is republished on merge.") + Units(" Comments are welcome here.") + [LF, LF]

  /** " @ blob ". */
  const MARK: Text := [32, 64, 32, 98, 108, 111, 98, 32]

  predicate IsHex(c: CodeUnit) {
    48 <= c <= 57 || 97 <= c <= 102
  }

  predicate IsHexText(t: Text) {
    forall i | 0 <= i < |t| :: IsHex(t[i])
  }

  /** What `git ls-tree` prints for a blob. */
  predicate IsObjectId(t: Text) {
    (|t| == 40 || |t| == 64) && IsHexText(t)
  }

  /** Object ids are the SHA-1 and SHA-256 hashes in lower case, and nothing else. */
  lemma ObjectIdsAre(t: Text)
    ensures IsObjectId(t) <==> |t| in {40, 64} && forall i | 0 <= i < |t| :: t[i] in Units("0123456789abcdef")
  {
    forall c: CodeUnit
      ensures IsHex(c) <==> c in Units("0123456789abcdef")
    {
      LowerCaseDigits(c);
    }
  }

  lemma LowerCaseDigits(c: CodeUnit)
    ensures IsHex(c) <==> c in Units("0123456789abcdef")
  {
    var digits := Units("0123456789abcdef");
    if 48 <= c <= 57 {
      assert digits[c - 48] == c;
    } else if 97 <= c <= 102 {
      assert digits[c - 87] == c;
    }
  }

  function BlobPrefix(source: DocSource): Text
    requires IsObjectId(source.blobSha)
  {
    source.blobSha[..12]
  }

  /** Where the page says it comes from. */
  function Origin(source: DocSource, repoName: Text): Text {
    repoName + [SLASH] + source.path
  }

  /** The rest of the page: the closing quote, the blob, the notice and the document. */
  function Provenance(source: DocSource): Text
    requires IsObjectId(source.blobSha)
  {
    [BACKTICK] + MARK + BlobPrefix(source) + [DOT] + CLOSING + source.markdown
  }

  function WithSourceBanner(source: DocSource, repoName: Text): Text
    requires IsObjectId(source.blobSha)
  {
    OPENING + (Origin(source, repoName) + Provenance(source))
  }

  /** The banner as it is published: one notice, an empty line, and then the document. */
  function BannerText(source: DocSource, repoName: Text): Text
    requires IsObjectId(source.blobSha)
  {
    OPENING + (repoName + [SLASH] + source.path) + (Units("` @ blob ") + source.blobSha[..12] + Units(".")) + CLOSING
  }

  /** A page is the banner and then the whole document; the banner does not depend on the document. */
  lemma PageIsBannerAndDocument(source: DocSource, repoName: Text, markdown: Text)
    requires IsObjectId(source.blobSha)
    ensures WithSourceBanner(source.(markdown := markdown), repoName) == BannerText(source, repoName) + markdown
    ensures |CLOSING| >= 2 && CLOSING[|CLOSING| - 2..] == [LF, LF]
  {
    var (origin, tail) := (Origin(source, repoName), [BACKTICK] + MARK + BlobPrefix(source) + [DOT]);
    QuoteIsWritten();
    ConcatAssociates(OPENING, origin, tail + CLOSING + markdown);
    ConcatAssociates(OPENING + origin, tail + CLOSING, markdown);
    ConcatAssociates(OPENING + origin, tail, CLOSING);
    ClosingEnds();
  }

  lemma QuoteIsWritten()
    ensures Units("` @ blob ") == [BACKTICK] + MARK && Units(".") == [DOT]
  {
  }

  lemma ClosingEnds()
    ensures |CLOSING| >= 2 && CLOSING[|CLOSING| - 2..] == [LF, LF]
  {
  }

  /* ---- Reading the banner ---- */

  /** The mark, twelve hexadecimal digits and a full stop stand at `i`. */
  predicate MarkAt(t: Text, i: nat) {
    && i + 21 <= |t|
    && t[i..i + 8] == MARK
    && IsHexText(t[i + 8..i + 20])
    && t[i + 20] == DOT
  }

  /** The twelve digits of the first mark at or after `from`: the shortest match of the pattern. */
  function FirstMark(t: Text, from: nat := 0): Option<Text>
    requires from <= |t|
    decreases |t| - from
  {
    if MarkAt(t, from) then Some(t[from + 8..from + 20])
    else if from == |t| then None
    else FirstMark(t, from + 1)
  }

  function SourceBlobPrefix(text: Text): Option<Text> {
    if StartsWith(text, OPENING) then FirstMark(text[|OPENING|..]) else None
  }

  /** Neither stands in a mark. */
  predicate Foreign(c: CodeUnit) {
    c == BACKTICK || c == SLASH
  }

  lemma NoForeignInMark(t: Text, i: nat, k: nat)
    requires MarkAt(t, i) && k < 21
    ensures !Foreign(t[i + k])
  {
    if k < 8 {
      assert t[i + k] == t[i..i + 8][k] == MARK[k];
    } else if k < 20 {
      assert t[i + k] == t[i + 8..i + 20][k - 8];
    }
  }

  /** A mark is " @ blob ", twelve digits and a full stop. */
  lemma MarksAre(t: Text, i: nat)
    ensures MarkAt(t, i) <==> i + 21 <= |t| && IsMark(t[i..i + 21])
  {
    assert MARK == Units(" @ blob ") && Units(".") == [DOT];
    if i + 21 <= |t| {
      var mark := t[i..i + 21];
      SlicesAgree(t, i, 0, 8);
      SlicesAgree(t, i, 8, 20);
      assert mark == mark[..8] + mark[8..20] + [mark[20]];
      forall digits: Text | |digits| == 12 && mark == Units(" @ blob ") + digits + Units(".")
        ensures mark[..8] == MARK && mark[8..20] == digits && mark[20] == DOT
      {
      }
    }
  }

  lemma SlicesAgree(t: Text, i: nat, a: nat, b: nat)
    requires a <= b <= 21 && i + 21 <= |t|
    ensures t[i..i + 21][a..b] == t[i + a..i + b]
  {
    var mark := t[i..i + 21];
    forall k | 0 <= k < b - a ensures mark[a..b][k] == t[i + a..i + b][k] {
      assert mark[a..b][k] == mark[a + k] == t[i + a + k];
    }
  }

  ghost predicate IsMark(mark: Text) {
    exists digits: Text ::
      |digits| == 12 && IsHexText(digits) && mark == Units(" @ blob ") + digits + Units(".")
  }

  /** A mark in a text is there whatever follows, and none straddles a backtick or a slash after it. */
  lemma MarksInOrigin(x: Text, rest: Text, i: nat)
    requires i <= |x| && rest != [] && Foreign(rest[0])
    ensures MarkAt(x + rest, i) <==> MarkAt(x, i)
  {
    var t := x + rest;
    if i + 21 <= |x| {
      assert t[i..i + 8] == x[i..i + 8] && t[i + 8..i + 20] == x[i + 8..i + 20];
    } else if MarkAt(t, i) {
      NoForeignInMark(t, i, |x| - i);
    }
  }

  lemma FirstMarkIs(t: Text, i: nat, from: nat)
    requires from <= i <= |t| && MarkAt(t, i) && forall j | from <= j < i :: !MarkAt(t, j)
    ensures FirstMark(t, from) == Some(t[i + 8..i + 20])
    decreases i - from
  {
    if from < i {
      FirstMarkIs(t, i, from + 1);
    }
  }

  lemma NoMark(t: Text, from: nat)
    requires from <= |t| && FirstMark(t, from).None?
    ensures forall i | from <= i <= |t| :: !MarkAt(t, i)
    decreases |t| - from
  {
    if from < |t| {
      NoMark(t, from + 1);
    }
  }

  lemma FirstMarkInOrigin(x: Text, rest: Text, from: nat)
    requires from <= |x| && rest != [] && Foreign(rest[0])
    ensures FirstMark(x, from).Some? ==> FirstMark(x + rest, from) == FirstMark(x, from)
    decreases |x| - from
  {
    var t := x + rest;
    MarksInOrigin(x, rest, from);
    if MarkAt(x, from) {
      assert t[from + 8..from + 20] == x[from + 8..from + 20];
    } else if from < |x| {
      FirstMarkInOrigin(x, rest, from + 1);
    }
  }

  /** The digits read back are those of the first mark in the origin, or the page's own if it has none. */
  lemma BannerReadsFirstMark(source: DocSource, repoName: Text)
    requires IsObjectId(source.blobSha)
    ensures SourceBlobPrefix(WithSourceBanner(source, repoName))
         == match FirstMark(Origin(source, repoName))
            case Some(digits) => Some(digits)
            case None => Some(BlobPrefix(source))
  {
    var x := Origin(source, repoName);
    var rest := Provenance(source);
    var t := x + rest;
    assert WithSourceBanner(source, repoName)[|OPENING|..] == t;
    FirstMarkInOrigin(x, rest, 0);
    if FirstMark(x).None? {
      NoMark(x, 0);
      assert rest[1..9] == MARK && rest[9..21] == BlobPrefix(source) && rest[21] == DOT;
      var i := |x| + 1;
      assert t[i..i + 8] == rest[1..9] && t[i + 8..i + 20] == rest[9..21];
      forall j | 0 <= j < i ensures !MarkAt(t, j) {
        MarksInOrigin(x, rest, j);
      }
      FirstMarkIs(t, i, 0);
    }
  }

  /** A page reads as up to date exactly when its repository name and path do not counterfeit another blob. */
  predicate Genuine(source: DocSource, repoName: Text)
    requires IsObjectId(source.blobSha)
  {
    var digits := FirstMark(Origin(source, repoName));
    digits == None || digits == Some(BlobPrefix(source))
  }

  lemma ReadsUpToDateIffGenuine(source: DocSource, repoName: Text)
    requires IsObjectId(source.blobSha)
    ensures SourceBlobPrefix(WithSourceBanner(source, repoName)) == Some(BlobPrefix(source))
       <==> Genuine(source, repoName)
  {
    BannerReadsFirstMark(source, repoName);
  }

  /** A repository path that holds a mark of its own: "docs/ @ blob 000000000000.md". */
  const COUNTERFEIT: Text := DOCS + (MARK + ZEROS + [DOT, 109, 100])
  const DOCS: Text := [100, 111, 99, 115, SLASH]
  const ZEROS: Text := [48, 48, 48, 48, 48, 48, 48, 48, 48, 48, 48, 48]

  lemma MarkAfter(head: Text, digits: Text, rest: Text)
    requires |digits| == 12 && IsHexText(digits) && rest != [] && rest[0] == DOT
    ensures MarkAt(head + (MARK + digits + rest), |head|)
    ensures var t := head + (MARK + digits + rest); t[|head| + 8..|head| + 20] == digits
  {
    var t := head + (MARK + digits + rest);
    var i := |head|;
    assert t[i..i + 8] == MARK && t[i + 8..i + 20] == digits && t[i + 20] == DOT;
  }

  /** After a text without a mark and a slash, the mark of the path is the first. */
  lemma MarkOfPathIsFirst(name: Text)
    requires FirstMark(name).None?
    ensures FirstMark(name + ([SLASH] + COUNTERFEIT)) == Some(ZEROS)
  {
    var end: Text := [DOT, 109, 100];
    var head := name + [SLASH] + DOCS;
    var t := name + ([SLASH] + COUNTERFEIT);
    assert t == head + (MARK + ZEROS + end);
    MarkAfter(head, ZEROS, end);
    NoMark(name, 0);
    forall j | 0 <= j < |head| ensures !MarkAt(t, j) {
      if j <= |name| {
        MarksInOrigin(name, [SLASH] + COUNTERFEIT, j);
      } else {
        assert t[j] == head[j] && head[j] == DOCS[j - |name| - 1] != MARK[0];
        assert j + 21 <= |t| ==> t[j..j + 8][0] == t[j];
      }
    }
    FirstMarkIs(t, |head|, 0);
  }

  /**
    * Its page reads as blob 000000000000, whatever the document is. So under any repository name
    * another blob counts as up to date only if the name itself holds a first mark of that very blob.
    */
  lemma CounterfeitIsNotGenuine(source: DocSource, repoName: Text)
    requires source.path == COUNTERFEIT && IsObjectId(source.blobSha) && BlobPrefix(source) != ZEROS
    ensures Genuine(source, repoName) <==> FirstMark(repoName) == Some(BlobPrefix(source))
  {
    assert Origin(source, repoName) == repoName + ([SLASH] + COUNTERFEIT);
    if FirstMark(repoName).Some? {
      FirstMarkInOrigin(repoName, [SLASH] + COUNTERFEIT, 0);
    } else {
      MarkOfPathIsFirst(repoName);
    }
  }
}
