/** Declared scopes: which paths they cover, when two overlap, and the checks built on them. */
module Scope {
  import opened Text

  /** A check's answer, or the error thrown for a scope with an empty prefix. */
  datatype Checked<+T> = Answer(value: T) | EmptyPrefix

  datatype ScopeCheck = Accepted | Violation(files: seq<Text>)

  datatype FileReview = FileReview(file: Text, outsideScope: bool)

  /* ---- The source's predicates ---- */

  /** `prefix.replace(/\/+$/u, "")`. */
  function WithoutTrailingSlashes(prefix: Text): Text {
    if prefix != [] && prefix[|prefix| - 1] == SLASH then WithoutTrailingSlashes(prefix[..|prefix| - 1]) else prefix
  }

  function Stripped(scope: seq<Text>): seq<Text> {
    seq(|scope|, i requires 0 <= i < |scope| => WithoutTrailingSlashes(scope[i]))
  }

  function NormalizeDeclaredScope(scope: seq<Text>): Checked<seq<Text>> {
    if exists i | 0 <= i < |scope| :: Stripped(scope)[i] == [] then EmptyPrefix else Answer(Stripped(scope))
  }

  predicate Under(file: Text, prefix: Text) {
    file == prefix || StartsWith(file, prefix + [SLASH])
  }

  predicate Covered(file: Text, scope: seq<Text>) {
    exists i | 0 <= i < |scope| :: Under(file, scope[i])
  }

  predicate Collide(x: Text, y: Text) {
    x == y || StartsWith(x, y + [SLASH]) || StartsWith(y, x + [SLASH])
  }

  function DeclaredScopesOverlap(a: seq<Text>, b: seq<Text>): Checked<bool> {
    match (NormalizeDeclaredScope(a), NormalizeDeclaredScope(b))
    case (Answer(m), Answer(n)) =>
      Answer(exists i, j | 0 <= i < |m| && 0 <= j < |n| :: Collide(m[i], n[j]))
    case _ => EmptyPrefix
  }

  function Outside(files: seq<Text>, scope: seq<Text>): seq<Text> {
    if files == [] then []
    else
      var rest := Outside(files[1..], scope);
      if Covered(files[0], scope) then rest else [files[0]] + rest
  }

  function CheckDeclaredScopePaths(files: seq<Text>, scope: seq<Text>): Checked<ScopeCheck> {
    match NormalizeDeclaredScope(scope)
    case EmptyPrefix => EmptyPrefix
    case Answer(n) => Answer(if Outside(files, n) == [] then Accepted else Violation(Outside(files, n)))
  }

  /** The check of a branch normalizes, and then the check of its paths normalizes again. */
  function CheckDeclaredScope(files: seq<Text>, scope: seq<Text>): Checked<ScopeCheck> {
    match NormalizeDeclaredScope(scope)
    case EmptyPrefix => EmptyPrefix
    case Answer(n) => CheckDeclaredScopePaths(files, n)
  }

  /** The board's own review of the files: it strips, and never refuses a scope. */
  function PipelineFileReview(files: seq<Text>, scope: seq<Text>): seq<FileReview> {
    seq(|files|, i requires 0 <= i < |files| => FileReview(files[i], !Covered(files[i], Stripped(scope))))
  }

  /** Stripping drops slashes at the end, all of them and nothing else. */
  lemma {:induction false} StrippedIsBare(prefix: Text)
    ensures var r := WithoutTrailingSlashes(prefix);
      && r <= prefix && (forall i | |r| <= i < |prefix| :: prefix[i] == SLASH)
      && (r != [] ==> r[|r| - 1] != SLASH)
    decreases |prefix|
  {
    if prefix != [] && prefix[|prefix| - 1] == SLASH {
      StrippedIsBare(prefix[..|prefix| - 1]);
    }
  }

  /* ---- What a prefix covers, in path components ---- */

  function Components(path: Text): seq<Text> {
    Split(path, SLASH)
  }

  lemma {:induction false} ComponentsUnder(prefix: Text, rest: Text)
    ensures Components(prefix + [SLASH] + rest) == Components(prefix) + Components(rest)
    decreases |prefix|
  {
    var i := IndexOf(prefix, SLASH);
    if i == |prefix| {
      SplitAt(prefix, rest, SLASH);
    } else {
      ComponentsUnder(prefix[i + 1..], rest);
      ComponentsUnderHead(prefix[..i], prefix[i + 1..], rest);
      assert prefix == prefix[..i] + [SLASH] + prefix[i + 1..];
    }
  }

  lemma ComponentsUnderHead(head: Text, tail: Text, rest: Text)
    requires SLASH !in head && Components(tail + [SLASH] + rest) == Components(tail) + Components(rest)
    ensures Components(head + [SLASH] + tail + [SLASH] + rest) == Components(head + [SLASH] + tail) + Components(rest)
  {
    var below := tail + [SLASH] + rest;
    assert head + [SLASH] + tail + [SLASH] + rest == head + [SLASH] + below;
    SplitAt(head, tail, SLASH);
    SplitAt(head, below, SLASH);
    ConcatAssociates([head], Components(tail), Components(rest));
  }

  lemma {:induction false} ComponentsJoin(path: Text)
    ensures Join(Components(path), [SLASH]) == path
    decreases |path|
  {
    var i := IndexOf(path, SLASH);
    if i < |path| {
      ComponentsJoin(path[i + 1..]);
      assert Components(path)[1..] == Components(path[i + 1..]);
    }
  }

  lemma {:induction false} JoinSplits(a: seq<Text>, b: seq<Text>)
    requires a != [] && b != []
    ensures Join(a + b, [SLASH]) == Join(a, [SLASH]) + [SLASH] + Join(b, [SLASH])
    decreases |a|
  {
    assert (a + b)[1..] == a[1..] + b;
    if |a| > 1 {
      JoinSplits(a[1..], b);
    } else {
      assert a[1..] + b == b;
    }
  }

  /** A prefix covers a path exactly when its components are the first components of the path. */
  lemma UnderIsComponentPrefix(file: Text, prefix: Text)
    ensures Under(file, prefix) <==> Components(prefix) <= Components(file)
  {
    var (a, b) := (Components(prefix), Components(file));
    if file != prefix && StartsWith(file, prefix + [SLASH]) {
      var rest := file[|prefix| + 1..];
      assert file == prefix + [SLASH] + rest;
      ComponentsUnder(prefix, rest);
    }
    if a <= b {
      ComponentsJoin(prefix);
      ComponentsJoin(file);
      if a != b {
        JoinSplits(a, b[|a|..]);
        assert b == a + b[|a|..];
      }
    }
  }

  /* ---- Normalizing ---- */

  lemma {:induction false} StripAgain(prefix: Text)
    ensures WithoutTrailingSlashes(WithoutTrailingSlashes(prefix)) == WithoutTrailingSlashes(prefix)
    decreases |prefix|
  {
    if prefix != [] && prefix[|prefix| - 1] == SLASH {
      StripAgain(prefix[..|prefix| - 1]);
    }
  }

  /** Normalizing a normalized scope changes nothing, so checking a branch is checking its paths. */
  lemma CheckedTwiceIsCheckedOnce(files: seq<Text>, scope: seq<Text>)
    ensures CheckDeclaredScope(files, scope) == CheckDeclaredScopePaths(files, scope)
  {
    var n := Stripped(scope);
    forall i | 0 <= i < |scope| ensures Stripped(n)[i] == n[i] {
      StripAgain(scope[i]);
    }
    assert Stripped(n) == n;
  }

  /* ---- Overlap is a shared path ---- */

  ghost predicate SharePath(a: seq<Text>, b: seq<Text>) {
    exists file :: Covered(file, a) && Covered(file, b)
  }

  /** Two prefixes that cover one path collide. */
  lemma UnderBothCollide(file: Text, x: Text, y: Text)
    requires Under(file, x) && Under(file, y)
    ensures Collide(x, y)
  {
    if |x| < |y| {
      LongerIsUnder(file, x, y);
    } else if |y| < |x| {
      LongerIsUnder(file, y, x);
    } else {
      assert x == file[..|x|] == y;
    }
  }

  lemma LongerIsUnder(file: Text, x: Text, y: Text)
    requires Under(file, x) && Under(file, y) && |x| < |y|
    ensures StartsWith(y, x + [SLASH])
  {
    assert y == file[..|y|] && x + [SLASH] == file[..|x| + 1];
  }

  /** The overlap test is exactly path-set intersection. */
  lemma OverlapIffSharedPath(a: seq<Text>, b: seq<Text>)
    requires NormalizeDeclaredScope(a).Answer? && NormalizeDeclaredScope(b).Answer?
    ensures DeclaredScopesOverlap(a, b) == Answer(SharePath(Stripped(a), Stripped(b)))
  {
    var (m, n) := (Stripped(a), Stripped(b));
    assert DeclaredScopesOverlap(a, b) == Answer(exists i, j | 0 <= i < |m| && 0 <= j < |n| :: Collide(m[i], n[j]));
    if i, j :| 0 <= i < |m| && 0 <= j < |n| && Collide(m[i], n[j]) {
      var file := if StartsWith(m[i], n[j] + [SLASH]) then m[i] else n[j];
      assert Under(file, m[i]) && Under(file, n[j]);
      assert Covered(file, m) && Covered(file, n);
    }
    if SharePath(m, n) {
      var file :| Covered(file, m) && Covered(file, n);
      var i :| 0 <= i < |m| && Under(file, m[i]);
      var j :| 0 <= j < |n| && Under(file, n[j]);
      UnderBothCollide(file, m[i], n[j]);
    }
  }

  lemma {:induction false} OutsideHolds(files: seq<Text>, scope: seq<Text>, file: Text)
    ensures file in Outside(files, scope) <==> file in files && !Covered(file, scope)
    decreases |files|
  {
    if files != [] {
      OutsideHolds(files[1..], scope, file);
    }
  }

  /** What an accepted check promises, and that nothing less is accepted. */
  lemma AcceptedIffCovered(files: seq<Text>, scope: seq<Text>)
    requires NormalizeDeclaredScope(scope).Answer?
    ensures CheckDeclaredScope(files, scope) == Answer(Accepted) <==>
      forall file | file in files :: Covered(file, Stripped(scope))
  {
    CheckedTwiceIsCheckedOnce(files, scope);
    var outside := Outside(files, Stripped(scope));
    forall file ensures file in outside <==> file in files && !Covered(file, Stripped(scope)) {
      OutsideHolds(files, Stripped(scope), file);
    }
    assert outside != [] ==> outside[0] in outside;
  }

  /** Merge independence: scopes do not overlap exactly when no two accepted sets of files share a file. */
  lemma DisjointScopesDisjointFiles(a: seq<Text>, b: seq<Text>)
    requires NormalizeDeclaredScope(a).Answer? && NormalizeDeclaredScope(b).Answer?
    ensures DeclaredScopesOverlap(a, b) == Answer(false) <==>
      forall left, right, file |
        && CheckDeclaredScope(left, a) == Answer(Accepted) && CheckDeclaredScope(right, b) == Answer(Accepted)
        && file in left
        :: file !in right
  {
    OverlapIffSharedPath(a, b);
    var (m, n) := (Stripped(a), Stripped(b));
    if SharePath(m, n) {
      var file :| Covered(file, m) && Covered(file, n);
      AcceptedIffCovered([file], a);
      AcceptedIffCovered([file], b);
      assert file in [file];
    } else {
      forall left, right, file |
        && CheckDeclaredScope(left, a) == Answer(Accepted) && CheckDeclaredScope(right, b) == Answer(Accepted)
        && file in left
        ensures file !in right
      {
        AcceptedIffCovered(left, a);
        AcceptedIffCovered(right, b);
        assert Covered(file, m);
      }
    }
  }

  /* ---- The board's review ---- */

  function Flagged(reviews: seq<FileReview>): seq<Text> {
    if reviews == [] then []
    else (if reviews[0].outsideScope then [reviews[0].file] else []) + Flagged(reviews[1..])
  }

  lemma {:induction false} FlaggedIsOutside(files: seq<Text>, scope: seq<Text>)
    ensures Flagged(PipelineFileReview(files, scope)) == Outside(files, Stripped(scope))
    decreases |files|
  {
    if files != [] {
      FlaggedIsOutside(files[1..], scope);
      assert PipelineFileReview(files, scope)[1..] == PipelineFileReview(files[1..], scope);
    }
  }

  predicate AllSlashes(prefix: Text) {
    forall c | c in prefix :: c == SLASH
  }

  predicate HasEmptyPrefix(scope: seq<Text>) {
    exists i | 0 <= i < |scope| :: AllSlashes(scope[i])
  }

  /** Both checks throw exactly for a scope with a prefix of nothing but slashes. */
  lemma ThrowsOnEmptyPrefix(files: seq<Text>, scope: seq<Text>, other: seq<Text>)
    ensures CheckDeclaredScope(files, scope) == EmptyPrefix <==> HasEmptyPrefix(scope)
    ensures DeclaredScopesOverlap(scope, other) == EmptyPrefix <==> HasEmptyPrefix(scope) || HasEmptyPrefix(other)
  {
    CheckedTwiceIsCheckedOnce(files, scope);
    NormalizingThrows(scope);
    NormalizingThrows(other);
  }

  lemma NormalizingThrows(scope: seq<Text>)
    ensures NormalizeDeclaredScope(scope).EmptyPrefix? <==> HasEmptyPrefix(scope)
  {
    if i :| 0 <= i < |scope| && Stripped(scope)[i] == [] {
      OnlySlashes(scope[i]);
    }
    if i :| 0 <= i < |scope| && AllSlashes(scope[i]) {
      OnlySlashes(scope[i]);
      assert Stripped(scope)[i] == [];
    }
  }

  /** The board flags exactly the files the check rejects, in order; it differs only where the check throws. */
  lemma ReviewFlagsWhatCheckRejects(files: seq<Text>, scope: seq<Text>)
    ensures var flagged := Flagged(PipelineFileReview(files, scope));
      match CheckDeclaredScope(files, scope)
      case Answer(Accepted) => flagged == []
      case Answer(Violation(rejected)) => flagged == rejected != []
      case EmptyPrefix => HasEmptyPrefix(scope)
  {
    FlaggedIsOutside(files, scope);
    CheckedTwiceIsCheckedOnce(files, scope);
    NormalizingThrows(scope);
  }

  lemma OnlySlashes(prefix: Text)
    ensures WithoutTrailingSlashes(prefix) == [] <==> AllSlashes(prefix)
  {
    if prefix != [] {
      var last := |prefix| - 1;
      OnlySlashes(prefix[..last]);
      assert prefix[last] in prefix;
      assert forall c :: c in prefix <==> c in prefix[..last] || c == prefix[last];
    }
  }
}
