/** Reconciling one repository's Markdown sources with its collection. */
module Publish {
  import opened Text
  import opened Outline
  import opened Banner

  datatype Desired = Desired(title: Text, blobPrefix: Text, text: Text)

  datatype Failure =
    | EnumerateFailed
    | PrepareFailed(error: Error)
    | CreateFailed(title: Text, error: Error)
    | UpdateFailed(title: Text, error: Error)
    | ArchiveFailed(title: Text, error: Error)

  datatype Report = Report(created: nat, updated: nat, archived: nat, upToDate: nat, failures: seq<Failure>)

  /** Appended to a repository's name to name its collection: " docs". */
  const COLLECTION_SUFFIX: Text := [SPACE, 100, 111, 99, 115]

  /** What enumerating a Git tree yields: documentation paths with full object ids. */
  predicate IsSource(source: DocSource) {
    IsDocSourcePath(source.path) && IsObjectId(source.blobSha)
  }

  /* ---- The desired pages: a map in insertion order ---- */

  function TitleIndex(desired: seq<Desired>, title: Text): (i: nat)
    ensures i <= |desired|
    ensures i < |desired| ==> desired[i].title == title
    ensures forall j | 0 <= j < i :: desired[j].title != title
  {
    FirstWhere(desired, (d: Desired) => d.title == title)
  }

  predicate HasTitle(desired: seq<Desired>, title: Text) {
    TitleIndex(desired, title) < |desired|
  }

  predicate DistinctTitles(desired: seq<Desired>) {
    forall i, j | 0 <= i < j < |desired| :: desired[i].title != desired[j].title
  }

  /** `map.set`: a key keeps its first place and takes its last value. */
  function Put(desired: seq<Desired>, entry: Desired): (r: seq<Desired>)
    requires DistinctTitles(desired)
    ensures DistinctTitles(r)
    ensures forall i | 0 <= i < |r| :: r[i] == entry || (i < |desired| && r[i] == desired[i])
  {
    var i := TitleIndex(desired, entry.title);
    if i < |desired| then desired[i := entry] else desired + [entry]
  }

  function DesiredOf(source: DocSource, repoName: Text): Desired
    requires IsSource(source)
  {
    Desired(source.path, BlobPrefix(source), WithSourceBanner(source, repoName))
  }

  function DesiredFrom(sources: seq<DocSource>, repoName: Text): (r: seq<Desired>)
    requires AllSources(sources)
    ensures DistinctTitles(r)
    ensures forall i | 0 <= i < |r| :: IsDocSourcePath(r[i].title)
  {
    if sources == [] then []
    else
      var last := |sources| - 1;
      var before := DesiredFrom(sources[..last], repoName);
      assert sources[last] in sources;
      Put(before, DesiredOf(sources[last], repoName))
  }

  /** The last source of its path: its page is the one published. */
  ghost predicate IsLast(sources: seq<DocSource>, k: nat) {
    k < |sources| && forall j | k < j < |sources| :: sources[j].path != sources[k].path
  }

  ghost predicate IsSourcePath(sources: seq<DocSource>, path: Text) {
    exists k :: 0 <= k < |sources| && sources[k].path == path
  }

  /** The paths of the sources, each where it first comes. */
  function Paths(sources: seq<DocSource>): seq<Text> {
    if sources == [] then []
    else
      var (before, path) := (Paths(sources[..|sources| - 1]), sources[|sources| - 1].path);
      if path in before then before else before + [path]
  }

  ghost predicate Titles(desired: seq<Desired>, paths: seq<Text>) {
    |desired| == |paths| && forall i | 0 <= i < |paths| :: desired[i].title == paths[i]
  }

  lemma {:induction false} PutTitles(desired: seq<Desired>, paths: seq<Text>, entry: Desired)
    requires DistinctTitles(desired) && Titles(desired, paths)
    ensures Titles(Put(desired, entry), if entry.title in paths then paths else paths + [entry.title])
  {
    var i := TitleIndex(desired, entry.title);
    assert i < |desired| ==> paths[i] == entry.title;
    forall k | 0 <= k < |paths| && paths[k] == entry.title ensures i < |desired| {
      assert desired[k].title == entry.title;
    }
  }

  /** The desired pages are one for each path of a source, in the order in which the paths first come. */
  lemma {:induction false} DesiredPerPath(sources: seq<DocSource>, repoName: Text)
    requires AllSources(sources)
    ensures Titles(DesiredFrom(sources, repoName), Paths(sources))
    decreases |sources|
  {
    if sources != [] {
      var last := |sources| - 1;
      assert sources[last] in sources;
      DesiredPerPath(sources[..last], repoName);
      PutTitles(DesiredFrom(sources[..last], repoName), Paths(sources[..last]), DesiredOf(sources[last], repoName));
    }
  }

  lemma {:induction false} PathsHold(sources: seq<DocSource>, path: Text)
    ensures path in Paths(sources) <==> IsSourcePath(sources, path)
    decreases |sources|
  {
    if sources != [] {
      var last := |sources| - 1;
      PathsHold(sources[..last], path);
      assert sources == sources[..last] + [sources[last]];
      assert IsSourcePath(sources[..last], path) ==> IsSourcePath(sources, path) by {
        if k :| 0 <= k < last && sources[..last][k].path == path {
          assert sources[k].path == path;
        }
      }
      if k :| 0 <= k < |sources| && sources[k].path == path {
        assert k < last ==> sources[..last][k].path == path;
      }
    }
  }

  /** A title is desired exactly if it is the path of a source. */
  lemma DesiredIffSource(sources: seq<DocSource>, repoName: Text, title: Text)
    requires AllSources(sources)
    ensures HasTitle(DesiredFrom(sources, repoName), title) <==> IsSourcePath(sources, title)
  {
    var (desired, paths) := (DesiredFrom(sources, repoName), Paths(sources));
    DesiredPerPath(sources, repoName);
    PathsHold(sources, title);
    if k :| 0 <= k < |paths| && paths[k] == title {
      assert desired[k].title == title;
    }
    if HasTitle(desired, title) {
      assert paths[TitleIndex(desired, title)] == title;
    }
  }

  lemma {:induction false} PutHolds(desired: seq<Desired>, entry: Desired)
    requires DistinctTitles(desired)
    ensures entry in Put(desired, entry)
    ensures forall d | d in desired && d.title != entry.title :: d in Put(desired, entry)
  {
    var (i, r) := (TitleIndex(desired, entry.title), Put(desired, entry));
    assert r[if i < |desired| then i else |desired|] == entry;
    forall d | d in desired && d.title != entry.title ensures d in r {
      var k :| 0 <= k < |desired| && desired[k] == d;
      assert r[k] == d;
    }
  }

  /** The page of a path is that of the last source with the path. */
  lemma {:induction false} LastSourceCounts(sources: seq<DocSource>, repoName: Text, k: nat)
    requires AllSources(sources) && IsLast(sources, k)
    ensures sources[k] in sources && DesiredOf(sources[k], repoName) in DesiredFrom(sources, repoName)
    decreases |sources|
  {
    var last := |sources| - 1;
    assert sources[last] in sources && sources[k] in sources;
    PutHolds(DesiredFrom(sources[..last], repoName), DesiredOf(sources[last], repoName));
    if k < last {
      assert IsLast(sources[..last], k);
      LastSourceCounts(sources[..last], repoName, k);
    }
  }

  /* ---- The mirror ---- */

  /** `map.get` on the documents by title: the last one counts. */
  function Lookup(documents: seq<Document>, title: Text): Option<Document> {
    if documents == [] then None
    else
      var last := documents[|documents| - 1];
      if last.title == title then Some(last) else Lookup(documents[..|documents| - 1], title)
  }

  /** The page of this title is there and reads as this very blob. */
  predicate Current(documents: seq<Document>, d: Desired) {
    var page := Lookup(documents, d.title);
    page.Some? && SourceBlobPrefix(page.value.text) == Some(d.blobPrefix)
  }

  /** The page is current, or was just written. */
  predicate Mirrored(documents: seq<Document>, d: Desired) {
    || Current(documents, d)
    || (Lookup(documents, d.title).Some? && Lookup(documents, d.title).value.text == d.text)
  }

  ghost predicate OnlyDesired(documents: seq<Document>, desired: seq<Desired>) {
    forall d | d in documents :: HasTitle(desired, d.title)
  }

  /** Nothing to create, update or archive. */
  ghost predicate InSync(documents: seq<Document>, desired: seq<Desired>) {
    && OnlyDesired(documents, desired)
    && AllCurrent(documents, desired, |desired|)
  }

  /** The first `n` desired pages are mirrored. */
  ghost predicate AllMirrored(documents: seq<Document>, desired: seq<Desired>, n: nat)
    requires n <= |desired|
  {
    forall j | 0 <= j < n :: Mirrored(documents, desired[j])
  }

  /** The first `n` desired pages are current. */
  ghost predicate AllCurrent(documents: seq<Document>, desired: seq<Desired>, n: nat)
    requires n <= |desired|
  {
    forall j | 0 <= j < n :: Current(documents, desired[j])
  }

  /** Nothing has happened yet to the desired pages from `n` on. */
  ghost predicate Untouched(before: seq<Document>, documents: seq<Document>, desired: seq<Desired>, n: nat)
    requires n <= |desired|
  {
    forall j | n <= j < |desired| :: Lookup(documents, desired[j].title) == Lookup(before, desired[j].title)
  }

  function StaleCount(documents: seq<Document>, desired: seq<Desired>): (n: nat)
    ensures n == 0 <==> OnlyDesired(documents, desired)
  {
    if documents == [] then 0
    else
      var last := |documents| - 1;
      assert documents == documents[..last] + [documents[last]];
      StaleCount(documents[..last], desired) + if HasTitle(desired, documents[last].title) then 0 else 1
  }

  lemma {:induction false} LookupFinds(documents: seq<Document>, title: Text)
    ensures var d := Lookup(documents, title);
      && (d.Some? ==> d.value in documents && d.value.title == title)
      && (d.None? ==> forall e | e in documents :: e.title != title)
    decreases |documents|
  {
    if documents != [] {
      var last := |documents| - 1;
      LookupFinds(documents[..last], title);
      assert documents == documents[..last] + [documents[last]];
    }
  }

  lemma LookupListed(documents: seq<Document>, title: Text)
    requires IsDocSourcePath(title)
    ensures Lookup(Listed(documents), title) == Lookup(documents, title)
  {
    if documents != [] {
      var last := |documents| - 1;
      LookupListed(documents[..last], title);
      assert Listed(documents)[..last] == Listed(documents[..last]);
    }
  }

  lemma LookupAppended(documents: seq<Document>, d: Document, title: Text)
    ensures Lookup(documents + [d], title) == if d.title == title then Some(d) else Lookup(documents, title)
  {
    assert (documents + [d])[..|documents|] == documents;
  }

  lemma LookupReplaced(documents: seq<Document>, i: nat, d: Document, title: Text)
    requires i < |documents| && documents[i].title == d.title
    requires DistinctIds(documents)
    ensures d.title != title ==> Lookup(documents[i := d], title) == Lookup(documents, title)
    ensures d.title == title && Lookup(documents, title) == Some(documents[i]) ==>
      Lookup(documents[i := d], title) == Some(d)
  {
    var last := |documents| - 1;
    if i < last {
      LookupReplaced(documents[..last], i, d, title);
      assert documents[i := d][..last] == documents[..last][i := d];
      assert documents[i].id != documents[last].id;
    } else {
      assert documents[i := d][..last] == documents[..last];
    }
  }

  lemma {:induction false} LookupRemoved(documents: seq<Document>, i: nat, title: Text)
    requires i < |documents| && documents[i].title != title
    ensures Lookup(documents[..i] + documents[i + 1..], title) == Lookup(documents, title)
    decreases |documents|
  {
    var last := |documents| - 1;
    var after := documents[..i] + documents[i + 1..];
    if i < last {
      LookupRemoved(documents[..last], i, title);
      assert after[..|after| - 1] == documents[..last][..i] + documents[..last][i + 1..];
    } else {
      assert after == documents[..last];
    }
  }

  /* ---- One run ---- */

  /** Documents that no page asks for are those that were listed; a listed id still has its title. */
  ghost predicate Traceable(listed: seq<Document>, documents: seq<Document>, desired: seq<Desired>) {
    && (forall d | d in documents && !HasTitle(desired, d.title) ::
        exists k :: 0 <= k < |listed| && listed[k].id == d.id)
    && (forall d, k | d in documents && 0 <= k < |listed| && listed[k].id == d.id :: listed[k].title == d.title)
  }

  lemma UpdateKeeps(listed: seq<Document>, documents: seq<Document>, desired: seq<Desired>, title: Text, text: Text)
    requires DistinctIds(documents) && Lookup(documents, title).Some?
    ensures var page := Lookup(documents, title).value;
      var after := Replaced(documents, page.id, title, text);
      && |after| == |documents|
      && (forall t :: t != title ==> Lookup(after, t) == Lookup(documents, t))
      && Lookup(after, title) == Some(Document(page.id, title, text))
      && (UniqueTitles(documents) ==> UniqueTitles(after))
      && (Traceable(listed, documents, desired) ==> Traceable(listed, after, desired))
  {
    LookupFinds(documents, title);
    var page := Lookup(documents, title).value;
    var i := IndexOfId(documents, page.id);
    var k :| 0 <= k < |documents| && documents[k] == page;
    assert i == k;
    var d := Document(page.id, title, text);
    forall t ensures t != title ==> Lookup(documents[i := d], t) == Lookup(documents, t) {
      LookupReplaced(documents, i, d, t);
    }
    LookupReplaced(documents, i, d, title);
    var after := documents[i := d];
    forall e | e in after ensures exists f :: f in documents && f.id == e.id && f.title == e.title {
      var j :| 0 <= j < |after| && after[j] == e;
      assert documents[j] in documents && documents[j].id == e.id && documents[j].title == e.title;
    }
  }

  lemma AppendKeeps(listed: seq<Document>, documents: seq<Document>, desired: seq<Desired>, d: Document)
    requires Lookup(documents, d.title).None? && HasTitle(desired, d.title)
    requires forall k | 0 <= k < |listed| :: listed[k].id < d.id
    ensures forall t :: t != d.title ==> Lookup(documents + [d], t) == Lookup(documents, t)
    ensures Lookup(documents + [d], d.title) == Some(d)
    ensures UniqueTitles(documents) ==> UniqueTitles(documents + [d])
    ensures Traceable(listed, documents, desired) ==> Traceable(listed, documents + [d], desired)
  {
    LookupFinds(documents, d.title);
    forall t ensures Lookup(documents + [d], t) == if d.title == t then Some(d) else Lookup(documents, t) {
      LookupAppended(documents, d, t);
    }
    assert forall e | e in documents + [d] :: e in documents || e == d;
  }

  lemma RemovedAt(documents: seq<Document>, id: nat, j: nat)
    requires j < |Removed(documents, id)|
    ensures var i := IndexOfId(documents, id);
      Removed(documents, id)[j] == if j < i then documents[j] else documents[j + 1]
  {
  }

  lemma RemovedHolds(documents: seq<Document>, id: nat)
    requires DistinctIds(documents)
    ensures forall e | e in Removed(documents, id) :: e in documents && e.id != id
    ensures UniqueTitles(documents) ==> UniqueTitles(Removed(documents, id))
  {
    var (after, i) := (Removed(documents, id), IndexOfId(documents, id));
    forall j | 0 <= j < |after|
      ensures after[j] == documents[if j < i then j else j + 1] && after[j].id != id
    {
      RemovedAt(documents, id, j);
    }
  }

  lemma {:induction false} RemoveKeeps(documents: seq<Document>, desired: seq<Desired>, id: nat)
    requires var i := IndexOfId(documents, id); i < |documents| ==> !HasTitle(desired, documents[i].title)
    ensures forall t | HasTitle(desired, t) :: Lookup(Removed(documents, id), t) == Lookup(documents, t)
  {
    forall t | HasTitle(desired, t) ensures Lookup(Removed(documents, id), t) == Lookup(documents, t) {
      RemovedLookup(documents, id, t);
    }
  }

  lemma {:induction false} RemovedLookup(documents: seq<Document>, id: nat, title: Text)
    requires IndexOfId(documents, id) < |documents| ==> documents[IndexOfId(documents, id)].title != title
    ensures Lookup(Removed(documents, id), title) == Lookup(documents, title)
  {
    var i := IndexOfId(documents, id);
    if i < |documents| {
      LookupRemoved(documents, i, title);
      assert Removed(documents, id) == documents[..i] + documents[i + 1..];
    } else {
      assert Removed(documents, id) == documents;
    }
  }

  /** Work on page `i` leaves the other desired pages as they were. */
  lemma OthersKept(before: seq<Document>, documents: seq<Document>, after: seq<Document>, desired: seq<Desired>, i: nat)
    requires i < |desired| && DistinctTitles(desired)
    requires forall t :: t != desired[i].title ==> Lookup(after, t) == Lookup(documents, t)
    requires Untouched(before, documents, desired, i)
    ensures Untouched(before, after, desired, i + 1)
    ensures AllMirrored(documents, desired, i) ==> AllMirrored(after, desired, i)
    ensures AllMirrored(documents, desired, i) && Mirrored(after, desired[i]) ==> AllMirrored(after, desired, i + 1)
  {
    forall j | 0 <= j < |desired| && j != i
      ensures Lookup(after, desired[j].title) == Lookup(documents, desired[j].title)
    {
      assert desired[j].title != desired[i].title;
    }
    if AllMirrored(documents, desired, i) {
      forall j | 0 <= j < i ensures Mirrored(after, desired[j]) {
        assert Mirrored(documents, desired[j]);
      }
    }
  }

  lemma ListedIsTraceable(documents: seq<Document>, desired: seq<Desired>)
    requires DistinctIds(documents)
    ensures Traceable(Listed(documents), documents, desired)
  {
    var listed := Listed(documents);
    forall d | d in documents ensures exists k :: 0 <= k < |listed| && listed[k].id == d.id {
      var k :| 0 <= k < |documents| && documents[k] == d;
      assert listed[k].id == d.id;
    }
  }

  /** Where a run stands after the first `n` desired pages; `clean` if none of them failed. */
  ghost predicate Progress(before: seq<Document>, listed: seq<Document>, documents: seq<Document>,
                           desired: seq<Desired>, n: nat, clean: bool)
    requires n <= |desired|
  {
    && Untouched(before, documents, desired, n)
    && (clean ==> AllMirrored(documents, desired, n))
    && Traceable(listed, documents, desired)
    && (UniqueTitles(before) ==> UniqueTitles(documents))
  }

  /** What the listing says of a desired page is what the server has, until the page's turn comes. */
  lemma ListedPage(before: seq<Document>, documents: seq<Document>, d: Desired)
    requires Lookup(documents, d.title) == Lookup(before, d.title) && IsDocSourcePath(d.title)
    ensures var (listed, page) := (Lookup(Listed(before), d.title), Lookup(documents, d.title));
      && (listed.None? <==> page.None?)
      && (listed.Some? ==> listed.value == page.value)
      && (Current(before, d) <==> listed.Some? && SourceBlobPrefix(listed.value.text) == Some(d.blobPrefix))
  {
    LookupFinds(before, d.title);
    LookupListed(before, d.title);
  }

  /** The page was not there, and was created or not. */
  lemma PageCreated(before: seq<Document>, listed: seq<Document>, documents: seq<Document>, desired: seq<Desired>,
                    i: nat, clean: bool, created: Document)
    requires i < |desired| && DistinctTitles(desired) && Progress(before, listed, documents, desired, i, clean)
    requires created.title == desired[i].title && created.text == desired[i].text
    requires Lookup(documents, created.title).None? && forall k | 0 <= k < |listed| :: listed[k].id < created.id
    ensures Progress(before, listed, documents + [created], desired, i + 1, clean)
    ensures Progress(before, listed, documents, desired, i + 1, false)
  {
    assert HasTitle(desired, created.title);
    AppendKeeps(listed, documents, desired, created);
    OthersKept(before, documents, documents + [created], desired, i);
    OthersKept(before, documents, documents, desired, i);
  }

  /** The page was there, and was updated or not. */
  lemma PageUpdated(before: seq<Document>, listed: seq<Document>, documents: seq<Document>, desired: seq<Desired>,
                    i: nat, clean: bool)
    requires i < |desired| && DistinctTitles(desired) && Progress(before, listed, documents, desired, i, clean)
    requires DistinctIds(documents) && Lookup(documents, desired[i].title).Some?
    ensures var d := desired[i];
      var after := Replaced(documents, Lookup(documents, d.title).value.id, d.title, d.text);
      Progress(before, listed, after, desired, i + 1, clean)
    ensures Progress(before, listed, documents, desired, i + 1, false)
  {
    var d := desired[i];
    var after := Replaced(documents, Lookup(documents, d.title).value.id, d.title, d.text);
    UpdateKeeps(listed, documents, desired, d.title, d.text);
    OthersKept(before, documents, after, desired, i);
    OthersKept(before, documents, documents, desired, i);
  }

  /** The page was current, and was left alone. */
  lemma PageLeftAlone(before: seq<Document>, listed: seq<Document>, documents: seq<Document>, desired: seq<Desired>,
                      i: nat, clean: bool)
    requires i < |desired| && DistinctTitles(desired) && Progress(before, listed, documents, desired, i, clean)
    requires Current(documents, desired[i])
    ensures Progress(before, listed, documents, desired, i + 1, clean)
  {
    OthersKept(before, documents, documents, desired, i);
  }

  datatype PageOutcome = Created | Updated | UpToDate | Failed(failure: Failure)

  /** One desired page is created, left alone or updated; it is left alone exactly if it was current. */
  method PublishPage(desired: seq<Desired>, i: nat, listed: seq<Document>, sink: OutlineSink,
                     ghost before: seq<Document>, ghost clean: bool)
    returns (outcome: PageOutcome)
    requires sink.server.Valid() && listed == Listed(before)
    requires DistinctTitles(desired) && i < |desired| && IsDocSourcePath(desired[i].title)
    requires forall k | 0 <= k < |listed| :: listed[k].id < sink.server.nextId
    requires Progress(before, listed, sink.server.documents, desired, i, clean)
    modifies sink.server, sink`slept
    ensures sink.server.Valid() && sink.server.collections == old(sink.server.collections)
    ensures sink.server.nextId >= old(sink.server.nextId)
    ensures Progress(before, listed, sink.server.documents, desired, i + 1, clean && !outcome.Failed?)
    ensures outcome.Failed? ==> outcome.failure.CreateFailed? || outcome.failure.UpdateFailed?
    ensures sink.server.reliable ==> !outcome.Failed?
    ensures Current(before, desired[i]) ==>
      && outcome == UpToDate
      && sink.server.documents == old(sink.server.documents) && sink.server.writes == old(sink.server.writes)
    ensures !Current(before, desired[i]) ==> sink.server.writes > old(sink.server.writes)
  {
    var d := desired[i];
    ghost var documents := sink.server.documents;
    ListedPage(before, documents, d);
    var document := Lookup(listed, d.title);
    if document.None? {
      LookupFinds(documents, d.title);
      PageCreated(before, listed, documents, desired, i, clean, Document(sink.server.nextId, d.title, d.text));
      var r := sink.CreateDocument(d.title, d.text);
      return if r.Ok? then Created else Failed(CreateFailed(d.title, r.error));
    }
    if SourceBlobPrefix(document.value.text) == Some(d.blobPrefix) {
      PageLeftAlone(before, listed, documents, desired, i, clean);
      return UpToDate;
    }
    PageUpdated(before, listed, documents, desired, i, clean);
    LookupFinds(documents, d.title);
    var r := sink.UpdateDocument(document.value.id, d.title, d.text);
    return if r.Ok? then Updated else Failed(UpdateFailed(d.title, r.error));
  }

  /** First half of a run: every desired page in turn; it writes exactly if one is not current. */
  method Reconcile(desired: seq<Desired>, listed: seq<Document>, sink: OutlineSink)
    returns (created: nat, updated: nat, upToDate: nat, failures: seq<Failure>)
    requires sink.server.Valid() && listed == Listed(sink.server.documents)
    requires DistinctTitles(desired) && forall i | 0 <= i < |desired| :: IsDocSourcePath(desired[i].title)
    modifies sink.server, sink`slept
    ensures sink.server.Valid() && sink.server.collections == old(sink.server.collections)
    ensures created + updated + upToDate + |failures| == |desired|
    ensures forall f | f in failures :: f.CreateFailed? || f.UpdateFailed?
    ensures sink.server.reliable ==> failures == []
    ensures Progress(old(sink.server.documents), listed, sink.server.documents, desired, |desired|, failures == [])
    ensures sink.server.writes >= old(sink.server.writes)
    ensures sink.server.writes == old(sink.server.writes) <==>
      AllCurrent(old(sink.server.documents), desired, |desired|)
    ensures sink.server.writes == old(sink.server.writes) ==>
      sink.server.documents == old(sink.server.documents) && upToDate == |desired|
  {
    created, updated, upToDate, failures := 0, 0, 0, [];
    ghost var (before, writes) := (sink.server.documents, sink.server.writes);
    ListedIsTraceable(before, desired);
    for i := 0 to |desired|
      invariant sink.server.Valid() && sink.server.collections == old(sink.server.collections)
      invariant created + updated + upToDate + |failures| == i
      invariant forall f | f in failures :: f.CreateFailed? || f.UpdateFailed?
      invariant sink.server.reliable ==> failures == []
      invariant forall k | 0 <= k < |listed| :: listed[k].id < sink.server.nextId
      invariant Progress(before, listed, sink.server.documents, desired, i, failures == [])
      invariant sink.server.writes >= writes
      invariant sink.server.writes == writes <==> AllCurrent(before, desired, i)
      invariant sink.server.writes == writes ==> sink.server.documents == before && upToDate == i
    {
      var outcome := PublishPage(desired, i, listed, sink, before, failures == []);
      CurrentNext(before, desired, i);
      match outcome {
        case Created => created := created + 1;
        case Updated => updated := updated + 1;
        case UpToDate => upToDate := upToDate + 1;
        case Failed(failure) => failures := failures + [failure];
      }
    }
  }

  lemma CurrentNext(documents: seq<Document>, desired: seq<Desired>, n: nat)
    requires n < |desired|
    ensures AllCurrent(documents, desired, n + 1) <==>
      AllCurrent(documents, desired, n) && Current(documents, desired[n])
  {
  }

  /** None of the first listed documents is still there without being desired. */
  ghost predicate NoneStale(documents: seq<Document>, desired: seq<Desired>, handled: seq<Document>) {
    forall d, k | d in documents && 0 <= k < |handled| && handled[k].id == d.id :: HasTitle(desired, d.title)
  }

  /** Where archiving stands after the first `k` listed documents; `clean` if none of them failed. */
  ghost predicate Clearing(before: seq<Document>, listed: seq<Document>, documents: seq<Document>,
                           desired: seq<Desired>, k: nat, clean: bool)
    requires k <= |listed|
  {
    && (forall d | d in documents :: d in before)
    && (forall t | HasTitle(desired, t) :: Lookup(documents, t) == Lookup(before, t))
    && (UniqueTitles(before) ==> UniqueTitles(documents))
    && (clean ==> NoneStale(documents, desired, listed[..k]))
  }

  lemma HandledNext(documents: seq<Document>, after: seq<Document>, desired: seq<Desired>,
                    listed: seq<Document>, k: nat)
    requires k < |listed| && NoneStale(documents, desired, listed[..k])
    requires forall d | d in after :: d in documents && (d.id == listed[k].id ==> HasTitle(desired, d.title))
    ensures NoneStale(after, desired, listed[..k + 1])
  {
    var handled := listed[..k + 1];
    forall d, j | d in after && 0 <= j < |handled| && handled[j].id == d.id ensures HasTitle(desired, d.title) {
      assert j < k ==> listed[..k][j] == listed[j];
    }
  }

  /** A desired document stays. */
  lemma KeepsClearing(before: seq<Document>, listed: seq<Document>, documents: seq<Document>, desired: seq<Desired>,
                      k: nat, clean: bool)
    requires k < |listed| && Traceable(listed, before, desired) && HasTitle(desired, listed[k].title)
    requires Clearing(before, listed, documents, desired, k, clean)
    ensures Clearing(before, listed, documents, desired, k + 1, clean)
  {
    if clean {
      HandledNext(documents, documents, desired, listed, k);
    }
  }

  /** A stale one goes, or its archiving failed, perhaps after it went. */
  lemma RemovesClearing(before: seq<Document>, listed: seq<Document>, documents: seq<Document>, desired: seq<Desired>,
                        k: nat, clean: bool)
    requires k < |listed| && Traceable(listed, before, desired) && !HasTitle(desired, listed[k].title)
    requires DistinctIds(documents) && Clearing(before, listed, documents, desired, k, clean)
    ensures Clearing(before, listed, Removed(documents, listed[k].id), desired, k + 1, clean)
    ensures Clearing(before, listed, documents, desired, k + 1, false)
  {
    var i := IndexOfId(documents, listed[k].id);
    assert i < |documents| ==> documents[i] in before;
    RemovedHolds(documents, listed[k].id);
    RemoveKeeps(documents, desired, listed[k].id);
    if clean {
      HandledNext(documents, Removed(documents, listed[k].id), desired, listed, k);
    }
  }

  lemma AllCleared(before: seq<Document>, listed: seq<Document>, documents: seq<Document>, desired: seq<Desired>)
    requires Traceable(listed, before, desired) && Clearing(before, listed, documents, desired, |listed|, true)
    ensures OnlyDesired(documents, desired)
  {
    assert listed[..|listed|] == listed;
  }

  lemma StaleNext(listed: seq<Document>, desired: seq<Desired>, k: nat)
    requires k < |listed|
    ensures StaleCount(listed[..k + 1], desired)
         == StaleCount(listed[..k], desired) + if HasTitle(desired, listed[k].title) then 0 else 1
  {
    assert listed[..k + 1][..k] == listed[..k];
  }

  predicate AllArchiveFailed(failures: seq<Failure>) {
    forall f | f in failures :: f.ArchiveFailed?
  }

  lemma OneMoreFailed(failures: seq<Failure>, title: Text, error: Error)
    requires AllArchiveFailed(failures)
    ensures AllArchiveFailed(failures + [ArchiveFailed(title, error)])
  {
  }

  /** Second half: every listed page that is not desired is archived; it writes exactly if there is one. */
  method ArchiveStale(desired: seq<Desired>, listed: seq<Document>, sink: OutlineSink)
    returns (archived: nat, failures: seq<Failure>)
    requires sink.server.Valid() && Traceable(listed, sink.server.documents, desired)
    modifies sink.server, sink`slept
    ensures sink.server.Valid() && sink.server.collections == old(sink.server.collections)
    ensures archived + |failures| == StaleCount(listed, desired)
    ensures forall f | f in failures :: f.ArchiveFailed?
    ensures sink.server.reliable ==> failures == []
    ensures failures == [] ==> OnlyDesired(sink.server.documents, desired)
    ensures forall t | HasTitle(desired, t) :: Lookup(sink.server.documents, t) == Lookup(old(sink.server.documents), t)
    ensures UniqueTitles(old(sink.server.documents)) ==> UniqueTitles(sink.server.documents)
    ensures sink.server.writes >= old(sink.server.writes)
    ensures sink.server.writes == old(sink.server.writes) <==> StaleCount(listed, desired) == 0
    ensures sink.server.writes == old(sink.server.writes) ==> sink.server.documents == old(sink.server.documents)
  {
    archived, failures := 0, [];
    var server := sink.server;
    ghost var (before, writes) := (server.documents, server.writes);
    for k := 0 to |listed|
      invariant server.Valid() && server.collections == old(server.collections)
      invariant archived + |failures| == StaleCount(listed[..k], desired)
      invariant AllArchiveFailed(failures) && (server.reliable ==> failures == [])
      invariant Clearing(before, listed, server.documents, desired, k, failures == [])
      invariant server.writes >= writes && (server.writes == writes <==> archived + |failures| == 0)
      invariant server.writes == writes ==> server.documents == before
    {
      StaleNext(listed, desired, k);
      var document := listed[k];
      if HasTitle(desired, document.title) {
        KeepsClearing(before, listed, server.documents, desired, k, failures == []);
        continue;
      }
      RemovesClearing(before, listed, server.documents, desired, k, failures == []);
      var r := sink.ArchiveDocument(document.id);
      if r.Ok? {
        archived := archived + 1;
      } else {
        OneMoreFailed(failures, document.title, r.error);
        failures := failures + [ArchiveFailed(document.title, r.error)];
      }
    }
    assert listed[..|listed|] == listed;
    if failures == [] {
      AllCleared(before, listed, server.documents, desired);
    }
  }

  /* ---- The whole run ---- */

  function ReconcileFailures(failures: seq<Failure>): nat {
    if failures == [] then 0
    else ReconcileFailures(failures[1..]) + if failures[0].CreateFailed? || failures[0].UpdateFailed? then 1 else 0
  }

  function ArchiveFailures(failures: seq<Failure>): nat {
    if failures == [] then 0
    else ArchiveFailures(failures[1..]) + if failures[0].ArchiveFailed? then 1 else 0
  }

  lemma {:induction false} FailuresCounted(first: seq<Failure>, second: seq<Failure>)
    requires forall f | f in first :: f.CreateFailed? || f.UpdateFailed?
    requires forall f | f in second :: f.ArchiveFailed?
    ensures ReconcileFailures(first + second) == |first| && ArchiveFailures(first + second) == |second|
  {
    if first != [] {
      assert (first + second)[0] == first[0] && first[0] in first;
      assert (first + second)[1..] == first[1..] + second;
      FailuresCounted(first[1..], second);
    } else {
      assert first + second == second;
      ArchivesCounted(second);
    }
  }

  lemma ArchivesCounted(failures: seq<Failure>)
    requires forall f | f in failures :: f.ArchiveFailed?
    ensures ReconcileFailures(failures) == 0 && ArchiveFailures(failures) == |failures|
  {
    if failures != [] {
      assert failures[0] in failures;
      ArchivesCounted(failures[1..]);
    }
  }

  lemma RunAccounted(created: nat, updated: nat, archived: nat, upToDate: nat,
                     first: seq<Failure>, second: seq<Failure>, desired: seq<Desired>, stale: nat)
    requires created + updated + upToDate + |first| == |desired| && archived + |second| == stale
    requires forall f | f in first :: f.CreateFailed? || f.UpdateFailed?
    requires forall f | f in second :: f.ArchiveFailed?
    ensures var report := Report(created, updated, archived, upToDate, first + second);
      Prepared(report) && Accounted(report, desired, stale)
  {
    FailuresCounted(first, second);
    assert first != [] ==> first[0] in first;
    assert second != [] ==> second[0] in second;
  }

  /** The run got as far as reconciling. */
  predicate Prepared(report: Report) {
    report.failures == [] || !(report.failures[0].EnumerateFailed? || report.failures[0].PrepareFailed?)
  }

  /** Every desired page and every stale document is counted once, as done or as a failure. */
  predicate Accounted(report: Report, desired: seq<Desired>, stale: nat) {
    && report.created + report.updated + report.upToDate + ReconcileFailures(report.failures) == |desired|
    && report.archived + ArchiveFailures(report.failures) == stale
    && |report.failures| == ReconcileFailures(report.failures) + ArchiveFailures(report.failures)
  }

  predicate StoppedEarly(report: Report) {
    && report.created == report.updated == report.archived == report.upToDate == 0
    && |report.failures| == 1
    && !Prepared(report)
  }

  /** A run that wrote every page it had to and archived every page it had to. */
  ghost predicate Reconciled(documents: seq<Document>, desired: seq<Desired>) {
    OnlyDesired(documents, desired) && AllMirrored(documents, desired, |desired|)
  }

  /** What the two halves of a run leave: they write exactly if there was something to do. */
  ghost predicate RanOver(before: seq<Document>, after: seq<Document>, desired: seq<Desired>,
                          report: Report, wrote: bool)
  {
    && Prepared(report) && Accounted(report, desired, StaleCount(Listed(before), desired))
    && (report.failures == [] ==> Reconciled(after, desired))
    && (UniqueTitles(before) ==> UniqueTitles(after))
    && (wrote <==> !InSync(before, desired))
    && (!wrote ==> report == Report(0, 0, 0, |desired|, []) && after == before)
  }

  /** Nothing is stale and every page is current exactly if the mirror is in sync. */
  lemma {:induction false} NothingToDo(documents: seq<Document>, desired: seq<Desired>)
    ensures InSync(documents, desired)
       <==> AllCurrent(documents, desired, |desired|) && StaleCount(Listed(documents), desired) == 0
  {
    var listed := Listed(documents);
    assert forall k | 0 <= k < |listed| :: listed[k].title == documents[k].title;
    forall d | d in documents && OnlyDesired(listed, desired) ensures HasTitle(desired, d.title) {
      var k :| 0 <= k < |documents| && documents[k] == d;
      assert listed[k] in listed;
    }
    forall d | d in listed && OnlyDesired(documents, desired) ensures HasTitle(desired, d.title) {
      var k :| 0 <= k < |listed| && listed[k] == d;
      assert documents[k] in documents;
    }
  }

  lemma MirroredKept(documents: seq<Document>, after: seq<Document>, desired: seq<Desired>)
    requires AllMirrored(documents, desired, |desired|)
    requires forall t | HasTitle(desired, t) :: Lookup(after, t) == Lookup(documents, t)
    ensures AllMirrored(after, desired, |desired|)
  {
    forall j | 0 <= j < |desired| ensures Mirrored(after, desired[j]) {
      assert Mirrored(documents, desired[j]) && HasTitle(desired, desired[j].title);
    }
  }

  lemma BothHalves(before: seq<Document>, between: seq<Document>, after: seq<Document>, desired: seq<Desired>,
                   report: Report, first: seq<Failure>, second: seq<Failure>, wrote: bool)
    requires report.failures == first + second
    requires report.created + report.updated + report.upToDate + |first| == |desired|
    requires report.archived + |second| == StaleCount(Listed(before), desired)
    requires forall f | f in first :: f.CreateFailed? || f.UpdateFailed?
    requires forall f | f in second :: f.ArchiveFailed?
    requires first == [] ==> AllMirrored(between, desired, |desired|)
    requires second == [] ==> OnlyDesired(after, desired)
    requires forall t | HasTitle(desired, t) :: Lookup(after, t) == Lookup(between, t)
    requires UniqueTitles(before) ==> UniqueTitles(after)
    requires wrote <==> !AllCurrent(before, desired, |desired|) || StaleCount(Listed(before), desired) > 0
    requires !wrote ==> report.upToDate == |desired| && after == before
    ensures RanOver(before, after, desired, report, wrote)
  {
    RunAccounted(report.created, report.updated, report.archived, report.upToDate, first, second, desired,
                 StaleCount(Listed(before), desired));
    NothingToDo(before, desired);
    if first == [] {
      MirroredKept(between, after, desired);
    }
  }

  method ReconcileAndArchive(desired: seq<Desired>, listed: seq<Document>, sink: OutlineSink) returns (report: Report)
    requires sink.server.Valid() && listed == Listed(sink.server.documents)
    requires DistinctTitles(desired) && forall i | 0 <= i < |desired| :: IsDocSourcePath(desired[i].title)
    modifies sink.server, sink`slept
    ensures sink.server.Valid() && sink.server.collections == old(sink.server.collections)
    ensures sink.server.writes >= old(sink.server.writes)
    ensures RanOver(old(sink.server.documents), sink.server.documents, desired, report,
                    sink.server.writes > old(sink.server.writes))
    ensures sink.server.reliable ==> report.failures == []
  {
    ghost var (before, writes) := (sink.server.documents, sink.server.writes);
    var created, updated, upToDate, failures := Reconcile(desired, listed, sink);
    ghost var between := sink.server.documents;
    var archived, more := ArchiveStale(desired, listed, sink);
    report := Report(created, updated, archived, upToDate, failures + more);
    BothHalves(before, between, sink.server.documents, desired, report, failures, more, sink.server.writes > writes);
  }

  /** The name of the collection a repository is mirrored in. */
  function CollectionName(repoName: Text): Text {
    repoName + COLLECTION_SUFFIX
  }

  /** A collection is named after its repository, so that different repositories never share one. */
  lemma CollectionsAreApart(repoName: Text, other: Text)
    ensures repoName <= CollectionName(repoName)
    ensures CollectionName(repoName)[|repoName|..] == Units(" docs")
    ensures CollectionName(repoName) == CollectionName(other) <==> repoName == other
  {
    var (name, second) := (CollectionName(repoName), CollectionName(other));
    assert name[..|repoName|] == repoName && second[..|other|] == other;
    assert name == second ==> |repoName| == |other|;
  }

  /** A run that was stopped before reconciling. */
  ghost predicate LeftAlone(report: Report, before: seq<Document>, after: seq<Document>) {
    StoppedEarly(report) && after == before
  }

  /** A run that got as far as reconciling: it wrote exactly if the collection or the mirror was not as it should be. */
  ghost predicate Published(report: Report, desired: seq<Desired>, before: seq<Document>, after: seq<Document>,
                            wasReady: bool, wrote: bool)
  {
    && Prepared(report) && Accounted(report, desired, StaleCount(Listed(before), desired))
    && (report.failures == [] ==> Reconciled(after, desired))
    && (wrote <==> !(wasReady && InSync(before, desired)))
    && (InSync(before, desired) ==> report == Report(0, 0, 0, |desired|, []) && after == before)
  }

  ghost predicate AllSources(sources: seq<DocSource>) {
    forall source | source in sources :: IsSource(source)
  }

  /**
    * The documents are those of the sources: every path has its page, which is the last source's or reads
    * as that source's blob, and no other title is left.
    */
  ghost predicate MirrorOf(sources: seq<DocSource>, repoName: Text, documents: seq<Document>)
    requires AllSources(sources)
  {
    && (forall d | d in documents :: IsSourcePath(sources, d.title))
    && (forall k | 0 <= k < |sources| :: Lookup(documents, sources[k].path).Some?)
    && (forall k | 0 <= k < |sources| && IsLast(sources, k) ::
        sources[k] in sources && Mirrored(documents, DesiredOf(sources[k], repoName)))
  }

  lemma ReconciledIsMirror(sources: seq<DocSource>, repoName: Text, documents: seq<Document>)
    requires AllSources(sources) && Reconciled(documents, DesiredFrom(sources, repoName))
    ensures MirrorOf(sources, repoName, documents)
  {
    var desired := DesiredFrom(sources, repoName);
    forall d | d in documents ensures IsSourcePath(sources, d.title) {
      DesiredIffSource(sources, repoName, d.title);
    }
    forall k | 0 <= k < |sources| ensures Lookup(documents, sources[k].path).Some? {
      DesiredIffSource(sources, repoName, sources[k].path);
      assert Mirrored(documents, desired[TitleIndex(desired, sources[k].path)]);
    }
    forall k | 0 <= k < |sources| && IsLast(sources, k)
      ensures sources[k] in sources && Mirrored(documents, DesiredOf(sources[k], repoName))
    {
      LastSourceCounts(sources, repoName, k);
    }
  }

  /** One run over a lossy server: what it counts, what it leaves behind, and when it writes. */
  method PublishRepo(repoName: Text, enumerated: Option<seq<DocSource>>, sink: OutlineSink) returns (report: Report)
    requires sink.server.Valid() && (enumerated.Some? ==> AllSources(enumerated.value))
    modifies sink.server, sink`slept
    ensures sink.server.Valid() && sink.server.writes >= old(sink.server.writes)
    ensures UniqueTitles(old(sink.server.documents)) ==> UniqueTitles(sink.server.documents)
    ensures enumerated.None? || !Prepared(report) ==>
      LeftAlone(report, old(sink.server.documents), sink.server.documents)
    ensures enumerated.Some? && Prepared(report) ==>
      && Ready(sink.server.collections, CollectionName(repoName))
      && Published(report, DesiredFrom(enumerated.value, repoName), old(sink.server.documents), sink.server.documents,
                   Ready(old(sink.server.collections), CollectionName(repoName)),
                   sink.server.writes > old(sink.server.writes))
    ensures sink.server.reliable && enumerated.Some? ==> report.failures == []
    ensures enumerated.Some? && report.failures == [] ==>
      MirrorOf(enumerated.value, repoName, sink.server.documents)
    ensures Ready(old(sink.server.collections), CollectionName(repoName)) && !Prepared(report) ==>
      sink.server.writes == old(sink.server.writes)
  {
    if enumerated.None? {
      return Report(0, 0, 0, 0, [EnumerateFailed]);
    }
    var desired := DesiredFrom(enumerated.value, repoName);
    var collection := sink.EnsureCollection(CollectionName(repoName));
    if collection.Err? {
      return Report(0, 0, 0, 0, [PrepareFailed(collection.error)]);
    }
    var documents := sink.ListDocuments();
    if documents.Err? {
      return Report(0, 0, 0, 0, [PrepareFailed(documents.error)]);
    }
    report := ReconcileAndArchive(desired, documents.value, sink);
    if report.failures == [] {
      ReconciledIsMirror(enumerated.value, repoName, sink.server.documents);
    }
  }

  /* ---- Convergence ---- */

  ghost predicate AllGenuine(sources: seq<DocSource>, repoName: Text) {
    forall source | source in sources :: IsSource(source) && Genuine(source, repoName)
  }

  lemma DesiredHasSource(sources: seq<DocSource>, repoName: Text, i: nat) returns (source: DocSource)
    requires AllSources(sources)
    requires i < |DesiredFrom(sources, repoName)|
    ensures source in sources && DesiredFrom(sources, repoName)[i] == DesiredOf(source, repoName)
  {
    var last := |sources| - 1;
    assert sources[last] in sources;
    if DesiredFrom(sources, repoName)[i] == DesiredOf(sources[last], repoName) {
      source := sources[last];
    } else {
      source := DesiredHasSource(sources[..last], repoName, i);
    }
  }

  /** A page just written reads as up to date exactly when its origin does not counterfeit another blob. */
  lemma WrittenPageIsCurrentIffGenuine(documents: seq<Document>, source: DocSource, repoName: Text)
    requires IsSource(source)
    requires var page := Lookup(documents, source.path);
      page.Some? && page.value.text == WithSourceBanner(source, repoName)
    ensures Current(documents, DesiredOf(source, repoName)) <==> Genuine(source, repoName)
  {
    ReadsUpToDateIffGenuine(source, repoName);
  }

  /** A run without failures leaves nothing for the next one to do. */
  lemma ReconciledIsInSync(documents: seq<Document>, sources: seq<DocSource>, repoName: Text)
    requires AllGenuine(sources, repoName)
    requires AllSources(sources) && Reconciled(documents, DesiredFrom(sources, repoName))
    ensures InSync(documents, DesiredFrom(sources, repoName))
  {
    var desired := DesiredFrom(sources, repoName);
    forall i | 0 <= i < |desired| ensures Current(documents, desired[i]) {
      assert Mirrored(documents, desired[i]);
      if !Current(documents, desired[i]) {
        var source := DesiredHasSource(sources, repoName, i);
        WrittenPageIsCurrentIffGenuine(documents, source, repoName);
      }
    }
  }

  lemma LookupUnique(documents: seq<Document>, d: Document)
    requires UniqueTitles(documents) && d in documents
    ensures Lookup(documents, d.title) == Some(d)
  {
    LookupFinds(documents, d.title);
    var page := Lookup(documents, d.title);
    assert page.Some?;
    var i :| 0 <= i < |documents| && documents[i] == d;
    var j :| 0 <= j < |documents| && documents[j] == page.value;
  }

  /** With unique titles, being in sync does not depend on the order the server lists documents in. */
  lemma InSyncInAnyOrder(documents: seq<Document>, others: seq<Document>, desired: seq<Desired>)
    requires UniqueTitles(documents) && UniqueTitles(others)
    requires forall d :: d in documents <==> d in others
    requires InSync(documents, desired)
    ensures InSync(others, desired)
  {
    forall j | 0 <= j < |desired| ensures Current(others, desired[j]) {
      assert Current(documents, desired[j]);
      LookupFinds(documents, desired[j].title);
      LookupUnique(others, Lookup(documents, desired[j].title).value);
    }
  }

  /** Two documents of one title: the same documents are in sync in one listing order and not in the other. */
  lemma OrderTellsForDuplicates(d: Desired, current: Document, other: Document)
    requires current.title == other.title == d.title
    requires SourceBlobPrefix(current.text) == Some(d.blobPrefix) != SourceBlobPrefix(other.text)
    ensures InSync([other, current], [d]) && !InSync([current, other], [d])
  {
    assert TitleIndex([d], d.title) == 0;
    assert [other, current][1] == current && [current, other][1] == other;
    assert Current([other, current], d) && !Current([current, other], [d][0]);
  }

  /** A page whose source is not the last of its path is not published, so its origin does not matter. */
  ghost predicate IsPublished(source: DocSource, sources: seq<DocSource>, repoName: Text)
    requires IsSource(source) && AllSources(sources)
  {
    DesiredOf(source, repoName) in DesiredFrom(sources, repoName)
  }

  /** When every page holds its own text, nothing is left to do exactly if every published source is genuine. */
  lemma WrittenMirrorRestsIffGenuine(documents: seq<Document>, sources: seq<DocSource>, repoName: Text)
    requires AllSources(sources)
    requires OnlyDesired(documents, DesiredFrom(sources, repoName))
    requires forall d | d in DesiredFrom(sources, repoName) :: HoldsText(documents, d)
    ensures InSync(documents, DesiredFrom(sources, repoName)) <==>
      forall source | source in sources && IsPublished(source, sources, repoName) :: Genuine(source, repoName)
  {
    var desired := DesiredFrom(sources, repoName);
    forall source | source in sources && IsPublished(source, sources, repoName)
      ensures Current(documents, DesiredOf(source, repoName)) <==> Genuine(source, repoName)
    {
      assert HoldsText(documents, DesiredOf(source, repoName));
      WrittenPageIsCurrentIffGenuine(documents, source, repoName);
    }
    forall i | 0 <= i < |desired|
      ensures exists source :: source in sources && IsSource(source) && DesiredOf(source, repoName) == desired[i]
    {
      var source := DesiredHasSource(sources, repoName, i);
    }
  }

  predicate HoldsText(documents: seq<Document>, d: Desired) {
    var page := Lookup(documents, d.title);
    page.Some? && page.value.text == d.text
  }

  /** The counterfeit path is one that the publisher enumerates. */
  lemma CounterfeitIsEnumerated(source: DocSource)
    requires source.path == COUNTERFEIT && IsObjectId(source.blobSha)
    ensures IsSource(source)
  {
    var path := source.path;
    assert path[..|Outline.DOCS|] == Outline.DOCS;
    assert path[|path| - 3..] == MARKDOWN;
  }

  /** The mirror of such a source never rests: its page holds its text, and the next run writes it again. */
  lemma CounterfeitNeverRests(documents: seq<Document>, source: DocSource, repoName: Text)
    requires source.path == COUNTERFEIT && IsObjectId(source.blobSha) && BlobPrefix(source) != ZEROS
    requires FirstMark(repoName) != Some(BlobPrefix(source)) && IsSource(source)
    requires HoldsText(documents, DesiredOf(source, repoName))
    ensures !InSync(documents, DesiredFrom([source], repoName))
  {
    CounterfeitIsNotGenuine(source, repoName);
    WrittenPageIsCurrentIffGenuine(documents, source, repoName);
    OneDesired(source, repoName);
    assert !Current(documents, DesiredFrom([source], repoName)[0]);
  }

  lemma OneDesired(source: DocSource, repoName: Text)
    requires IsSource(source)
    ensures DesiredFrom([source], repoName) == [DesiredOf(source, repoName)]
  {
    assert [source][..0] == [] && DesiredFrom([], repoName) == [];
    assert forall s | s in [source] :: s == source;
  }

  lemma StaysInSync(settled: seq<Document>, later: seq<Document>, sources: seq<DocSource>, repoName: Text)
    requires AllGenuine(sources, repoName)
    requires AllSources(sources) && Reconciled(settled, DesiredFrom(sources, repoName))
    requires (forall d :: d in settled <==> d in later) && (UniqueTitles(settled) ==> UniqueTitles(later))
    ensures UniqueTitles(settled) || later == settled ==> InSync(later, DesiredFrom(sources, repoName))
  {
    ReconciledIsInSync(settled, sources, repoName);
    if UniqueTitles(settled) {
      InSyncInAnyOrder(settled, later, DesiredFrom(sources, repoName));
    }
  }

  /** Nothing is left to do for these sources. */
  ghost predicate AtRest(collections: seq<Collection>, documents: seq<Document>,
                         sources: seq<DocSource>, repoName: Text)
    requires AllSources(sources)
  {
    Ready(collections, CollectionName(repoName)) && InSync(documents, DesiredFrom(sources, repoName))
  }

  /** A run, and then time in which the server may come to list its documents in another order. */
  method PublishAndWait(repoName: Text, sources: seq<DocSource>, sink: OutlineSink)
    returns (report: Report, ghost sameOrder: bool)
    requires sink.server.Valid() && AllSources(sources) && AllGenuine(sources, repoName)
    modifies sink.server, sink`slept
    ensures sink.server.Valid()
    ensures report.failures == [] && (UniqueTitles(old(sink.server.documents)) || sameOrder) ==>
      AtRest(sink.server.collections, sink.server.documents, sources, repoName)
  {
    report := PublishRepo(repoName, Some(sources), sink);
    ghost var settled := sink.server.documents;
    sink.server.Relist();
    sameOrder := sink.server.documents == settled;
    if report.failures == [] {
      StaysInSync(settled, sink.server.documents, sources, repoName);
    }
  }

  /** A run over a mirror at rest. */
  method PublishAtRest(repoName: Text, sources: seq<DocSource>, sink: OutlineSink, ghost rests: bool)
    returns (report: Report)
    requires sink.server.Valid() && AllSources(sources)
    requires rests ==> AtRest(sink.server.collections, sink.server.documents, sources, repoName)
    modifies sink.server, sink`slept
    ensures rests ==>
      && sink.server.writes == old(sink.server.writes)
      && (Prepared(report) ==> report == Report(0, 0, 0, |DesiredFrom(sources, repoName)|, []))
  {
    report := PublishRepo(repoName, Some(sources), sink);
  }

  /**
    * Two runs over the same sources, the documents perhaps listed in another order the second time:
    * after a clean first run the second sends no write at all, if titles are unique or the order stayed.
    */
  method PublishTwice(repoName: Text, sources: seq<DocSource>, sink: OutlineSink)
    returns (first: Report, between: nat, ghost sameOrder: bool, second: Report)
    requires sink.server.Valid() && AllSources(sources) && AllGenuine(sources, repoName)
    modifies sink.server, sink`slept
    ensures first.failures == [] && (UniqueTitles(old(sink.server.documents)) || sameOrder) ==>
      && sink.server.writes == between
      && (Prepared(second) ==> second == Report(0, 0, 0, |DesiredFrom(sources, repoName)|, []))
  {
    ghost var unique := UniqueTitles(sink.server.documents);
    first, sameOrder := PublishAndWait(repoName, sources, sink);
    between := sink.server.writes;
    second := PublishAtRest(repoName, sources, sink, first.failures == [] && (unique || sameOrder));
  }
}
