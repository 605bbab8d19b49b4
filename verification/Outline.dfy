/** The Outline documentation server over a lossy network, and the client that pages, retries and reconciles. */
module Outline {
  import opened Text

  /* ---- Values ---- */

  datatype Error = Transport | Timeout | Http(status: int) | Other

  datatype Result<+T> = Ok(value: T) | Err(error: Error)

  datatype Document = Document(id: nat, title: Text, text: Text)

  datatype Collection = Collection(id: nat, name: Text, permission: Option<Text>)

  /** One page of a listing, with the total the server counts. */
  datatype Page<+T> = Page(data: seq<T>, total: nat)

  const PAGE_LIMIT: nat := 100
  const ATTEMPTS: nat := 3
  const DELAYS: seq<nat> := [1_000, 8_000]
  const READ: Text := [114, 101, 97, 100]
  const README: Text := [82, 69, 65, 68, 77, 69, 46, 109, 100]
  const DOCS: Text := [100, 111, 99, 115, 47]
  const MARKDOWN: Text := [46, 109, 100]

  predicate IsDocSourcePath(path: Text) {
    || path == README
    || (StartsWith(path, DOCS) && |path| >= 3 && path[|path| - 3..] == MARKDOWN)
  }

  predicate ServerBusy(status: int) {
    status == 429 || 500 <= status <= 599
  }

  predicate Retryable(error: Error) {
    error.Transport? || error.Timeout? || (error.Http? && ServerBusy(error.status))
  }

  /** How long to wait before another attempt, or None to give up with the error. */
  function RetryDelay(attempt: nat, error: Error): (delay: Option<nat>)
    ensures var again := || error.Transport? || error.Timeout?
                         || (error.Http? && (error.status == 429 || error.status / 100 == 5));
      && (delay == Some(1_000) <==> attempt == 0 && again)
      && (delay == Some(8_000) <==> attempt == 1 && again)
      && (delay.None? <==> attempt >= 2 || !again)
  {
    if Retryable(error) && attempt + 1 < ATTEMPTS then Some(DELAYS[attempt]) else None
  }

  /** Retried work gave up only on a final error or after the last attempt, having slept between attempts. */
  ghost predicate GaveUpRightly<T>(r: Result<T>, before: seq<nat>, after: seq<nat>) {
    exists n: nat | n < ATTEMPTS ::
      && after == before + DELAYS[..n]
      && (r.Err? ==> !Retryable(r.error) || n == ATTEMPTS - 1)
  }

  function PageOf<T>(items: seq<T>, offset: nat): Page<T> {
    var start := if offset < |items| then offset else |items|;
    var end := if offset + PAGE_LIMIT < |items| then offset + PAGE_LIMIT else |items|;
    Page(items[start..end], |items|)
  }

  function NextOffset(total: nat, offset: nat): Option<nat> {
    if offset + PAGE_LIMIT < total then Some(offset + PAGE_LIMIT) else None
  }

  /** What a listing tells of a document: no text. */
  function Summary(d: Document): Document {
    d.(text := [])
  }

  function Summaries(documents: seq<Document>): seq<Document> {
    seq(|documents|, i requires 0 <= i < |documents| => Summary(documents[i]))
  }

  /** A full listing: documents whose title could be a source path come with their text. */
  function Listed(documents: seq<Document>): seq<Document> {
    seq(|documents|, i requires 0 <= i < |documents| =>
      if IsDocSourcePath(documents[i].title) then documents[i] else Summary(documents[i]))
  }

  /** Source paths are the root's README.md and the Markdown files under docs. */
  lemma SourcePathsAre(path: Text)
    ensures IsDocSourcePath(path) <==>
      || path == Units("README.md")
      || (StartsWith(path, Units("docs/")) && exists stem :: path == stem + Units(".md"))
  {
    assert README == Units("README.md") && DOCS == Units("docs/") && MARKDOWN == Units(".md");
    if |path| >= 3 && path[|path| - 3..] == MARKDOWN {
      assert path == path[..|path| - 3] + Units(".md");
    }
    forall stem | path == stem + Units(".md") ensures |path| >= 3 && path[|path| - 3..] == MARKDOWN {
      assert path[|path| - 3..] == Units(".md");
    }
  }

  /** The first document of a title, or the number of documents. */
  function FirstTitled(documents: seq<Document>, title: Text): (i: nat)
    ensures i <= |documents|
    ensures i < |documents| ==> documents[i].title == title
    ensures forall j | 0 <= j < i :: documents[j].title != title
  {
    FirstWhere(documents, (d: Document) => d.title == title)
  }

  function FirstNamed(collections: seq<Collection>, name: Text): (i: nat)
    ensures i <= |collections|
    ensures i < |collections| ==> collections[i].name == name
    ensures forall j | 0 <= j < i :: collections[j].name != name
  {
    FirstWhere(collections, (c: Collection) => c.name == name)
  }

  function IndexOfId(documents: seq<Document>, id: nat): (i: nat)
    ensures i <= |documents|
    ensures i < |documents| ==> documents[i].id == id
    ensures forall j | 0 <= j < i :: documents[j].id != id
  {
    FirstWhere(documents, (d: Document) => d.id == id)
  }

  function Replaced(documents: seq<Document>, id: nat, title: Text, text: Text): seq<Document> {
    var i := IndexOfId(documents, id);
    if i == |documents| then documents else documents[i := Document(id, title, text)]
  }

  function Removed(documents: seq<Document>, id: nat): seq<Document> {
    var i := IndexOfId(documents, id);
    if i == |documents| then documents else documents[..i] + documents[i + 1..]
  }

  function IndexOfCollection(collections: seq<Collection>, id: nat): (i: nat)
    ensures i <= |collections|
    ensures i < |collections| ==> collections[i].id == id
    ensures forall j | 0 <= j < i :: collections[j].id != id
  {
    FirstWhere(collections, (c: Collection) => c.id == id)
  }

  function Granted(collections: seq<Collection>, i: nat, permission: Text): seq<Collection>
    requires i < |collections|
  {
    collections[i := collections[i].(permission := Some(permission))]
  }

  /** The collection is there and its members may only read. */
  predicate Ready(collections: seq<Collection>, name: Text) {
    var i := FirstNamed(collections, name);
    i < |collections| && collections[i].permission == Some(READ)
  }

  /** All that ensuring a collection may change: its permission if it exists, else one new collection. */
  ghost predicate EnsureEffect(before: seq<Collection>, after: seq<Collection>, name: Text, id: nat) {
    var i := FirstNamed(before, name);
    || after == before
    || (i < |before| && after == Granted(before, i, READ))
    || (i == |before| && after == before + [Collection(id, name, Some(READ))])
  }

  /** All that creating a document may change: nothing, or one new document. */
  ghost predicate AddedAtMost(before: seq<Document>, id: nat, after: seq<Document>, nextId: nat,
                              title: Text, text: Text)
  {
    || (after == before && nextId == id)
    || (after == before + [Document(id, title, text)] && nextId > id)
  }

  ghost predicate DistinctIds(documents: seq<Document>) {
    forall i, j | 0 <= i < j < |documents| :: documents[i].id != documents[j].id
  }

  ghost predicate UniqueTitles(documents: seq<Document>) {
    forall i, j | 0 <= i < j < |documents| :: documents[i].title != documents[j].title
  }

  /* ---- The server ---- */

  /**
    * One Outline collection list and the documents of one collection. Every
    * request may be lost on the way, or be carried out and then lose its response,
    * unless the server is a reliable one.
    */
  class Server {
    /** Every request is carried out and answered. */
    const reliable: bool
    var collections: seq<Collection>
    var documents: seq<Document>
    var nextId: nat
    /** How many requests to change something were sent. */
    var writes: nat

    ghost predicate Valid()
      reads this
    {
      && DistinctIds(documents)
      && (forall i | 0 <= i < |documents| :: documents[i].id < nextId)
      && (forall i, j | 0 <= i < j < |collections| :: collections[i].id != collections[j].id)
      && (forall i | 0 <= i < |collections| :: collections[i].id < nextId)
    }

    method ListDocuments(offset: nat) returns (r: Result<Page<Document>>)
      ensures r.Ok? ==> r.value == PageOf(Summaries(documents), offset)
      ensures reliable ==> r.Ok?
    {
      var lost: bool := *;
      if lost && !reliable {
        var error: Error := *;
        return Err(error);
      }
      return Ok(PageOf(Summaries(documents), offset));
    }

    method DocumentInfo(id: nat) returns (r: Result<Document>)
      ensures r.Ok? ==> r.value in documents && r.value.id == id
      ensures reliable && IndexOfId(documents, id) < |documents| ==> r.Ok?
    {
      var i := IndexOfId(documents, id);
      var lost: bool := *;
      if (lost && !reliable) || i == |documents| {
        var error: Error := *;
        return Err(error);
      }
      return Ok(documents[i]);
    }

    method CreateDocument(title: Text, text: Text) returns (r: Result<()>)
      requires Valid()
      modifies this
      ensures Valid() && collections == old(collections) && writes == old(writes) + 1
      ensures (documents == old(documents) && nextId == old(nextId))
           || (documents == old(documents) + [Document(old(nextId), title, text)] && nextId == old(nextId) + 1)
      ensures r.Ok? ==> documents != old(documents)
      ensures reliable ==> r.Ok?
    {
      writes := writes + 1;
      var applied: bool := *;
      applied := applied || reliable;
      if applied {
        documents := documents + [Document(nextId, title, text)];
        nextId := nextId + 1;
      }
      r := Reply(applied);
    }

    method UpdateDocument(id: nat, title: Text, text: Text) returns (r: Result<()>)
      requires Valid()
      modifies this
      ensures Valid() && collections == old(collections) && nextId == old(nextId) && writes == old(writes) + 1
      ensures documents == old(documents) || documents == Replaced(old(documents), id, title, text)
      ensures r.Ok? ==>
        documents == Replaced(old(documents), id, title, text) && IndexOfId(old(documents), id) < |documents|
      ensures reliable && IndexOfId(old(documents), id) < |old(documents)| ==> r.Ok?
    {
      writes := writes + 1;
      var applied: bool := *;
      applied := (applied || reliable) && IndexOfId(documents, id) < |documents|;
      if applied {
        documents := Replaced(documents, id, title, text);
      }
      r := Reply(applied);
    }

    method ArchiveDocument(id: nat) returns (r: Result<()>)
      requires Valid()
      modifies this
      ensures Valid() && collections == old(collections) && nextId == old(nextId) && writes == old(writes) + 1
      ensures documents == old(documents) || documents == Removed(old(documents), id)
      ensures r.Ok? ==> documents == Removed(old(documents), id)
      ensures reliable ==> r.Ok?
    {
      writes := writes + 1;
      var applied: bool := *;
      applied := applied || reliable;
      if applied {
        documents := Removed(documents, id);
      }
      r := Reply(applied);
    }

    /** Time passes: the server may list its documents in another order from now on. */
    method Relist()
      requires Valid()
      modifies `documents
      ensures Valid() && forall d :: d in documents <==> d in old(documents)
      ensures UniqueTitles(old(documents)) ==> UniqueTitles(documents)
    {
      var swaps: int := *;
      while swaps > 0
        invariant Valid() && forall d :: d in documents <==> d in old(documents)
        invariant UniqueTitles(old(documents)) ==> UniqueTitles(documents)
      {
        var i: int, j: int := *, *;
        if 0 <= i < |documents| && 0 <= j < |documents| {
          SwapKeeps(documents, i, j);
          documents := documents[i := documents[j]][j := documents[i]];
        }
        swaps := swaps - 1;
      }
    }

    method ListCollections(offset: nat) returns (r: Result<Page<Collection>>)
      ensures r.Ok? ==> r.value == PageOf(collections, offset)
      ensures reliable ==> r.Ok?
    {
      var reply := Reply(true);
      return if reply.Ok? then Ok(PageOf(collections, offset)) else Err(reply.error);
    }

    method CreateCollection(name: Text, permission: Text) returns (r: Result<Collection>)
      requires Valid()
      modifies this
      ensures Valid() && documents == old(documents) && writes == old(writes) + 1
      ensures var created := Collection(old(nextId), name, Some(permission));
        && ((collections == old(collections) && nextId == old(nextId))
            || (collections == old(collections) + [created] && nextId == old(nextId) + 1))
        && (r.Ok? ==> r.value == created && collections != old(collections))
      ensures reliable ==> r.Ok?
    {
      writes := writes + 1;
      var created := Collection(nextId, name, Some(permission));
      var applied: bool := *;
      applied := applied || reliable;
      if applied {
        collections := collections + [created];
        nextId := nextId + 1;
      }
      var reply := Reply(applied);
      return if reply.Ok? then Ok(created) else Err(reply.error);
    }

    method SetPermission(id: nat, permission: Text) returns (r: Result<()>)
      requires Valid()
      modifies this
      ensures Valid() && documents == old(documents) && nextId == old(nextId) && writes == old(writes) + 1
      ensures var i := IndexOfCollection(old(collections), id);
        && (collections == old(collections)
            || (i < |old(collections)| && collections == Granted(old(collections), i, permission)))
        && (r.Ok? ==> i < |old(collections)| && collections == Granted(old(collections), i, permission))
        && (reliable && i < |old(collections)| ==> r.Ok?)
    {
      writes := writes + 1;
      var i := IndexOfCollection(collections, id);
      var applied: bool := *;
      applied := (applied || reliable) && i < |collections|;
      if applied {
        collections := Granted(collections, i, permission);
      }
      r := Reply(applied);
    }

    /** Work that was carried out may still lose its response; work that was not is always an error. */
    method Reply(applied: bool) returns (r: Result<()>)
      ensures r.Ok? ==> applied
      ensures reliable && applied ==> r.Ok?
    {
      var lost: bool := *;
      if (lost && !reliable) || !applied {
        var error: Error := *;
        return Err(error);
      }
      return Ok(());
    }
  }

  /* ---- The client ---- */

  class OutlineSink {
    const server: Server
    /** Every delay slept between attempts. */
    var slept: seq<nat>

    constructor (server: Server)
      ensures this.server == server && slept == []
    {
      this.server := server;
      slept := [];
    }

    method FindCollectionOnce(name: Text) returns (r: Result<Option<Collection>>)
      ensures r.Ok? ==>
        var i := FirstNamed(server.collections, name);
        r.value == if i < |server.collections| then Some(server.collections[i]) else None
      ensures server.reliable ==> r.Ok?
    {
      var offset: nat := 0;
      while true
        invariant forall j | 0 <= j < offset && j < |server.collections| :: server.collections[j].name != name
        decreases |server.collections| - offset
      {
        var response := server.ListCollections(offset);
        if response.Err? {
          return Err(response.error);
        }
        var page := response.value.data;
        assert forall j | offset <= j < offset + |page| :: page[j - offset] == server.collections[j];
        var found := FirstNamed(page, name);
        if found < |page| {
          FirstNamedIs(server.collections, name, offset + found);
          return Ok(Some(page[found]));
        }
        var next := NextOffset(response.value.total, offset);
        if next.None? {
          FirstNamedIs(server.collections, name, |server.collections|);
          return Ok(None);
        }
        offset := next.value;
      }
    }

    method ReadOnlyCollectionOnce(name: Text) returns (r: Result<Option<nat>>)
      requires server.Valid()
      modifies server
      ensures server.Valid() && server.documents == old(server.documents) && server.nextId == old(server.nextId)
      ensures var i := FirstNamed(old(server.collections), name);
        && (server.collections == old(server.collections)
            || (i < |old(server.collections)| && server.collections == Granted(old(server.collections), i, READ)))
        && (r.Ok? && r.value.None? ==> i == |old(server.collections)|)
        && (r.Ok? && r.value.Some? ==> Ready(server.collections, name) && server.collections[i].id == r.value.value)
      ensures server.reliable ==> r.Ok?
      ensures Ready(old(server.collections), name) ==>
        server.writes == old(server.writes) && server.collections == old(server.collections)
      ensures server.writes >= old(server.writes)
      ensures server.writes == old(server.writes) ==> server.collections == old(server.collections)
    {
      var found := FindCollectionOnce(name);
      if found.Err? {
        return Err(found.error);
      }
      if found.value.None? {
        return Ok(None);
      }
      var collection := found.value.value;
      var i := FirstNamed(server.collections, name);
      CollectionIdIs(server.collections, i);
      if collection.permission != Some(READ) {
        var updated := server.SetPermission(collection.id, READ);
        if updated.Err? {
          return Err(updated.error);
        }
      }
      FirstNamedIs(server.collections, name, i);
      return Ok(Some(collection.id));
    }

    method EnsureCollectionOnce(name: Text) returns (r: Result<nat>)
      requires server.Valid()
      modifies server
      ensures server.Valid() && server.documents == old(server.documents)
      ensures EnsureEffect(old(server.collections), server.collections, name, old(server.nextId))
      ensures server.collections == old(server.collections) ==> server.nextId == old(server.nextId)
      ensures r.Ok? ==>
        Ready(server.collections, name) && server.collections[FirstNamed(server.collections, name)].id == r.value
      ensures server.reliable ==> r.Ok?
      ensures Ready(old(server.collections), name) ==>
        server.writes == old(server.writes) && server.collections == old(server.collections)
      ensures server.writes >= old(server.writes)
      ensures server.writes == old(server.writes) ==> server.collections == old(server.collections)
    {
      var existing := ReadOnlyCollectionOnce(name);
      if existing.Err? {
        return Err(existing.error);
      }
      if existing.value.Some? {
        return Ok(existing.value.value);
      }
      var created := server.CreateCollection(name, READ);
      if created.Ok? {
        FirstNamedIs(server.collections, name, |server.collections| - 1);
        return Ok(created.value.id);
      }
      var error := created.error;
      if !error.Http? || ServerBusy(error.status) {
        return Err(error);
      }
      if server.collections != old(server.collections) {
        FirstNamedIs(server.collections, name, |server.collections| - 1);
      }
      var reconciled := ReadOnlyCollectionOnce(name);
      if reconciled.Err? {
        return Err(reconciled.error);
      }
      if reconciled.value.Some? {
        return Ok(reconciled.value.value);
      }
      return Err(error);
    }

    /** However responses are lost, at most one collection is added, and success leaves one that is read-only. */
    method EnsureCollection(name: Text) returns (r: Result<nat>)
      requires server.Valid()
      modifies server, `slept
      ensures server.Valid() && server.documents == old(server.documents)
      ensures EnsureEffect(old(server.collections), server.collections, name, old(server.nextId))
      ensures r.Ok? ==>
        Ready(server.collections, name) && server.collections[FirstNamed(server.collections, name)].id == r.value
      ensures server.reliable ==> r.Ok?
      ensures Ready(old(server.collections), name) ==>
        server.writes == old(server.writes) && server.collections == old(server.collections)
      ensures server.writes >= old(server.writes)
      ensures server.writes == old(server.writes) ==> server.collections == old(server.collections)
      ensures GaveUpRightly(r, old(slept), slept)
    {
      var attempt: nat := 0;
      while true
        invariant attempt < ATTEMPTS && slept == old(slept) + DELAYS[..attempt]
        invariant server.Valid() && server.documents == old(server.documents)
        invariant EnsureEffect(old(server.collections), server.collections, name, old(server.nextId))
        invariant server.collections == old(server.collections) ==> server.nextId == old(server.nextId)
        invariant Ready(old(server.collections), name) ==>
          server.writes == old(server.writes) && server.collections == old(server.collections)
        invariant server.writes >= old(server.writes)
        invariant server.writes == old(server.writes) ==> server.collections == old(server.collections)
        decreases ATTEMPTS - attempt
      {
        ghost var before, id := server.collections, server.nextId;
        r := EnsureCollectionOnce(name);
        EnsureTwice(old(server.collections), before, server.collections, name, old(server.nextId), id);
        if r.Ok? {
          return;
        }
        var delay := RetryDelay(attempt, r.error);
        if delay.None? {
          return;
        }
        slept := slept + [delay.value];
        attempt := attempt + 1;
      }
    }

    /** The paged search finds the first document of the title if the collection has one. */
    method FindDocumentByTitleOnce(title: Text) returns (r: Result<Option<Document>>)
      ensures r.Ok? ==>
        var i := FirstTitled(server.documents, title);
        r.value == if i < |server.documents| then Some(Summary(server.documents[i])) else None
      ensures server.reliable ==> r.Ok?
    {
      var offset: nat := 0;
      while true
        invariant NoneTitledBefore(server.documents, title, offset)
        decreases |server.documents| - offset
      {
        var response := server.ListDocuments(offset);
        if response.Err? {
          return Err(response.error);
        }
        var page := response.value.data;
        PageSearched(server.documents, title, offset);
        var match_ := FirstTitled(page, title);
        if match_ < |page| {
          return Ok(Some(page[match_]));
        }
        var next := NextOffset(response.value.total, offset);
        if next.None? {
          return Ok(None);
        }
        offset := next.value;
      }
    }

    /** One attempt: a retry first looks for what an earlier attempt may have left. */
    method CreateDocumentOnce(title: Text, text: Text, retrying: bool) returns (r: Result<()>)
      requires server.Valid()
      modifies server
      ensures server.Valid() && server.collections == old(server.collections)
      ensures AddedAtMost(old(server.documents), old(server.nextId), server.documents, server.nextId, title, text)
      ensures retrying && FirstTitled(old(server.documents), title) < |old(server.documents)| ==>
        server.documents == old(server.documents) && server.nextId == old(server.nextId)
      ensures server.writes >= old(server.writes) && (!retrying ==> server.writes > old(server.writes))
      ensures r.Ok? ==> FirstTitled(server.documents, title) < |server.documents|
      ensures r.Ok? && server.documents == old(server.documents) ==>
        FirstTitled(old(server.documents), title) < |old(server.documents)|
      ensures server.reliable ==> r.Ok?
    {
      AppendedIsFound(server.documents, Document(server.nextId, title, text));
      if retrying {
        var found := FindDocumentByTitleOnce(title);
        if found.Err? {
          return Err(found.error);
        }
        if found.value.Some? {
          return Ok(());
        }
      }
      r := server.CreateDocument(title, text);
    }

    /** At most one document is ever added; success means the title is there. */
    method CreateDocument(title: Text, text: Text) returns (r: Result<()>)
      requires server.Valid()
      modifies server, `slept
      ensures server.Valid() && server.collections == old(server.collections)
      ensures AddedAtMost(old(server.documents), old(server.nextId), server.documents, server.nextId, title, text)
      ensures server.writes > old(server.writes)
      ensures r.Ok? ==> FirstTitled(server.documents, title) < |server.documents|
      ensures r.Ok? && FirstTitled(old(server.documents), title) == |old(server.documents)| ==>
        server.documents == old(server.documents) + [Document(old(server.nextId), title, text)]
      ensures server.reliable ==> r.Ok?
      ensures GaveUpRightly(r, old(slept), slept)
    {
      var attempt: nat := 0;
      ghost var created := Document(server.nextId, title, text);
      AppendedIsFound(server.documents, created);
      while true
        invariant attempt < ATTEMPTS && slept == old(slept) + DELAYS[..attempt]
        invariant server.Valid() && server.collections == old(server.collections)
        invariant server.writes >= old(server.writes) && (attempt > 0 ==> server.writes > old(server.writes))
        invariant AddedAtMost(old(server.documents), old(server.nextId), server.documents, server.nextId, title, text)
        invariant attempt == 0 ==> server.documents == old(server.documents)
        decreases ATTEMPTS - attempt
      {
        r := CreateDocumentOnce(title, text, attempt > 0);
        if r.Ok? {
          return;
        }
        var delay := RetryDelay(attempt, r.error);
        if delay.None? {
          return;
        }
        slept := slept + [delay.value];
        attempt := attempt + 1;
      }
    }

    method RetriedPage(offset: nat) returns (r: Result<Page<Document>>)
      modifies `slept
      ensures r.Ok? ==> r.value == PageOf(Summaries(server.documents), offset)
      ensures server.reliable ==> r.Ok?
      ensures GaveUpRightly(r, old(slept), slept)
    {
      var attempt: nat := 0;
      while true
        invariant attempt < ATTEMPTS && slept == old(slept) + DELAYS[..attempt]
        decreases ATTEMPTS - attempt
      {
        r := server.ListDocuments(offset);
        if r.Ok? {
          return;
        }
        var delay := RetryDelay(attempt, r.error);
        if delay.None? {
          return;
        }
        slept := slept + [delay.value];
        attempt := attempt + 1;
      }
    }

    method RetriedInfo(id: nat) returns (r: Result<Document>)
      modifies `slept
      ensures r.Ok? ==> r.value in server.documents && r.value.id == id
      ensures server.reliable && IndexOfId(server.documents, id) < |server.documents| ==> r.Ok?
      ensures GaveUpRightly(r, old(slept), slept)
    {
      var attempt: nat := 0;
      while true
        invariant attempt < ATTEMPTS && slept == old(slept) + DELAYS[..attempt]
        decreases ATTEMPTS - attempt
      {
        r := server.DocumentInfo(id);
        if r.Ok? {
          return;
        }
        var delay := RetryDelay(attempt, r.error);
        if delay.None? {
          return;
        }
        slept := slept + [delay.value];
        attempt := attempt + 1;
      }
    }

    /** A successful listing is complete and in server order, with the text of every possible source page. */
    method ListDocuments() returns (r: Result<seq<Document>>)
      requires server.Valid()
      modifies `slept
      ensures r.Ok? ==> r.value == Listed(server.documents)
      ensures server.reliable ==> r.Ok?
    {
      var summaries: seq<Document> := [];
      var offset: nat := 0;
      while true
        invariant summaries == FirstSummaries(server.documents, offset)
        decreases |server.documents| - offset
      {
        var response := RetriedPage(offset);
        if response.Err? {
          return Err(response.error);
        }
        PageFollows(server.documents, offset);
        summaries := summaries + response.value.data;
        var next := NextOffset(response.value.total, offset);
        if next.None? {
          break;
        }
        offset := next.value;
      }

      var documents: seq<Document> := [];
      for i := 0 to |summaries|
        invariant documents == Listed(server.documents)[..i]
      {
        var summary := summaries[i];
        if !IsDocSourcePath(summary.title) {
          ListedNext(server.documents, i, summary);
          documents := documents + [summary];
          continue;
        }
        HasOwnId(server.documents, i);
        var full := RetriedInfo(summary.id);
        if full.Err? {
          return Err(full.error);
        }
        if full.value.id != summary.id || full.value.title != summary.title {
          return Err(Other);
        }
        ListedNext(server.documents, i, full.value);
        documents := documents + [full.value];
      }
      assert Listed(server.documents)[..|summaries|] == Listed(server.documents);
      return Ok(documents);
    }

    /** Retried updates are idempotent: the document is as before or as asked, and as asked on success. */
    method UpdateDocument(id: nat, title: Text, text: Text) returns (r: Result<()>)
      requires server.Valid()
      modifies server, `slept
      ensures server.Valid() && server.collections == old(server.collections) && server.nextId == old(server.nextId)
      ensures server.documents == old(server.documents)
           || server.documents == Replaced(old(server.documents), id, title, text)
      ensures r.Ok? ==> server.documents == Replaced(old(server.documents), id, title, text)
      ensures server.reliable && IndexOfId(old(server.documents), id) < |old(server.documents)| ==> r.Ok?
      ensures server.writes > old(server.writes)
      ensures GaveUpRightly(r, old(slept), slept)
    {
      var attempt: nat := 0;
      while true
        invariant attempt < ATTEMPTS && slept == old(slept) + DELAYS[..attempt]
        invariant server.Valid() && server.collections == old(server.collections) && server.nextId == old(server.nextId)
        invariant server.documents == old(server.documents)
               || server.documents == Replaced(old(server.documents), id, title, text)
        invariant server.writes >= old(server.writes) + attempt
        decreases ATTEMPTS - attempt
      {
        r := server.UpdateDocument(id, title, text);
        ReplacedTwice(old(server.documents), id, title, text);
        if r.Ok? {
          return;
        }
        var delay := RetryDelay(attempt, r.error);
        if delay.None? {
          return;
        }
        slept := slept + [delay.value];
        attempt := attempt + 1;
      }
    }

    method ArchiveDocument(id: nat) returns (r: Result<()>)
      requires server.Valid()
      modifies server, `slept
      ensures server.Valid() && server.collections == old(server.collections)
      ensures server.documents == old(server.documents) || server.documents == Removed(old(server.documents), id)
      ensures r.Ok? ==> server.documents == Removed(old(server.documents), id)
      ensures server.reliable ==> r.Ok?
      ensures server.writes > old(server.writes)
      ensures GaveUpRightly(r, old(slept), slept)
    {
      var attempt: nat := 0;
      ghost var before := server.documents;
      RemovedTwice(before, id);
      while true
        invariant attempt < ATTEMPTS && slept == old(slept) + DELAYS[..attempt]
        invariant server.Valid() && server.collections == old(server.collections)
        invariant server.documents == before || server.documents == Removed(before, id)
        invariant server.writes >= old(server.writes) + attempt
        decreases ATTEMPTS - attempt
      {
        r := server.ArchiveDocument(id);
        if r.Ok? {
          return;
        }
        var delay := RetryDelay(attempt, r.error);
        if delay.None? {
          return;
        }
        slept := slept + [delay.value];
        attempt := attempt + 1;
      }
    }
  }

  lemma SwapKeeps(documents: seq<Document>, i: nat, j: nat)
    requires i < |documents| && j < |documents|
    ensures var after := documents[i := documents[j]][j := documents[i]];
      && (forall d :: d in after <==> d in documents)
      && (DistinctIds(documents) ==> DistinctIds(after))
      && (UniqueTitles(documents) ==> UniqueTitles(after))
  {
    var after := documents[i := documents[j]][j := documents[i]];
    assert after[i] == documents[j] && after[j] == documents[i];
    forall d ensures d in after <==> d in documents {
      if k :| 0 <= k < |documents| && documents[k] == d {
        assert after[if k == i then j else if k == j then i else k] == d;
      }
    }
  }

  /** Ensuring again changes nothing that ensuring once might not have. */
  lemma EnsureTwice(a: seq<Collection>, b: seq<Collection>, c: seq<Collection>, name: Text, id: nat, later: nat)
    requires EnsureEffect(a, b, name, id) && EnsureEffect(b, c, name, later)
    requires a == b ==> later == id
    ensures EnsureEffect(a, c, name, id)
    ensures a == c ==> a == b || c == b
  {
    var i := FirstNamed(a, name);
    if b != a {
      FirstNamedIs(b, name, i);
    }
  }

  /** The summaries before an offset, or all of them. */
  function FirstSummaries(documents: seq<Document>, offset: nat): seq<Document> {
    if offset < |documents| then Summaries(documents)[..offset] else Summaries(documents)
  }

  lemma PageFollows(documents: seq<Document>, offset: nat)
    ensures FirstSummaries(documents, offset) + PageOf(Summaries(documents), offset).data
         == FirstSummaries(documents, offset + PAGE_LIMIT)
  {
  }

  lemma HasOwnId(documents: seq<Document>, i: nat)
    requires i < |documents| && DistinctIds(documents)
    ensures IndexOfId(documents, documents[i].id) < |documents|
    ensures forall d | d in documents && d.id == documents[i].id :: d == documents[i]
  {
  }

  lemma ListedNext(documents: seq<Document>, i: nat, d: Document)
    requires i < |documents| && DistinctIds(documents)
    requires if IsDocSourcePath(documents[i].title) then d in documents && d.id == documents[i].id
             else d == Summary(documents[i])
    ensures Listed(documents)[..i] + [d] == Listed(documents)[..i + 1]
  {
  }

  ghost predicate NoneTitledBefore(documents: seq<Document>, title: Text, n: nat) {
    forall j | 0 <= j < n && j < |documents| :: documents[j].title != title
  }

  lemma SummaryOnPage(documents: seq<Document>, offset: nat, j: nat)
    requires offset <= j < |documents| && j < offset + PAGE_LIMIT
    ensures var page := PageOf(Summaries(documents), offset).data;
      j - offset < |page| && page[j - offset] == Summary(documents[j])
  {
  }

  /** Searching one page finds the first document of the title, or takes the search past the page. */
  lemma PageSearched(documents: seq<Document>, title: Text, offset: nat)
    requires NoneTitledBefore(documents, title, offset)
    ensures var page := PageOf(Summaries(documents), offset).data;
      var match_ := FirstTitled(page, title);
      if match_ < |page| then
        var i := FirstTitled(documents, title);
        i < |documents| && page[match_] == Summary(documents[i])
      else
        && NoneTitledBefore(documents, title, offset + PAGE_LIMIT)
        && (offset + PAGE_LIMIT >= |documents| ==> FirstTitled(documents, title) == |documents|)
  {
    var page := PageOf(Summaries(documents), offset).data;
    var match_ := FirstTitled(page, title);
    if match_ < |page| {
      forall j | offset <= j < offset + match_ ensures documents[j].title != title {
        SummaryOnPage(documents, offset, j);
      }
      SummaryOnPage(documents, offset, offset + match_);
      FirstTitledIs(documents, title, offset + match_);
    } else {
      forall j | offset <= j < offset + PAGE_LIMIT && j < |documents| ensures documents[j].title != title {
        SummaryOnPage(documents, offset, j);
      }
    }
  }

  lemma AppendedIsFound(documents: seq<Document>, d: Document)
    ensures FirstTitled(documents + [d], d.title) < |documents| + 1
  {
    assert (documents + [d])[|documents|] == d;
  }

  lemma FirstTitledIs(documents: seq<Document>, title: Text, i: nat)
    requires i <= |documents| && forall j | 0 <= j < i :: documents[j].title != title
    requires i < |documents| ==> documents[i].title == title
    ensures FirstTitled(documents, title) == i
  {
  }

  lemma FirstNamedIs(collections: seq<Collection>, name: Text, i: nat)
    requires i <= |collections| && forall j | 0 <= j < i :: collections[j].name != name
    requires i < |collections| ==> collections[i].name == name
    ensures FirstNamed(collections, name) == i
  {
  }

  lemma CollectionIdIs(collections: seq<Collection>, i: nat)
    requires forall j, k | 0 <= j < k < |collections| :: collections[j].id != collections[k].id
    ensures i < |collections| ==> IndexOfCollection(collections, collections[i].id) == i
  {
  }

  lemma IndexOfIdIs(documents: seq<Document>, id: nat, i: nat)
    requires i <= |documents| && forall j | 0 <= j < i :: documents[j].id != id
    requires i < |documents| ==> documents[i].id == id
    ensures IndexOfId(documents, id) == i
  {
  }

  lemma {:induction false} ReplacedTwice(documents: seq<Document>, id: nat, title: Text, text: Text)
    ensures var once := Replaced(documents, id, title, text); Replaced(once, id, title, text) == once
  {
    IndexOfIdIs(Replaced(documents, id, title, text), id, IndexOfId(documents, id));
  }

  lemma {:induction false} RemovedTwice(documents: seq<Document>, id: nat)
    requires DistinctIds(documents)
    ensures var once := Removed(documents, id); Removed(once, id) == once
  {
    var once := Removed(documents, id);
    IndexOfIdIs(once, id, |once|);
  }
}
