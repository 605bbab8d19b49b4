# A verified model of the task board

This project models the parts of the task board whose behaviour ranges over all inputs or all runs, and
proves what they are for. Each file is one module and follows one part of the program:

| module | part of the program |
|---|---|
| `Text` | JavaScript strings as sequences of 16-bit code units, with the string operations the other modules use |
| `Sse` | the incremental server-sent-event parser of the web client, and the server's frame writer |
| `RefreshCoordinator`, `RefreshAnswers`, `SnapshotCommit`, `BoardRefresh` | the two coordinators behind a board refresh, what the first owes its callers, and the two wired together |
| `DetailLoad` | loading one work item's detail after another |
| `Banner`, `Outline`, `Publish` | mirroring a repository's documents into Outline over a lossy network |
| `TaskLane`, `TaskFleet` | one supervised worker lane, and the fleet that creates and closes workers |
| `ActivityBuffer`, `ActivityChannel`, `CredentialMarkers` | dedupe and rate limit, the bounded activity queue, and shortening redacted text |
| `JsonReader`, `CanonicalJson` | a reader of JSON texts after RFC 8259, and the canonical printer that it reads back |
| `Routing`, `Sections` | the other printers and parsers with a canonical form |
| `WorkItemTree` | the projection of the flat work-item list into rows |
| `Scope`, `PlanChildren` | declared scopes, and the order and separation of a plan's children |

Code that computes a value is a function. Code that changes fields is a class whose methods are proved
against a step function on the class's state; the theorems are about every run of that step function. Code
between two awaits is one step, and what happens meanwhile (an answer, an abort, another call) is another event.

Text is `seq<CodeUnit>` with `CodeUnit` an integer below 0x10000, because lengths, limits and surrogates are
counted in UTF-16 code units. An exception is an error value. Anything random, timed or remote is a parameter
or a nondeterministic choice: in particular the `Outline.Server` may refuse a request, or carry it out and then
lose the response, unless it is a reliable one.

Where the code falls short of what one would expect of it, the model keeps the code, a lemma names an input,
and another result gives the exact condition:

- A mirrored page is recognised as up to date exactly if no mark of another blob comes first in its repository
  name and path (`Banner.ReadsUpToDateIffGenuine`). For the path `docs/ @ blob 000000000000.md`, which the publisher
  enumerates (`Publish.CounterfeitIsEnumerated`), and any repository name without a mark, the page never is
  (`Banner.CounterfeitIsNotGenuine`), so its mirror never rests (`Publish.CounterfeitNeverRests`).
- Canonical JSON ignores the order of keys exactly when the key comparison never ties two distinct keys
  (`CanonicalJson.OrderBlindIffNoTies`, with the two objects in `CanonicalJson.TieShowsOrder`); a locale
  comparison may tie canonically equivalent strings.
- A hash route is canonical after one rewrite exactly when the raw text of its id is well-formed UTF-16
  (`Routing.CanonicalAfterOneStep`); two rewrites always do (`Routing.CanonicalAfterTwoSteps`). The input is
  `#/agent/` and a lone surrogate (`Routing.LoneSurrogateMovesTwice`). This is about `hashToPage` on an arbitrary
  JavaScript string; whether a browser hands out such a hash is not part of this model.
- Sections read back from their own rendering exactly when no name ends in CR (`Sections.RenderedReadsBack`).
  The input is a header that ends in CR CR LF (`Sections.NameEndingInCrIsLost`), under a name rule that accepts
  CR; no caller in the repository passes such a rule, and for rules that exclude CR the round trip always holds
  (`Sections.RuleWithoutCrReadsBack`).
- A redacted text fits the length asked for unless its markers alone are longer
  (`CredentialMarkers.FitCredentialMarkers`). The input is a text that already holds a marker, and then a 20-unit
  AWS access key (`CredentialMarkers.ShortCredentialOverruns`): 42 units become 44.

That a second run writes nothing after a clean first one also needs the server to list a title's documents as
before: it holds when titles are unique, or when the listing order stayed (`Publish.PublishTwice`). Two documents
of one title are in sync in one order and not in the other (`Publish.OrderTellsForDuplicates`).

## Model

| member | source | states |
|---|---|---|
| `Sse.BoundaryIndex` | src/web/data/sse.ts:15 | the leftmost place where two line ends, each LF or CR LF, follow each other |
| `Sse.BoundariesAreLineEnds` | src/web/data/sse.ts:15 | a boundary is two line ends one after the other, each LF or CR LF |
| `Sse.LinesEnd` | src/web/data/sse.ts:22 | a line ends at LF and loses the CR before it |
| `Sse.ParseEvent` | src/web/data/sse.ts:18-33 | the event of a frame is its last `event`, its last `id` and all its `data` lines joined by LF |
| `Sse.EventsTakeFields` | src/web/data/sse.ts:18-33 | an event takes the fields `event`, `id` and `data`, and is a `message` without id and data if there are none |
| `Sse.LinesSay` | src/web/data/sse.ts:22-28 | a comment or an empty line says nothing, a name alone has an empty value, and one leading space is dropped |
| `Sse.SseFrameParser.Push` | src/web/data/sse.ts:56-70 | the events, the kept text and the verdict of one chunk; an accepted chunk leaves at most the limit plus three units |
| `Sse.SseFrameParser.Finish` | src/web/data/sse.ts:72-78 | the last, unterminated block is dispatched or refused, once |
| `Sse.SseFrameParser.Dispatch` | src/web/data/sse.ts:80-83 | a frame over the limit is refused, a blank one is silent |
| `Sse.BoundaryIsStable` | src/web/data/sse.ts:56-65 | a boundary already visible stays the leftmost whatever text follows |
| `Sse.LateBoundaryStartsInHeldBack` | src/web/data/sse.ts:35-37 | a boundary completed by later text starts inside the held-back suffix |
| `Sse.OversizeIsFinal` | src/web/data/sse.ts:66-69 | text over the limit without its held-back suffix fails however it goes on |
| `Sse.DrainGoesOn` | src/web/data/sse.ts:56-65 | draining a longer text continues where draining its beginning stopped |
| `Sse.TotalIsStream` | src/web/data/sse.ts:56-83 | draining and finishing is the one-shot reading of the whole text |
| `Sse.SessionIsStream` | src/web/data/sse.ts:39-84 | every way of cutting a text into chunks emits the same events and fails or succeeds alike |
| `Sse.Subscribe` | src/web/data/client/projects.ts:149-157 | the subscription loop delivers the one-shot reading of what it received |
| `Sse.WorkflowIsWritable` | src/server/task-board/service.ts:878 | the number, name and printed JSON of every event the stream writes each fit on one line |
| `Sse.EventIsWritten` | src/server/task-board/service.ts:878 | the text of one event, as it is written |
| `Sse.WorkflowsAreRead` | src/server/task-board/service.ts:876-880 | any list of events the stream writes, cut anywhere, reads back exactly as (event, id, data), up to the first frame over the limit |
| `Sse.DataReadsAsEvent` | src/server/task-board/service.ts:878 | the data of an event reads as an object whose one field `event` is the event, and nothing after it |
| `Sse.DataTellsEvent` | src/server/task-board/service.ts:878 | equal data comes only from events that are equal up to key order |
| `CanonicalJson.CanonicalHasNoControls` | src/server/task-board/service.ts:878 | printed JSON holds no control character, so no CR or LF |
| `CanonicalJson.CreationOrderStays` | src/server/task-board/service.ts:878 | printing without sorting is printing in the order in which everything is level |
| `RefreshCoordinator.ReadsNeverOverlap` | src/web/model/refresh-coordinator.ts:134-145 | in every run unsettled reads of the current generation are the registered one |
| `RefreshCoordinator.OneUnsettledReadPerGeneration` | src/web/model/refresh-coordinator.ts:96-145 | no two reads of one generation are unsettled at once |
| `RefreshCoordinator.StartsAreCurrentAndAlone` | src/web/model/refresh-coordinator.ts:96-145 | a read starts only while active, for the current generation, with no read registered; a poll never starts beside one |
| `RefreshCoordinator.MutationReadsAreFifo` | src/web/model/refresh-coordinator.ts:109-118 | mutation calls of a generation read in call order, each after the earlier ones settled |
| `RefreshCoordinator.MutationReadsAreNotShared` | src/web/model/refresh-coordinator.ts:109-118 | no two mutation calls share a read |
| `RefreshCoordinator.MutationTrueHasLaterRead` | src/web/model/refresh-coordinator.ts:68-74 | a mutation that resolves true had its own read, started after the call, that settled true |
| `RefreshCoordinator.MutationsHold` | src/web/model/refresh-coordinator.ts:109-118 | the queue of mutation calls keeps its chain, order and reads in every run |
| `RefreshCoordinator.BehindCall` | src/web/model/refresh-coordinator.ts:109-118 | behind every unresolved call, in every reachable state, a read can settle or a call can resume: no deadlock |
| `RefreshCoordinator.CallCanResolve` | src/web/model/refresh-coordinator.ts:109-145 | from every reachable state, any call is resolved by some finite run of settling reads and resuming calls alone |
| `RefreshCoordinator.LoadingAlternates` | src/web/model/refresh-coordinator.ts:121-155 | loading callbacks alternate, true first, and the last says whether anyone waits |
| `RefreshAnswers.MutationReadsUnlessSuperseded` | src/web/model/refresh-coordinator.ts:109-113 | a mutation resolves false without a read of its own only after a disposal or an activation that followed its call |
| `RefreshAnswers.RejectionWasAwaited` | src/web/model/refresh-coordinator.ts:109-113 | a mutation that rejects without a read of its own had awaited another read that rejected |
| `RefreshAnswers.AwaitedRejectionRejects` | src/web/model/refresh-coordinator.ts:109-113 | awaiting a read that rejects always rejects the mutation |
| `RefreshAnswers.MutationWaitsForRegistered` | src/web/model/refresh-coordinator.ts:110-112 | a mutation that resumes waits only for the registered read, and with none registered it reads or resolves |
| `RefreshAnswers.CallReads` | src/web/model/refresh-coordinator.ts:96-107 | an active poll or foreground call with nothing registered starts exactly one read and registers it |
| `RefreshAnswers.ForegroundWaits` | src/web/model/refresh-coordinator.ts:105-107 | an active foreground call joins the registered read, starts none beside it, and turns loading on |
| `RefreshAnswers.MutationQueues` | src/web/model/refresh-coordinator.ts:109-118 | an active mutation call is queued for the generation of the call and starts nothing yet |
| `RefreshAnswers.NothingToRefresh` | src/web/model/refresh-coordinator.ts:96-102 | calls on an inactive coordinator and polls beside a registered read change nothing |
| `RefreshAnswers.GenerationsAreTurns` | src/web/model/refresh-coordinator.ts:90-132 | whether the coordinator is active, and its generation, follow from the activations and disposals of the run alone |
| `RefreshAnswers.ReadSettlesAsOperation` | src/web/model/refresh-coordinator.ts:138-142 | a read settles as its operation did, for good |
| `RefreshAnswers.ReadIsLetGo` | src/web/model/refresh-coordinator.ts:139-142 | the `finally` of a read unregisters it and no other |
| `RefreshAnswers.WaitersAreUnsettled` | src/web/model/refresh-coordinator.ts:121-155 | those who wait are the foreground calls since the last disposal that have not settled |
| `RefreshAnswers.ForegroundIsAnswered` | src/web/model/refresh-coordinator.ts:147-154 | a foreground call is answered only once its read is done, and then waits no more |
| `RefreshAnswers.LoadingIsReportedOnChange` | src/web/model/refresh-coordinator.ts:121-155 | loading is reported exactly when the first caller starts to wait or the last one stops |
| `RefreshAnswers.DisposalAborts` | src/web/model/refresh-coordinator.ts:121-127 | a disposal aborts the registered read and leaves none registered |
| `RefreshAnswers.AbortHasDisposal` | src/web/model/refresh-coordinator.ts:121-127 | a read is aborted only by a disposal while it was registered |
| `RefreshCoordinator.BoardRefreshCoordinator.Activate` | src/web/model/refresh-coordinator.ts:90-94 | is the activation step of the state machine |
| `RefreshCoordinator.BoardRefreshCoordinator.Refresh` | src/web/model/refresh-coordinator.ts:96-119 | is the refresh step, and which promise each kind of call gets |
| `RefreshCoordinator.BoardRefreshCoordinator.Dispose` | src/web/model/refresh-coordinator.ts:121-132 | is the disposal step: reads abandoned, waiters told once |
| `RefreshCoordinator.BoardRefreshCoordinator.StartRead` | src/web/model/refresh-coordinator.ts:134-145 | starts one read and registers it if it is current |
| `RefreshCoordinator.BoardRefreshCoordinator.ReadSettled` | src/web/model/refresh-coordinator.ts:139-142 | a read's `finally` unregisters that read and no other |
| `RefreshCoordinator.BoardRefreshCoordinator.Track` | src/web/model/refresh-coordinator.ts:147-151 | a foreground waiter joins a read, and the first turns loading on |
| `RefreshCoordinator.BoardRefreshCoordinator.ForegroundSettled` | src/web/model/refresh-coordinator.ts:151-154 | the last waiter to leave turns loading off |
| `RefreshCoordinator.BoardRefreshCoordinator.ResumeCall` | src/web/model/refresh-coordinator.ts:109-113 | a queued mutation goes on waiting, gives up, or reads |
| `SnapshotCommit.PromisesResolveOnce` | src/web/model/refresh-coordinator.ts:32-66 | every commit promise is resolved once unless it is the pending one, and then not yet |
| `SnapshotCommit.ResolutionHasCause` | src/web/model/refresh-coordinator.ts:35-65 | true only from an acknowledgement of that very snapshot while pending; false only if superseded, aborted or drained |
| `SnapshotCommit.StepResolves` | src/web/model/refresh-coordinator.ts:35-65 | which step resolves which commit, and how |
| `SnapshotCommit.PendingWaits` | src/web/model/refresh-coordinator.ts:35-65 | told from the events alone: the pending commit is the last request that was not aborted, superseded, acknowledged or drained, and it alone is unresolved |
| `SnapshotCommit.AcknowledgementCommits` | src/web/model/refresh-coordinator.ts:51-54 | acknowledging the snapshot that waits resolves its commit as true |
| `SnapshotCommit.SnapshotCommitCoordinator.Commit` | src/web/model/refresh-coordinator.ts:35-49 | is the commit step: refused if aborted, else supersedes the pending commit |
| `SnapshotCommit.SnapshotCommitCoordinator.Acknowledge` | src/web/model/refresh-coordinator.ts:51-54 | resolves the pending commit of that snapshot as committed |
| `SnapshotCommit.SnapshotCommitCoordinator.Drain` | src/web/model/refresh-coordinator.ts:56-58 | resolves the pending commit as not committed |
| `SnapshotCommit.SnapshotCommitCoordinator.Settle` | src/web/model/refresh-coordinator.ts:60-65 | unregisters and resolves one commit |
| `SnapshotCommit.SnapshotCommitCoordinator.SignalAborts` | src/web/model/refresh-coordinator.ts:42-46 | an abort settles the commit that listens to the signal |
| `BoardRefresh.RunsAreWired` | src/web/BoardApp.tsx:150-174 | in every run of both coordinators a read that settled true committed under its own signal |
| `BoardRefresh.ReadCommits` | src/web/BoardApp.tsx:150-174 | in every run, a read whose snapshot arrives, is rendered and acknowledged returns true, unless its signal was aborted |
| `BoardRefresh.ReadGivesUp` | src/web/BoardApp.tsx:150-174 | a read whose fetch fails, or whose commit was resolved false, settles as not committed |
| `BoardRefresh.DisposalReachesCommits` | src/web/model/refresh-coordinator.ts:121-127 | a disposal aborts the signal of the registered read, so that its commit is given up |
| `BoardRefresh.DeadlineReachesCommits` | src/web/model/refresh-coordinator.ts:137 | a deadline aborts the signal of its read |
| `BoardRefresh.UnmountReachesCommits` | src/web/model/refresh-coordinator.ts:56-58 | an unmount drains the pending commit |
| `BoardRefresh.MutationTrueWasAcknowledged` | src/web/BoardApp.tsx:279-308 | a mutation refresh that resolves true had a snapshot, read after the call, acknowledged while pending |
| `DetailLoad.StaleIffSuperseded` | src/web/BoardApp.tsx:118-147 | in every run a load is reported stale exactly when the last intent was another load or an invalidation |
| `DetailLoad.OneReadRuns` | src/web/BoardApp.tsx:118-143 | the unaborted read is the one last wanted |
| `DetailLoad.LoadedIsRequested` | src/web/BoardApp.tsx:127-131 | a detail is only reported for the id that was asked for |
| `DetailLoad.WantedIsAnswered` | src/web/BoardApp.tsx:126-136 | the load last wanted is answered as loaded, as failed for another id or another error, or as not found for a 404 |
| `DetailLoad.AnswersStand` | src/web/BoardApp.tsx:126-136 | an answer once given stays |
| `DetailLoad.WorkItemDetailLoadCoordinator.Begin` | src/web/BoardApp.tsx:118-125 | a load aborts the one before and starts a generation |
| `DetailLoad.WorkItemDetailLoadCoordinator.Answer` | src/web/BoardApp.tsx:126-136 | how each answer of a read is reported |
| `DetailLoad.WorkItemDetailLoadCoordinator.Invalidate` | src/web/BoardApp.tsx:139-143 | an invalidation aborts the current load and leaves none |
| `Banner.BannerReadsFirstMark` | src/server/docs-publish/publish.ts:54-56 | the digits read back from a page are the first mark in its origin, or its own blob's if there is none |
| `Banner.ReadsUpToDateIffGenuine` | src/server/docs-publish/banner.ts:5-7 | a page reads as its own blob exactly when its name and path do not counterfeit another |
| `Banner.CounterfeitIsNotGenuine` | src/server/docs-publish/publish.ts:19 | under any repository name, the page of a concrete path reads as its own blob exactly if the name holds a first mark of that blob |
| `Banner.PageIsBannerAndDocument` | src/server/docs-publish/banner.ts:5-7 | a page is its banner, which does not depend on the document and ends in an empty line, and then the whole document |
| `Banner.ObjectIdsAre` | src/server/shared/git.ts:202 | a blob's id is 40 or 64 lower-case hexadecimal digits, and every such text is one |
| `Banner.MarksAre` | src/server/docs-publish/publish.ts:19 | a mark is " @ blob ", twelve lower-case hexadecimal digits and a full stop |
| `Outline.RetryDelay` | src/server/docs-publish/retry.ts:41-56 | a retryable error waits one second after the first attempt and eight after the second; any other error, and the third attempt, give up |
| `Outline.SourcePathsAre` | src/server/docs-publish/enumerate.ts:27-29 | source paths are the README.md of the root and the Markdown files under docs |
| `Outline.OutlineSink.FindCollectionOnce` | src/server/docs-publish/outline-sink.ts:121-136 | the paged search visits every collection: it finds the first of the name, or there is none |
| `Outline.OutlineSink.ReadOnlyCollectionOnce` | src/server/docs-publish/outline-sink.ts:138-145 | success with a collection means it is there and read-only |
| `Outline.OutlineSink.EnsureCollectionOnce` | src/server/docs-publish/outline-sink.ts:147-169 | one attempt adds at most one collection; success leaves one that is read-only |
| `Outline.OutlineSink.EnsureCollection` | src/server/docs-publish/outline-sink.ts:171-174 | so do all its retries together, however responses are lost |
| `Outline.EnsureTwice` | src/server/docs-publish/outline-sink.ts:147-174 | ensuring after an ensuring whose answer was lost adds nothing |
| `Outline.OutlineSink.FindDocumentByTitleOnce` | src/server/docs-publish/outline-sink.ts:176-194 | the paged search visits every document: it finds the first of the title, or there is none |
| `Outline.PageSearched` | src/server/docs-publish/outline-sink.ts:186-191 | searching one page finds the first document of the title, or takes the search past the page |
| `Outline.OutlineSink.CreateDocumentOnce` | src/server/docs-publish/outline-sink.ts:198-207 | one attempt adds at most one document, and a retry none if an earlier attempt left it |
| `Outline.OutlineSink.CreateDocument` | src/server/docs-publish/outline-sink.ts:196-208 | at most one document is added however responses are lost, it is there on success, and at least one write is sent |
| `Outline.OutlineSink.RetriedPage` | src/server/docs-publish/outline-sink.ts:215-220 | a retried page is the page asked for |
| `Outline.OutlineSink.RetriedInfo` | src/server/docs-publish/outline-sink.ts:236 | a retried lookup is the document asked for |
| `Outline.OutlineSink.ListDocuments` | src/server/docs-publish/outline-sink.ts:210-243 | a listing is every document in server order, with the text of every possible source page |
| `Outline.OutlineSink.UpdateDocument` | src/server/docs-publish/outline-sink.ts:245-247 | the document is as before or as asked, and as asked on success |
| `Outline.OutlineSink.ArchiveDocument` | src/server/docs-publish/outline-sink.ts:249-251 | the document is still there or gone, and gone on success |
| `Outline.ReplacedTwice` | src/server/docs-publish/outline-sink.ts:245-247 | an update repeated after a lost answer changes nothing more |
| `Outline.RemovedTwice` | src/server/docs-publish/outline-sink.ts:249-251 | an archiving repeated after a lost answer changes nothing more |
| `Publish.PublishPage` | src/server/docs-publish/publish.ts:97-118 | one desired page is created, left alone or updated, and the others are untouched; nothing is sent exactly if it was current |
| `Publish.Reconcile` | src/server/docs-publish/publish.ts:97-118 | every desired page is counted once; without failures each is mirrored; nothing is sent exactly if all were current |
| `Publish.ArchiveStale` | src/server/docs-publish/publish.ts:120-128 | every stale document is counted once; without failures only desired titles remain; nothing is sent exactly if none was stale |
| `Publish.FailuresCounted` | src/server/docs-publish/publish.ts:91-128 | a run's failures split into those of pages and those of stale documents |
| `Publish.ReconcileAndArchive` | src/server/docs-publish/publish.ts:91-130 | both loops together: counts add up, a clean run leaves the mirror, and something is written exactly if the mirror was not in sync |
| `Publish.PublishRepo` | src/server/docs-publish/publish.ts:58-131 | a whole run over a lossy server: early stops, accounting, that it writes exactly if the collection or the mirror was not as it should be, that a clean run leaves exactly the pages of the sources, and that over a server that loses nothing every run is clean |
| `Publish.DesiredPerPath` | src/server/docs-publish/publish.ts:81-89 | the desired pages are one for each path of a source, in the order in which the paths first come |
| `Publish.DesiredIffSource` | src/server/docs-publish/publish.ts:81-89 | a title is desired exactly if it is the path of a source |
| `Publish.LastSourceCounts` | src/server/docs-publish/publish.ts:81-89 | the page of a path is that of the last source with the path |
| `Publish.ReconciledIsMirror` | src/server/docs-publish/publish.ts:97-128 | a reconciled collection has the page of every source path, the last source's or one that reads as its blob, and no other title |
| `Publish.WrittenPageIsCurrentIffGenuine` | src/server/docs-publish/publish.ts:108 | a page just written is left alone next time exactly when its origin is genuine |
| `Publish.ReconciledIsInSync` | src/server/docs-publish/publish.ts:97-128 | after a clean run over genuine sources nothing is left to do |
| `Publish.WrittenMirrorRestsIffGenuine` | src/server/docs-publish/publish.ts:81-110 | when every page holds its own text, nothing is left to do exactly if every published source is genuine |
| `Publish.CounterfeitIsEnumerated` | src/server/docs-publish/enumerate.ts:27-29 | the counterfeit path is one that the publisher enumerates |
| `Publish.CounterfeitNeverRests` | src/server/docs-publish/publish.ts:108 | its mirror is never in sync once its page is written |
| `Publish.OrderTellsForDuplicates` | src/server/docs-publish/publish.ts:90 | two documents of one title are in sync in one listing order and not in the other |
| `Publish.InSyncInAnyOrder` | src/server/docs-publish/publish.ts:90 | with unique titles, being in sync does not depend on the listing order |
| `Publish.CollectionsAreApart` | src/server/docs-publish/outline-sink.ts:171-174 | a collection is named after its repository, and two repositories never share one |
| `Publish.PublishAndWait` | src/server/docs-publish/publish.ts:58-131 | a clean run over genuine sources leaves the mirror at rest, also once the server lists it in another order |
| `Publish.PublishAtRest` | src/server/docs-publish/publish.ts:58-131 | a run over a mirror at rest sends no write and reports every page unchanged |
| `Publish.PublishTwice` | src/server/docs-publish/publish.ts:58-131 | a second run after a clean first one sends no write, though documents be listed in another order, if titles are unique; without unique titles, if the order stayed |
| `Publish.LookupReplaced` | src/server/docs-publish/publish.ts:90 | replacing one document changes the lookup of its titles only |
| `CanonicalJson.EscapeReads` | src/server/task-board/canonical.ts:6 | an escaped string reads back to itself and says where it ends (section 7 of RFC 8259) |
| `CanonicalJson.PlainTextPrints` | src/server/task-board/canonical.ts:6 | text without quotes, backslashes, control characters and lone surrogates prints as it is |
| `CanonicalJson.UnitPrints` | src/server/task-board/canonical.ts:6 | how each of those units prints: seven short escapes, and four lower-case digits for the others |
| `CanonicalJson.CanonicalReads` | src/server/task-board/canonical.ts:5-12 | a printed value, before anything that may follow it, reads as that value up to key order, and the rest is left over (sections 3 to 7 of RFC 8259) |
| `CanonicalJson.NamesAscend` | src/server/task-board/canonical.ts:8-11 | under a total preorder the names of an object are read in ascending order, each with its value |
| `CanonicalJson.QuotedInjective` | src/server/task-board/canonical.ts:10 | quoted keys and strings are a prefix code |
| `CanonicalJson.PrefixInjective` | src/server/task-board/canonical.ts:5-12 | canonical texts are a prefix code: equal texts stand for equal values and end alike |
| `CanonicalJson.CanonicalIsInjective` | src/server/task-board/canonical.ts:5-12 | values that print the same are equal up to key order, whatever the key comparison |
| `CanonicalJson.CanonicalIffSameMeaning` | src/server/task-board/canonical.ts:5-12 | under a total order without ties, values print the same exactly when equal up to key order |
| `CanonicalJson.TieShowsOrder` | src/server/task-board/canonical.ts:9 | two keys that compare as level give two equal values that print differently |
| `CanonicalJson.OrderBlindIffNoTies` | src/server/task-board/canonical.ts:9 | printing forgets key order exactly when the comparison ties no distinct keys |
| `Routing.EncodesWellFormed` | src/web/routing/routing.ts:68-76 | encoding succeeds exactly on well-formed text, and its result contains no separator |
| `Routing.UnitEncodes` | src/web/routing/routing.ts:68-76 | which characters below 0x80 stay as they are, and that any other becomes a percent sign and two upper-case digits |
| `Routing.DecodesOnlyUtf8` | src/web/routing/routing.ts:57-66 | an octet sequence decodes to a scalar only if it is the UTF-8 of that scalar |
| `Routing.OctetsAreRead` | src/web/routing/routing.ts:57-66 | a percent sign and two hexadecimal digits of either case stand for an octet, and nothing else does |
| `Routing.ScalarReads` | src/web/routing/routing.ts:57-66 | the percent-encoded UTF-8 of a scalar decodes to it (section 3 of RFC 3629, section 2.1 of RFC 3986) |
| `Routing.DecodeUndoesEncode` | src/web/routing/routing.ts:57-76 | an encoded id decodes to itself |
| `Routing.DecodingKeepsWellFormed` | src/web/routing/routing.ts:57-66 | decoding makes text well-formed exactly if it was |
| `Routing.IdHashReads` | src/web/routing/routing.ts:95-120 | an id in a hash comes back if non-empty and well-formed, and is an invalid route otherwise |
| `Routing.HashesRead` | src/web/routing/routing.ts:95-120 | every page a hash can read as, and from which segments |
| `Routing.MarkerIsOptional` | src/web/routing/routing.ts:33-38 | the marker and the first slash of a hash may be left out |
| `Routing.ParsedIdDecodes` | src/web/routing/routing.ts:95-120 | a hash names an entity exactly if it has two segments, a kind with an id and something that decodes, and the id is that decoding |
| `Routing.PageRoundTrips` | src/web/routing/routing.ts:78-120 | a page survives the trip through its hash exactly when it is representable |
| `Routing.PagesAreNamed` | src/web/routing/routing.ts:68-93 | the hash of every kind of page, as it is written |
| `Routing.CanonicalAfterOneStep` | src/web/routing/useHashRoute.ts:31-35 | the replace effect fires at most once for a URL exactly when its raw id is well-formed |
| `Routing.CanonicalAfterTwoSteps` | src/web/routing/useHashRoute.ts:31-35 | it never fires more than twice |
| `Routing.LoneSurrogateMovesTwice` | src/web/routing/useHashRoute.ts:31-35 | a concrete hash that is rewritten twice |
| `Routing.WellFormedHashIsCanonicalAfterOneStep` | src/web/routing/useHashRoute.ts:31-35 | for any well-formed hash it fires at most once |
| `TaskLane.DelayIsBounded` | src/server/agents/task-fleet/fleet.ts:234-243 | whatever is sampled, a delay is non-negative and below its ceiling, which is at most the maximum |
| `TaskLane.EveryDelayIsSampled` | src/server/agents/task-fleet/fleet.ts:240-242 | every whole delay below the ceiling comes from some sample, and a sample that is not finite gives half the ceiling |
| `TaskLane.CeilingDoubles` | src/server/agents/task-fleet/fleet.ts:235-239 | the first ceiling is the initial delay and each further one twice the one before, capped by the maximum and by a minute |
| `TaskLane.CeilingGrows` | src/server/agents/task-fleet/fleet.ts:235-239 | later attempts never have a lower ceiling |
| `TaskLane.Lane.RunLane` | src/server/agents/task-fleet/fleet.ts:177-232 | every lane run keeps the protocol with delays that were sampled for their attempts, until an abort or a fatal error |
| `TaskLane.Lane.RunOnce` | src/server/agents/task-fleet/fleet.ts:180-230 | one turn of the loop ends ready for the next run, stopped, or aborted |
| `TaskLane.Lane.RunFailed` | src/server/agents/task-fleet/fleet.ts:190-230 | a failed run stops the lane, or is retried or quarantined, by its classification |
| `TaskLane.Lane.RetryLane` | src/server/agents/task-fleet/fleet.ts:245-259 | one more restart, then one sleep strictly below that restart's ceiling, or of zero under a zero ceiling |
| `TaskLane.Lane.QuarantineClaim` | src/server/agents/task-fleet/fleet.ts:275-322 | up to five attempts to settle, then one to drop, unless aborted |
| `TaskLane.Lane.SettleClaim` | src/server/agents/task-fleet/fleet.ts:277-303 | the attempts settle the claim, or fail five times, unless aborted |
| `TaskLane.NoRunAfterFatal` | src/server/agents/task-fleet/fleet.ts:195-219 | after a revoked credential or a poisoned capability error the worker never runs again |
| `TaskLane.StoppedOnFatal` | src/server/agents/task-fleet/fleet.ts:190-231 | a lane that has stopped met a revoked credential or a missing capability: nothing else ends it |
| `TaskLane.ReportFollows` | src/server/agents/task-fleet/fleet.ts:186-221 | exactly the runs that claimed something or were poisoned are reported, at once |
| `TaskLane.RetryFollows` | src/server/agents/task-fleet/fleet.ts:207-225 | a transient failure is followed by a retry, and so is a poisoned one without a claim |
| `TaskLane.FailedAttemptIsFollowed` | src/server/agents/task-fleet/fleet.ts:287-306 | a failed attempt to settle a claim is followed by a backoff or by dropping the claim |
| `TaskLane.PoisonedClaimIsSettled` | src/server/agents/task-fleet/fleet.ts:221-230 | after a poisoned error with a held claim, the next run is preceded by a successful quarantine or by five failures and one drop attempt |
| `TaskLane.QuarantineSettles` | src/server/agents/task-fleet/fleet.ts:275-322 | a quarantine is still failing or has settled the claim |
| `TaskLane.ClaimIsAsked` | src/server/agents/task-fleet/fleet.ts:212-222 | a poisoned failure is reported, and then the worker is asked for its claim |
| `TaskLane.StoppedClaimIsSettled` | src/server/agents/task-fleet/fleet.ts:212-219 | a lane that stops with a held claim has settled it: at most five attempts, and a drop after the fifth failure |
| `TaskLane.RestartsCountRetries` | src/server/agents/task-fleet/fleet.ts:185-229 | a run starts with as many restarts as there were retries since the last success or quarantine |
| `TaskLane.RetriesAreNumbered` | src/server/agents/task-fleet/fleet.ts:245-258 | a retry carries the number of retries since the last success or quarantine, itself included |
| `TaskLane.BackoffsAreNumbered` | src/server/agents/task-fleet/fleet.ts:287-301 | a backoff carries the number of failed attempts to settle the claim |
| `TaskFleet.RunsAreAccounted` | src/server/agents/task-fleet/fleet.ts:135-175 | in every run, closed workers are delivered workers, and a close that saw the lanes closed them all |
| `TaskFleet.DeliveredWorkersAreClosed` | src/server/agents/task-fleet/fleet.ts:127-175 | when `run` settles, exactly the delivered workers have been closed, however creation, abort and `close` interleave |
| `TaskFleet.CreationGoesOn` | src/server/agents/task-fleet/fleet.ts:127-152 | a run starts creating workers exactly if the fleet was not closed before, and each answer counts for its agent |
| `TaskFleet.LanesRunUnlessStopped` | src/server/agents/task-fleet/fleet.ts:149-170 | once every agent has answered, the lanes of all agents run exactly if none was refused and nothing has aborted or closed the fleet; otherwise the workers there are have been closed |
| `TaskFleet.RunCanSettle` | src/server/agents/task-fleet/fleet.ts:135-175 | from every reachable state a run settles by answers of the workers and lanes that end, alone |
| `TaskFleet.TaskFleet.Run` | src/server/agents/task-fleet/fleet.ts:127-133 | is the run step, and throws exactly on a closed fleet |
| `TaskFleet.TaskFleet.CreationSettled` | src/server/agents/task-fleet/fleet.ts:137-170 | is the step after worker creation, with its three ways out |
| `TaskFleet.TaskFleet.LeaveRun` | src/server/agents/task-fleet/fleet.ts:171-174 | is the `finally` step |
| `TaskFleet.TaskFleet.Close` | src/server/agents/task-fleet/fleet.ts:324-340 | only the first close acts, on the lanes of that moment |
| `ActivityBuffer.PushAcceptsWhatHistoryCallsNew` | src/server/agents/runtime/derive.ts:328-338 | after any calls an update is accepted exactly when the full history has no equal text within the window |
| `ActivityBuffer.RunsDedupe` | src/server/agents/runtime/derive.ts:387-391 | in every run the pruned map decides as the full history does |
| `ActivityBuffer.RunsShow` | src/server/agents/runtime/derive.ts:340-385 | in every run emissions show acceptances in order, each once, at least the interval apart unless drained, and the latest is held or was last shown |
| `ActivityBuffer.ValueIsTheEmission` | src/server/agents/runtime/derive.ts:328-362 | a returned value is the text of the one acceptance newly emitted, and no value means no emission |
| `ActivityBuffer.NothingOverdueIsHeld` | src/server/agents/runtime/derive.ts:328-385 | after a push or a flush in any run, what is still held waits for the interval since the last emission, and after a drain nothing is held: what may go out does go out |
| `ActivityBuffer.HeldGoesFirst` | src/server/agents/runtime/derive.ts:340-362 | what goes out is what was held before the call, or else what is pushed |
| `ActivityBuffer.RefusesUnsafeOrEarlier` | src/server/agents/runtime/derive.ts:364-369 | a time is refused exactly if it is unsafe or before an accepted one, and a refused call changes nothing |
| `ActivityBuffer.RemembersTheWindow` | src/server/agents/runtime/derive.ts:333-338 | after an accepted time a pushed update is remembered, and only updates within the window with it |
| `ActivityBuffer.ActivityBuffer.Push` | src/server/agents/runtime/derive.ts:328-348 | is the push step |
| `ActivityBuffer.ActivityBuffer.Flush` | src/server/agents/runtime/derive.ts:350-353 | is the flush step |
| `ActivityBuffer.ActivityBuffer.Drain` | src/server/agents/runtime/derive.ts:356-362 | is the drain step |
| `ActivityBuffer.ActivityBuffer.ObserveTime` | src/server/agents/runtime/derive.ts:364-369 | refuses exactly the times that are unsafe or move backwards |
| `ActivityBuffer.ActivityBuffer.Prune` | src/server/agents/runtime/derive.ts:387-391 | keeps exactly the texts within the window |
| `ActivityChannel.RunsAreSound` | src/server/agents/task-worker/agent-envelope.ts:396-431 | in every run the queue is the newest part of what was published, at most 64 events and only if nobody waits; deliveries are in order; the last 64 are never dropped; the end comes only closed and drained |
| `ActivityChannel.RunsRecordCalls` | src/server/agents/task-worker/agent-envelope.ts:402-431 | told from the calls alone: what is published is every value up to the first close, and every `next` has one answer |
| `ActivityChannel.PublishedArrives` | src/server/agents/task-worker/agent-envelope.ts:402-431 | of the values published before the first close each of the last 64 was given to one `next` or is still held; values are given in order, and held ones to nobody |
| `ActivityChannel.WaitsOnlyForEvents` | src/server/agents/task-worker/agent-envelope.ts:425-430 | a `next` waits only while nothing is held and the stream is open, and ends only once it is closed |
| `ActivityChannel.AnswersStand` | src/server/agents/task-worker/agent-envelope.ts:402-430 | a promise that has settled stays as it settled |
| `ActivityChannel.ClosedDrains` | src/server/agents/task-worker/agent-envelope.ts:426-430 | once closed, further calls read what is held in order and then the end |
| `ActivityChannel.ClosedIsSettled` | src/server/agents/task-worker/agent-envelope.ts:413-417 | once closed, no promise is left unsettled |
| `ActivityChannel.ActivityChannel.Publish` | src/server/agents/task-worker/agent-envelope.ts:402-411 | is the publish step: a waiter takes the event, or the queue does and drops its oldest |
| `ActivityChannel.ActivityChannel.Close` | src/server/agents/task-worker/agent-envelope.ts:413-417 | is the close step: every waiter is told the end |
| `ActivityChannel.ActivityChannel.Iterate` | src/server/agents/task-worker/agent-envelope.ts:419-423 | only the first caller gets an iterator |
| `ActivityChannel.ActivityChannel.Next` | src/server/agents/task-worker/agent-envelope.ts:425-430 | is the next step: the head of the queue, the end, or a wait |
| `CredentialMarkers.JoinSplit` | src/server/agents/task-worker/agent-envelope.ts:470 | the parts between markers join back to the text |
| `CredentialMarkers.PartsHoldNoMarker` | src/server/agents/task-worker/agent-envelope.ts:470 | no part holds a marker |
| `CredentialMarkers.CutParts` | src/server/agents/task-worker/agent-envelope.ts:472-481 | longest parts first, exactly the excess is cut, at the front of the first part and the end of the others |
| `CredentialMarkers.FitCredentialMarkers` | src/server/agents/task-worker/agent-envelope.ts:468-483 | a text too long comes out at exactly the maximum or at the length of its markers if that is more, with every marker kept |
| `CredentialMarkers.ShortCredentialOverruns` | src/server/agents/task-worker/agent-envelope.ts:506-509 | a text with a marker and a redacted 20-unit key comes out longer than its caller allows |
| `CredentialMarkers.OwnMarkersFit` | src/server/agents/task-worker/agent-envelope.ts:506-509 | when every marker came from a redaction, markers alone are never longer than the caller allows |
| `Sections.NoHeaderInBodies` | src/server/shared/sections.ts:41-63 | no body contains a header line |
| `Sections.BlocksPartitionSource` | src/server/shared/sections.ts:41-78 | headers and bodies are disjoint slices in order that make up the source |
| `Sections.WithoutTrailingBlankLines` | src/server/shared/sections.ts:15-32 | the loop keeps the lines up to the last one that is not blank, ended by LF |
| `Sections.TrimmedIsFixed` | src/server/shared/sections.ts:15-32 | trimming a trimmed body changes nothing |
| `Sections.AcceptedIsRenderable` | src/server/shared/sections.ts:65-80 | an accepted source yields one-line names and trimmed, non-blank bodies without headers |
| `Sections.ReadHeaders` | src/server/shared/sections.ts:41-63 | the loop over lines finds every header with the place of its body, or the first header refused |
| `Sections.ReadBodies` | src/server/shared/sections.ts:73-79 | the loop over headers yields the trimmed bodies, or the first empty one |
| `Sections.ParseSections` | src/server/shared/sections.ts:41-80 | parsing by position gives what grouping the lines under their headers gives, errors included |
| `Sections.RenderedReadsBack` | src/server/shared/sections.ts:41-80 | rendering and parsing again gives the same sections exactly when no name ends in CR |
| `Sections.NameEndingInCrIsLost` | src/server/shared/sections.ts:47-63 | a concrete source whose rendering does not read back, under any rule that accepts its name |
| `Sections.RuleWithoutCrReadsBack` | src/server/shared/sections.ts:41-80 | under a name rule that excludes CR the round trip always holds, and names are distinct |
| `WorkItemTree.ChildrenHold` | src/web/model/work-item-tree.ts:14-46 | the children of an id are exactly the items that name it as parent, each as often as it is listed, in child order |
| `WorkItemTree.ChildrenAscend` | src/web/model/work-item-tree.ts:14-22 | children ascend by ordinal, none counting as the greatest safe integer, and then by place in the list |
| `WorkItemTree.RowShowsItem` | src/web/model/work-item-tree.ts:24-28 | a row shows its item at its depth, with a hint exactly for a child that migrates or contracts |
| `WorkItemTree.RowCounts` | src/web/model/work-item-tree.ts:53-62 | a row counts the active, merged and abandoned items that name it as parent |
| `WorkItemTree.EveryIdOnce` | src/web/model/work-item-tree.ts:48-73 | for any list, cycles and nesting included, every id has one row, and every child's row follows its parent or a sibling not after it |
| `WorkItemTree.EveryItemOnce` | src/web/model/work-item-tree.ts:34-74 | with distinct ids the rows hold exactly the items, each once |
| `WorkItemTree.ForestIsLaidOut` | src/web/model/work-item-tree.ts:34-74 | on a two-level forest the rows are the roots in input order, each followed at once by all its children in child order |
| `WorkItemTree.CollectChildren` | src/web/model/work-item-tree.ts:37-46 | the map of children agrees with the list for every id |
| `WorkItemTree.AppendTree` | src/web/model/work-item-tree.ts:50-66 | appends one item with its children, each unless already emitted |
| `WorkItemTree.GroupWorkItems` | src/web/model/work-item-tree.ts:34-74 | the loops build the trees of the roots and then of whatever they did not reach |
| `Scope.UnderIsComponentPrefix` | src/server/shared/scope-check.ts:47-49 | a prefix covers a path exactly when its components are the first components of the path |
| `Scope.StrippedIsBare` | src/shared/task-board-contract/index.ts:92-98 | normalizing a prefix drops all slashes at its end and nothing else |
| `Scope.ThrowsOnEmptyPrefix` | src/shared/task-board-contract/index.ts:92-104 | both checks throw exactly for a scope with a prefix of nothing but slashes |
| `Scope.OverlapIffSharedPath` | src/shared/task-board-contract/index.ts:100-104 | two valid scopes overlap exactly when some path is covered by both |
| `Scope.CheckedTwiceIsCheckedOnce` | src/server/shared/scope-check.ts:17-40 | normalizing before the path check, which normalizes again, changes nothing |
| `Scope.AcceptedIffCovered` | src/server/shared/scope-check.ts:42-53 | files are accepted exactly when each is covered |
| `Scope.DisjointScopesDisjointFiles` | src/server/shared/scope-check.ts:42-53 | scopes do not overlap exactly when no two accepted sets of files share a file |
| `Scope.ReviewFlagsWhatCheckRejects` | src/web/model/work-item-detail.ts:175-186 | the board flags exactly the files the check rejects, and differs only for a prefix of slashes, where the check throws |
| `PlanChildren.Visit` | src/shared/task-board-contract/validate/plans.ts:308-315 | the depth-first search meets a key it is visiting only on a cycle, and else extends a schedule |
| `PlanChildren.HasCycle` | src/shared/task-board-contract/validate/plans.ts:306-316 | the search fails exactly on a cyclic plan, and else leaves an order in which each child follows its dependencies |
| `PlanChildren.ScheduledIsAcyclic` | src/shared/task-board-contract/validate/plans.ts:306-316 | a schedule of every key rules out a cycle |
| `PlanChildren.CollectChildren` | src/shared/task-board-contract/validate/plans.ts:287-297 | the map by key, or the first repeated key or dependency |
| `PlanChildren.GraphIsOwn` | src/shared/task-board-contract/validate/plans.ts:287-297 | with distinct keys the map holds each child's own dependencies |
| `PlanChildren.CheckDependencies` | src/shared/task-board-contract/validate/plans.ts:298-304 | the first child with an unknown dependency, if any |
| `PlanChildren.CheckScopes` | src/shared/task-board-contract/validate/plans.ts:318-328 | the pair loop returns the first overlap or empty prefix |
| `PlanChildren.ValidateChildren` | src/shared/task-board-contract/validate/plans.ts:287-328 | the first error in the order of the checks; an accepted plan has a schedule of all its children |
| `PlanChildren.AcceptedIffNoRuleBroken` | src/shared/task-board-contract/validate/plans.ts:287-328 | a plan is accepted exactly when keys and dependencies are distinct and known, there is no cycle, and no pair that must stay apart overlaps or has an empty prefix |
| `PlanChildren.AcceptedChildrenShareNoFile` | src/shared/task-board-contract/validate/plans.ts:318-328 | children that must stay apart change no common file, whatever passes their scope checks |

## Left out

- The operation and the loading callback of a refresh are assumed not to call the coordinator back before they return.
- The refresh deadline is one more way in which a read may settle or its signal may abort, at any time.
- `NotificationLoadCoordinator`: its loop exit and its later `finally` are separate microtasks, so a claim about it needs a scheduling assumption.
- React state, effects and rendering: an acknowledgement is an event that may come at any time, with any snapshot.
- JSON numbers are known by the text they print as; `undefined`, functions and other values without a JSON text are not modelled.
- The locale order of keys is an arbitrary comparison; what a given locale ties is not modelled.
- Hashing of canonical text, and the base URL around a hash route.
- The Outline server is consistent: totals and pages are those of one state, ids are never reused, nobody else writes, and the listing order stays as it is within one run (between runs it may change).
- Malformed Outline responses: the parsers of envelopes, summaries and pagination throw on them, and here a response is well-formed or an error.
- The collection of a document request: one collection's documents are modelled.
- `withRetry`: its loop is written out in each method that retries, with three attempts and the two delays; option checking is left out.
- Enumerating a Git tree, and the wording of failures and log events.
- A worker's answers, claims and errors are arbitrary; a lane's signal aborts after an arbitrary number of awaits.
- Errors of reporting a lane error are logged and have no other effect, so a report is one step.
- The random sample of a delay is an arbitrary real number or not a number; floating-point rounding of the product is not modelled.
- Redaction patterns and activity sanitising: of the patterns only the length of an AWS access key (src/server/shared/redact.ts:64) is used, a pushed activity arrives sanitised, perhaps to nothing, and a text arrives with its markers.
- `DeliveredWorkersAreClosed` and `RunsAreAccounted` record that `close` was called on a worker, not that it settled.
- Section name rules are an arbitrary predicate on names, so the state a sticky regular expression keeps between matches is not modelled; parsing resets it.
- Ids in `groupWorkItems` are never compared by locale: positions differ for different ids, so the comparison of ids is never reached.
- The shape and phase rules of a plan's children (which shapes may have children, one expand, one contract, and who depends on whom): each is a direct test.
- Range checks of constructor options (frame limit, intervals, retry delays): the model starts from valid options.
- HTTP routing, persistence, Docker, Git and the user interface.
