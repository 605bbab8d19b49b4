/**
  * The board's refresh operation between the two coordinators: a read fetches a
  * snapshot, asks for it to be committed, and reports whether it was.
  */
module BoardRefresh {
  import opened Text
  import RA = RefreshAnswers
  import RC = RefreshCoordinator
  import SC = SnapshotCommit

  /** How far the operation of one read has come. */
  datatype Progress = Fetching | Committing(commit: nat) | Finished(decided: Option<nat>)

  /** The events each coordinator has seen, and the operation of every read. */
  datatype State = State(scheduling: seq<RC.Event>, committing: seq<SC.Event>, operations: seq<Progress>)

  function Scheduler(s: State): RC.State {
    RC.Run(s.scheduling)
  }

  function Commits(s: State): SC.State {
    SC.Run(s.committing)
  }

  datatype Event =
    | Activate
    | Dispose
    | Refresh(kind: RC.Kind)
    | ResumeMutation(call: nat)
    | ReadSettled(read: nat)
    | ForegroundSettled(waiter: nat)
    | SnapshotArrives(read: nat, snapshot: nat)
    | FetchFails(read: nat)
    | Deadline(read: nat)
    | OperationReturns(read: nat)
    | LayoutEffect(snapshot: nat)
    | Unmount

  const INITIAL := State([], [], [])

  /** The scheduler takes an event; every read it starts begins to fetch. */
  function Schedule(s: State, e: RC.Event): State {
    var t := s.(scheduling := s.scheduling + [e]);
    t.(operations := s.operations
         + seq(if |Scheduler(t).started| > |s.operations| then |Scheduler(t).started| - |s.operations| else 0,
               _ => Fetching))
  }

  function Commit(s: State, e: SC.Event): State {
    s.(committing := s.committing + [e])
  }

  function Returns(s: State, read: nat, outcome: RC.Outcome, commit: Option<nat>): State
    requires read < |s.operations|
  {
    Schedule(s.(operations := s.operations[read := Finished(commit)]), RC.OperationSettles(read, outcome))
  }

  function Next(s: State, e: Event): State {
    match e
    case Activate => Schedule(s, RC.Activate)
    case Refresh(kind) => Schedule(s, RC.Refresh(kind))
    case ResumeMutation(call) => Schedule(s, RC.Resume(call))
    case ReadSettled(read) => Schedule(s, RC.Finally(read))
    case ForegroundSettled(waiter) => Schedule(s, RC.ForegroundSettles(waiter))
    case Dispose =>
      var controller := Scheduler(s).controller;
      var t := Schedule(s, RC.Dispose);
      if controller.Some? then Commit(t, SC.Abort(controller.value)) else t
    case Deadline(read) => Commit(s, SC.Abort(read))
    case LayoutEffect(snapshot) => Commit(s, SC.Acknowledge(snapshot))
    case Unmount => Commit(s, SC.Drain)
    case SnapshotArrives(read, snapshot) =>
      if read < |s.operations| && s.operations[read] == Fetching then
        Commit(s.(operations := s.operations[read := Committing(|Commits(s).commits|)]), SC.Request(snapshot, read))
      else s
    case FetchFails(read) =>
      if read < |s.operations| && s.operations[read] == Fetching then Returns(s, read, RC.NotCommitted, None) else s
    case OperationReturns(read) =>
      if read < |s.operations| && s.operations[read].Committing?
         && s.operations[read].commit < |Commits(s).commits|
         && Commits(s).commits[s.operations[read].commit].resolutions != []
      then
        var commit := s.operations[read].commit;
        var committed := Commits(s).commits[commit].resolutions[0];
        Returns(s, read, if committed then RC.Committed else RC.NotCommitted, Some(commit))
      else s
  }

  function Run(events: seq<Event>): State {
    if events == [] then INITIAL else Next(Run(events[..|events| - 1]), events[|events| - 1])
  }

  /* ---- True means acknowledged ---- */

  /** An operation that settled true had its commit resolved true, under its own read's signal. */
  ghost predicate Fits(operation: Progress, read: nat, phase: RC.ReadPhase, commits: seq<SC.CommitPromise>) {
    match operation
    case Fetching => phase == RC.Running
    case Committing(k) => phase == RC.Running && k < |commits| && commits[k].signal == read
    case Finished(commit) =>
      && phase != RC.Running
      && phase.outcome != RC.Rejected
      && (phase.outcome == RC.Committed ==>
          && commit.Some? && commit.value < |commits|
          && commits[commit.value].signal == read && commits[commit.value].resolutions == [true])
  }

  ghost predicate Wired(s: State) {
    && |s.operations| == |Scheduler(s).started|
    && forall r | 0 <= r < |s.operations| ::
         Fits(s.operations[r], r, Scheduler(s).started[r].phase, Commits(s).commits)
  }

  /** Reads keep their outcomes; only the operation's own return settles one. */
  lemma ScheduleEffect(s: State, e: RC.Event)
    ensures var (before, after) := (Scheduler(s), Scheduler(Schedule(s, e)));
      && after == RC.Next(before, e)
      && |before.started| <= |after.started|
      && (forall r | 0 <= r < |before.started| ::
          || after.started[r].phase == before.started[r].phase
          || (before.started[r].phase.Settled? && after.started[r].phase == RC.Done(before.started[r].phase.outcome))
          || (e.OperationSettles? && e.read == r && before.started[r].phase == RC.Running
              && after.started[r].phase == RC.Settled(e.outcome)))
      && (forall r | |before.started| <= r < |after.started| :: after.started[r].phase == RC.Running)
      && (e.OperationSettles? && e.read < |before.started| && before.started[e.read].phase == RC.Running ==>
          after.started[e.read].phase == RC.Settled(e.outcome))
  {
    assert (s.scheduling + [e])[..|s.scheduling|] == s.scheduling;
  }

  lemma CommitEffect(s: State, e: SC.Event)
    ensures var (before, after) := (Commits(s), Commits(Commit(s, e)));
      && after == SC.Next(before, e)
      && |before.commits| <= |after.commits|
      && forall k | 0 <= k < |before.commits| ::
           && after.commits[k].signal == before.commits[k].signal
           && (before.commits[k].resolutions != [] ==> after.commits[k] == before.commits[k])
  {
    assert (s.committing + [e])[..|s.committing|] == s.committing;
    SC.PromisesResolveOnce(s.committing);
    forall k | 0 <= k < |Commits(s).commits|
      ensures SC.Next(Commits(s), e).commits[k].signal == Commits(s).commits[k].signal
      ensures Commits(s).commits[k].resolutions != [] ==> SC.Next(Commits(s), e).commits[k] == Commits(s).commits[k]
    {
      SC.StepKeepsCommits(Commits(s), e, k);
    }
  }

  lemma {:induction false} ScheduleKeepsWired(s: State, e: RC.Event)
    requires Wired(s) && !e.OperationSettles?
    ensures Wired(Schedule(s, e))
  {
    ScheduleEffect(s, e);
  }

  lemma {:induction false} FitsLater(operation: Progress, read: nat, phase: RC.ReadPhase,
      before: seq<SC.CommitPromise>, after: seq<SC.CommitPromise>)
    requires Fits(operation, read, phase, before) && |before| <= |after|
    requires forall k | 0 <= k < |before| ::
      && after[k].signal == before[k].signal
      && (before[k].resolutions != [] ==> after[k] == before[k])
    ensures Fits(operation, read, phase, after)
  {
  }

  lemma {:induction false} CommitKeepsWired(s: State, e: SC.Event)
    requires Wired(s)
    ensures Wired(Commit(s, e))
  {
    var (before, after) := (Commits(s).commits, Commits(Commit(s, e)).commits);
    CommitEffect(s, e);
    forall r | 0 <= r < |s.operations| ensures Fits(s.operations[r], r, Scheduler(s).started[r].phase, after) {
      FitsLater(s.operations[r], r, Scheduler(s).started[r].phase, before, after);
    }
  }

  lemma {:induction false} RequestRegisters(s: SC.State, snapshot: nat, signal: nat)
    requires SC.InRange(s)
    ensures var t := SC.Next(s, SC.Request(snapshot, signal));
      |t.commits| == |s.commits| + 1 && t.commits[|s.commits|].signal == signal
  {
  }

  lemma {:induction false} RequestKeepsWired(s: State, read: nat, snapshot: nat)
    requires Wired(s) && read < |s.operations| && s.operations[read] == Fetching
    ensures Wired(Next(s, SnapshotArrives(read, snapshot)))
  {
    var t := Next(s, SnapshotArrives(read, snapshot));
    var (before, after) := (Commits(s).commits, Commits(t).commits);
    CommitEffect(s, SC.Request(snapshot, read));
    RequestRegisters(Commits(s), snapshot, read);
    forall r | 0 <= r < |t.operations| ensures Fits(t.operations[r], r, Scheduler(t).started[r].phase, after) {
      assert Fits(s.operations[r], r, Scheduler(s).started[r].phase, before);
      if r != read {
        FitsLater(s.operations[r], r, Scheduler(s).started[r].phase, before, after);
      }
    }
  }

  lemma ReturnKeepsWired(s: State, read: nat, outcome: RC.Outcome, commit: Option<nat>)
    requires Wired(s) && read < |s.operations| && !s.operations[read].Finished?
    requires outcome != RC.Rejected
    requires outcome == RC.Committed ==>
      && commit.Some? && commit.value < |Commits(s).commits|
      && Commits(s).commits[commit.value].signal == read
      && Commits(s).commits[commit.value].resolutions == [true]
    ensures Wired(Returns(s, read, outcome, commit))
  {
    ScheduleEffect(s, RC.OperationSettles(read, outcome));
  }

  lemma WiredStep(s: State, e: Event)
    requires Wired(s)
    ensures Wired(Next(s, e))
  {
    match e
    case Activate => ScheduleKeepsWired(s, RC.Activate);
    case Refresh(kind) => ScheduleKeepsWired(s, RC.Refresh(kind));
    case ResumeMutation(call) => ScheduleKeepsWired(s, RC.Resume(call));
    case ReadSettled(read) => ScheduleKeepsWired(s, RC.Finally(read));
    case ForegroundSettled(waiter) => ScheduleKeepsWired(s, RC.ForegroundSettles(waiter));
    case Dispose =>
      ScheduleKeepsWired(s, RC.Dispose);
      var controller := Scheduler(s).controller;
      if controller.Some? {
        CommitKeepsWired(Schedule(s, RC.Dispose), SC.Abort(controller.value));
      }
    case Deadline(read) => CommitKeepsWired(s, SC.Abort(read));
    case LayoutEffect(snapshot) => CommitKeepsWired(s, SC.Acknowledge(snapshot));
    case Unmount => CommitKeepsWired(s, SC.Drain);
    case SnapshotArrives(read, snapshot) =>
      if read < |s.operations| && s.operations[read] == Fetching {
        RequestKeepsWired(s, read, snapshot);
      }
    case FetchFails(read) =>
      if read < |s.operations| && s.operations[read] == Fetching {
        ReturnKeepsWired(s, read, RC.NotCommitted, None);
      }
    case OperationReturns(read) =>
      ReturnStepKeepsWired(s, read);
  }

  lemma ReturnStepKeepsWired(s: State, read: nat)
    requires Wired(s)
    ensures Wired(Next(s, OperationReturns(read)))
  {
    if read < |s.operations| && s.operations[read].Committing? {
      var k := s.operations[read].commit;
      assert Fits(s.operations[read], read, Scheduler(s).started[read].phase, Commits(s).commits);
      SC.PromisesResolveOnce(s.committing);
      var resolutions := Commits(s).commits[k].resolutions;
      if resolutions != [] {
        assert resolutions[0] ==> resolutions == [true];
        ReturnKeepsWired(s, read, if resolutions[0] then RC.Committed else RC.NotCommitted, Some(k));
      }
    }
  }

  lemma {:induction false} RunsAreWired(events: seq<Event>)
    ensures Wired(Run(events))
  {
    if events != [] {
      RunsAreWired(events[..|events| - 1]);
      WiredStep(Run(events[..|events| - 1]), events[|events| - 1]);
    }
  }

  /**
    * A read goes all the way: its snapshot arrives, is rendered and acknowledged, and the operation returns
    * true, unless the read's signal was aborted.
    */
  lemma ReadCommits(events: seq<Event>, read: nat, snapshot: nat)
    requires var s := Run(events);
      read < |s.operations| && s.operations[read] == Fetching && SC.Abort(read) !in s.committing
    ensures var t := Run(events + [SnapshotArrives(read, snapshot), LayoutEffect(snapshot), OperationReturns(read)]);
      read < |Scheduler(t).started| && Scheduler(t).started[read].phase == RC.ReadPhase.Settled(RC.Committed)
  {
    var s := Run(events);
    var (a, b, c) := (SnapshotArrives(read, snapshot), LayoutEffect(snapshot), OperationReturns(read));
    var (arrived, shown) := (Run(events + [a]), Run(events + [a] + [b]));
    RunSnoc(events, a);
    RunSnoc(events + [a], b);
    var k := |SC.Requests(s.committing)|;
    RunsAreWired(events);
    assert Fits(s.operations[read], read, Scheduler(s).started[read].phase, Commits(s).commits);
    SC.PendingWaits(s.committing);
    SnapshotWaits(s, read, snapshot);
    CommitShown(arrived, snapshot, k);
    ReturnsTrue(shown, read, k);
    RunSnoc(events + [a] + [b], c);
    ThreeMore(events, a, b, c);
  }

  lemma {:induction false} RunSnoc(events: seq<Event>, e: Event)
    ensures Run(events + [e]) == Next(Run(events), e)
  {
    assert (events + [e])[..|events|] == events;
  }

  lemma ThreeMore(events: seq<Event>, a: Event, b: Event, c: Event)
    ensures events + [a, b, c] == events + [a] + [b] + [c]
  {
  }

  /** An operation whose commit was resolved true settles its read as committed. */
  lemma {:induction false} ReturnsTrue(s: State, read: nat, k: nat)
    requires read < |s.operations| && s.operations[read] == Committing(k)
    requires k < |Commits(s).commits| && Commits(s).commits[k].resolutions == [true]
    requires read < |Scheduler(s).started| && Scheduler(s).started[read].phase == RC.Running
    ensures var t := Next(s, OperationReturns(read));
      read < |Scheduler(t).started| && Scheduler(t).started[read].phase == RC.ReadPhase.Settled(RC.Committed)
  {
    ScheduleEffect(s.(operations := s.operations[read := Finished(Some(k))]), RC.OperationSettles(read, RC.Committed));
  }

  /** A read whose fetch fails, or whose commit was resolved false, settles as not committed. */
  lemma ReadGivesUp(events: seq<Event>, e: Event, read: nat)
    requires var s := Run(events);
      read < |s.operations|
      && match s.operations[read]
         case Fetching => e == FetchFails(read)
         case Committing(k) =>
           e == OperationReturns(read) && k < |Commits(s).commits| && Commits(s).commits[k].resolutions == [false]
         case _ => false
    ensures var t := Run(events + [e]);
      read < |Scheduler(t).started| && Scheduler(t).started[read].phase == RC.ReadPhase.Settled(RC.NotCommitted)
  {
    var s := Run(events);
    RunsAreWired(events);
    assert Fits(s.operations[read], read, Scheduler(s).started[read].phase, Commits(s).commits);
    RunSnoc(events, e);
    var commit := if e.FetchFails? then None else Some(s.operations[read].commit);
    var finished := s.(operations := s.operations[read := Finished(commit)]);
    ScheduleEffect(finished, RC.OperationSettles(read, RC.NotCommitted));
  }

  /** A disposal also aborts the signal of the registered read, so that its commit is given up. */
  lemma DisposalReachesCommits(events: seq<Event>)
    ensures var (s, t) := (Run(events), Run(events + [Dispose]));
      && t.scheduling == s.scheduling + [RC.Dispose]
      && t.committing == s.committing
                       + match Scheduler(s).inFlight case Some(read) => [SC.Abort(read)] case None => []
  {
    RunSnoc(events, Dispose);
    RA.ControllerIsOfRegistered(Run(events).scheduling);
    assert Run(events).committing + [] == Run(events).committing;
  }

  /** A deadline aborts the signal of its read. */
  lemma {:induction false} DeadlineReachesCommits(events: seq<Event>, read: nat)
    ensures Run(events + [Deadline(read)]).committing == Run(events).committing + [SC.Abort(read)]
  {
    RunSnoc(events, Deadline(read));
  }

  /** An unmount drains. */
  lemma {:induction false} UnmountReachesCommits(events: seq<Event>)
    ensures Run(events + [Unmount]).committing == Run(events).committing + [SC.Drain]
  {
    RunSnoc(events, Unmount);
  }

  /** A snapshot that arrives under a signal not aborted is the commit that waits. */
  lemma SnapshotWaits(s: State, read: nat, snapshot: nat)
    requires SC.Abort(read) !in s.committing
    ensures var committing := s.committing + [SC.Request(snapshot, read)];
      && SC.Waits(committing) == Some(|SC.Requests(s.committing)|)
      && SC.Requests(committing)[|SC.Requests(s.committing)|] == (snapshot, read)
  {
    assert (s.committing + [SC.Request(snapshot, read)])[..|s.committing|] == s.committing;
  }

  /** The layout effect of the snapshot that waits resolves its commit as true. */
  lemma CommitShown(s: State, snapshot: nat, k: nat)
    requires SC.Waits(s.committing) == Some(k) && SC.Requests(s.committing)[k].0 == snapshot
    ensures var t := Next(s, LayoutEffect(snapshot));
      k < |Commits(t).commits| && Commits(t).commits[k].resolutions == [true]
  {
    SC.AcknowledgementCommits(s.committing, k);
  }

  /**
    * A mutation refresh that resolves true has shown its caller a snapshot read
    * after the call: a read of its own, started later, whose snapshot was
    * acknowledged by the layout effect while its commit was pending.
    */
  lemma MutationTrueWasAcknowledged(events: seq<Event>, call: nat) returns (read: nat, commit: nat, i: nat)
    requires var s := Run(events);
      call < |Scheduler(s).calls| && Scheduler(s).calls[call].phase == RC.Resolved(RC.Committed)
    ensures var s := Run(events);
      var c := Scheduler(s).calls[call];
      && c.own == Some(read)
      && c.born <= read < |Scheduler(s).started|
      && Scheduler(s).started[read] == RC.Read(RC.Mutation, c.generation, RC.Done(RC.Committed))
      && commit < |Commits(s).commits|
      && Commits(s).commits[commit].signal == read
      && i < |s.committing|
      && s.committing[i] == SC.Acknowledge(Commits(s).commits[commit].snapshot)
      && SC.Run(s.committing[..i]).pending == Some(commit)
  {
    var s := Run(events);
    RunsAreWired(events);
    RC.MutationTrueHasLaterRead(s.scheduling, call);
    read := Scheduler(s).calls[call].own.value;
    assert Fits(s.operations[read], read, Scheduler(s).started[read].phase, Commits(s).commits);
    commit := s.operations[read].decided.value;
    i := SC.ResolutionHasCause(s.committing, commit);
  }
}
