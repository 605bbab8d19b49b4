/**
  * What the refresh coordinator owes its callers: which calls read, which give up, which reject,
  * what a disposal aborts and who waits. Each is told from the events of a run.
  */
module RefreshAnswers {
  import opened Text
  import opened RefreshCoordinator

  /* ---- What the events alone tell ---- */

  function ActiveAfter(events: seq<Event>): bool {
    if events == [] then true
    else
      match events[|events| - 1]
      case Activate => true
      case Dispose => false
      case _ => ActiveAfter(events[..|events| - 1])
  }

  function GenerationAfter(events: seq<Event>): nat {
    if events == [] then 0
    else
      var last := events[|events| - 1];
      GenerationAfter(events[..|events| - 1]) + if last.Activate? || last.Dispose? then 1 else 0
  }

  /** The coordinator is active unless it was disposed last; activations and disposals start generations. */
  lemma {:induction false} GenerationsAreTurns(events: seq<Event>)
    ensures Run(events).active == ActiveAfter(events) && Run(events).generation == GenerationAfter(events)
  {
    if events != [] {
      GenerationsAreTurns(events[..|events| - 1]);
    }
  }

  /* ---- Mutation calls ---- */

  /** A call that gave up without a read is of an earlier generation, and so is every call while inactive. */
  ghost predicate GaveUpLate(s: State) {
    && (forall c | 0 <= c < |s.calls| :: s.calls[c].generation <= s.generation)
    && (!s.active ==> forall c | 0 <= c < |s.calls| :: s.calls[c].generation < s.generation)
    && (forall c | 0 <= c < |s.calls| && s.calls[c].phase == Resolved(NotCommitted) && s.calls[c].own.None? ::
        s.calls[c].generation < s.generation)
  }

  /** Resuming changes one call, and lets it give up only if it is superseded or the coordinator inactive. */
  lemma {:induction false} ResumedCall(s: State, call: nat)
    requires CanResume(s, call) && OwnRead(s.calls[call], s.started)
    ensures var t := ResumeStep(s, call);
      && |t.calls| == |s.calls| && t.calls == s.calls[call := t.calls[call]]
      && t.active == s.active && t.generation == s.generation
      && t.calls[call].generation == s.calls[call].generation
      && (t.calls[call].phase == Resolved(NotCommitted) && t.calls[call].own.None? ==>
          !s.active || s.calls[call].generation != s.generation)
      && (t.calls[call].phase == Resolved(Rejected) && t.calls[call].own.None? ==>
          s.calls[call].phase.Waiting? && s.started[s.calls[call].phase.read].phase == Done(Rejected))
  {
  }

  lemma {:induction false} GaveUpLateStep(s: State, e: Event)
    requires GaveUpLate(s) && OwnReads(s.calls, s.started)
    ensures GaveUpLate(Next(s, e))
  {
    if e.Resume? && Enabled(s, e) {
      assert OwnRead(s.calls[e.call], s.started);
      ResumedCall(s, e.call);
    }
  }

  lemma {:induction false} CallsGiveUpLate(events: seq<Event>)
    ensures GaveUpLate(Run(events))
  {
    if events != [] {
      var before := events[..|events| - 1];
      CallsGiveUpLate(before);
      MutationsHold(before);
      GaveUpLateStep(Run(before), events[|events| - 1]);
    }
  }

  /** A mutation gives up without a read only once a disposal or an activation has followed its call. */
  lemma MutationReadsUnlessSuperseded(events: seq<Event>, c: nat)
    requires var s := Run(events); c < |s.calls| && s.calls[c].phase == Resolved(NotCommitted) && s.calls[c].own.None?
    ensures Run(events).calls[c].generation < GenerationAfter(events)
  {
    CallsGiveUpLate(events);
    GenerationsAreTurns(events);
  }

  /** At event `n` the call went on from the rejected read it awaited. */
  ghost predicate AwaitedRejection(events: seq<Event>, n: nat, c: nat, read: nat) {
    && n < |events| && events[n] == Resume(c)
    && var s := Run(events[..n]);
    && c < |s.calls| && s.calls[c].phase == Waiting(read)
    && read < |s.started| && s.started[read].phase == Done(Rejected)
  }

  /** A mutation that rejects without a read of its own awaited another read that rejected. */
  lemma {:induction false} RejectionWasAwaited(events: seq<Event>, c: nat) returns (n: nat, read: nat)
    requires var s := Run(events); c < |s.calls| && s.calls[c].phase == Resolved(Rejected) && s.calls[c].own.None?
    ensures AwaitedRejection(events, n, c, read)
  {
    var last := |events| - 1;
    var s := Run(events[..last]);
    if c < |s.calls| && s.calls[c] == Run(events).calls[c] {
      n, read := RejectionWasAwaited(events[..last], c);
      assert events[..last][..n] == events[..n];
    } else {
      MutationsHold(events[..last]);
      RejectsByAwaiting(s, events[last], c);
      n, read := last, s.calls[c].phase.read;
    }
  }

  lemma {:induction false} RejectsByAwaiting(s: State, e: Event, c: nat)
    requires OwnReads(s.calls, s.started)
    requires var t := Next(s, e);
      && c < |t.calls| && t.calls[c].phase == Resolved(Rejected) && t.calls[c].own.None?
      && !(c < |s.calls| && s.calls[c] == t.calls[c])
    ensures e == Resume(c) && c < |s.calls| && s.calls[c].phase.Waiting?
    ensures s.calls[c].phase.read < |s.started| && s.started[s.calls[c].phase.read].phase == Done(Rejected)
  {
    if e.Resume? && Enabled(s, e) {
      assert OwnRead(s.calls[e.call], s.started);
      ResumedCall(s, e.call);
    }
  }

  /** And awaiting a read that rejects always rejects. */
  lemma AwaitedRejectionRejects(events: seq<Event>, n: nat, c: nat, read: nat)
    requires AwaitedRejection(events, n, c, read)
    ensures c < |Run(events[..n + 1]).calls| && Run(events[..n + 1]).calls[c].phase == Resolved(Rejected)
  {
    assert events[..n + 1][..n] == events[..n];
  }

  /** A resumed mutation waits only for the registered read, and with none registered it is done waiting. */
  lemma MutationWaitsForRegistered(events: seq<Event>, c: nat)
    requires Enabled(Run(events), Resume(c))
    ensures var (s, t) := (Run(events), Run(events + [Resume(c)]));
      && c < |t.calls|
      && (t.calls[c].phase.Waiting? ==> s.inFlight == Some(t.calls[c].phase.read))
      && (s.inFlight.None? ==> t.calls[c].phase.Reading? || t.calls[c].phase.Resolved?)
  {
    RunNext(events, Resume(c));
  }

  /* ---- Polls and foreground calls ---- */

  /** An active poll or foreground call with nothing registered starts one read, and registers it. */
  lemma CallReads(events: seq<Event>, kind: Kind)
    requires Run(events).active && Run(events).inFlight.None? && !kind.Mutation?
    ensures var (s, t) := (Run(events), Run(events + [Refresh(kind)]));
      && t.started == s.started + [Read(kind, s.generation, Running)]
      && t.inFlight == Some(|s.started|)
  {
    RunNext(events, Refresh(kind));
  }

  lemma {:induction false} ForegroundJoins(s: State)
    requires s.active
    ensures var t := RefreshStep(s, Foreground);
      && (s.inFlight.Some? ==> t.inFlight == s.inFlight && t.started == s.started)
      && t.inFlight.Some? && t.foregroundReads == s.foregroundReads + [t.inFlight.value]
      && |s.foregroundReads| in t.foregroundWaiters
  {
  }

  lemma {:induction false} WaitersSeeLoading(s: State)
    requires LoadingMatches(s) && s.foregroundWaiters != {}
    ensures s.loading != [] && s.loading[|s.loading| - 1]
  {
  }

  /** An active foreground call waits for the read that is then registered, and turns loading on. */
  lemma ForegroundWaits(events: seq<Event>)
    requires Run(events).active
    ensures var (s, t) := (Run(events), Run(events + [Refresh(Foreground)]));
      && t.inFlight.Some? && t.foregroundReads == s.foregroundReads + [t.inFlight.value]
      && (s.inFlight.Some? ==> t.inFlight == s.inFlight && t.started == s.started)
      && t.loading != [] && t.loading[|t.loading| - 1]
  {
    RunNext(events, Refresh(Foreground));
    ForegroundJoins(Run(events));
    LoadingAlternates(events + [Refresh(Foreground)]);
    WaitersSeeLoading(Run(events + [Refresh(Foreground)]));
  }

  /** An active mutation call is queued; it starts nothing yet. */
  lemma MutationQueues(events: seq<Event>)
    requires Run(events).active
    ensures var (s, t) := (Run(events), Run(events + [Refresh(Mutation)]));
      && |t.calls| == |s.calls| + 1 && t.calls[..|s.calls|] == s.calls
      && t.calls[|s.calls|].generation == GenerationAfter(events) && t.calls[|s.calls|].born == |s.started|
      && t.calls[|s.calls|].phase == Queued && t.started == s.started
  {
    RunNext(events, Refresh(Mutation));
    GenerationsAreTurns(events);
  }

  /** A call on an inactive coordinator, and a poll beside a registered read, do nothing. */
  lemma NothingToRefresh(events: seq<Event>, kind: Kind)
    requires !ActiveAfter(events) || (kind.Poll? && Run(events).inFlight.Some?)
    ensures Run(events + [Refresh(kind)]) == Run(events)
  {
    RunNext(events, Refresh(kind));
    GenerationsAreTurns(events);
  }

  /* ---- Reads ---- */

  ghost predicate SettledAs(r: Read, outcome: Outcome) {
    r.phase == ReadPhase.Settled(outcome) || r.phase == Done(outcome)
  }

  /** A read settles as its operation did, once and for all. */
  lemma {:induction false} ReadSettlesAsOperation(events: seq<Event>, n: nat, read: nat, outcome: Outcome)
    requires n < |events| && events[n] == OperationSettles(read, outcome)
    requires read < |Run(events[..n]).started| && Run(events[..n]).started[read].phase.Running?
    ensures read < |Run(events).started| && SettledAs(Run(events).started[read], outcome)
    decreases |events|
  {
    var last := |events| - 1;
    var s := Run(events[..last]);
    assert Run(events) == Next(s, events[last]);
    if n < last {
      assert events[..last][..n] == events[..n];
      ReadSettlesAsOperation(events[..last], n, read, outcome);
      ReadKeepsOutcome(s, events[last], read, outcome);
    } else {
      ReadSettlesNow(s, read, outcome);
    }
  }

  lemma {:induction false} ReadSettlesNow(s: State, read: nat, outcome: Outcome)
    requires read < |s.started| && s.started[read].phase.Running?
    ensures var t := Next(s, OperationSettles(read, outcome));
      read < |t.started| && SettledAs(t.started[read], outcome)
  {
  }

  lemma {:induction false} ReadKeepsOutcome(s: State, e: Event, read: nat, outcome: Outcome)
    requires read < |s.started| && SettledAs(s.started[read], outcome)
    ensures read < |Next(s, e).started| && SettledAs(Next(s, e).started[read], outcome)
  {
  }

  /** Its `finally` lets go of it, and of it alone. */
  lemma ReadIsLetGo(events: seq<Event>, read: nat)
    requires read < |Run(events).started| && Run(events).started[read].phase.Settled?
    ensures var (s, t) := (Run(events), Run(events + [Finally(read)]));
      && |t.started| == |s.started| && t.started[read].phase == Done(s.started[read].phase.outcome)
      && t.inFlight == if s.inFlight == Some(read) then None else s.inFlight
  {
    RunNext(events, Finally(read));
  }

  /* ---- Who waits, and what is reported ---- */

  /** A foreground call is answered only once its read is done, and then waits no more. */
  lemma ForegroundIsAnswered(events: seq<Event>, waiter: nat)
    requires waiter < |Run(events).foregroundReads|
    ensures var (s, t) := (Run(events), Run(events + [ForegroundSettles(waiter)]));
      var read := s.foregroundReads[waiter];
      if read < |s.started| && s.started[read].phase.Done?
      then t.foregroundWaiters == s.foregroundWaiters - {waiter} && t.started == s.started && t.calls == s.calls
      else t == s
  {
    RunNext(events, ForegroundSettles(waiter));
  }

  /** The foreground calls since the last disposal that have not settled. */
  function WaitersAfter(events: seq<Event>): set<nat> {
    if events == [] then {}
    else
      var before := events[..|events| - 1];
      match events[|events| - 1]
      case Refresh(Foreground) =>
        WaitersAfter(before) + if ActiveAfter(before) then {|Run(before).foregroundReads|} else {}
      case Dispose => {}
      case ForegroundSettles(w) => WaitersAfter(before) - if Enabled(Run(before), ForegroundSettles(w)) then {w} else {}
      case _ => WaitersAfter(before)
  }

  lemma {:induction false} WaitersAreUnsettled(events: seq<Event>)
    ensures Run(events).foregroundWaiters == WaitersAfter(events)
  {
    if events != [] {
      WaitersAreUnsettled(events[..|events| - 1]);
      GenerationsAreTurns(events[..|events| - 1]);
    }
  }

  /** A step reports loading exactly if it makes the first caller wait or lets the last one go. */
  lemma {:induction false} LoadingIsReportedOnChange(s: State, e: Event)
    ensures var t := Next(s, e);
      var changed := (s.foregroundWaiters == {}) != (t.foregroundWaiters == {});
      t.loading == s.loading + if changed then [t.foregroundWaiters != {}] else []
  {
    var t := Next(s, e);
    if e == Refresh(Foreground) && s.active {
      assert |s.foregroundReads| in t.foregroundWaiters;
    }
  }

  /* ---- Disposal ---- */

  /** The controller is that of the registered read. */
  lemma {:induction false} ControllerIsOfRegistered(events: seq<Event>)
    ensures Run(events).controller == Run(events).inFlight
  {
    if events != [] {
      ControllerIsOfRegistered(events[..|events| - 1]);
    }
  }

  /** A disposal aborts the registered read, and leaves none registered. */
  lemma DisposalAborts(events: seq<Event>)
    ensures var (s, t) := (Run(events), Run(events + [Dispose]));
      && t.inFlight.None? && t.started == s.started && t.calls == s.calls
      && t.aborted == s.aborted + if s.inFlight.Some? then {s.inFlight.value} else {}
  {
    RunNext(events, Dispose);
    ControllerIsOfRegistered(events);
  }

  /** A read is aborted only by a disposal while it was registered. */
  lemma {:induction false} AbortHasDisposal(events: seq<Event>, read: nat) returns (n: nat)
    requires read in Run(events).aborted
    ensures n < |events| && events[n] == Dispose && Run(events[..n]).inFlight == Some(read)
  {
    var last := |events| - 1;
    if read in Run(events[..last]).aborted {
      n := AbortHasDisposal(events[..last], read);
      assert events[..last][..n] == events[..n];
    } else {
      ControllerIsOfRegistered(events[..last]);
      n := last;
    }
  }
}
