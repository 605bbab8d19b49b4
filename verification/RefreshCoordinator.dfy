/**
  * Single-flight scheduling of board reads.
  *
  * The program's asynchronous code is a step system: one event is one block of
  * code that runs without an await, or one settlement of the read operation.
  */
module RefreshCoordinator {
  import opened Text

  datatype Kind = Foreground | Poll | Mutation

  /** How a promise of a boolean settles. */
  datatype Outcome = Committed | NotCommitted | Rejected

  /** The operation runs, then has settled but its `finally` has not run, then its promise is settled. */
  datatype ReadPhase = Running | Settled(outcome: Outcome) | Done(outcome: Outcome)

  datatype Read = Read(kind: Kind, generation: nat, phase: ReadPhase)

  /** A mutation call is queued behind the tail, awaits another read, awaits its own read, or is settled. */
  datatype CallPhase = Queued | Waiting(read: nat) | Reading | Resolved(outcome: Outcome)

  /** `born` is how many reads had started when the call was made; `after` is the tail it chained to. */
  datatype Call = Call(generation: nat, born: nat, after: Option<nat>, own: Option<nat>, phase: CallPhase)

  /** Reads, mutation calls and foreground calls are numbered in the order they were made. */
  datatype State = State(
    active: bool,
    generation: nat,
    controller: Option<nat>,
    inFlight: Option<nat>,
    mutationTail: Option<nat>,
    foregroundWaiters: set<nat>,
    started: seq<Read>,
    calls: seq<Call>,
    foregroundReads: seq<nat>,
    aborted: set<nat>,
    loading: seq<bool>)

  datatype Event =
    | Activate
    | Dispose
    | Refresh(kind: Kind)
    | Resume(call: nat)
    | OperationSettles(read: nat, outcome: Outcome)
    | Finally(read: nat)
    | ForegroundSettles(waiter: nat)

  const INITIAL := State(true, 0, None, None, None, {}, [], [], [], {}, [])

  /* ---- The atomic blocks ---- */

  function Start(s: State, kind: Kind, generation: nat): State {
    var read := |s.started|;
    s.(started := s.started + [Read(kind, generation, Running)],
       controller := Some(read),
       inFlight := if s.active && generation == s.generation then Some(read) else s.inFlight)
  }

  function TrackForeground(s: State, read: nat): State {
    s.(loading := if s.foregroundWaiters == {} then s.loading + [true] else s.loading,
       foregroundWaiters := s.foregroundWaiters + {|s.foregroundReads|},
       foregroundReads := s.foregroundReads + [read])
  }

  function RefreshStep(s: State, kind: Kind): State {
    if !s.active then s
    else match kind
      case Poll => if s.inFlight.Some? then s else Start(s, Poll, s.generation)
      case Foreground =>
        if s.inFlight.Some? then TrackForeground(s, s.inFlight.value)
        else TrackForeground(Start(s, Foreground, s.generation), |s.started|)
      case Mutation =>
        s.(calls := s.calls + [Call(s.generation, |s.started|, s.mutationTail, None, Queued)],
           mutationTail := Some(|s.calls|))
  }

  function ActivateStep(s: State): State {
    s.(active := true, generation := s.generation + 1, mutationTail := None)
  }

  function DisposeStep(s: State): State {
    s.(active := false,
       generation := s.generation + 1,
       aborted := if s.controller.Some? then s.aborted + {s.controller.value} else s.aborted,
       controller := None,
       inFlight := None,
       mutationTail := None,
       foregroundWaiters := {},
       loading := if s.foregroundWaiters != {} then s.loading + [false] else s.loading)
  }

  function FinallyStep(s: State, read: nat): State
    requires read < |s.started| && s.started[read].phase.Settled?
  {
    s.(started := s.started[read := s.started[read].(phase := Done(s.started[read].phase.outcome))],
       inFlight := if s.inFlight == Some(read) then None else s.inFlight,
       controller := if s.controller == Some(read) then None else s.controller)
  }

  function ForegroundSettlesStep(s: State, waiter: nat): State {
    if waiter !in s.foregroundWaiters then s
    else
      var left := s.foregroundWaiters - {waiter};
      s.(foregroundWaiters := left, loading := if left == {} then s.loading + [false] else s.loading)
  }

  /** A mutation call's loop: await whatever is in flight, then give up or read for itself. */
  function MutationLoop(s: State, call: nat): State
    requires call < |s.calls|
  {
    var c := s.calls[call];
    if s.inFlight.Some? then
      s.(calls := s.calls[call := c.(phase := Waiting(s.inFlight.value))])
    else if !s.active || c.generation != s.generation then
      s.(calls := s.calls[call := c.(phase := Resolved(NotCommitted))])
    else
      Start(s, Mutation, c.generation).(calls := s.calls[call := c.(own := Some(|s.started|), phase := Reading)])
  }

  predicate CanResume(s: State, call: nat) {
    && call < |s.calls|
    && var c := s.calls[call];
    match c.phase
    case Queued => c.after.None? || (c.after.value < |s.calls| && s.calls[c.after.value].phase.Resolved?)
    case Waiting(read) => read < |s.started| && s.started[read].phase.Done?
    case Reading => c.own.Some? && c.own.value < |s.started| && s.started[c.own.value].phase.Done?
    case Resolved(_) => false
  }

  function ResumeStep(s: State, call: nat): State
    requires CanResume(s, call)
  {
    var c := s.calls[call];
    match c.phase
    case Queued => MutationLoop(s, call)
    case Waiting(read) =>
      if s.started[read].phase.outcome == Rejected
      then s.(calls := s.calls[call := c.(phase := Resolved(Rejected))])
      else MutationLoop(s, call)
    case Reading =>
      s.(calls := s.calls[call := c.(phase := Resolved(s.started[c.own.value].phase.outcome))])
  }

  predicate Enabled(s: State, e: Event) {
    match e
    case Resume(call) => CanResume(s, call)
    case OperationSettles(read, _) => read < |s.started| && s.started[read].phase == Running
    case Finally(read) => read < |s.started| && s.started[read].phase.Settled?
    case ForegroundSettles(waiter) =>
      && waiter < |s.foregroundReads|
      && s.foregroundReads[waiter] < |s.started|
      && s.started[s.foregroundReads[waiter]].phase.Done?
    case _ => true
  }

  /** An event that is not enabled does not happen. */
  function Next(s: State, e: Event): State {
    if !Enabled(s, e) then s
    else match e
      case Activate => ActivateStep(s)
      case Dispose => DisposeStep(s)
      case Refresh(kind) => RefreshStep(s, kind)
      case Resume(call) => ResumeStep(s, call)
      case OperationSettles(read, outcome) =>
        s.(started := s.started[read := s.started[read].(phase := ReadPhase.Settled(outcome))])
      case Finally(read) => FinallyStep(s, read)
      case ForegroundSettles(waiter) => ForegroundSettlesStep(s, waiter)
  }

  function Run(events: seq<Event>): State {
    if events == [] then INITIAL else Next(Run(events[..|events| - 1]), events[|events| - 1])
  }

  /* ---- Single flight ---- */

  /**
    * Reads of one generation never overlap: an earlier one has settled before a
    * later one starts, and an unsettled read of the current generation is the registered one.
    */
  ghost predicate SingleFlight(s: State) {
    && (s.inFlight.Some? ==> s.inFlight.value < |s.started| && !s.started[s.inFlight.value].phase.Done?)
    && (forall r | 0 <= r < |s.started| :: s.started[r].generation <= s.generation)
    && (forall r | 0 <= r < |s.started| && s.started[r].generation == s.generation && !s.started[r].phase.Done? ::
        s.inFlight == Some(r))
    && (forall q, r | 0 <= q < r < |s.started| && s.started[q].generation == s.started[r].generation ::
        s.started[q].phase.Done?)
  }

  /** Every read starts in the current generation with no read registered. */
  lemma StartKeepsSingleFlight(s: State, kind: Kind)
    requires SingleFlight(s) && s.active && s.inFlight.None?
    ensures SingleFlight(Start(s, kind, s.generation))
  {
  }

  lemma {:induction false} ResumeKeepsSingleFlight(s: State, call: nat)
    requires SingleFlight(s) && CanResume(s, call)
    ensures SingleFlight(ResumeStep(s, call))
  {
    if s.active && s.inFlight.None? {
      StartKeepsSingleFlight(s, Mutation);
    }
  }

  lemma PhaseKeepsSingleFlight(s: State, read: nat, phase: ReadPhase, inFlight: Option<nat>)
    requires SingleFlight(s)
    requires read < |s.started| && !s.started[read].phase.Done?
    requires inFlight == if phase.Done? && s.inFlight == Some(read) then None else s.inFlight
    ensures SingleFlight(s.(started := s.started[read := s.started[read].(phase := phase)], inFlight := inFlight))
  {
  }

  lemma {:induction false} SingleFlightStep(s: State, e: Event)
    requires SingleFlight(s)
    ensures SingleFlight(Next(s, e))
  {
    if Enabled(s, e) {
      match e
      case Refresh(kind) =>
        if s.active && s.inFlight.None? {
          StartKeepsSingleFlight(s, kind);
        }
      case Resume(call) => ResumeKeepsSingleFlight(s, call);
      case OperationSettles(read, outcome) =>
        PhaseKeepsSingleFlight(s, read, ReadPhase.Settled(outcome), s.inFlight);
      case Finally(read) => FinallyKeepsSingleFlight(s, read);
      case _ =>
    }
  }

  lemma {:induction false} FinallyKeepsSingleFlight(s: State, read: nat)
    requires SingleFlight(s) && read < |s.started| && s.started[read].phase.Settled?
    ensures SingleFlight(FinallyStep(s, read))
  {
    PhaseKeepsSingleFlight(s, read, Done(s.started[read].phase.outcome), FinallyStep(s, read).inFlight);
  }

  lemma {:induction false} ReadsNeverOverlap(events: seq<Event>)
    ensures SingleFlight(Run(events))
  {
    if events != [] {
      ReadsNeverOverlap(events[..|events| - 1]);
      SingleFlightStep(Run(events[..|events| - 1]), events[|events| - 1]);
    }
  }

  /** At most one read of each generation is unsettled, in every reachable state. */
  lemma OneUnsettledReadPerGeneration(events: seq<Event>, q: nat, r: nat)
    requires var s := Run(events);
      && q < |s.started| && r < |s.started|
      && s.started[q].generation == s.started[r].generation
      && !s.started[q].phase.Done? && !s.started[r].phase.Done?
    ensures q == r
  {
    ReadsNeverOverlap(events);
  }

  /** A read starts only in the current generation, while active and with no read registered, and alone. */
  lemma StartsAreCurrentAndAlone(events: seq<Event>, e: Event)
    ensures var (s, t) := (Run(events), Next(Run(events), e));
      || |t.started| == |s.started|
      || (&& s.active && s.inFlight.None?
          && (exists kind :: t.started == s.started + [Read(kind, s.generation, Running)])
          && (forall r | 0 <= r < |s.started| && s.started[r].generation == s.generation ::
               s.started[r].phase.Done?))
  {
    ReadsNeverOverlap(events);
    var (s, t) := (Run(events), Next(Run(events), e));
    if Enabled(s, e) {
      match e
      case Refresh(kind) =>
        if |t.started| > |s.started| {
          assert t.started == s.started + [Read(kind, s.generation, Running)];
        }
      case Resume(_) =>
        if |t.started| > |s.started| {
          assert t.started == s.started + [Read(Mutation, s.generation, Running)];
        }
      case _ =>
    }
  }

  /* ---- Mutations ---- */

  /** Each call chains to the latest earlier call of its generation; the tail is the latest of the current one. */
  ghost predicate Chained(calls: seq<Call>, tail: Option<nat>, generation: nat) {
    && (tail.Some? ==> tail.value < |calls| && calls[tail.value].generation == generation)
    && (forall c | 0 <= c < |calls| :: calls[c].generation <= generation)
    && (forall c | 0 <= c < |calls| && calls[c].generation == generation :: tail.Some? && c <= tail.value)
    && (forall c | 0 <= c < |calls| && calls[c].after.Some? ::
        calls[c].after.value < c && calls[calls[c].after.value].generation == calls[c].generation)
    && (forall b, c | 0 <= b < c < |calls| && calls[b].generation == calls[c].generation ::
        calls[c].after.Some? && b <= calls[c].after.value)
  }

  /** Calls of one generation leave the queue in order, each after the ones before have settled. */
  ghost predicate InOrder(calls: seq<Call>) {
    forall b, c | 0 <= b < c < |calls| && calls[b].generation == calls[c].generation && !calls[c].phase.Queued? ::
      calls[b].phase.Resolved?
  }

  /** A call that got as far as reading has a mutation read of its own, started after the call was made. */
  ghost predicate OwnRead(c: Call, started: seq<Read>) {
    && c.born <= |started|
    && (c.phase.Queued? || c.phase.Waiting? ==> c.own.None?)
    && (c.phase.Reading? || c.phase == Resolved(Committed) ==> c.own.Some?)
    && (c.own.Some? ==>
        && c.born <= c.own.value < |started|
        && started[c.own.value].kind == Mutation
        && started[c.own.value].generation == c.generation
        && (c.phase.Resolved? ==> started[c.own.value].phase == Done(c.phase.outcome)))
  }

  ghost predicate OwnReads(calls: seq<Call>, started: seq<Read>) {
    forall c | 0 <= c < |calls| :: OwnRead(calls[c], started)
  }

  /** Own reads are in call order, so no two calls share one. */
  ghost predicate ReadsInOrder(calls: seq<Call>) {
    forall b, c | 0 <= b < c < |calls| && calls[b].generation == calls[c].generation
                  && calls[b].own.Some? && calls[c].own.Some? ::
      calls[b].own.value < calls[c].own.value
  }

  ghost predicate Mutations(s: State) {
    && Chained(s.calls, s.mutationTail, s.generation)
    && InOrder(s.calls)
    && OwnReads(s.calls, s.started)
    && ReadsInOrder(s.calls)
  }

  /** Resuming moves one call out of the queue, and may start one read for it. */
  ghost predicate Advances(s: State, t: State, call: nat) {
    && call < |s.calls| && |t.calls| == |s.calls|
    && var (before, after) := (s.calls[call], t.calls[call]);
    && t.calls == s.calls[call := after]
    && after == before.(own := after.own, phase := after.phase)
    && !before.phase.Resolved? && !after.phase.Queued?
    && (before.phase.Queued? && before.after.Some? ==>
        before.after.value < |s.calls| && s.calls[before.after.value].phase.Resolved?)
    && t.generation == s.generation && t.mutationTail == s.mutationTail
    && if after.own == before.own then
         && t.started == s.started
         && (after.phase.Waiting? || after.phase.Resolved?)
         && (after.phase == Resolved(Committed) ==> before.phase.Reading?)
         && (before.phase.Reading? ==>
             && after.phase.Resolved? && before.own.Some? && before.own.value < |s.started|
             && s.started[before.own.value].phase == Done(after.phase.outcome))
         && (after.phase.Waiting? ==> !before.phase.Reading?)
       else
         && after.own == Some(|s.started|) && after.phase == Reading
         && t.started == s.started + [Read(Mutation, before.generation, Running)]
  }

  lemma {:induction false} ResumeAdvances(s: State, call: nat)
    requires CanResume(s, call) && OwnReads(s.calls, s.started)
    ensures Advances(s, ResumeStep(s, call), call)
  {
    assert OwnRead(s.calls[call], s.started);
  }

  lemma AdvanceKeepsChain(s: State, t: State, call: nat)
    requires Chained(s.calls, s.mutationTail, s.generation) && Advances(s, t, call)
    ensures Chained(t.calls, t.mutationTail, t.generation)
  {
    forall i | 0 <= i < |t.calls|
      ensures t.calls[i].generation == s.calls[i].generation && t.calls[i].after == s.calls[i].after
    {
    }
  }

  lemma AdvanceKeepsOrder(s: State, t: State, call: nat)
    requires Mutations(s) && Advances(s, t, call)
    ensures InOrder(t.calls)
  {
    var generation := s.calls[call].generation;
    forall b | 0 <= b < call && s.calls[b].generation == generation
      ensures s.calls[b].phase.Resolved?
    {
      if s.calls[call].phase.Queued? {
        assert b <= s.calls[call].after.value;
      }
    }
    forall c | call < c < |s.calls| && s.calls[c].generation == generation
      ensures s.calls[c].phase.Queued?
    {
    }
  }

  lemma AdvanceKeepsReads(s: State, t: State, call: nat)
    requires Mutations(s) && Advances(s, t, call)
    ensures OwnReads(t.calls, t.started)
  {
    forall c | 0 <= c < |t.calls| ensures OwnRead(t.calls[c], t.started) {
      assert OwnRead(s.calls[c], s.started);
    }
  }

  lemma AdvanceKeepsReadsInOrder(s: State, t: State, call: nat)
    requires Mutations(s) && Advances(s, t, call)
    ensures ReadsInOrder(t.calls)
  {
    forall c | 0 <= c < |s.calls| && s.calls[c].own.Some? ensures s.calls[c].own.value < |s.started| {
      assert OwnRead(s.calls[c], s.started);
    }
    if t.calls[call].own != s.calls[call].own {
      forall c | call < c < |s.calls| && s.calls[c].generation == s.calls[call].generation
        ensures s.calls[c].own.None?
      {
        assert OwnRead(s.calls[c], s.started);
      }
    }
  }

  lemma {:induction false} CallKeepsMutations(s: State)
    requires Mutations(s) && s.active
    ensures Mutations(RefreshStep(s, Mutation))
  {
    var t := RefreshStep(s, Mutation);
    CallKeepsChain(s.calls, s.mutationTail, s.generation, t.calls[|s.calls|]);
    CallKeepsOrder(s.calls, t.calls[|s.calls|]);
    forall c | 0 <= c < |t.calls| ensures OwnRead(t.calls[c], t.started) {
      if c < |s.calls| {
        assert OwnRead(s.calls[c], s.started);
      }
    }
  }

  lemma {:induction false} CallKeepsOrder(calls: seq<Call>, call: Call)
    requires InOrder(calls) && ReadsInOrder(calls) && call.phase.Queued? && call.own.None?
    ensures InOrder(calls + [call]) && ReadsInOrder(calls + [call])
  {
  }

  lemma {:induction false} CallKeepsChain(calls: seq<Call>, tail: Option<nat>, generation: nat, call: Call)
    requires Chained(calls, tail, generation) && call.generation == generation && call.after == tail
    ensures Chained(calls + [call], Some(|calls|), generation)
  {
  }

  /** What the other events may do: settle or start reads, and move to a later generation. */
  lemma OthersKeepMutations(s: State, t: State)
    requires Mutations(s)
    requires t.calls == s.calls
    requires (t.generation == s.generation && t.mutationTail == s.mutationTail)
          || (t.generation > s.generation && t.mutationTail == None)
    requires |s.started| <= |t.started|
    requires forall r | 0 <= r < |s.started| ::
      && t.started[r].kind == s.started[r].kind && t.started[r].generation == s.started[r].generation
      && (s.started[r].phase.Done? ==> t.started[r] == s.started[r])
    ensures Mutations(t)
  {
    forall c | 0 <= c < |t.calls| ensures OwnRead(t.calls[c], t.started) {
      assert OwnRead(s.calls[c], s.started);
    }
  }

  lemma {:induction false} MutationsStep(s: State, e: Event)
    requires Mutations(s)
    ensures Mutations(Next(s, e))
  {
    var t := Next(s, e);
    if e == Refresh(Mutation) && s.active {
      CallKeepsMutations(s);
    } else if e.Resume? && Enabled(s, e) {
      ResumeAdvances(s, e.call);
      AdvanceKeepsChain(s, t, e.call);
      AdvanceKeepsOrder(s, t, e.call);
      AdvanceKeepsReads(s, t, e.call);
      AdvanceKeepsReadsInOrder(s, t, e.call);
    } else {
      OtherEventsKeepMutations(s, e);
    }
  }

  lemma {:induction false} OtherEventsKeepMutations(s: State, e: Event)
    requires Mutations(s)
    requires !(e == Refresh(Mutation) && s.active) && !(e.Resume? && Enabled(s, e))
    ensures Mutations(Next(s, e))
  {
    OthersKeepMutations(s, Next(s, e));
  }

  lemma {:induction false} MutationsHold(events: seq<Event>)
    ensures Mutations(Run(events))
  {
    if events != [] {
      MutationsHold(events[..|events| - 1]);
      MutationsStep(Run(events[..|events| - 1]), events[|events| - 1]);
    }
  }

  /** Mutation calls of a generation read one after the other, in call order. */
  lemma MutationReadsAreFifo(events: seq<Event>, b: nat, c: nat)
    requires var s := Run(events);
      && b < c < |s.calls| && s.calls[b].generation == s.calls[c].generation && s.calls[c].own.Some?
    ensures var s := Run(events);
      && s.calls[b].phase.Resolved?
      && (s.calls[b].own.Some? ==>
          && s.calls[b].own.value < s.calls[c].own.value < |s.started|
          && s.started[s.calls[b].own.value].phase.Done?)
  {
    MutationsHold(events);
    assert OwnRead(Run(events).calls[b], Run(events).started);
    assert OwnRead(Run(events).calls[c], Run(events).started);
  }

  /** No two mutation calls, of whatever generations, share a read. */
  lemma MutationReadsAreNotShared(events: seq<Event>, b: nat, c: nat)
    requires var s := Run(events);
      && b < |s.calls| && c < |s.calls| && s.calls[b].own.Some? && s.calls[b].own == s.calls[c].own
    ensures b == c
  {
    MutationsHold(events);
    assert OwnRead(Run(events).calls[b], Run(events).started);
    assert OwnRead(Run(events).calls[c], Run(events).started);
  }

  /** A mutation call that resolves true did so from a read of its own that started after the call. */
  lemma MutationTrueHasLaterRead(events: seq<Event>, c: nat)
    requires var s := Run(events); c < |s.calls| && s.calls[c].phase == Resolved(Committed)
    ensures var s := Run(events);
      && s.calls[c].own.Some?
      && s.calls[c].born <= s.calls[c].own.value < |s.started|
      && s.started[s.calls[c].own.value] == Read(Mutation, s.calls[c].generation, Done(Committed))
  {
    MutationsHold(events);
    assert OwnRead(Run(events).calls[c], Run(events).started);
  }

  /* ---- No call is ever stuck ---- */

  /** A call waits for a read that was started. */
  ghost predicate WaitsForReads(s: State) {
    forall c | 0 <= c < |s.calls| && s.calls[c].phase.Waiting? :: s.calls[c].phase.read < |s.started|
  }

  lemma {:induction false} WaitsForReadsStep(s: State, e: Event)
    requires WaitsForReads(s) && SingleFlight(s)
    ensures WaitsForReads(Next(s, e))
  {
  }

  lemma {:induction false} CallsWaitForReads(events: seq<Event>)
    ensures WaitsForReads(Run(events))
    decreases |events|
  {
    if events != [] {
      CallsWaitForReads(events[..|events| - 1]);
      ReadsNeverOverlap(events[..|events| - 1]);
      WaitsForReadsStep(Run(events[..|events| - 1]), events[|events| - 1]);
    }
  }

  /** What goes on by itself, with no further call from outside. */
  predicate IsProgress(e: Event) {
    e.Resume? || e.OperationSettles? || e.Finally?
  }

  function NextOf(s: State, read: nat): (e: Event)
    requires read < |s.started| && !s.started[read].phase.Done?
    ensures IsProgress(e) && Enabled(s, e)
  {
    if s.started[read].phase.Running? then OperationSettles(read, NotCommitted) else Finally(read)
  }

  /** Behind an unresolved call there is a read that is not done, or a call that can resume. */
  lemma {:induction false} BehindCall(events: seq<Event>, c: nat) returns (e: Event)
    requires c < |Run(events).calls| && !Run(events).calls[c].phase.Resolved?
    ensures IsProgress(e) && Enabled(Run(events), e)
    ensures (forall r | 0 <= r < |Run(events).started| :: Run(events).started[r].phase.Done?) ==> e.Resume?
    decreases c
  {
    var s := Run(events);
    MutationsHold(events);
    CallsWaitForReads(events);
    assert OwnRead(s.calls[c], s.started);
    match s.calls[c].phase
    case Queued =>
      if s.calls[c].after.Some? && !s.calls[s.calls[c].after.value].phase.Resolved? {
        e := BehindCall(events, s.calls[c].after.value);
      } else {
        e := Resume(c);
      }
    case Waiting(read) => e := if s.started[read].phase.Done? then Resume(c) else NextOf(s, read);
    case Reading =>
      var read := s.calls[c].own.value;
      e := if s.started[read].phase.Done? then Resume(c) else NextOf(s, read);
  }

  function Sum(numbers: seq<nat>): nat {
    if numbers == [] then 0 else Sum(numbers[..|numbers| - 1]) + numbers[|numbers| - 1]
  }

  lemma {:induction false} SumAfter(numbers: seq<nat>, i: nat, n: nat)
    requires i < |numbers|
    ensures Sum(numbers[i := n]) + numbers[i] == Sum(numbers) + n
    decreases |numbers|
  {
    var (last, after) := (|numbers| - 1, numbers[i := n]);
    if i < last {
      SumAfter(numbers[..last], i, n);
      assert after[..last] == numbers[..last][i := n];
    } else {
      assert after[..last] == numbers[..last];
    }
  }

  /** How much is left to do for a call and for a read. */
  function CallLeft(c: Call): nat {
    match c.phase
    case Resolved(_) => 0
    case Reading => 1
    case _ => 2
  }

  function ReadLeft(r: Read): nat {
    match r.phase
    case Running => 2
    case Settled(_) => 1
    case Done(_) => 0
  }

  function CallsLeft(calls: seq<Call>): nat {
    Sum(seq(|calls|, i requires 0 <= i < |calls| => CallLeft(calls[i])))
  }

  function ReadsLeft(started: seq<Read>): nat {
    Sum(seq(|started|, i requires 0 <= i < |started| => ReadLeft(started[i])))
  }

  lemma {:induction false} CallsLeftAfter(calls: seq<Call>, i: nat, c: Call)
    requires i < |calls|
    ensures CallsLeft(calls[i := c]) + CallLeft(calls[i]) == CallsLeft(calls) + CallLeft(c)
  {
    var lefts := seq(|calls|, k requires 0 <= k < |calls| => CallLeft(calls[k]));
    var after := calls[i := c];
    SumAfter(lefts, i, CallLeft(c));
    assert seq(|after|, k requires 0 <= k < |after| => CallLeft(after[k])) == lefts[i := CallLeft(c)];
  }

  lemma {:induction false} ReadsLeftAfter(started: seq<Read>, i: nat, r: Read)
    requires i < |started|
    ensures ReadsLeft(started[i := r]) + ReadLeft(started[i]) == ReadsLeft(started) + ReadLeft(r)
  {
    var lefts := seq(|started|, k requires 0 <= k < |started| => ReadLeft(started[k]));
    var after := started[i := r];
    SumAfter(lefts, i, ReadLeft(r));
    assert seq(|after|, k requires 0 <= k < |after| => ReadLeft(after[k])) == lefts[i := ReadLeft(r)];
  }

  /** Settling a read brings it forward and moves no call. */
  lemma {:induction false} ReadGoesOn(s: State, read: nat)
    requires read < |s.started| && !s.started[read].phase.Done?
    ensures var t := Next(s, NextOf(s, read));
      && t.calls == s.calls
      && ReadsLeft(t.started) < ReadsLeft(s.started)
  {
    var t := Next(s, NextOf(s, read));
    ReadsLeftAfter(s.started, read, t.started[read]);
  }

  /** Once every read is done, a call that resumes comes forward. */
  lemma {:induction false} CallGoesOn(s: State, call: nat)
    requires SingleFlight(s) && CanResume(s, call)
    requires forall r | 0 <= r < |s.started| :: s.started[r].phase.Done?
    ensures var t := Next(s, Resume(call));
      |t.calls| == |s.calls| && CallsLeft(t.calls) < CallsLeft(s.calls)
  {
    var t := Next(s, Resume(call));
    assert s.inFlight.None?;
    assert t.calls == s.calls[call := t.calls[call]];
    CallsLeftAfter(s.calls, call, t.calls[call]);
  }

  /**
    * In every reachable state any call can still be resolved by what goes on by itself: reads that settle
    * and calls that resume. So no chain of calls and reads ever waits for itself.
    */
  lemma {:induction false} CallCanResolve(events: seq<Event>, c: nat) returns (more: seq<Event>)
    requires c < |Run(events).calls|
    ensures forall i | 0 <= i < |more| :: IsProgress(more[i])
    ensures c < |Run(events + more).calls| && Run(events + more).calls[c].phase.Resolved?
    decreases CallsLeft(Run(events).calls), ReadsLeft(Run(events).started)
  {
    var s := Run(events);
    if s.calls[c].phase.Resolved? {
      assert events + [] == events;
      return [];
    }
    var e: Event;
    if read: nat :| read < |s.started| && !s.started[read].phase.Done? {
      e := NextOf(s, read);
      ReadGoesOn(s, read);
    } else {
      e := BehindCall(events, c);
      ReadsNeverOverlap(events);
      CallGoesOn(s, e.call);
    }
    RunNext(events, e);
    var rest := CallCanResolve(events + [e], c);
    ConcatAssociates(events, [e], rest);
    more := [e] + rest;
  }

  lemma RunNext(events: seq<Event>, e: Event)
    ensures Run(events + [e]) == Next(Run(events), e)
  {
    assert (events + [e])[..|events|] == events;
  }

  /* ---- Loading callbacks ---- */

  /** The callbacks alternate, true first, and the last one says whether anyone waits. */
  ghost predicate LoadingMatches(s: State) {
    && (forall i | 0 <= i < |s.loading| :: s.loading[i] == (i % 2 == 0))
    && (s.foregroundWaiters != {} <==> |s.loading| % 2 == 1)
    && (forall w | w in s.foregroundWaiters :: w < |s.foregroundReads|)
  }

  lemma {:induction false} LoadingStep(s: State, e: Event)
    requires LoadingMatches(s)
    ensures LoadingMatches(Next(s, e))
  {
    if e == Refresh(Foreground) && s.active {
      TrackKeepsLoading(s, if s.inFlight.Some? then s.inFlight.value else |s.started|);
    } else if e.ForegroundSettles? {
      ForegroundKeepsLoading(s, e.waiter);
    }
  }

  lemma {:induction false} TrackKeepsLoading(s: State, read: nat)
    requires LoadingMatches(s)
    ensures LoadingMatches(TrackForeground(s, read))
  {
    assert |s.foregroundReads| in TrackForeground(s, read).foregroundWaiters;
  }

  lemma {:induction false} ForegroundKeepsLoading(s: State, waiter: nat)
    requires LoadingMatches(s)
    ensures LoadingMatches(ForegroundSettlesStep(s, waiter))
  {
  }

  lemma {:induction false} LoadingAlternates(events: seq<Event>)
    ensures LoadingMatches(Run(events))
  {
    if events != [] {
      LoadingAlternates(events[..|events| - 1]);
      LoadingStep(Run(events[..|events| - 1]), events[|events| - 1]);
    }
  }

  /* ---- The coordinator ---- */

  lemma DisposeIsNext(s: State)
    ensures Next(s, Dispose) == DisposeStep(s)
  {
  }

  /** What a call to `refresh` hands back. */
  datatype Promise = ResolvedFalse | OfRead(read: nat) | OfForeground(waiter: nat) | OfMutation(call: nat)

  class BoardRefreshCoordinator {
    var active: bool
    var generation: nat
    var controller: Option<nat>
    var inFlight: Option<nat>
    var mutationTail: Option<nat>
    var foregroundWaiters: set<nat>

    // Promises and callbacks outside the object: what has started, been asked, aborted and reported.
    var started: seq<Read>
    var calls: seq<Call>
    var foregroundReads: seq<nat>
    var aborted: set<nat>
    var loading: seq<bool>

    function View(): State
      reads this
    {
      State(active, generation, controller, inFlight, mutationTail, foregroundWaiters,
            started, calls, foregroundReads, aborted, loading)
    }

    constructor ()
      ensures View() == INITIAL
    {
      active, generation := true, 0;
      controller, inFlight, mutationTail := None, None, None;
      foregroundWaiters, started, calls, foregroundReads, aborted, loading := {}, [], [], [], {}, [];
    }

    method Activate()
      modifies this
      ensures View() == Next(old(View()), Event.Activate)
    {
      active := true;
      generation := generation + 1;
      mutationTail := None;
    }

    method Refresh(kind: Kind) returns (promise: Promise)
      modifies this
      ensures View() == Next(old(View()), Event.Refresh(kind))
      ensures promise == if !old(active) || (kind.Poll? && old(inFlight).Some?) then ResolvedFalse
                         else match kind
                           case Poll => OfRead(|old(started)|)
                           case Foreground => OfForeground(|old(foregroundReads)|)
                           case Mutation => OfMutation(|old(calls)|)
    {
      if !active {
        return ResolvedFalse;
      }
      if kind == Poll {
        if inFlight != None {
          return ResolvedFalse;
        }
        var read := StartRead(kind, generation);
        return OfRead(read);
      }
      if kind == Foreground {
        var read;
        if inFlight.Some? {
          read := inFlight.value;
        } else {
          read := StartRead(kind, generation);
        }
        var waiter := Track(read);
        return OfForeground(waiter);
      }
      promise := OfMutation(|calls|);
      calls := calls + [Call(generation, |started|, mutationTail, None, Queued)];
      mutationTail := Some(|calls| - 1);
    }

    method Dispose()
      modifies this
      ensures View() == Next(old(View()), Event.Dispose)
    {
      DisposeIsNext(View());
      active := false;
      generation := generation + 1;
      if controller.Some? {
        aborted := aborted + {controller.value};
      }
      controller, inFlight, mutationTail := None, None, None;
      if foregroundWaiters != {} {
        foregroundWaiters, loading := {}, loading + [false];
      }
      assert View() == DisposeStep(old(View()));
    }

    method StartRead(kind: Kind, generation: nat) returns (read: nat)
      modifies this
      ensures read == |old(started)|
      ensures View() == Start(old(View()), kind, generation)
    {
      read := |started|;
      controller := Some(read);
      started := started + [Read(kind, generation, Running)];
      if active && generation == this.generation {
        inFlight := Some(read);
      }
    }

    method Track(read: nat) returns (waiter: nat)
      modifies this
      ensures waiter == |old(foregroundReads)|
      ensures View() == TrackForeground(old(View()), read)
    {
      waiter := |foregroundReads|;
      if foregroundWaiters == {} {
        loading := loading + [true];
      }
      foregroundWaiters := foregroundWaiters + {waiter};
      foregroundReads := foregroundReads + [read];
    }

    /** The `finally` of a read. */
    method ReadSettled(read: nat)
      requires Enabled(View(), Event.Finally(read))
      modifies this
      ensures View() == Next(old(View()), Event.Finally(read))
    {
      if inFlight == Some(read) {
        inFlight := None;
      }
      if controller == Some(read) {
        controller := None;
      }
      started := started[read := started[read].(phase := Done(started[read].phase.outcome))];
    }

    /** The `finally` of a foreground waiter. */
    method ForegroundSettled(waiter: nat)
      requires Enabled(View(), ForegroundSettles(waiter))
      modifies this
      ensures View() == Next(old(View()), ForegroundSettles(waiter))
    {
      if waiter !in foregroundWaiters {
        return;
      }
      foregroundWaiters := foregroundWaiters - {waiter};
      if foregroundWaiters == {} {
        loading := loading + [false];
      }
    }

    /** A mutation call runs on from the promise it awaited. */
    method ResumeCall(call: nat)
      requires Enabled(View(), Resume(call))
      modifies this
      ensures View() == Next(old(View()), Resume(call))
    {
      var c := calls[call];
      if c.phase.Reading? {
        calls := calls[call := c.(phase := Resolved(started[c.own.value].phase.outcome))];
        return;
      }
      if c.phase.Waiting? && started[c.phase.read].phase.outcome == Rejected {
        calls := calls[call := c.(phase := Resolved(Rejected))];
        return;
      }
      if inFlight.Some? {
        calls := calls[call := c.(phase := Waiting(inFlight.value))];
      } else if !active || c.generation != generation {
        calls := calls[call := c.(phase := Resolved(NotCommitted))];
      } else {
        var read := StartRead(Mutation, c.generation);
        calls := calls[call := c.(own := Some(read), phase := Reading)];
      }
    }
  }
}
