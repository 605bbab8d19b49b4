/** The fleet around its lanes: workers are created together, and closed whichever way the run ends. */
module TaskFleet {

  /** `run` not called, creating workers, running lanes, leaving through `finally`, or settled. */
  datatype Phase = Idle | Creating | Working | Leaving | Settled

  /** Workers are known by the index of their agent. */
  datatype State = State(
    agents: nat,
    phase: Phase,
    delivered: set<nat>,
    refused: set<nat>,
    lanes: set<nat>,
    aborted: bool,
    closeCalled: bool,
    stopping: bool,
    closed: set<nat>)

  /** Blocks of code between awaits, and what the outside does in between. */
  datatype Event =
    | Run
    | SignalAborts
    | Delivers(worker: nat)
    | Refuses(worker: nat)
    | CreationSettles
    | LanesSettle
    | Finally
    | Close

  function Initial(agents: nat): State {
    State(agents, Idle, {}, {}, {}, false, false, false, {})
  }

  predicate Pending(s: State, worker: nat) {
    worker < s.agents && worker !in s.delivered && worker !in s.refused
  }

  /** `close()`: the first call closes the lanes there are at that moment. */
  function CloseStep(s: State): State {
    var t := s.(aborted := true);
    if s.closeCalled then t else t.(closeCalled := true, stopping := true, closed := s.closed + s.lanes)
  }

  function CreationSettlesStep(s: State): State {
    if s.refused != {} then s.(closed := s.closed + s.delivered, phase := Leaving)
    else
      var t := s.(lanes := s.delivered);
      if s.aborted || s.closeCalled then t.(closed := s.closed + s.delivered, phase := Leaving)
      else t.(phase := Working)
  }

  predicate Enabled(s: State, e: Event) {
    match e
    case Delivers(worker) => s.phase.Creating? && Pending(s, worker)
    case Refuses(worker) => s.phase.Creating? && Pending(s, worker)
    case CreationSettles => s.phase.Creating? && forall worker: nat | worker < s.agents :: !Pending(s, worker)
    case LanesSettle => s.phase.Working?
    case Finally => s.phase.Leaving?
    case _ => true
  }

  function Next(s: State, e: Event): State {
    if !Enabled(s, e) then s
    else match e
      case Run => if s.phase.Idle? && !s.closeCalled then s.(phase := Creating) else s
      case SignalAborts => s.(aborted := true)
      case Delivers(worker) => s.(delivered := s.delivered + {worker})
      case Refuses(worker) => s.(refused := s.refused + {worker})
      case CreationSettles => CreationSettlesStep(s)
      case LanesSettle => s.(phase := Leaving)
      case Finally => CloseStep(s.(stopping := true)).(phase := Settled)
      case Close => CloseStep(s)
  }

  function RunOf(agents: nat, events: seq<Event>): State {
    if events == [] then Initial(agents)
    else Next(RunOf(agents, events[..|events| - 1]), events[|events| - 1])
  }

  /** Once `close` has been called with the lanes in place, every lane's worker is closed. */
  ghost predicate Accounted(s: State) {
    && (s.phase.Idle? ==> s.delivered == {})
    && (s.phase.Idle? || s.phase.Creating? ==> s.lanes == {} && s.closed == {})
    && (s.phase.Working? ==> s.lanes == s.delivered && s.refused == {})
    && (s.closeCalled && !s.phase.Idle? && !s.phase.Creating? ==> s.lanes == {} || s.delivered <= s.closed)
    && (s.phase.Leaving? ==> s.delivered <= s.closed || (s.lanes == s.delivered && s.refused == {}))
    && (s.phase.Settled? ==> s.delivered <= s.closed)
    && s.closed <= s.delivered && s.lanes <= s.delivered
  }

  lemma AccountedStep(s: State, e: Event)
    requires Accounted(s)
    ensures Accounted(Next(s, e))
  {
  }

  lemma {:induction false} RunsAreAccounted(agents: nat, events: seq<Event>)
    ensures Accounted(RunOf(agents, events))
  {
    if events != [] {
      RunsAreAccounted(agents, events[..|events| - 1]);
      AccountedStep(RunOf(agents, events[..|events| - 1]), events[|events| - 1]);
    }
  }

  /** When `run` settles, exactly the workers that were delivered have had `close` called. */
  lemma DeliveredWorkersAreClosed(agents: nat, events: seq<Event>)
    requires RunOf(agents, events).phase.Settled?
    ensures RunOf(agents, events).closed == RunOf(agents, events).delivered
  {
    RunsAreAccounted(agents, events);
  }

  /* ---- The fleet gets to work, and its run can always settle ---- */

  /** Until the run leaves, aborts and closes are those of the events; every answer is some agent's, and only one. */
  ghost predicate Heard(s: State, events: seq<Event>) {
    && (s.phase.Idle? || s.phase.Creating? || s.phase.Working? || s.phase.Leaving? ==>
        && (s.aborted <==> SignalAborts in events || Close in events)
        && (s.closeCalled <==> Close in events))
    && s.delivered !! s.refused
    && (forall worker | worker in s.delivered :: worker < s.agents)
    && (forall worker | worker in s.refused :: worker < s.agents)
  }

  lemma {:induction false} HeardNext(s: State, before: seq<Event>, e: Event)
    requires Heard(s, before)
    ensures Heard(Next(s, e), before + [e]) && Next(s, e).agents == s.agents
  {
    var after := before + [e];
    assert SignalAborts in after <==> SignalAborts in before || e == SignalAborts;
    assert Close in after <==> Close in before || e == Close;
  }

  lemma {:induction false} RunsHear(agents: nat, events: seq<Event>)
    ensures Heard(RunOf(agents, events), events) && RunOf(agents, events).agents == agents
  {
    if events != [] {
      var (before, last) := (events[..|events| - 1], events[|events| - 1]);
      RunsHear(agents, before);
      HeardNext(RunOf(agents, before), before, last);
      assert events == before + [last];
    }
  }

  lemma RunNext(agents: nat, events: seq<Event>, e: Event)
    ensures RunOf(agents, events + [e]) == Next(RunOf(agents, events), e)
  {
    assert (events + [e])[..|events|] == events;
  }

  /** A run starts creating workers exactly if the fleet was not closed before; each answer counts for its agent. */
  lemma CreationGoesOn(agents: nat, events: seq<Event>, worker: nat)
    ensures var s := RunOf(agents, events);
      && (s.phase.Idle? ==> (RunOf(agents, events + [Run]).phase.Creating? <==> Close !in events))
      && (s.phase.Creating? && Pending(s, worker) ==>
          && RunOf(agents, events + [Delivers(worker)]).delivered == s.delivered + {worker}
          && RunOf(agents, events + [Refuses(worker)]).refused == s.refused + {worker})
  {
    RunsHear(agents, events);
    RunNext(agents, events, Run);
    RunNext(agents, events, Delivers(worker));
    RunNext(agents, events, Refuses(worker));
  }

  /**
    * Once every agent has answered, the lanes of all agents run exactly if none was refused and nothing
    * has aborted or closed the fleet; otherwise the workers there are have been closed.
    */
  lemma LanesRunUnlessStopped(agents: nat, events: seq<Event>)
    requires RunOf(agents, events).phase.Creating? && Enabled(RunOf(agents, events), CreationSettles)
    ensures var (s, t) := (RunOf(agents, events), RunOf(agents, events + [CreationSettles]));
      if s.refused == {} && SignalAborts !in events && Close !in events
      then t.phase.Working? && forall worker: nat :: worker in t.lanes <==> worker < agents
      else t.phase.Leaving? && t.closed == s.delivered
  {
    RunsHear(agents, events);
    RunsAreAccounted(agents, events);
    RunNext(agents, events, CreationSettles);
    CreationLeads(RunOf(agents, events));
  }

  lemma {:induction false} CreationLeads(s: State)
    requires Accounted(s) && s.phase.Creating? && Enabled(s, CreationSettles)
    requires forall worker | worker in s.delivered :: worker < s.agents
    ensures var t := CreationSettlesStep(s);
      if s.refused == {} && !s.aborted && !s.closeCalled
      then t.phase.Working? && forall worker: nat :: worker in t.lanes <==> worker < s.agents
      else t.phase.Leaving? && t.closed == s.delivered
  {
    forall worker: nat | s.refused == {} ensures worker in s.delivered <==> worker < s.agents {
      assert worker < s.agents ==> !Pending(s, worker);
    }
  }

  /** The workers that have not answered yet, from `n` on. */
  function Unanswered(s: State, n: nat): nat
    requires n <= s.agents
    decreases s.agents - n
  {
    if n == s.agents then 0 else Unanswered(s, n + 1) + if Pending(s, n) then 1 else 0
  }

  lemma {:induction false} AnswerCounts(s: State, t: State, worker: nat, n: nat)
    requires n <= s.agents == t.agents && Pending(s, worker)
    requires t.delivered == s.delivered + {worker} && t.refused == s.refused
    ensures Unanswered(s, n) == Unanswered(t, n) + if n <= worker then 1 else 0
    decreases s.agents - n
  {
    if n < s.agents {
      AnswerCounts(s, t, worker, n + 1);
    }
  }

  /** What is left before a run settles. */
  function Left(s: State): nat {
    match s.phase
    case Idle => 0
    case Creating => 3 + Unanswered(s, 0)
    case Working => 2
    case Leaving => 1
    case Settled => 0
  }

  /** However far a run has come, answers of the workers and lanes that end let it settle. */
  lemma {:induction false} RunCanSettle(agents: nat, events: seq<Event>) returns (more: seq<Event>)
    requires !RunOf(agents, events).phase.Idle?
    ensures RunOf(agents, events + more).phase.Settled?
    ensures forall e | e in more :: e.Delivers? || e.CreationSettles? || e.LanesSettle? || e.Finally?
    decreases Left(RunOf(agents, events))
  {
    var s := RunOf(agents, events);
    RunsHear(agents, events);
    if s.phase.Settled? {
      assert events + [] == events;
      return [];
    }
    var e := Finally;
    if s.phase.Working? {
      e := LanesSettle;
    } else if s.phase.Creating? {
      if worker: nat :| worker < s.agents && Pending(s, worker) {
        e := Delivers(worker);
        AnswerCounts(s, Next(s, e), worker, 0);
      } else {
        e := CreationSettles;
      }
    }
    RunNext(agents, events, e);
    var rest := RunCanSettle(agents, events + [e]);
    assert events + [e] + rest == events + ([e] + rest);
    more := [e] + rest;
  }

  class TaskFleet {
    const agents: nat
    var phase: Phase
    var delivered: set<nat>
    var refused: set<nat>
    var lanes: set<nat>
    var aborted: bool
    var closeCalled: bool
    var stopping: bool
    /** The workers whose `close` has been called. */
    var closed: set<nat>

    function View(): State
      reads this
    {
      State(agents, phase, delivered, refused, lanes, aborted, closeCalled, stopping, closed)
    }

    constructor (agents: nat)
      ensures View() == Initial(agents)
    {
      this.agents := agents;
      phase, delivered, refused, lanes := Idle, {}, {}, {};
      aborted, closeCalled, stopping, closed := false, false, false, {};
    }

    /** Returns whether it threw because the fleet is already closed. */
    method Run() returns (threw: bool)
      modifies this
      ensures View() == Next(old(View()), Event.Run)
      ensures threw == (old(phase).Idle? && old(closeCalled))
    {
      if phase != Idle {
        return false;
      }
      if closeCalled {
        return true;
      }
      phase := Creating;
      return false;
    }

    method CreationSettled()
      requires Enabled(View(), CreationSettles)
      modifies this
      ensures View() == Next(old(View()), CreationSettles)
    {
      phase := Leaving;
      if refused != {} {
        closed := closed + delivered;
        return;
      }
      lanes := delivered;
      if aborted || closeCalled {
        closed := closed + delivered;
        return;
      }
      phase := Working;
    }

    method LeaveRun()
      requires Enabled(View(), Event.Finally)
      modifies this
      ensures View() == Next(old(View()), Event.Finally)
    {
      stopping := true;
      Close();
      phase := Settled;
    }

    method Close()
      modifies this
      ensures View() == Next(old(View()), Event.Close)
    {
      aborted := true;
      if !closeCalled {
        closeCalled, stopping := true, true;
        closed := closed + lanes;
      }
    }
  }
}
