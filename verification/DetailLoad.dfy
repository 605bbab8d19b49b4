/**
 * Loading the detail of one work item after another: a newer intent aborts the older read, and an answer
 * that comes in late is reported as stale. A step is the code between two awaits.
 */
module DetailLoad {
  import opened Text

  /** What the read of a load comes back with: a detail by its id, a 404, or another failure. */
  datatype Response = Detail(id: Text) | Missing | Failure

  datatype LoadResult = Loaded(id: Text) | NotFound | Failed | Stale

  datatype Load = Load(workItemId: Text, generation: nat, aborted: bool, result: Option<LoadResult>)

  /** Loads are numbered in call order, and a controller is known by the load that made it. */
  datatype State = State(generation: nat, controller: Option<nat>, loads: seq<Load>)

  datatype Event = Begin(workItemId: Text) | Answer(load: nat, response: Response) | Invalidate

  const START := State(0, None, [])

  /** `this.#controller?.abort()`. */
  function Aborted(s: State): seq<Load> {
    match s.controller
    case Some(i) => if i < |s.loads| then s.loads[i := s.loads[i].(aborted := true)] else s.loads
    case None => s.loads
  }

  function Began(s: State, workItemId: Text): State {
    State(s.generation + 1, Some(|s.loads|), Aborted(s) + [Load(workItemId, s.generation + 1, false, None)])
  }

  predicate IsCurrent(s: State, load: nat)
    requires load < |s.loads|
  {
    s.loads[load].generation == s.generation && s.controller == Some(load) && !s.loads[load].aborted
  }

  function ResultOf(s: State, load: nat, response: Response): LoadResult
    requires load < |s.loads|
  {
    if !IsCurrent(s, load) then Stale
    else
      match response
      case Detail(id) => if id == s.loads[load].workItemId then Loaded(id) else Failed
      case Missing => NotFound
      case Failure => Failed
  }

  function Answered(s: State, load: nat, response: Response): State
    requires load < |s.loads|
  {
    s.(loads := s.loads[load := s.loads[load].(result := Some(ResultOf(s, load, response)))])
  }

  function Invalidated(s: State): State {
    State(s.generation + 1, None, Aborted(s))
  }

  /** A read answers once. */
  function Next(s: State, e: Event): State {
    match e
    case Begin(id) => Began(s, id)
    case Answer(i, response) => if i < |s.loads| && s.loads[i].result.None? then Answered(s, i, response) else s
    case Invalidate => Invalidated(s)
  }

  function Run(events: seq<Event>): State {
    if events == [] then START else Next(Run(events[..|events| - 1]), events[|events| - 1])
  }

  /** The load that the last intent began, if the last intent was to load. */
  function Wanted(events: seq<Event>): Option<nat> {
    if events == [] then None
    else
      var (before, last) := (events[..|events| - 1], events[|events| - 1]);
      match last
      case Begin(_) => Some(|Run(before).loads|)
      case Answer(_, _) => Wanted(before)
      case Invalidate => None
  }

  /** The three tests of a load agree: its generation is current, its controller is current, it is not aborted. */
  ghost predicate TestsAgree(loads: seq<Load>, generation: nat, wanted: Option<nat>) {
    forall i: nat | i < |loads| ::
      && (loads[i].generation == generation <==> wanted == Some(i))
      && (!loads[i].aborted <==> wanted == Some(i))
      && loads[i].generation <= generation
  }

  lemma BeginKeepsAgreement(s: State, workItemId: Text)
    requires TestsAgree(s.loads, s.generation, s.controller)
    ensures var t := Began(s, workItemId); TestsAgree(t.loads, t.generation, t.controller)
    ensures var t := Invalidated(s); TestsAgree(t.loads, t.generation, t.controller)
  {
  }

  lemma {:induction false} LoadsAgree(events: seq<Event>)
    ensures var s := Run(events);
      && s.controller == Wanted(events)
      && TestsAgree(s.loads, s.generation, s.controller)
    decreases |events|
  {
    if events != [] {
      var before := events[..|events| - 1];
      LoadsAgree(before);
      BeginKeepsAgreement(Run(before), []);
      match events[|events| - 1]
      case Begin(id) => BeginKeepsAgreement(Run(before), id);
      case Answer(i, response) =>
      case Invalidate =>
    }
  }

  /** In every run a load is answered as stale exactly when the last intent was not that load. */
  lemma {:induction false} StaleIffSuperseded(events: seq<Event>, load: nat, response: Response)
    requires load < |Run(events).loads| && Run(events).loads[load].result.None?
    ensures var result := Run(events + [Answer(load, response)]).loads[load].result;
      result == Some(Stale) <==> Wanted(events) != Some(load)
  {
    LoadsAgree(events);
    assert (events + [Answer(load, response)])[..|events|] == events;
  }

  /** At most one read runs unaborted, and it is the one last wanted. */
  lemma {:induction false} OneReadRuns(events: seq<Event>, load: nat)
    requires load < |Run(events).loads|
    ensures !Run(events).loads[load].aborted <==> Wanted(events) == Some(load)
  {
    LoadsAgree(events);
  }

  lemma {:induction false} LoadsKeepIds(s: State, e: Event)
    ensures var t := Next(s, e);
      && |t.loads| == |s.loads| + (if e.Begin? then 1 else 0)
      && (e.Begin? ==> t.loads[|s.loads|].workItemId == e.workItemId)
      && forall i | 0 <= i < |s.loads| ::
           && t.loads[i].workItemId == s.loads[i].workItemId
           && (s.loads[i].result.Some? ==> t.loads[i].result == s.loads[i].result)
  {
  }

  ghost predicate ShowsRequested(l: Load) {
    l.result.Some? && l.result.value.Loaded? ==> l.result.value.id == l.workItemId
  }

  lemma {:induction false} StepShowsRequested(s: State, e: Event, load: nat)
    requires load < |s.loads| ==> ShowsRequested(s.loads[load])
    ensures load < |Next(s, e).loads| ==> ShowsRequested(Next(s, e).loads[load])
  {
  }

  /** A detail that is shown is the one that was asked for. */
  lemma {:induction false} LoadedIsRequested(events: seq<Event>, load: nat)
    requires load < |Run(events).loads| && Run(events).loads[load].result.Some?
    ensures var l := Run(events).loads[load]; l.result.value.Loaded? ==> l.result.value.id == l.workItemId
    decreases |events|
  {
    if events != [] {
      var before := events[..|events| - 1];
      var s := Run(before);
      if load < |s.loads| && s.loads[load].result.Some? {
        LoadedIsRequested(before, load);
      }
      StepShowsRequested(s, events[|events| - 1], load);
    }
  }

  /** The ids that were asked for, in order. */
  function AskedFor(events: seq<Event>): seq<Text> {
    if events == [] then []
    else
      match events[|events| - 1]
      case Begin(id) => AskedFor(events[..|events| - 1]) + [id]
      case _ => AskedFor(events[..|events| - 1])
  }

  lemma {:induction false} LoadsAreAskedFor(events: seq<Event>)
    ensures var s := Run(events);
      && |s.loads| == |AskedFor(events)|
      && forall i | 0 <= i < |s.loads| :: s.loads[i].workItemId == AskedFor(events)[i]
    decreases |events|
  {
    if events != [] {
      var before := events[..|events| - 1];
      LoadsAreAskedFor(before);
      LoadsKeepIds(Run(before), events[|events| - 1]);
    }
  }

  /** The load last wanted is answered as the response is: shown, refused for another id, not found, or failed. */
  lemma WantedIsAnswered(events: seq<Event>, load: nat, response: Response)
    requires Wanted(events) == Some(load) && load < |Run(events).loads| && Run(events).loads[load].result.None?
    ensures var (s, t) := (Run(events), Run(events + [Answer(load, response)]));
      && load < |AskedFor(events)| && load < |t.loads|
      && match response
         case Detail(id) => t.loads[load].result == Some(if id == AskedFor(events)[load] then Loaded(id) else Failed)
         case Missing => t.loads[load].result == Some(NotFound)
         case Failure => t.loads[load].result == Some(Failed)
  {
    LoadsAgree(events);
    LoadsAreAskedFor(events);
    assert (events + [Answer(load, response)])[..|events|] == events;
  }

  /** An answer is given once: later events leave it as it is. */
  lemma AnswersStand(events: seq<Event>, e: Event, load: nat)
    requires load < |Run(events).loads| && Run(events).loads[load].result.Some?
    ensures var t := Run(events + [e]);
      load < |t.loads| && t.loads[load].result == Run(events).loads[load].result
  {
    assert (events + [e])[..|events|] == events;
    LoadsKeepIds(Run(events), e);
  }

  class WorkItemDetailLoadCoordinator {
    var generation: nat
    var controller: Option<nat>
    /** One entry for each call of `load`: what it captured, its signal, and what it returned. */
    var loads: seq<Load>

    function View(): State
      reads this
    {
      State(generation, controller, loads)
    }

    constructor ()
      ensures View() == START
    {
      generation, controller, loads := 0, None, [];
    }

    method Begin(workItemId: Text) returns (load: nat)
      requires controller.Some? ==> controller.value < |loads|
      modifies this
      ensures View() == Began(old(View()), workItemId) && load == |old(loads)|
    {
      AbortCurrent();
      generation := generation + 1;
      load := |loads|;
      controller := Some(load);
      loads := loads + [Load(workItemId, generation, false, None)];
    }

    method Answer(load: nat, response: Response) returns (result: LoadResult)
      requires load < |loads| && loads[load].result.None?
      modifies `loads
      ensures View() == Answered(old(View()), load, response) && loads[load].result == Some(result)
    {
      if !IsCurrent(View(), load) {
        result := Stale;
      } else {
        match response {
          case Detail(id) => result := if id != loads[load].workItemId then Failed else Loaded(id);
          case Missing => result := NotFound;
          case Failure => result := Failed;
        }
      }
      loads := loads[load := loads[load].(result := Some(result))];
    }

    method Invalidate()
      requires controller.Some? ==> controller.value < |loads|
      modifies this
      ensures View() == Invalidated(old(View()))
    {
      generation := generation + 1;
      AbortCurrent();
      controller := None;
    }

    method AbortCurrent()
      requires controller.Some? ==> controller.value < |loads|
      modifies `loads
      ensures loads == Aborted(old(View()))
    {
      if controller.Some? {
        loads := loads[controller.value := loads[controller.value].(aborted := true)];
      }
    }
  }
}
