/** The bridge from a requested snapshot render to its layout-effect acknowledgement. */
module SnapshotCommit {
  import opened Text

  /** One `commit` promise: what was rendered, under which signal, and every resolution it was given. */
  datatype CommitPromise = CommitPromise(snapshot: nat, signal: nat, resolutions: seq<bool>)

  /** Commits are numbered in call order; snapshots and abort signals are known by number. */
  datatype State = State(
    pending: Option<nat>,
    commits: seq<CommitPromise>,
    listeners: set<nat>,
    aborted: set<nat>)

  datatype Event =
    | Request(snapshot: nat, signal: nat)
    | Acknowledge(snapshot: nat)
    | Drain
    | Abort(signal: nat)

  const INITIAL := State(None, [], {}, {})

  predicate InRange(s: State) {
    && (s.pending.Some? ==> s.pending.value < |s.commits|)
    && (forall k | k in s.listeners :: k < |s.commits|)
  }

  /** `#settle` of each of these commits: unregister and resolve. */
  function SettleAll(s: State, which: set<nat>, committed: bool): State {
    s.(pending := if s.pending.Some? && s.pending.value in which then None else s.pending,
       listeners := s.listeners - which,
       commits := seq(|s.commits|, k requires 0 <= k < |s.commits| =>
         if k in which then s.commits[k].(resolutions := s.commits[k].resolutions + [committed]) else s.commits[k]))
  }

  lemma {:induction false} SettleOneMore(s: State, which: set<nat>, k: nat, committed: bool)
    requires k !in which
    ensures SettleAll(SettleAll(s, which, committed), {k}, committed) == SettleAll(s, which + {k}, committed)
  {
    var once := SettleAll(SettleAll(s, which, committed), {k}, committed);
    var both := SettleAll(s, which + {k}, committed);
    assert once.listeners == both.listeners;
    assert once.commits == both.commits;
  }

  function Pending(s: State): set<nat> {
    if s.pending.Some? then {s.pending.value} else {}
  }

  function RequestStep(s: State, snapshot: nat, signal: nat): State {
    if signal in s.aborted then
      s.(commits := s.commits + [CommitPromise(snapshot, signal, [false])])
    else
      var t := SettleAll(s, Pending(s), false);
      t.(pending := Some(|s.commits|),
         listeners := t.listeners + {|s.commits|},
         commits := t.commits + [CommitPromise(snapshot, signal, [])])
  }

  function AcknowledgeStep(s: State, snapshot: nat): State
    requires InRange(s)
  {
    if s.pending.Some? && s.commits[s.pending.value].snapshot == snapshot
    then SettleAll(s, Pending(s), true) else s
  }

  /** Everyone listening to the signal hears of its first abort. */
  function Heard(s: State, signal: nat): set<nat>
    requires InRange(s)
  {
    if signal in s.aborted then {} else set k | k in s.listeners && s.commits[k].signal == signal
  }

  function AbortStep(s: State, signal: nat): State
    requires InRange(s)
  {
    SettleAll(s, Heard(s, signal), false).(aborted := s.aborted + {signal})
  }

  function Next(s: State, e: Event): (t: State)
    requires InRange(s)
    ensures InRange(t)
  {
    match e
    case Request(snapshot, signal) => RequestStep(s, snapshot, signal)
    case Acknowledge(snapshot) => AcknowledgeStep(s, snapshot)
    case Drain => SettleAll(s, Pending(s), false)
    case Abort(signal) => AbortStep(s, signal)
  }

  function Run(events: seq<Event>): (s: State)
    ensures InRange(s)
  {
    if events == [] then INITIAL else Next(Run(events[..|events| - 1]), events[|events| - 1])
  }

  /* ---- Every promise resolves exactly once ---- */

  /** Only the pending commit is unresolved, it alone listens, and its signal has not aborted. */
  ghost predicate ResolvedOnce(s: State) {
    && InRange(s)
    && s.listeners == Pending(s)
    && (forall k | 0 <= k < |s.commits| :: |s.commits[k].resolutions| == if s.pending == Some(k) then 0 else 1)
    && (s.pending.Some? ==> s.commits[s.pending.value].signal !in s.aborted)
  }

  lemma ResolvedOnceStep(s: State, e: Event)
    requires ResolvedOnce(s)
    ensures ResolvedOnce(Next(s, e))
  {
  }

  lemma {:induction false} PromisesResolveOnce(events: seq<Event>)
    ensures ResolvedOnce(Run(events))
  {
    if events != [] {
      PromisesResolveOnce(events[..|events| - 1]);
      ResolvedOnceStep(Run(events[..|events| - 1]), events[|events| - 1]);
    }
  }

  /** The step that gave commit `k` this resolution: acknowledged while pending, or superseded, aborted, drained. */
  ghost predicate Resolves(s: State, e: Event, k: nat, commit: CommitPromise, committed: bool)
    requires InRange(s)
  {
    if committed then
      e == Acknowledge(commit.snapshot) && s.pending == Some(k)
    else if s.pending == Some(k) then
      || e == Drain
      || e == Abort(commit.signal)
      || (e.Request? && e.signal !in s.aborted)
    else
      k == |s.commits| && e == Request(commit.snapshot, commit.signal) && commit.signal in s.aborted
  }

  lemma StepResolves(s: State, e: Event, k: nat)
    requires ResolvedOnce(s) && k < |Next(s, e).commits|
    requires Next(s, e).commits[k].resolutions != []
    requires k >= |s.commits| || s.commits[k].resolutions == []
    ensures var commit := Next(s, e).commits[k]; Resolves(s, e, k, commit, commit.resolutions[0])
  {
  }

  /** A commit stays what it was, and a resolution stays the one it got. */
  lemma StepKeepsCommits(s: State, e: Event, k: nat)
    requires ResolvedOnce(s) && k < |s.commits|
    ensures var t := Next(s, e);
      && k < |t.commits|
      && t.commits[k].snapshot == s.commits[k].snapshot && t.commits[k].signal == s.commits[k].signal
      && (s.commits[k].resolutions != [] ==> t.commits[k] == s.commits[k])
  {
  }

  /** Every resolution has its cause in the run: true only from acknowledging that very snapshot while pending. */
  lemma {:induction false} ResolutionHasCause(events: seq<Event>, k: nat) returns (i: nat)
    requires k < |Run(events).commits| && Run(events).commits[k].resolutions != []
    ensures i < |events|
    ensures var commit := Run(events).commits[k];
      Resolves(Run(events[..i]), events[i], k, commit, commit.resolutions[0])
    decreases |events|
  {
    var before, e := events[..|events| - 1], events[|events| - 1];
    var s := Run(before);
    PromisesResolveOnce(before);
    if k < |s.commits| && s.commits[k].resolutions != [] {
      i := ResolutionHasCause(before, k);
      StepKeepsCommits(s, e, k);
      assert before[..i] == events[..i];
    } else {
      i := |events| - 1;
      StepResolves(s, e, k);
    }
  }

  /* ---- What the events alone tell ---- */

  /** The snapshots and signals asked for, in call order. */
  function Requests(events: seq<Event>): seq<(nat, nat)> {
    if events == [] then []
    else
      match events[|events| - 1]
      case Request(snapshot, signal) => Requests(events[..|events| - 1]) + [(snapshot, signal)]
      case _ => Requests(events[..|events| - 1])
  }

  /** The request that still waits: the last one not aborted from the start, until something settles it. */
  function Waits(events: seq<Event>): (k: Option<nat>)
    ensures k.Some? ==> k.value < |Requests(events)|
  {
    if events == [] then None
    else
      var before := events[..|events| - 1];
      var k := Waits(before);
      match events[|events| - 1]
      case Request(_, signal) => if Abort(signal) in before then k else Some(|Requests(before)|)
      case Acknowledge(snapshot) => if k.Some? && Requests(before)[k.value].0 == snapshot then None else k
      case Drain => None
      case Abort(signal) => if k.Some? && Requests(before)[k.value].1 == signal then None else k
  }

  /** The commits are the requests, and the signals aborted are those of the abort events. */
  ghost predicate Recorded(s: State, events: seq<Event>) {
    && CommitsRecorded(s, Requests(events))
    && (forall signal :: signal in s.aborted <==> Abort(signal) in events)
    && s.pending == Waits(events)
  }

  ghost predicate CommitsRecorded(s: State, requests: seq<(nat, nat)>) {
    && |s.commits| == |requests|
    && forall k | 0 <= k < |s.commits| :: (s.commits[k].snapshot, s.commits[k].signal) == requests[k]
  }

  lemma {:induction false} CommitsRecordedNext(s: State, e: Event, requests: seq<(nat, nat)>)
    requires ResolvedOnce(s) && CommitsRecorded(s, requests)
    ensures CommitsRecorded(Next(s, e), requests + if e.Request? then [(e.snapshot, e.signal)] else [])
  {
    forall k | 0 <= k < |s.commits| ensures Next(s, e).commits[k].snapshot == s.commits[k].snapshot
                                    ensures Next(s, e).commits[k].signal == s.commits[k].signal
    {
      StepKeepsCommits(s, e, k);
    }
  }

  lemma {:induction false} AbortsRecordedNext(s: State, e: Event)
    requires InRange(s)
    ensures Next(s, e).aborted == if e.Abort? then s.aborted + {e.signal} else s.aborted
  {
  }

  lemma {:induction false} PendingRecordedNext(s: State, e: Event)
    requires ResolvedOnce(s)
    ensures Next(s, e).pending ==
      match e
      case Request(_, signal) => if signal in s.aborted then s.pending else Some(|s.commits|)
      case Acknowledge(snapshot) =>
        if s.pending.Some? && s.commits[s.pending.value].snapshot == snapshot then None else s.pending
      case Drain => None
      case Abort(signal) =>
        if s.pending.Some? && s.commits[s.pending.value].signal == signal then None else s.pending
  {
  }

  lemma {:induction false} RecordedNext(events: seq<Event>, s: State)
    requires events != [] && ResolvedOnce(s) && Recorded(s, events[..|events| - 1])
    ensures Recorded(Next(s, events[|events| - 1]), events)
  {
    var (before, e) := (events[..|events| - 1], events[|events| - 1]);
    assert events == before + [e];
    CommitsRecordedNext(s, e, Requests(before));
    AbortsRecordedNext(s, e);
    PendingRecordedNext(s, e);
  }

  /** The pending commit is the request that waits, and it alone is unresolved. */
  lemma {:induction false} PendingWaits(events: seq<Event>)
    ensures Recorded(Run(events), events)
    ensures forall k | 0 <= k < |Run(events).commits| ::
      Run(events).commits[k].resolutions == [] <==> Waits(events) == Some(k)
    decreases |events|
  {
    PromisesResolveOnce(events);
    if events != [] {
      PendingWaits(events[..|events| - 1]);
      PromisesResolveOnce(events[..|events| - 1]);
      RecordedNext(events, Run(events[..|events| - 1]));
    }
  }

  /** Acknowledging the snapshot that waits resolves its commit as true. */
  lemma AcknowledgementCommits(events: seq<Event>, k: nat)
    requires Waits(events) == Some(k)
    ensures var t := Run(events + [Acknowledge(Requests(events)[k].0)]);
      k < |t.commits| && t.commits[k].resolutions == [true]
  {
    var e := Acknowledge(Requests(events)[k].0);
    PendingWaits(events);
    PromisesResolveOnce(events);
    assert (events + [e])[..|events|] == events;
  }

  /* ---- The coordinator ---- */

  class SnapshotCommitCoordinator {
    var pending: Option<nat>

    // Promises, listeners and signals outside the object.
    var commits: seq<CommitPromise>
    var listeners: set<nat>
    var aborted: set<nat>

    function View(): State
      reads this
    {
      State(pending, commits, listeners, aborted)
    }

    constructor ()
      ensures View() == INITIAL
    {
      pending, commits, listeners, aborted := None, [], {}, {};
    }

    method Commit(snapshot: nat, signal: nat) returns (promise: nat)
      requires ResolvedOnce(View())
      modifies this
      ensures promise == |old(commits)|
      ensures View() == Next(old(View()), Request(snapshot, signal))
    {
      promise := |commits|;
      if signal in aborted {
        commits := commits + [CommitPromise(snapshot, signal, [false])];
        return;
      }
      Settle(pending, false);
      commits := commits + [CommitPromise(snapshot, signal, [])];
      pending := Some(promise);
      listeners := listeners + {promise};
    }

    method Acknowledge(snapshot: nat)
      requires ResolvedOnce(View())
      modifies this
      ensures View() == Next(old(View()), Event.Acknowledge(snapshot))
    {
      if pending.None? || commits[pending.value].snapshot != snapshot {
        return;
      }
      Settle(pending, true);
    }

    method Drain()
      requires ResolvedOnce(View())
      modifies this
      ensures View() == Next(old(View()), Event.Drain)
    {
      Settle(pending, false);
    }

    method Settle(which: Option<nat>, committed: bool)
      requires InRange(View()) && (which.Some? ==> which.value < |commits|)
      modifies this
      ensures View() == SettleAll(old(View()), if which.Some? then {which.value} else {}, committed)
    {
      if which == None {
        return;
      }
      var k := which.value;
      if pending == which {
        pending := None;
      }
      listeners := listeners - {k};
      commits := commits[k := commits[k].(resolutions := commits[k].resolutions + [committed])];
    }

    /** A signal aborts: each listener settles its own commit as not committed. */
    method SignalAborts(signal: nat)
      requires ResolvedOnce(View())
      modifies this
      ensures View() == Next(old(View()), Abort(signal))
    {
      if signal in aborted {
        return;
      }
      aborted := aborted + {signal};
      var left := set k | k in listeners && commits[k].signal == signal;
      ghost var heard := left;
      while left != {}
        invariant left <= heard && forall k | k in heard :: k < |commits|
        invariant InRange(View())
        invariant aborted == old(aborted) + {signal}
        invariant View() == SettleAll(old(View()).(aborted := aborted), heard - left, false)
      {
        var k :| k in left;
        SettleOneMore(old(View()).(aborted := aborted), heard - left, k, false);
        assert heard - (left - {k}) == heard - left + {k};
        Settle(Some(k), false);
        left := left - {k};
      }
    }
  }
}
