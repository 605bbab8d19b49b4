/** Coalescing of a noisy activity stream: a pruned dedupe map, one held update, and a rate limit. */
module ActivityBuffer {
  import opened Text

  const MAX_SAFE_INTEGER: nat := 0x1F_FFFF_FFFF_FFFF

  /** An update that passed the dedupe test, and when. */
  datatype Accepted = Accepted(text: Text, time: nat)

  /** One emission: which acceptance it shows, when, and whether `drain` forced it. */
  datatype Emission = Emission(index: nat, time: nat, forced: bool)

  /* ---- The full history ---- */

  /** An update is new if the same text was not accepted within the window, over the whole history. */
  ghost predicate IsNew(accepted: seq<Accepted>, text: Text, now: nat, window: nat) {
    forall i | 0 <= i < |accepted| && accepted[i].text == text :: now - accepted[i].time > window
  }

  ghost predicate TimesGrow(accepted: seq<Accepted>) {
    forall i, j | 0 <= i < j < |accepted| :: accepted[i].time <= accepted[j].time
  }

  /** When the text was last accepted. */
  function LastAccepted(accepted: seq<Accepted>, text: Text): Option<nat> {
    if accepted == [] then None
    else
      var last := accepted[|accepted| - 1];
      if last.text == text then Some(last.time) else LastAccepted(accepted[..|accepted| - 1], text)
  }

  lemma {:induction false} LastAcceptedDecides(accepted: seq<Accepted>, text: Text, now: nat, window: nat)
    requires TimesGrow(accepted)
    ensures var last := LastAccepted(accepted, text);
      IsNew(accepted, text, now, window) <==> last.None? || now - last.value > window
    decreases |accepted|
  {
    if accepted != [] {
      var last := |accepted| - 1;
      LastAcceptedDecides(accepted[..last], text, now, window);
      assert accepted == accepted[..last] + [accepted[last]];
      assert forall i | 0 <= i < last :: accepted[..last][i] == accepted[i];
    }
  }

  lemma LastAcceptedAppend(accepted: seq<Accepted>, a: Accepted, text: Text)
    ensures LastAccepted(accepted + [a], text) == if a.text == text then Some(a.time) else LastAccepted(accepted, text)
  {
    assert (accepted + [a])[..|accepted|] == accepted;
  }

  /** The pruned map knows the last acceptance of every text that may still matter. */
  ghost predicate Remembers(recent: map<Text, nat>, accepted: seq<Accepted>, now: nat, window: nat) {
    && (forall t | t in recent :: LastAccepted(accepted, t) == Some(recent[t]))
    && (forall t | t !in recent :: LastAccepted(accepted, t).None? || now - LastAccepted(accepted, t).value > window)
  }

  /* ---- The buffer as a step system ---- */

  /** The fields of the buffer, with every acceptance and every emission since construction. */
  datatype State = State(
    recent: map<Text, nat>,
    lastObservedAt: Option<nat>,
    lastEmittedAt: Option<nat>,
    pending: Option<Text>,
    accepted: seq<Accepted>,
    emissions: seq<Emission>)

  /** The calls a client makes; a pushed activity has already been sanitised, perhaps to nothing. */
  datatype Call = Push(activity: Option<Text>, at: int) | Flush(at: int) | Drain(at: int)

  /** `threw` says that the time was refused. */
  datatype Reply = Reply(state: State, threw: bool, value: Option<Text>)

  datatype Options = Options(minimumIntervalMs: nat, dedupeWindowMs: nat)

  const EMPTY := State(map[], None, None, None, [], [])

  /** A time is refused if it is not a safe non-negative integer or moves backwards. */
  predicate Refused(s: State, at: int) {
    at < 0 || at > MAX_SAFE_INTEGER || (s.lastObservedAt.Some? && at < s.lastObservedAt.value)
  }

  predicate Ready(s: State, now: nat, o: Options) {
    s.lastEmittedAt.None? || now - s.lastEmittedAt.value >= o.minimumIntervalMs
  }

  /** The held update, which is the latest acceptance, goes out. */
  function EmitPending(s: State, now: nat, forced: bool): State {
    var index := if s.accepted == [] then 0 else |s.accepted| - 1;
    s.(pending := None, lastEmittedAt := Some(now), emissions := s.emissions + [Emission(index, now, forced)])
  }

  function EmitPendingIfReady(s: State, now: nat, o: Options): Reply {
    if s.pending.None? || !Ready(s, now, o) then Reply(s, false, None)
    else Reply(EmitPending(s, now, false), false, s.pending)
  }

  function Pruned(recent: map<Text, nat>, now: nat, o: Options): map<Text, nat> {
    map t | t in recent && now - recent[t] <= o.dedupeWindowMs :: recent[t]
  }

  predicate Duplicate(recent: map<Text, nat>, text: Text, now: nat, o: Options) {
    text in recent && now - recent[text] <= o.dedupeWindowMs
  }

  /** A new update is remembered, and shown at once, held, or held behind the one shown in its place. */
  function Admit(s: State, text: Text, now: nat, o: Options): Reply {
    var remembered := s.(recent := s.recent[text := now]);
    var flushed := EmitPendingIfReady(remembered, now, o);
    var history := s.accepted + [Accepted(text, now)];
    if flushed.value.Some? then
      Reply(flushed.state.(pending := Some(text), accepted := history), false, flushed.value)
    else if Ready(remembered, now, o) then
      Reply(remembered.(lastEmittedAt := Some(now), accepted := history,
                        emissions := s.emissions + [Emission(|s.accepted|, now, false)]), false, Some(text))
    else
      Reply(remembered.(pending := Some(text), accepted := history), false, None)
  }

  function PushStep(s: State, activity: Option<Text>, now: nat, o: Options): Reply {
    if activity.None? then EmitPendingIfReady(s, now, o)
    else
      var pruned := s.(recent := Pruned(s.recent, now, o));
      if Duplicate(pruned.recent, activity.value, now, o) then EmitPendingIfReady(pruned, now, o)
      else Admit(pruned, activity.value, now, o)
  }

  function Step(s: State, call: Call, o: Options): Reply {
    if Refused(s, call.at) then Reply(s, true, None)
    else
      var seen := s.(lastObservedAt := Some(call.at));
      match call
      case Push(activity, at) => PushStep(seen, activity, at, o)
      case Flush(at) => EmitPendingIfReady(seen, at, o)
      case Drain(at) =>
        if s.pending.None? then Reply(seen, false, None)
        else Reply(EmitPending(seen, at, true), false, s.pending)
  }

  function Run(calls: seq<Call>, o: Options): State {
    if calls == [] then EMPTY else Step(Run(calls[..|calls| - 1], o), calls[|calls| - 1], o).state
  }

  /* ---- The map decides as the full history would ---- */

  ghost predicate Dedupes(s: State, o: Options) {
    && TimesGrow(s.accepted)
    && (s.lastObservedAt.None? ==> s.accepted == [] && s.recent == map[])
    && (s.lastObservedAt.Some? ==>
        && (forall i | 0 <= i < |s.accepted| :: s.accepted[i].time <= s.lastObservedAt.value)
        && Remembers(s.recent, s.accepted, s.lastObservedAt.value, o.dedupeWindowMs))
  }

  lemma Observed(s: State, at: nat, o: Options)
    requires Dedupes(s, o) && !Refused(s, at)
    ensures Dedupes(s.(lastObservedAt := Some(at)), o)
  {
  }

  lemma PruneKeeps(s: State, now: nat, o: Options)
    requires Dedupes(s, o) && s.lastObservedAt == Some(now)
    ensures Dedupes(s.(recent := Pruned(s.recent, now, o)), o)
  {
  }

  lemma AdmitKeeps(s: State, text: Text, now: nat, o: Options)
    requires Dedupes(s, o) && s.lastObservedAt == Some(now)
    ensures Dedupes(s.(recent := s.recent[text := now], accepted := s.accepted + [Accepted(text, now)]), o)
  {
    forall t ensures LastAccepted(s.accepted + [Accepted(text, now)], t)
                  == if text == t then Some(now) else LastAccepted(s.accepted, t)
    {
      LastAcceptedAppend(s.accepted, Accepted(text, now), t);
    }
  }

  lemma DedupesStep(s: State, call: Call, o: Options)
    requires Dedupes(s, o)
    ensures Dedupes(Step(s, call, o).state, o)
  {
    if !Refused(s, call.at) {
      var seen := s.(lastObservedAt := Some(call.at));
      Observed(s, call.at, o);
      if call.Push? && call.activity.Some? {
        PruneKeeps(seen, call.at, o);
        var pruned := seen.(recent := Pruned(seen.recent, call.at, o));
        AdmitKeeps(pruned, call.activity.value, call.at, o);
        AdmitState(pruned, call.activity.value, call.at, o);
      }
    }
  }

  lemma AdmitState(s: State, text: Text, now: nat, o: Options)
    ensures var t := Admit(s, text, now, o).state;
      && t.recent == s.recent[text := now] && t.accepted == s.accepted + [Accepted(text, now)]
      && t.lastObservedAt == s.lastObservedAt
  {
  }

  lemma {:induction false} RunsDedupe(calls: seq<Call>, o: Options)
    ensures Dedupes(Run(calls, o), o)
  {
    if calls != [] {
      RunsDedupe(calls[..|calls| - 1], o);
      DedupesStep(Run(calls[..|calls| - 1], o), calls[|calls| - 1], o);
    }
  }

  /** After any calls, an update is accepted exactly when the whole history calls it new. */
  lemma PushAcceptsWhatHistoryCallsNew(calls: seq<Call>, text: Text, at: nat, o: Options)
    requires !Refused(Run(calls, o), at)
    ensures var (s, t) := (Run(calls, o), Step(Run(calls, o), Push(Some(text), at), o).state);
      t.accepted == s.accepted
                  + if IsNew(s.accepted, text, at, o.dedupeWindowMs) then [Accepted(text, at)] else []
  {
    RunsDedupe(calls, o);
    var seen := Run(calls, o).(lastObservedAt := Some(at));
    Observed(Run(calls, o), at, o);
    PruneKeeps(seen, at, o);
    LastAcceptedDecides(seen.accepted, text, at, o.dedupeWindowMs);
    AdmitState(seen.(recent := Pruned(seen.recent, at, o)), text, at, o);
  }

  /* ---- What is shown ---- */

  /** The latest acceptance is held, or was the last emission; nothing else is ever held. */
  ghost predicate LatestShown(s: State) {
    if s.accepted == [] then s.pending == None && s.emissions == []
    else
      var latest := |s.accepted| - 1;
      if s.pending.Some? then
        && s.pending.value == s.accepted[latest].text
        && (s.emissions != [] ==> s.emissions[|s.emissions| - 1].index < latest)
      else
        s.emissions != [] && s.emissions[|s.emissions| - 1].index == latest
  }

  /** Emissions show acceptances in order, each once, and keep the interval unless forced. */
  ghost predicate Paced(s: State, o: Options) {
    && (forall k | 0 <= k < |s.emissions| :: s.emissions[k].index < |s.accepted|)
    && (forall j, k | 0 <= j < k < |s.emissions| ::
        && s.emissions[j].index < s.emissions[k].index
        && s.emissions[j].time <= s.emissions[k].time
        && (!s.emissions[k].forced ==> s.emissions[k].time - s.emissions[j].time >= o.minimumIntervalMs))
  }

  ghost predicate Shows(s: State, o: Options) {
    && Paced(s, o)
    && LatestShown(s)
    && s.lastEmittedAt == (if s.emissions == [] then None else Some(s.emissions[|s.emissions| - 1].time))
    && (s.emissions != [] ==> s.lastObservedAt.Some? && s.lastEmittedAt.value <= s.lastObservedAt.value)
  }

  lemma EmitPendingKeeps(s: State, now: nat, forced: bool, o: Options)
    requires Shows(s, o) && s.pending.Some? && s.lastObservedAt == Some(now) && (forced || Ready(s, now, o))
    ensures Shows(EmitPending(s, now, forced), o)
  {
  }

  lemma HoldKeeps(s: State, text: Text, now: nat, o: Options)
    requires Shows(s, o)
    ensures Shows(s.(pending := Some(text), accepted := s.accepted + [Accepted(text, now)]), o)
  {
  }

  lemma ShowKeeps(s: State, text: Text, now: nat, o: Options)
    requires Shows(s, o) && s.pending.None? && s.lastObservedAt == Some(now) && Ready(s, now, o)
    ensures Shows(s.(lastEmittedAt := Some(now), accepted := s.accepted + [Accepted(text, now)],
                     emissions := s.emissions + [Emission(|s.accepted|, now, false)]), o)
  {
  }

  lemma {:induction false} AdmitShows(s: State, text: Text, now: nat, o: Options)
    requires Shows(s, o) && s.lastObservedAt == Some(now)
    ensures Shows(Admit(s, text, now, o).state, o)
  {
    if !Ready(s, now, o) {
      HoldShows(s, text, now, o);
    } else if s.pending.Some? {
      HoldBehindShows(s, text, now, o);
    } else {
      ShowAtOnceShows(s, text, now, o);
    }
  }

  lemma {:induction false} HoldShows(s: State, text: Text, now: nat, o: Options)
    requires Shows(s, o) && !Ready(s, now, o)
    ensures Shows(Admit(s, text, now, o).state, o)
  {
    HoldKeeps(s.(recent := s.recent[text := now]), text, now, o);
  }

  lemma {:induction false} HoldBehindShows(s: State, text: Text, now: nat, o: Options)
    requires Shows(s, o) && s.lastObservedAt == Some(now) && Ready(s, now, o) && s.pending.Some?
    ensures Shows(Admit(s, text, now, o).state, o)
  {
    var remembered := s.(recent := s.recent[text := now]);
    EmitPendingKeeps(remembered, now, false, o);
    HoldKeeps(EmitPending(remembered, now, false), text, now, o);
  }

  lemma {:induction false} ShowAtOnceShows(s: State, text: Text, now: nat, o: Options)
    requires Shows(s, o) && s.lastObservedAt == Some(now) && Ready(s, now, o) && s.pending.None?
    ensures Shows(Admit(s, text, now, o).state, o)
  {
    ShowKeeps(s.(recent := s.recent[text := now]), text, now, o);
  }

  lemma SeenShows(s: State, at: nat, recent: map<Text, nat>, o: Options)
    requires Shows(s, o) && (s.lastObservedAt.Some? ==> s.lastObservedAt.value <= at)
    ensures Shows(s.(lastObservedAt := Some(at), recent := recent), o)
  {
  }

  lemma EmitIfReadyShows(s: State, now: nat, o: Options)
    requires Shows(s, o) && s.lastObservedAt == Some(now)
    ensures Shows(EmitPendingIfReady(s, now, o).state, o)
  {
    if s.pending.Some? && Ready(s, now, o) {
      EmitPendingKeeps(s, now, false, o);
    }
  }

  lemma PushShows(s: State, activity: Option<Text>, now: nat, o: Options)
    requires Shows(s, o) && s.lastObservedAt == Some(now)
    ensures Shows(PushStep(s, activity, now, o).state, o)
  {
    if activity.None? {
      EmitIfReadyShows(s, now, o);
    } else {
      var pruned := s.(recent := Pruned(s.recent, now, o));
      SeenShows(s, now, pruned.recent, o);
      EmitIfReadyShows(pruned, now, o);
      AdmitShows(pruned, activity.value, now, o);
    }
  }

  lemma ShowsStep(s: State, call: Call, o: Options)
    requires Shows(s, o)
    ensures Shows(Step(s, call, o).state, o)
  {
    if !Refused(s, call.at) {
      var seen := s.(lastObservedAt := Some(call.at));
      SeenShows(s, call.at, s.recent, o);
      match call
      case Push(activity, at) => PushShows(seen, activity, at, o);
      case Flush(at) => EmitIfReadyShows(seen, at, o);
      case Drain(at) =>
        if s.pending.Some? {
          EmitPendingKeeps(seen, at, true, o);
        }
    }
  }

  lemma {:induction false} RunsShow(calls: seq<Call>, o: Options)
    ensures Shows(Run(calls, o), o)
  {
    if calls != [] {
      RunsShow(calls[..|calls| - 1], o);
      ShowsStep(Run(calls[..|calls| - 1], o), calls[|calls| - 1], o);
    }
  }

  /* ---- What may go out does go out ---- */

  /** Held after the interval has passed since the last emission, or held with nothing ever shown. */
  ghost predicate Overdue(s: State, now: int, o: Options) {
    s.pending.Some? && (s.emissions == [] || now - s.emissions[|s.emissions| - 1].time >= o.minimumIntervalMs)
  }

  /** Something is only held behind an emission, and never if there is no interval to keep. */
  ghost predicate HeldBehind(s: State, o: Options) {
    s.pending.Some? ==> s.emissions != [] && o.minimumIntervalMs > 0
  }

  lemma {:induction false} PushReleases(s: State, activity: Option<Text>, now: nat, o: Options)
    requires Shows(s, o) && HeldBehind(s, o) && s.lastObservedAt == Some(now)
    ensures var t := PushStep(s, activity, now, o).state; HeldBehind(t, o) && !Overdue(t, now, o)
  {
  }

  lemma {:induction false} StepReleases(s: State, call: Call, o: Options)
    requires Shows(s, o) && HeldBehind(s, o)
    ensures var r := Step(s, call, o);
      && HeldBehind(r.state, o)
      && (!r.threw ==> if call.Drain? then r.state.pending.None? else !Overdue(r.state, call.at, o))
  {
    if !Refused(s, call.at) {
      var seen := s.(lastObservedAt := Some(call.at));
      SeenShows(s, call.at, s.recent, o);
      if call.Push? {
        PushReleases(seen, call.activity, call.at, o);
      }
    }
  }

  lemma {:induction false} RunsHoldBehind(calls: seq<Call>, o: Options)
    ensures HeldBehind(Run(calls, o), o)
  {
    if calls != [] {
      RunsHoldBehind(calls[..|calls| - 1], o);
      RunsShow(calls[..|calls| - 1], o);
      StepReleases(Run(calls[..|calls| - 1], o), calls[|calls| - 1], o);
    }
  }

  /**
    * After any calls, a push or a flush leaves nothing held that may go out: what is still held waits
    * for the interval since the last emission. A drain leaves nothing held at all.
    */
  lemma NothingOverdueIsHeld(calls: seq<Call>, call: Call, o: Options)
    requires !Step(Run(calls, o), call, o).threw
    ensures var t := Step(Run(calls, o), call, o).state;
      if call.Drain? then t.pending.None?
      else t.pending.Some? ==>
        t.emissions != [] && call.at - t.emissions[|t.emissions| - 1].time < o.minimumIntervalMs
  {
    RunsShow(calls, o);
    RunsHoldBehind(calls, o);
    StepReleases(Run(calls, o), call, o);
  }

  lemma {:induction false} PushShowsHeldFirst(s: State, activity: Option<Text>, now: nat, o: Options)
    ensures var value := PushStep(s, activity, now, o).value;
      value.Some? ==> value == if s.pending.Some? then s.pending else activity
  {
  }

  /** What goes out is what was held before the call, or else what is pushed. */
  lemma {:induction false} HeldGoesFirst(calls: seq<Call>, call: Call, o: Options)
    requires Step(Run(calls, o), call, o).value.Some?
    ensures var (s, value) := (Run(calls, o), Step(Run(calls, o), call, o).value);
      if s.pending.Some? then value == s.pending else call.Push? && value == call.activity
  {
    var s := Run(calls, o);
    if call.Push? && !Refused(s, call.at) {
      PushShowsHeldFirst(s.(lastObservedAt := Some(call.at)), call.activity, call.at, o);
    }
  }

  /** A pushed update is remembered, and with it only updates within the window. */
  lemma RemembersTheWindow(calls: seq<Call>, text: Text, at: nat, o: Options)
    requires !Refused(Run(calls, o), at)
    ensures var t := Step(Run(calls, o), Push(Some(text), at), o).state;
      text in t.recent && forall other | other in t.recent :: at - t.recent[other] <= o.dedupeWindowMs
  {
    var pruned := Run(calls, o).(lastObservedAt := Some(at), recent := Pruned(Run(calls, o).recent, at, o));
    AdmitState(pruned, text, at, o);
  }

  /* ---- Which times are refused ---- */

  /** The greatest time, and the last, that was not refused: told from the calls alone. */
  function LatestTime(calls: seq<Call>): Option<int> {
    if calls == [] then None
    else
      var (before, at) := (LatestTime(calls[..|calls| - 1]), calls[|calls| - 1].at);
      if 0 <= at <= 9_007_199_254_740_991 && (before.None? || before.value <= at) then Some(at) else before
  }

  lemma {:induction false} ObservesLatest(calls: seq<Call>, o: Options)
    ensures Run(calls, o).lastObservedAt == LatestTime(calls)
  {
    if calls != [] {
      ObservesLatest(calls[..|calls| - 1], o);
      StepObserves(Run(calls[..|calls| - 1], o), calls[|calls| - 1], o);
    }
  }

  lemma {:induction false} StepObserves(s: State, call: Call, o: Options)
    ensures var r := Step(s, call, o);
      && r.threw == Refused(s, call.at)
      && r.state.lastObservedAt == (if Refused(s, call.at) then s.lastObservedAt else Some(call.at))
      && (r.threw ==> r.value.None? && r.state == s)
      && (!(call.Push? && call.activity.Some?) ==> r.state.accepted == s.accepted)
  {
    if !Refused(s, call.at) && call.Push? && call.activity.Some? {
      AdmitState(s.(lastObservedAt := Some(call.at), recent := Pruned(s.recent, call.at, o)),
                 call.activity.value, call.at, o);
    }
  }

  /** A time is refused exactly if it is unsafe or before one that was not; a refused call changes nothing. */
  lemma RefusesUnsafeOrEarlier(calls: seq<Call>, call: Call, o: Options)
    ensures var (s, r) := (Run(calls, o), Step(Run(calls, o), call, o));
      && (r.threw <==> || call.at < 0 || call.at > 9_007_199_254_740_991
                       || (LatestTime(calls).Some? && call.at < LatestTime(calls).value))
      && (r.threw ==> r.value.None? && r.state == s)
      && (!(call.Push? && call.activity.Some?) ==> r.state.accepted == s.accepted)
  {
    ObservesLatest(calls, o);
    StepObserves(Run(calls, o), call, o);
  }

  /** A returned value is the text of the acceptance that one new emission shows; no value, no emission. */
  ghost predicate Reported(s: State, r: Reply, at: int, forced: bool) {
    if r.value.None? then r.state.emissions == s.emissions
    else
      exists index: nat ::
        && at >= 0 && r.state.emissions == s.emissions + [Emission(index, at, forced)]
        && index < |r.state.accepted| && r.state.accepted[index].text == r.value.value
  }

  lemma EmitPendingReports(s: State, now: nat, forced: bool, o: Options)
    requires Shows(s, o) && s.pending.Some?
    ensures Reported(s, Reply(EmitPending(s, now, forced), false, s.pending), now, forced)
  {
    var index := |s.accepted| - 1;
    assert EmitPending(s, now, forced).emissions == s.emissions + [Emission(index, now, forced)];
  }

  lemma AdmitReports(s: State, text: Text, now: nat, o: Options)
    requires Shows(s, o)
    ensures Reported(s, Admit(s, text, now, o), now, false)
  {
    var r := Admit(s, text, now, o);
    if r.value.Some? {
      var index := if s.pending.Some? then |s.accepted| - 1 else |s.accepted|;
      assert r.state.emissions == s.emissions + [Emission(index, now, false)];
    }
  }

  lemma {:induction false} ValueIsTheEmission(calls: seq<Call>, call: Call, o: Options)
    ensures Reported(Run(calls, o), Step(Run(calls, o), call, o), call.at, call.Drain?)
  {
    var s := Run(calls, o);
    RunsShow(calls, o);
    if !Refused(s, call.at) {
      var seen := s.(lastObservedAt := Some(call.at));
      SeenShows(s, call.at, s.recent, o);
      match call
      case Push(activity, at) => PushReports(s, seen, activity, at, o);
      case Flush(at) => EmitIfReadyReports(s, seen, at, o);
      case Drain(at) =>
        if s.pending.Some? {
          EmitPendingReports(seen, at, true, o);
        }
    }
  }

  lemma {:induction false} EmitIfReadyReports(s: State, seen: State, now: nat, o: Options)
    requires Shows(seen, o) && seen.emissions == s.emissions
    ensures Reported(s, EmitPendingIfReady(seen, now, o), now, false)
  {
    if seen.pending.Some? {
      EmitPendingReports(seen, now, false, o);
    }
  }

  lemma {:induction false} PushReports(s: State, seen: State, activity: Option<Text>, now: nat, o: Options)
    requires Shows(seen, o) && seen.lastObservedAt == Some(now) && seen.emissions == s.emissions
    ensures Reported(s, PushStep(seen, activity, now, o), now, false)
  {
    var pruned := seen.(recent := Pruned(seen.recent, now, o));
    SeenShows(seen, now, pruned.recent, o);
    EmitIfReadyReports(s, seen, now, o);
    EmitIfReadyReports(s, pruned, now, o);
    if activity.Some? {
      AdmitReports(pruned, activity.value, now, o);
    }
  }

  class ActivityBuffer {
    const options: Options
    var recent: map<Text, nat>
    var lastObservedAt: Option<nat>
    var lastEmittedAt: Option<nat>
    var pending: Option<Text>

    ghost var accepted: seq<Accepted>
    ghost var emissions: seq<Emission>

    ghost function View(): State
      reads this
    {
      State(recent, lastObservedAt, lastEmittedAt, pending, accepted, emissions)
    }

    constructor (options: Options)
      ensures this.options == options && View() == EMPTY
    {
      this.options := options;
      recent, lastObservedAt, lastEmittedAt, pending := map[], None, None, None;
      accepted, emissions := [], [];
    }

    method Push(activity: Option<Text>, observedAt: int) returns (threw: bool, value: Option<Text>)
      modifies this
      ensures Reply(View(), threw, value) == Step(old(View()), Call.Push(activity, observedAt), options)
    {
      threw := ObserveTime(observedAt);
      value := None;
      if threw {
        return;
      }
      if activity.None? {
        value := EmitIfReady(observedAt);
        return;
      }
      var safe := activity.value;
      Prune(observedAt);
      if safe in recent && observedAt - recent[safe] <= options.dedupeWindowMs {
        value := EmitIfReady(observedAt);
        return;
      }
      recent := recent[safe := observedAt];
      ghost var index := |accepted|;
      value := EmitIfReady(observedAt);
      accepted := accepted + [Accepted(safe, observedAt)];
      if value.Some? {
        pending := activity;
        return;
      }
      if lastEmittedAt.None? || observedAt - lastEmittedAt.value >= options.minimumIntervalMs {
        lastEmittedAt := Some(observedAt);
        emissions := emissions + [Emission(index, observedAt, false)];
        value := activity;
        return;
      }
      pending := activity;
    }

    method Flush(observedAt: int) returns (threw: bool, value: Option<Text>)
      modifies this
      ensures Reply(View(), threw, value) == Step(old(View()), Call.Flush(observedAt), options)
    {
      threw := ObserveTime(observedAt);
      value := None;
      if !threw {
        value := EmitIfReady(observedAt);
      }
    }

    method Drain(observedAt: int) returns (threw: bool, value: Option<Text>)
      modifies this
      ensures Reply(View(), threw, value) == Step(old(View()), Call.Drain(observedAt), options)
    {
      threw := ObserveTime(observedAt);
      value := None;
      if threw || pending.None? {
        return;
      }
      value := pending;
      Emit(observedAt, true);
    }

    method ObserveTime(observedAt: int) returns (threw: bool)
      modifies `lastObservedAt
      ensures threw == old(Refused(View(), observedAt))
      ensures lastObservedAt == if threw then old(lastObservedAt) else Some(observedAt)
    {
      if observedAt < 0 || observedAt > MAX_SAFE_INTEGER {
        return true;
      }
      if lastObservedAt.Some? && observedAt < lastObservedAt.value {
        return true;
      }
      lastObservedAt := Some(observedAt);
      return false;
    }

    method Emit(observedAt: nat, ghost forced: bool)
      modifies `pending, `lastEmittedAt, `emissions
      ensures View() == EmitPending(old(View()), observedAt, forced)
    {
      pending := None;
      lastEmittedAt := Some(observedAt);
      emissions := emissions + [Emission(if accepted == [] then 0 else |accepted| - 1, observedAt, forced)];
    }

    method EmitIfReady(observedAt: nat) returns (value: Option<Text>)
      modifies `pending, `lastEmittedAt, `emissions
      ensures Reply(View(), false, value) == EmitPendingIfReady(old(View()), observedAt, options)
    {
      if pending.None? || (lastEmittedAt.Some? && observedAt - lastEmittedAt.value < options.minimumIntervalMs) {
        return None;
      }
      value := pending;
      Emit(observedAt, false);
    }

    method Prune(observedAt: nat)
      modifies `recent
      ensures recent == Pruned(old(recent), observedAt, options)
    {
      var left := recent.Keys;
      var all := recent;
      while left != {}
        invariant left <= all.Keys
        invariant recent == map t | t in all && (t in left || observedAt - all[t] <= options.dedupeWindowMs) :: all[t]
        decreases |left|
      {
        var activity :| activity in left;
        if observedAt - all[activity] > options.dedupeWindowMs {
          recent := recent - {activity};
        }
        left := left - {activity};
      }
    }
  }
}
