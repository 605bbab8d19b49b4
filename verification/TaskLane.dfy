/** One supervised worker lane: retries, quarantine of poisoned claims, and when it stops for good. */
module TaskLane {
  import opened Text

  /* ---- What a lane does, as a trace ---- */

  datatype Classification = Transient | CredentialRevoked | Poisoned

  /** One `worker.run`: it claimed something or not, or failed, perhaps with a missing runtime capability. */
  datatype RunOutcome = Finished(claimed: bool) | Failed(classification: Classification, capability: bool)

  /** Calls to the worker and to the sleeper, in order; a run carries the lane's restart count at its start. */
  datatype Action =
    | Run(restarts: nat, outcome: RunOutcome)
    | Report
    | HasClaim(held: bool)
    | Retry(restarts: nat, delayMs: nat)
    | Quarantine(settled: bool)
    | Backoff(attempt: nat, delayMs: nat)
    | Drop(dropped: bool)

  const SETTLE_ATTEMPTS: nat := 5
  const MAXIMUM_BACKOFF_MS: nat := 60_000

  /* ---- Delays ---- */

  datatype RetryConfig = RetryConfig(initialDelayMs: nat, maximumDelayMs: nat)

  function Power(n: nat): nat {
    if n == 0 then 1 else 2 * Power(n - 1)
  }

  function Min(a: nat, b: nat): nat {
    if a < b then a else b
  }

  /** The power of two that scales the delay of one attempt. */
  function Exponent(attempt: nat): nat {
    Min(30, if attempt >= 1 then attempt - 1 else 0)
  }

  function Capped(config: RetryConfig, scale: nat): nat {
    Min(MAXIMUM_BACKOFF_MS, Min(config.maximumDelayMs, config.initialDelayMs * scale))
  }

  /** The exclusive upper bound of the delay before one attempt. */
  function Ceiling(config: RetryConfig, attempt: nat): nat {
    Capped(config, Power(Exponent(attempt)))
  }

  /** A random sample clamped below one; a sample that is not a finite number counts as one half. */
  function Unit(sample: Option<real>): real {
    match sample
    case None => 0.5
    case Some(r) => if r < 0.0 then 0.0 else if r > 0.999_999_999 then 0.999_999_999 else r
  }

  function DelayForAttempt(config: RetryConfig, attempt: nat, sample: Option<real>): int {
    (Ceiling(config, attempt) as real * Unit(sample)).Floor
  }

  lemma ProductIsBelow(r: real, u: real)
    requires 0.0 < r && u < 1.0
    ensures r * u < r
  {
    assert r * (1.0 - u) > 0.0;
  }

  lemma FractionIsBelow(c: nat, u: real)
    requires 0.0 <= u < 1.0
    ensures 0 <= (c as real * u).Floor <= c
    ensures c > 0 ==> (c as real * u).Floor < c
  {
    var r := c as real;
    assert 0.0 <= r * u;
    assert r * u <= r * 1.0;
    var x := r * u;
    if c > 0 {
      ProductIsBelow(r, u);
      assert x.Floor as real <= x < c as real;
    }
  }

  /** Strictly below, unless the ceiling is zero and so is the delay. */
  predicate BelowCeiling(config: RetryConfig, attempt: nat, delayMs: nat) {
    delayMs < Ceiling(config, attempt) || delayMs == Ceiling(config, attempt) == 0
  }

  /** Whatever is sampled, the delay stays below its ceiling, which is at most a minute. */
  lemma {:induction false} DelayIsBounded(config: RetryConfig, attempt: nat, sample: Option<real>)
    ensures 0 <= DelayForAttempt(config, attempt, sample) <= Ceiling(config, attempt) <= MAXIMUM_BACKOFF_MS
    ensures Ceiling(config, attempt) > 0 ==> DelayForAttempt(config, attempt, sample) < Ceiling(config, attempt)
  {
    var (ceiling, unit) := (Ceiling(config, attempt), Unit(sample));
    assert 0.0 <= unit < 1.0;
    FractionIsBelow(ceiling, unit);
  }

  lemma {:induction false} PowerGrows(m: nat, n: nat)
    requires m <= n
    ensures Power(m) <= Power(n)
    decreases n
  {
    if m < n {
      PowerGrows(m, n - 1);
    }
  }

  lemma {:induction false} ScaledGrows(d: nat, m: nat, n: nat)
    requires m <= n
    ensures d * m <= d * n
    decreases n - m
  {
    if m < n {
      ScaledGrows(d, m + 1, n);
      assert d * (m + 1) == d * m + d;
    }
  }

  lemma CappedGrows(config: RetryConfig, m: nat, n: nat)
    requires m <= n
    ensures Capped(config, m) <= Capped(config, n)
  {
    ScaledGrows(config.initialDelayMs, m, n);
  }

  /** Later attempts never have a lower ceiling. */
  lemma CeilingGrows(config: RetryConfig, a: nat, b: nat)
    requires a <= b
    ensures Ceiling(config, a) <= Ceiling(config, b)
  {
    PowerGrows(Exponent(a), Exponent(b));
    CappedGrows(config, Power(Exponent(a)), Power(Exponent(b)));
  }

  /** The first ceiling is the initial delay, each further one is twice the one before, and all are capped. */
  lemma CeilingDoubles(config: RetryConfig, attempt: nat)
    ensures var cap := if config.maximumDelayMs < 60_000 then config.maximumDelayMs else 60_000;
      && Ceiling(config, 1) == (if config.initialDelayMs < cap then config.initialDelayMs else cap)
      && (1 <= attempt <= 30 ==>
          var twice := 2 * Ceiling(config, attempt);
          Ceiling(config, attempt + 1) == if twice < cap then twice else cap)
      && (attempt > 30 ==> Ceiling(config, attempt + 1) == Ceiling(config, attempt))
  {
    if 1 <= attempt <= 30 {
      var power := Power(attempt - 1);
      assert Exponent(attempt) == attempt - 1 && Exponent(attempt + 1) == attempt;
      assert config.initialDelayMs * (2 * power) == 2 * (config.initialDelayMs * power);
    }
  }

  /** Every delay below the ceiling is sampled, and an unusable sample gives half the ceiling. */
  lemma EveryDelayIsSampled(config: RetryConfig, attempt: nat, delayMs: nat) returns (sample: real)
    requires delayMs < Ceiling(config, attempt)
    ensures DelayForAttempt(config, attempt, Some(sample)) == delayMs
    ensures DelayForAttempt(config, attempt, None) == Ceiling(config, attempt) / 2
  {
    sample := SampleFor(Ceiling(config, attempt), delayMs);
    HalfFloors(Ceiling(config, attempt));
  }

  lemma SampleFor(c: nat, d: nat) returns (sample: real)
    requires d < c <= 60_000
    ensures 0.0 <= sample <= 0.999_999_999 && (c as real * sample).Floor == d
  {
    sample := (d as real + 0.5) / c as real;
    Quotient(d as real + 0.5, c as real, 0.999_999_999);
    assert c as real * sample == d as real + 0.5;
  }

  lemma Quotient(a: real, c: real, bound: real)
    requires a >= 0.0 && c > 0.0 && a <= bound * c
    ensures c * (a / c) == a && 0.0 <= a / c <= bound
  {
  }

  lemma HalfFloors(c: nat)
    ensures (c as real * 0.5).Floor == c / 2
  {
    var h := c / 2;
    assert c == 2 * h || c == 2 * h + 1;
  }

  /* ---- The protocol ---- */

  /** What may come next. `closing` quarantines end the lane. */
  datatype Mode =
    | Ready(restarts: nat)
    | Reporting(next: Mode)
    | Poison(restarts: nat)
    | Incapable
    | Retrying(restarts: nat)
    | Quarantining(failures: nat, closing: bool)
    | BackingOff(failures: nat, closing: bool)
    | Stopped
    | Broken

  function Step(m: Mode, a: Action): Mode {
    match m
    case Ready(restarts) =>
      if !a.Run? || a.restarts != restarts then Broken
      else (match a.outcome
        case Finished(claimed) => if claimed then Reporting(Ready(0)) else Ready(0)
        case Failed(CredentialRevoked, _) => Stopped
        case Failed(Transient, _) => Retrying(restarts)
        case Failed(Poisoned, capability) => Reporting(if capability then Incapable else Poison(restarts)))
    case Reporting(next) => if a == Report then next else Broken
    case Poison(restarts) =>
      if !a.HasClaim? then Broken else if a.held then Quarantining(0, false) else Retrying(restarts)
    case Incapable => if !a.HasClaim? then Broken else if a.held then Quarantining(0, true) else Stopped
    case Retrying(restarts) => if a.Retry? && a.restarts == restarts + 1 then Ready(restarts + 1) else Broken
    case Quarantining(failures, closing) =>
      if a == Quarantine(true) && failures < SETTLE_ATTEMPTS then if closing then Stopped else Ready(0)
      else if a == Quarantine(false) && failures + 1 < SETTLE_ATTEMPTS then BackingOff(failures + 1, closing)
      else if a == Quarantine(false) && failures + 1 == SETTLE_ATTEMPTS then Quarantining(failures + 1, closing)
      else if a.Drop? && failures == SETTLE_ATTEMPTS then if closing then Stopped else Ready(0)
      else Broken
    case BackingOff(failures, closing) =>
      if a.Backoff? && a.attempt == failures then Quarantining(failures, closing) else Broken
    case Stopped => Broken
    case Broken => Broken
  }

  function After(m: Mode, trace: seq<Action>): Mode {
    if trace == [] then m else Step(After(m, trace[..|trace| - 1]), trace[|trace| - 1])
  }

  predicate Lawful(trace: seq<Action>) {
    After(Ready(0), trace) != Broken
  }

  lemma AfterSnoc(m: Mode, trace: seq<Action>, a: Action)
    ensures After(m, trace + [a]) == Step(After(m, trace), a)
  {
    assert (trace + [a])[..|trace|] == trace;
  }

  lemma {:induction false} AfterParts(m: Mode, first: seq<Action>, second: seq<Action>)
    ensures After(m, first + second) == After(After(m, first), second)
    decreases |second|
  {
    if second == [] {
      assert first + second == first;
    } else {
      var last := |second| - 1;
      AfterParts(m, first, second[..last]);
      ConcatAssociates(first, second[..last], [second[last]]);
      AfterSnoc(m, first + second[..last], second[last]);
      assert second == second[..last] + [second[last]];
    }
  }

  lemma {:induction false} BrokenStays(trace: seq<Action>)
    ensures After(Broken, trace) == Broken
  {
    if trace != [] {
      BrokenStays(trace[..|trace| - 1]);
    }
  }

  /** The mode of a lawful trace before and after one of its actions. */
  lemma {:induction false} LawfulAt(trace: seq<Action>, i: nat)
    requires Lawful(trace) && i < |trace|
    ensures Step(After(Ready(0), trace[..i]), trace[i]) == After(Ready(0), trace[..i + 1]) != Broken
  {
    AfterSnoc(Ready(0), trace[..i], trace[i]);
    assert trace[..i] + [trace[i]] == trace[..i + 1];
    LawfulBegins(trace, i + 1);
  }

  lemma {:induction false} LawfulBegins(trace: seq<Action>, k: nat)
    requires Lawful(trace) && k <= |trace|
    ensures After(Ready(0), trace[..k]) != Broken
  {
    var (first, second) := (trace[..k], trace[k..]);
    AfterParts(Ready(0), first, second);
    BrokenStays(second);
    assert trace == first + second;
  }

  /* ---- What the protocol means ---- */

  predicate Fatal(outcome: RunOutcome) {
    && outcome.Failed?
    && (outcome.classification.CredentialRevoked? || (outcome.classification.Poisoned? && outcome.capability))
  }

  /** After a revoked credential or a missing capability the worker never runs again. */
  lemma NoRunAfterFatal(trace: seq<Action>, i: nat, j: nat)
    requires Lawful(trace) && i < j < |trace|
    requires trace[i].Run? && Fatal(trace[i].outcome)
    ensures !trace[j].Run?
  {
    LawfulAt(trace, i);
    EndedStaysEnded(trace, i + 1, j);
    LawfulAt(trace, j);
  }

  predicate Ended(m: Mode) {
    match m
    case Incapable => true
    case Stopped => true
    case Quarantining(_, closing) => closing
    case BackingOff(_, closing) => closing
    case Reporting(next) => next.Incapable?
    case _ => false
  }

  lemma {:induction false} EndedStaysEnded(trace: seq<Action>, i: nat, j: nat)
    requires Lawful(trace) && i <= j <= |trace| && Ended(After(Ready(0), trace[..i]))
    ensures Ended(After(Ready(0), trace[..j]))
    decreases j
  {
    if i < j {
      EndedStaysEnded(trace, i, j - 1);
      LawfulAt(trace, j - 1);
    }
  }

  /** A lane that has stopped met a revoked credential or a missing capability. */
  lemma {:induction false} StoppedOnFatal(trace: seq<Action>) returns (i: nat)
    requires Lawful(trace) && Ended(After(Ready(0), trace))
    ensures i < |trace| && trace[i].Run? && Fatal(trace[i].outcome)
    decreases |trace|
  {
    var last := |trace| - 1;
    LawfulAt(trace, last);
    assert trace[..last + 1] == trace;
    if Ended(After(Ready(0), trace[..last])) {
      i := StoppedOnFatal(trace[..last]);
    } else {
      WhatReportsGoOnTo(trace[..last]);
      i := last;
    }
  }

  lemma {:induction false} WhatReportsGoOnTo(trace: seq<Action>)
    ensures var m := After(Ready(0), trace); m.Reporting? ==> m.next.Ready? || m.next.Poison? || m.next.Incapable?
    decreases |trace|
  {
    if trace != [] {
      WhatReportsGoOnTo(trace[..|trace| - 1]);
    }
  }

  /** A run that claimed something, or was poisoned, is reported next; nothing else is reported. */
  predicate IsReported(a: Action) {
    a.Run? && (a.outcome == Finished(true) || (a.outcome.Failed? && a.outcome.classification.Poisoned?))
  }

  lemma ReportFollows(trace: seq<Action>, i: nat)
    requires Lawful(trace) && i + 1 < |trace|
    ensures trace[i + 1] == Report <==> IsReported(trace[i])
    ensures trace[0] != Report
  {
    LawfulAt(trace, 0);
    LawfulAt(trace, i);
    LawfulAt(trace, i + 1);
    WhatReportsGoOnTo(trace[..i]);
    ReportsNext(After(Ready(0), trace[..i]), trace[i], trace[i + 1]);
    assert trace[..0] == [];
  }

  lemma {:induction false} ReportsNext(m: Mode, a: Action, b: Action)
    requires m.Reporting? ==> !m.next.Reporting?
    requires Step(m, a) != Broken && Step(Step(m, a), b) != Broken
    ensures b == Report <==> IsReported(a)
  {
  }

  /** After a failed attempt to settle a claim the lane backs off as often as it has failed, or drops the claim. */
  lemma FailedAttemptIsFollowed(trace: seq<Action>, i: nat)
    requires Lawful(trace) && i + 1 < |trace| && trace[i] == Quarantine(false)
    ensures trace[i + 1].Backoff? || trace[i + 1].Drop?
  {
    LawfulAt(trace, i);
    LawfulAt(trace, i + 1);
  }

  /** A transient failure is followed by a retry, and so is a poisoned one that held no claim. */
  lemma RetryFollows(trace: seq<Action>, i: nat)
    requires Lawful(trace) && i + 1 < |trace|
    requires trace[i] == HasClaim(false) || (trace[i].Run? && trace[i].outcome.Failed?
                                             && trace[i].outcome.classification.Transient?)
    ensures trace[i + 1].Retry?
  {
    LawfulAt(trace, i);
    LawfulAt(trace, i + 1);
  }

  /** The attempts to settle a claim in a stretch of trace. */
  function Settlement(trace: seq<Action>): seq<Action> {
    if trace == [] then []
    else
      var (before, last) := (Settlement(trace[..|trace| - 1]), trace[|trace| - 1]);
      if last.Quarantine? || last.Drop? then before + [last] else before
  }

  predicate AllFailed(attempts: seq<Action>) {
    forall i | 0 <= i < |attempts| :: attempts[i] == Quarantine(false)
  }

  /** At most four failures and a success, or exactly five failures and one attempt to drop. */
  predicate ClaimSettled(attempts: seq<Action>) {
    && attempts != []
    && AllFailed(attempts[..|attempts| - 1])
    && var last := attempts[|attempts| - 1];
       || (last == Quarantine(true) && |attempts| <= 5)
       || (last.Drop? && |attempts| == 6)
  }

  /** What a lane does once a claim is settled: it runs from zero, or has stopped. */
  function Settled(closing: bool): Mode {
    if closing then Stopped else Ready(0)
  }

  /** The claim is still to be settled, after so many failures, or is settled. */
  predicate Settling(m: Mode, attempts: seq<Action>, closing: bool) {
    || (AllFailed(attempts) && if |attempts| == 0 || |attempts| == 5
                               then m == Quarantining(|attempts|, closing)
                               else |attempts| < 5 && (m == Quarantining(|attempts|, closing)
                                                       || m == BackingOff(|attempts|, closing)))
    || (m == Settled(closing) && ClaimSettled(attempts))
  }

  predicate NoRun(trace: seq<Action>) {
    forall i | 0 <= i < |trace| :: !trace[i].Run?
  }

  /** From the start of a quarantine: still failing, or settled. */
  lemma {:induction false} QuarantineSettles(trace: seq<Action>, closing: bool)
    requires NoRun(trace) && After(Quarantining(0, closing), trace) != Broken
    ensures Settling(After(Quarantining(0, closing), trace), Settlement(trace), closing)
    decreases |trace|
  {
    if trace != [] {
      var (before, last) := (trace[..|trace| - 1], trace[|trace| - 1]);
      QuarantineSettles(before, closing);
      AttemptSettles(After(Quarantining(0, closing), before), Settlement(before), last, closing);
    }
  }

  lemma {:induction false} AttemptSettles(m: Mode, attempts: seq<Action>, a: Action, closing: bool)
    requires Settling(m, attempts, closing) && !a.Run? && Step(m, a) != Broken
    ensures Settling(Step(m, a), if a.Quarantine? || a.Drop? then attempts + [a] else attempts, closing)
  {
    assert (attempts + [a])[..|attempts|] == attempts;
  }

  /** A poisoned failure is reported, and then the worker is asked for its claim. */
  lemma ClaimIsAsked(trace: seq<Action>, i: nat)
    requires Lawful(trace) && i + 2 < |trace|
    requires trace[i].Run? && trace[i].outcome.Failed? && trace[i].outcome.classification.Poisoned?
    ensures trace[i + 1] == Report && trace[i + 2].HasClaim?
  {
    LawfulAt(trace, i);
    LawfulAt(trace, i + 1);
    LawfulAt(trace, i + 2);
  }

  /** A lane that has stopped with a held claim has settled it. */
  lemma {:induction false} StoppedClaimIsSettled(trace: seq<Action>, h: nat)
    requires Lawful(trace) && h < |trace| && trace[h] == HasClaim(true) && NoRun(trace[h + 1..])
    requires After(Ready(0), trace).Stopped?
    ensures ClaimSettled(Settlement(trace[h + 1..]))
  {
    LawfulAt(trace, h);
    LawfulBetween(trace, h + 1, |trace|);
    assert trace[h + 1..|trace|] == trace[h + 1..] && trace[..|trace|] == trace;
    var m := After(Ready(0), trace[..h + 1]);
    QuarantineSettles(trace[h + 1..], m.closing);
  }

  /** The modes of a lawful trace at two places, and the stretch between them. */
  lemma LawfulBetween(trace: seq<Action>, i: nat, j: nat)
    requires Lawful(trace) && i <= j <= |trace|
    ensures After(Ready(0), trace[..j]) == After(After(Ready(0), trace[..i]), trace[i..j]) != Broken
  {
    assert trace[..i] + trace[i..j] == trace[..j];
    AfterParts(Ready(0), trace[..i], trace[i..j]);
    assert trace == trace[..j] + trace[j..];
    AfterParts(Ready(0), trace[..j], trace[j..]);
    BrokenStays(trace[j..]);
  }

  lemma {:induction false} NoRunWithin(trace: seq<Action>, i: nat, h: nat, j: nat)
    requires i <= h < j <= |trace| && NoRun(trace[i..j])
    ensures NoRun(trace[i..h]) && NoRun(trace[h + 1..j])
  {
    forall k | i <= k < j ensures !trace[k].Run? {
      assert trace[i..j][k - i] == trace[k];
    }
  }

  /** After a poisoned failure with a held claim, the claim is settled before the worker runs again. */
  lemma {:induction false} PoisonedClaimIsSettled(trace: seq<Action>, i: nat, h: nat, j: nat)
    requires Lawful(trace) && i < h < j < |trace|
    requires trace[i].Run? && trace[i].outcome == Failed(Poisoned, false)
    requires trace[h] == HasClaim(true) && trace[j].Run?
    requires NoRun(trace[i + 1..j])
    ensures ClaimSettled(Settlement(trace[h + 1..j]))
  {
    NoRunWithin(trace, i + 1, h, j);
    PoisonEntersQuarantine(trace, i, h);
    QuarantineEndsBeforeRun(trace, h + 1, j);
  }

  lemma {:induction false} QuarantineEndsBeforeRun(trace: seq<Action>, q: nat, j: nat)
    requires Lawful(trace) && q <= j < |trace| && trace[j].Run?
    requires After(Ready(0), trace[..q]) == Quarantining(0, false) && NoRun(trace[q..j])
    ensures ClaimSettled(Settlement(trace[q..j]))
  {
    LawfulBetween(trace, q, j);
    LawfulAt(trace, j);
    SettledBeforeRun(trace[q..j], trace[j]);
  }

  lemma {:induction false} SettledBeforeRun(stretch: seq<Action>, run: Action)
    requires NoRun(stretch) && run.Run?
    requires After(Quarantining(0, false), stretch) != Broken
    requires Step(After(Quarantining(0, false), stretch), run) != Broken
    ensures ClaimSettled(Settlement(stretch))
  {
    QuarantineSettles(stretch, false);
  }

  lemma PoisonEntersQuarantine(trace: seq<Action>, i: nat, h: nat)
    requires Lawful(trace) && i < h < |trace|
    requires trace[i].Run? && trace[i].outcome == Failed(Poisoned, false) && trace[h] == HasClaim(true)
    requires NoRun(trace[i + 1..h])
    ensures After(Ready(0), trace[..h + 1]) == Quarantining(0, false)
  {
    LawfulAt(trace, i);
    LawfulBetween(trace, i + 1, h);
    PoisonUntilClaim(After(Ready(0), trace[..i]).restarts, trace[i + 1..h]);
    LawfulAt(trace, h);
  }

  predicate Capable(m: Mode) {
    !m.Incapable? && (m.Reporting? ==> Capable(m.next))
  }

  /** Without another run, a poisoned failure is not taken for a missing capability. */
  lemma {:induction false} PoisonUntilClaim(restarts: nat, trace: seq<Action>)
    requires NoRun(trace)
    requires After(Reporting(Poison(restarts)), trace) != Broken
    ensures Capable(After(Reporting(Poison(restarts)), trace))
    decreases |trace|
  {
    if trace != [] {
      PoisonUntilClaim(restarts, trace[..|trace| - 1]);
    }
  }

  /* ---- Restart counts ---- */

  /** Retries since the last success or quarantine. */
  function RetriesSince(trace: seq<Action>): nat {
    if trace == [] then 0
    else
      var (before, last) := (trace[..|trace| - 1], trace[|trace| - 1]);
      if (last.Run? && last.outcome.Finished?) || last == HasClaim(true) then 0
      else if last.Retry? then RetriesSince(before) + 1
      else RetriesSince(before)
  }

  /** What the mode says of the retries. */
  predicate CountsAs(m: Mode, retries: nat) {
    match m
    case Ready(restarts) => restarts == retries
    case Retrying(restarts) => restarts == retries
    case Poison(restarts) => restarts == retries
    case Reporting(next) => !next.Reporting? && CountsAs(next, retries)
    case Quarantining(_, closing) => closing || retries == 0
    case BackingOff(_, closing) => closing || retries == 0
    case _ => true
  }

  lemma {:induction false} CountsAgree(trace: seq<Action>)
    requires Lawful(trace)
    ensures var m := After(Ready(0), trace);
      CountsAs(m, RetriesSince(trace))
    decreases |trace|
  {
    if trace != [] {
      var last := |trace| - 1;
      LawfulAt(trace, last);
      assert trace[..last + 1] == trace;
      CountsAgree(trace[..last]);
    }
  }

  /** A run starts with the retries since the last success or quarantine as its restart count. */
  lemma RestartsCountRetries(trace: seq<Action>, i: nat)
    requires Lawful(trace) && i < |trace| && trace[i].Run?
    ensures trace[i].restarts == RetriesSince(trace[..i])
  {
    LawfulAt(trace, i);
    CountsAgree(trace[..i]);
  }

  /** A retry carries the number of retries, itself included. */
  lemma RetriesAreNumbered(trace: seq<Action>, i: nat)
    requires Lawful(trace) && i < |trace| && trace[i].Retry?
    ensures trace[i].restarts == RetriesSince(trace[..i]) + 1
  {
    LawfulAt(trace, i);
    CountsAgree(trace[..i]);
  }

  /** Failed attempts to settle since the claim was found held. */
  function FailuresSince(trace: seq<Action>): nat {
    if trace == [] then 0
    else
      var (before, last) := (trace[..|trace| - 1], trace[|trace| - 1]);
      if last.HasClaim? then 0
      else if last == Quarantine(false) then FailuresSince(before) + 1
      else FailuresSince(before)
  }

  lemma {:induction false} FailuresAgree(trace: seq<Action>)
    requires Lawful(trace)
    ensures var m := After(Ready(0), trace); m.Quarantining? || m.BackingOff? ==> m.failures == FailuresSince(trace)
    decreases |trace|
  {
    if trace != [] {
      var last := |trace| - 1;
      LawfulAt(trace, last);
      assert trace[..last + 1] == trace;
      WhatReportsGoOnTo(trace[..last]);
      FailuresAgree(trace[..last]);
    }
  }

  /** A backoff carries the number of failed attempts to settle the claim. */
  lemma BackoffsAreNumbered(trace: seq<Action>, i: nat)
    requires Lawful(trace) && i < |trace| && trace[i].Backoff?
    ensures trace[i].attempt == FailuresSince(trace[..i])
  {
    LawfulAt(trace, i);
    FailuresAgree(trace[..i]);
  }

  /* ---- Delays in a trace ---- */

  ghost predicate IsSampled(config: RetryConfig, attempt: nat, delayMs: nat) {
    exists sample :: delayMs == DelayForAttempt(config, attempt, sample)
  }

  lemma SampleIsSampled(config: RetryConfig, attempt: nat, sample: Option<real>)
    requires DelayForAttempt(config, attempt, sample) >= 0
    ensures IsSampled(config, attempt, DelayForAttempt(config, attempt, sample))
  {
    var delayMs: nat := DelayForAttempt(config, attempt, sample);
    assert delayMs == DelayForAttempt(config, attempt, sample);
  }

  /** A delay comes from some sample for its attempt. */
  ghost predicate Sampled(config: RetryConfig, a: Action) {
    match a
    case Retry(attempt, delayMs) => IsSampled(config, attempt, delayMs)
    case Backoff(attempt, delayMs) => IsSampled(config, attempt, delayMs)
    case _ => true
  }

  ghost predicate AllSampled(config: RetryConfig, trace: seq<Action>) {
    forall i | 0 <= i < |trace| :: Sampled(config, trace[i])
  }

  /* ---- The lane ---- */

  datatype Status = Starting | Running | RetryingLane | Closed

  /** What a lane remembers of its last error. */
  datatype LastError = NoError | Detail(outcome: RunOutcome) | CredentialRevokedMessage

  class Lane {
    const config: RetryConfig
    /** The signal is aborted once this many awaits have passed. */
    const abortAfter: nat
    var status: Status
    var restartCount: nat
    var retryDelayMs: Option<nat>
    var lastError: LastError
    var awaits: nat
    var trace: seq<Action>

    constructor (config: RetryConfig, abortAfter: nat)
      ensures this.config == config && this.abortAfter == abortAfter
      ensures status == Starting && restartCount == 0 && retryDelayMs == None && lastError == NoError
      ensures awaits == 0 && trace == []
    {
      this.config, this.abortAfter := config, abortAfter;
      status, restartCount, retryDelayMs, lastError := Starting, 0, None, NoError;
      awaits, trace := 0, [];
    }

    predicate Aborted()
      reads this
    {
      awaits >= abortAfter
    }

    function Current(): Mode
      reads this
    {
      After(Ready(0), trace)
    }

    /** The lane runs until its signal aborts or an error closes it, and its trace keeps the protocol. */
    method RunLane()
      requires trace == [] && restartCount == 0
      modifies this
      ensures Lawful(trace) && AllSampled(config, trace)
      ensures !Aborted() ==> status == Closed && Current().Stopped?
    {
      while !Aborted()
        invariant Current() != Broken && AllSampled(config, trace)
        invariant !Aborted() ==> Current() == Ready(restartCount)
        decreases abortAfter - awaits
      {
        var stopped := RunOnce();
        if stopped {
          return;
        }
      }
    }

    /** One turn of the loop: one `worker.run` and what follows from it. */
    method RunOnce() returns (stopped: bool)
      requires Current() == Ready(restartCount)
      modifies this
      ensures Current() != Broken && awaits > old(awaits)
      ensures old(AllSampled(config, trace)) ==> AllSampled(config, trace)
      ensures stopped && !Aborted() ==> status == Closed && Current().Stopped?
      ensures !stopped && !Aborted() ==> Current() == Ready(restartCount)
    {
      status, retryDelayMs := Running, None;
      var outcome: RunOutcome := *;
      Await(Run(restartCount, outcome));
      if Aborted() {
        return true;
      }
      if outcome.Failed? {
        stopped := RunFailed(outcome);
        return;
      }
      restartCount := 0;
      if outcome.claimed {
        Await(Report);
        lastError := NoError;
      }
      return false;
    }

    /** The `catch` of a failed run: the lane stops, or goes on after a retry or a quarantine. */
    method RunFailed(outcome: RunOutcome) returns (stopped: bool)
      requires outcome.Failed? && Current() == Step(Ready(restartCount), Run(restartCount, outcome))
      modifies this
      ensures Current() != Broken && awaits >= old(awaits)
      ensures old(AllSampled(config, trace)) ==> AllSampled(config, trace)
      ensures stopped ==> status == Closed && (!Aborted() ==> Current().Stopped?)
      ensures !stopped && !Aborted() ==> Current() == Ready(restartCount)
    {
      lastError := Detail(outcome);
      if outcome.classification == CredentialRevoked {
        status, retryDelayMs, lastError := Closed, None, CredentialRevokedMessage;
        return true;
      }
      if outcome.classification == Transient {
        RetryLane();
        return false;
      }
      Await(Report);
      var held := HasActiveClaim();
      if outcome.capability {
        if held {
          QuarantineClaim(true);
        }
        status, restartCount, retryDelayMs := Closed, 0, None;
        return true;
      }
      if !held {
        RetryLane();
        return false;
      }
      QuarantineClaim(false);
      restartCount, retryDelayMs := 0, None;
      return false;
    }

    method HasActiveClaim() returns (held: bool)
      modifies `trace
      ensures trace == old(trace) + [HasClaim(held)]
      ensures Current() == Step(old(Current()), HasClaim(held))
      ensures old(AllSampled(config, trace)) ==> AllSampled(config, trace)
    {
      held := *;
      AfterSnoc(Ready(0), trace, HasClaim(held));
      trace := trace + [HasClaim(held)];
    }

    /** One more restart, then a sleep below the ceiling of that restart. */
    method RetryLane()
      requires Current() == Retrying(restartCount)
      modifies this
      ensures restartCount == old(restartCount) + 1 && Current() == Ready(restartCount)
      ensures status == RetryingLane && lastError == old(lastError)
      ensures retryDelayMs.Some? && BelowCeiling(config, restartCount, retryDelayMs.value)
      ensures awaits == old(awaits) + 1
      ensures old(AllSampled(config, trace)) ==> AllSampled(config, trace)
    {
      restartCount := restartCount + 1;
      var delayMs := SampleDelay(restartCount);
      status, retryDelayMs := RetryingLane, Some(delayMs);
      Await(Retry(restartCount, delayMs));
    }

    method SampleDelay(attempt: nat) returns (delayMs: nat)
      ensures BelowCeiling(config, attempt, delayMs) && Ceiling(config, attempt) <= MAXIMUM_BACKOFF_MS
      ensures IsSampled(config, attempt, delayMs)
    {
      var sample: Option<real> := *;
      DelayIsBounded(config, attempt, sample);
      SampleIsSampled(config, attempt, sample);
      delayMs := DelayForAttempt(config, attempt, sample);
    }

    /** Up to five attempts to settle the claim, then one to drop it; an abort leaves it where it is. */
    method QuarantineClaim(ghost closing: bool)
      requires Current() == Quarantining(0, closing)
      modifies this
      ensures Current() == (if closing then Stopped else Ready(0)) || (Aborted() && Current() != Broken)
      ensures awaits >= old(awaits) && restartCount == old(restartCount) && lastError == old(lastError)
      ensures !Aborted() ==> awaits > old(awaits)
      ensures old(AllSampled(config, trace)) ==> AllSampled(config, trace)
    {
      var settled := SettleClaim(closing);
      if settled || Aborted() {
        return;
      }
      var dropped: bool := *;
      Await(Drop(dropped));
    }

    /** The attempts: settled, aborted, or failed five times. */
    method SettleClaim(ghost closing: bool) returns (settled: bool)
      requires Current() == Quarantining(0, closing)
      modifies this
      ensures settled ==> Current() == if closing then Stopped else Ready(0)
      ensures !settled && !Aborted() ==> Current() == Quarantining(SETTLE_ATTEMPTS, closing)
      ensures Current() != Broken
      ensures awaits >= old(awaits) && restartCount == old(restartCount) && lastError == old(lastError)
      ensures settled || !Aborted() ==> awaits > old(awaits)
      ensures old(AllSampled(config, trace)) ==> AllSampled(config, trace)
    {
      settled := false;
      var attempt: nat := 1;
      while attempt <= SETTLE_ATTEMPTS && !Aborted()
        invariant 1 <= attempt <= SETTLE_ATTEMPTS && !settled
        invariant Current() == Quarantining(attempt - 1, closing)
        invariant old(AllSampled(config, trace)) ==> AllSampled(config, trace)
        invariant awaits >= old(awaits) && restartCount == old(restartCount) && lastError == old(lastError)
        decreases SETTLE_ATTEMPTS + 1 - attempt
      {
        settled := *;
        Await(Quarantine(settled));
        if settled || attempt == SETTLE_ATTEMPTS {
          return;
        }
        BackOff(attempt, closing);
        attempt := attempt + 1;
      }
    }

    /** A sleep below the ceiling of the attempt that failed. */
    method BackOff(attempt: nat, ghost closing: bool)
      requires Current() == BackingOff(attempt, closing)
      modifies this
      ensures Current() == Quarantining(attempt, closing)
      ensures status == RetryingLane && retryDelayMs.Some? && BelowCeiling(config, attempt, retryDelayMs.value)
      ensures awaits == old(awaits) + 1 && restartCount == old(restartCount) && lastError == old(lastError)
      ensures old(AllSampled(config, trace)) ==> AllSampled(config, trace)
    {
      var delayMs := SampleDelay(attempt);
      status, retryDelayMs := RetryingLane, Some(delayMs);
      Await(Backoff(attempt, delayMs));
    }

    /** One awaited call: it is recorded, and the signal may have aborted by the time it returns. */
    method Await(a: Action)
      modifies `awaits, `trace
      ensures awaits == old(awaits) + 1 && trace == old(trace) + [a]
      ensures Current() == Step(old(Current()), a)
      ensures old(AllSampled(config, trace)) && Sampled(config, a) ==> AllSampled(config, trace)
    {
      AfterSnoc(Ready(0), trace, a);
      awaits := awaits + 1;
      trace := trace + [a];
    }
  }
}
