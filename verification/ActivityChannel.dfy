/** A worker's activity stream: a bounded queue that drops its oldest event, with readers that wait. */
module ActivityChannel {
  import opened Text

  const MAX_QUEUED_ACTIVITY: nat := 64

  /** What a `next` call was answered: an event, by its place among the published ones, or the end of the stream. */
  datatype Answer = Waiting | Event(index: nat) | End

  datatype Call<T> = Publish(value: T) | Close | Next

  /** The queue and the waiters are those of the channel; `published` and `answers` record the run. */
  datatype State<T> = State(
    queued: seq<T>,
    waiters: seq<nat>,
    closed: bool,
    published: seq<T>,
    answers: seq<Answer>)

  function Start<T>(): State<T> {
    State([], [], false, [], [])
  }

  /** Settles one promise. */
  function Settle(answers: seq<Answer>, promise: nat, answer: Answer): seq<Answer> {
    if promise < |answers| then answers[promise := answer] else answers
  }

  function EndAll(answers: seq<Answer>, waiters: seq<nat>): seq<Answer> {
    if waiters == [] then answers
    else Settle(EndAll(answers, waiters[..|waiters| - 1]), waiters[|waiters| - 1], End)
  }

  function Published<T>(s: State<T>, value: T): State<T> {
    if s.closed then s
    else if s.waiters != [] then
      s.(waiters := s.waiters[1..], published := s.published + [value],
         answers := Settle(s.answers, s.waiters[0], Event(|s.published|)))
    else
      s.(queued := (if |s.queued| == MAX_QUEUED_ACTIVITY then s.queued[1..] else s.queued) + [value],
         published := s.published + [value])
  }

  function Closed<T>(s: State<T>): State<T> {
    if s.closed then s else s.(closed := true, waiters := [], answers := EndAll(s.answers, s.waiters))
  }

  function Asked<T>(s: State<T>): State<T> {
    if s.queued != [] then
      s.(queued := s.queued[1..], answers := s.answers + [Event(FirstQueued(s))])
    else if s.closed then s.(answers := s.answers + [End])
    else s.(waiters := s.waiters + [|s.answers|], answers := s.answers + [Waiting])
  }

  /** One call on the channel. */
  function Step<T>(s: State<T>, call: Call<T>): State<T> {
    match call
    case Publish(value) => Published(s, value)
    case Close => Closed(s)
    case Next => Asked(s)
  }

  /** The index, among the published events, of the head of the queue. */
  function FirstQueued<T>(s: State<T>): nat {
    if |s.queued| <= |s.published| then |s.published| - |s.queued| else 0
  }

  function Run<T>(calls: seq<Call<T>>): State<T> {
    if calls == [] then Start() else Step(Run(calls[..|calls| - 1]), calls[|calls| - 1])
  }

  /* ---- What holds after every run ---- */

  /** The queue is the newest part of what was published, at most 64 events, and only when nobody waits. */
  ghost predicate QueueHolds<T>(s: State<T>) {
    && |s.queued| <= MAX_QUEUED_ACTIVITY && |s.queued| <= |s.published|
    && s.queued == s.published[|s.published| - |s.queued|..]
    && (s.queued != [] ==> s.waiters == [])
    && (s.closed ==> s.waiters == [])
  }

  /** The calls that wait are the last ones, in order; before them every call is answered. */
  ghost predicate WaitersHold(answers: seq<Answer>, waiters: seq<nat>) {
    && |waiters| <= |answers|
    && (forall w | 0 <= w < |waiters| :: waiters[w] == |answers| - |waiters| + w)
    && forall c | 0 <= c < |answers| :: answers[c].Waiting? <==> c >= |answers| - |waiters|
  }

  /** Events reach the calls in the order of publication, each at most once, and from before the queue. */
  ghost predicate DeliveredInOrder(answers: seq<Answer>, firstQueued: nat) {
    && (forall c | 0 <= c < |answers| && answers[c].Event? :: answers[c].index < firstQueued)
    && forall b, c | 0 <= b < c < |answers| && answers[b].Event? && answers[c].Event? ::
         answers[b].index < answers[c].index
  }

  /** The stream ends only once it is closed and drained, and then for good. */
  ghost predicate EndsHold(answers: seq<Answer>, closed: bool, drained: bool) {
    && (forall c | 0 <= c < |answers| && answers[c].End? :: closed && drained)
    && forall b, c | 0 <= b < c < |answers| && answers[b].End? :: answers[c].End?
  }

  ghost predicate Delivered(answers: seq<Answer>, k: nat) {
    exists c :: 0 <= c < |answers| && answers[c] == Event(k)
  }

  /** An event neither queued nor delivered is at least 64 events old. */
  ghost predicate OnlyOldAreDropped(answers: seq<Answer>, published: nat, firstQueued: nat) {
    forall k | 0 <= k < firstQueued && k + MAX_QUEUED_ACTIVITY >= published :: Delivered(answers, k)
  }

  ghost predicate Sound<T>(s: State<T>) {
    && QueueHolds(s)
    && WaitersHold(s.answers, s.waiters)
    && DeliveredInOrder(s.answers, FirstQueued(s))
    && EndsHold(s.answers, s.closed, s.queued == [])
    && OnlyOldAreDropped(s.answers, |s.published|, FirstQueued(s))
  }

  lemma DeliveredStays(answers: seq<Answer>, more: seq<Answer>, published: nat, firstQueued: nat)
    requires |answers| <= |more|
    requires forall c | 0 <= c < |answers| && answers[c].Event? :: more[c] == answers[c]
    requires OnlyOldAreDropped(answers, published, firstQueued)
    ensures OnlyOldAreDropped(more, published, firstQueued)
  {
    forall k | 0 <= k < firstQueued && k + MAX_QUEUED_ACTIVITY >= published ensures Delivered(more, k) {
      assert Delivered(answers, k);
      var c :| 0 <= c < |answers| && answers[c] == Event(k);
      assert more[c] == Event(k);
    }
  }

  /** A publication that a waiter takes. */
  lemma HandOver(answers: seq<Answer>, waiters: seq<nat>, published: nat)
    requires WaitersHold(answers, waiters) && waiters != []
    requires DeliveredInOrder(answers, published) && OnlyOldAreDropped(answers, published, published)
    requires EndsHold(answers, false, true)
    ensures var after := answers[waiters[0] := Event(published)];
      && WaitersHold(after, waiters[1..])
      && DeliveredInOrder(after, published + 1) && OnlyOldAreDropped(after, published + 1, published + 1)
      && EndsHold(after, false, true)
  {
    var after := answers[waiters[0] := Event(published)];
    DeliveredStays(answers, after, published, published);
    forall k | 0 <= k < published + 1 && k + MAX_QUEUED_ACTIVITY >= published + 1 ensures Delivered(after, k) {
      assert after[waiters[0]] == Event(published);
      assert k < published ==> Delivered(after, k);
    }
  }

  lemma PublishKeepsSound<T>(s: State<T>, value: T)
    requires Sound(s)
    ensures Sound(Published(s, value))
  {
    if !s.closed {
      if s.waiters != [] {
        HandOver(s.answers, s.waiters, |s.published|);
      } else {
        var t := Published(s, value);
        assert t.queued == t.published[|t.published| - |t.queued|..];
        assert FirstQueued(t) == FirstQueued(s) || |t.published| >= FirstQueued(t) + MAX_QUEUED_ACTIVITY;
      }
    }
  }

  lemma {:induction false} EndAllEnds(answers: seq<Answer>, waiters: seq<nat>)
    requires forall w | 0 <= w < |waiters| :: waiters[w] < |answers|
    ensures |EndAll(answers, waiters)| == |answers|
    ensures forall c | 0 <= c < |answers| :: EndAll(answers, waiters)[c] == if c in waiters then End else answers[c]
    decreases |waiters|
  {
    if waiters != [] {
      var last := |waiters| - 1;
      EndAllEnds(answers, waiters[..last]);
      assert waiters == waiters[..last] + [waiters[last]];
    }
  }

  lemma CloseKeepsSound<T>(s: State<T>)
    requires Sound(s)
    ensures Sound(Closed(s))
  {
    if !s.closed {
      var t := Closed(s);
      EndAllEnds(s.answers, s.waiters);
      forall c | 0 <= c < |s.answers| ensures t.answers[c] == if s.answers[c].Waiting? then End else s.answers[c] {
        assert s.answers[c].Waiting? ==> s.waiters[c - (|s.answers| - |s.waiters|)] == c;
      }
      DeliveredStays(s.answers, t.answers, |s.published|, FirstQueued(s));
    }
  }

  lemma NextKeepsSound<T>(s: State<T>)
    requires Sound(s)
    ensures Sound(Asked(s))
  {
    if s.queued != [] {
      TakeQueued(s.answers, |s.published|, FirstQueued(s));
    } else {
      DeliveredStays(s.answers, Asked(s).answers, |s.published|, FirstQueued(s));
    }
  }

  /** A call that the head of the queue answers. */
  lemma TakeQueued(answers: seq<Answer>, published: nat, firstQueued: nat)
    requires DeliveredInOrder(answers, firstQueued) && OnlyOldAreDropped(answers, published, firstQueued)
    ensures var after := answers + [Event(firstQueued)];
      DeliveredInOrder(after, firstQueued + 1) && OnlyOldAreDropped(after, published, firstQueued + 1)
  {
    var after := answers + [Event(firstQueued)];
    DeliveredStays(answers, after, published, firstQueued);
    assert after[|answers|] == Event(firstQueued);
    forall k | 0 <= k < firstQueued + 1 && k + MAX_QUEUED_ACTIVITY >= published ensures Delivered(after, k) {
      assert k < firstQueued ==> Delivered(after, k);
    }
  }

  lemma StepKeepsSound<T>(s: State<T>, call: Call<T>)
    requires Sound(s)
    ensures Sound(Step(s, call))
  {
    match call
    case Publish(value) => PublishKeepsSound(s, value);
    case Close => CloseKeepsSound(s);
    case Next => NextKeepsSound(s);
  }

  lemma StartIsSound<T>()
    ensures Sound(Start<T>())
  {
  }

  /** Every run, with calls in any order. */
  lemma {:induction false} RunsAreSound<T>(calls: seq<Call<T>>)
    ensures Sound(Run(calls))
    decreases |calls|
  {
    if calls == [] {
      StartIsSound<T>();
    } else {
      var (before, last) := (calls[..|calls| - 1], calls[|calls| - 1]);
      RunsAreSound(before);
      StepKeepsSound(Run(before), last);
      assert Run(calls) == Step(Run(before), last);
    }
  }

  /* ---- What the calls alone tell ---- */

  /** The values published before the first close. */
  function PublishedBy<T>(calls: seq<Call<T>>): seq<T> {
    if calls == [] then []
    else
      var before := calls[..|calls| - 1];
      match calls[|calls| - 1]
      case Publish(value) => if ClosedBy(before) then PublishedBy(before) else PublishedBy(before) + [value]
      case _ => PublishedBy(before)
  }

  function ClosedBy<T>(calls: seq<Call<T>>): bool {
    exists i :: 0 <= i < |calls| && calls[i].Close?
  }

  function AskedBy<T>(calls: seq<Call<T>>): nat {
    if calls == [] then 0
    else AskedBy(calls[..|calls| - 1]) + if calls[|calls| - 1].Next? then 1 else 0
  }

  lemma {:induction false} ClosedByNext<T>(calls: seq<Call<T>>)
    requires calls != []
    ensures ClosedBy(calls) == (ClosedBy(calls[..|calls| - 1]) || calls[|calls| - 1].Close?)
  {
    var last := |calls| - 1;
    if i :| 0 <= i < |calls| && calls[i].Close? {
      assert i < last ==> calls[..last][i].Close?;
    }
    if i :| 0 <= i < last && calls[..last][i].Close? {
      assert calls[i].Close?;
    }
  }

  lemma {:induction false} StepRecords<T>(s: State<T>, call: Call<T>)
    requires Sound(s)
    ensures var t := Step(s, call);
      && t.published == (if call.Publish? && !s.closed then s.published + [call.value] else s.published)
      && t.closed == (s.closed || call.Close?)
      && |t.answers| == |s.answers| + if call.Next? then 1 else 0
  {
    if call.Close? && !s.closed {
      EndAllEnds(s.answers, s.waiters);
    }
  }

  /** What a run records is what the calls say: every value up to the first close, and one answer for each `next`. */
  lemma {:induction false} RunsRecordCalls<T>(calls: seq<Call<T>>)
    ensures Run(calls).published == PublishedBy(calls)
    ensures Run(calls).closed == ClosedBy(calls)
    ensures |Run(calls).answers| == AskedBy(calls)
    decreases |calls|
  {
    if calls != [] {
      var (before, last) := (calls[..|calls| - 1], calls[|calls| - 1]);
      RunsRecordCalls(before);
      RunsAreSound(before);
      ClosedByNext(calls);
      StepRecords(Run(before), last);
    }
  }

  /** The queue holds the event published as number `k`. */
  ghost predicate Held<T>(queued: seq<T>, published: seq<T>, k: nat)
    requires k < |published|
  {
    var back := |published| - k;
    back <= |queued| && queued[|queued| - back] == published[k]
  }

  /**
    * Of the values published before the first close, each of the last 64 was given to one `next` or is
    * still held for one; nothing else is given, and values are given in the order of publication.
    */
  lemma PublishedArrives<T>(calls: seq<Call<T>>)
    ensures var (s, published) := (Run(calls), PublishedBy(calls));
      && |s.answers| == AskedBy(calls) && |s.queued| <= 64
      && (forall k | 0 <= k < |published| && k + 64 >= |published| ::
          Delivered(s.answers, k) || Held(s.queued, published, k))
      && (forall c | 0 <= c < |s.answers| && s.answers[c].Event? ::
          s.answers[c].index < |published| && !Held(s.queued, published, s.answers[c].index))
      && (forall b, c | 0 <= b < c < |s.answers| && s.answers[b].Event? && s.answers[c].Event? ::
          s.answers[b].index < s.answers[c].index)
  {
    RunsRecordCalls(calls);
    RunsAreSound(calls);
  }

  /** A promise that has settled stays as it settled. */
  lemma AnswersStand<T>(calls: seq<Call<T>>, call: Call<T>, c: nat)
    requires c < |Run(calls).answers| && !Run(calls).answers[c].Waiting?
    ensures c < |Run(calls + [call]).answers| && Run(calls + [call]).answers[c] == Run(calls).answers[c]
  {
    var s := Run(calls);
    RunsAreSound(calls);
    RunNext(calls, call);
    EndAllEnds(s.answers, s.waiters);
    assert forall w | 0 <= w < |s.waiters| :: s.waiters[w] != c;
  }

  /** A `next` waits only while nothing is held and the stream is open, and ends only once it is closed. */
  lemma WaitsOnlyForEvents<T>(calls: seq<Call<T>>, c: nat)
    requires c < |Run(calls).answers| && !Run(calls).answers[c].Event?
    ensures var s := Run(calls);
      s.queued == [] && if s.answers[c].Waiting? then !ClosedBy(calls) else ClosedBy(calls)
  {
    RunsRecordCalls(calls);
    RunsAreSound(calls);
  }

  /** What is held, in order, and then the end for good. */
  ghost function HeldThenEnd(first: nat, held: nat, n: nat): seq<Answer> {
    seq(n, i requires 0 <= i < n => if i < held then Event(first + i) else End)
  }

  ghost function Drained<T>(s: State<T>, n: nat): State<T> {
    s.(queued := if n < |s.queued| then s.queued[n..] else [],
       answers := s.answers + HeldThenEnd(FirstQueued(s), |s.queued|, n))
  }

  lemma DrainNext<T>(s: State<T>, n: nat)
    requires s.closed && |s.queued| <= |s.published|
    ensures Asked(Drained(s, n)) == Drained(s, n + 1)
  {
    var answer := if n < |s.queued| then Event(FirstQueued(s) + n) else End;
    var before := HeldThenEnd(FirstQueued(s), |s.queued|, n);
    assert HeldThenEnd(FirstQueued(s), |s.queued|, n + 1) == before + [answer];
    ConcatAssociates(s.answers, before, [answer]);
  }

  /** Once closed, no promise is left unsettled. */
  lemma ClosedIsSettled<T>(calls: seq<Call<T>>)
    requires Run(calls).closed
    ensures forall c | 0 <= c < |Run(calls).answers| :: !Run(calls).answers[c].Waiting?
  {
    RunsAreSound(calls);
  }

  /** Once closed, further calls read what is held, in order, and then the end. */
  lemma {:induction false} ClosedDrains<T>(calls: seq<Call<T>>, n: nat)
    requires Run(calls).closed
    ensures Run(calls + Nexts(n)) == Drained(Run(calls), n)
    decreases n
  {
    if n == 0 {
      assert calls + Nexts<T>(0) == calls;
      DrainNothing(Run(calls));
    } else {
      var before := calls + Nexts(n - 1);
      ClosedDrains(calls, n - 1);
      QueueIsPublished(calls);
      DrainNext(Run(calls), n - 1);
      ConcatAssociates(calls, Nexts(n - 1), [Next]);
      RunNext(before, Next);
    }
  }

  lemma QueueIsPublished<T>(calls: seq<Call<T>>)
    ensures |Run(calls).queued| <= |Run(calls).published|
  {
    RunsAreSound(calls);
  }

  function Nexts<T>(n: nat): seq<Call<T>> {
    if n == 0 then [] else Nexts(n - 1) + [Next]
  }

  lemma RunNext<T>(calls: seq<Call<T>>, call: Call<T>)
    ensures Run(calls + [call]) == Step(Run(calls), call)
  {
    assert (calls + [call])[..|calls|] == calls;
  }

  lemma DrainNothing<T>(s: State<T>)
    ensures Drained(s, 0) == s
  {
    assert s.answers + HeldThenEnd(FirstQueued(s), |s.queued|, 0) == s.answers;
  }

  /* ---- The class ---- */

  class ActivityChannel<T> {
    var queued: seq<T>
    var waiters: seq<nat>
    var closed: bool
    var iteratorCreated: bool
    /** How many promises `next` has returned: the number of the next one. */
    var promises: nat

    ghost var published: seq<T>
    /** What each promise resolved to. */
    ghost var answers: seq<Answer>

    ghost function View(): State<T>
      reads this
    {
      State(queued, waiters, closed, published, answers)
    }

    ghost predicate Valid()
      reads this
    {
      promises == |answers| && Sound(View())
    }

    constructor ()
      ensures Valid() && View() == Start<T>() && !iteratorCreated
    {
      queued, waiters, closed, iteratorCreated, promises := [], [], false, false, 0;
      published, answers := [], [];
    }

    method Publish(value: T)
      requires Valid()
      modifies `queued, `waiters, `published, `answers
      ensures Valid() && View() == Published(old(View()), value)
    {
      PublishKeepsSound(View(), value);
      if closed {
        return;
      }
      published := published + [value];
      if waiters != [] {
        answers := answers[waiters[0] := Event(|published| - 1)];
        waiters := waiters[1..];
        return;
      }
      if |queued| == MAX_QUEUED_ACTIVITY {
        queued := queued[1..];
      }
      queued := queued + [value];
    }

    method Close()
      requires Valid()
      modifies `closed, `waiters, `answers
      ensures Valid() && View() == Closed(old(View()))
    {
      CloseKeepsSound(View());
      if closed {
        return;
      }
      closed := true;
      var resolvers := waiters;
      waiters := [];
      for w := 0 to |resolvers|
        invariant |answers| == |old(answers)| && answers == EndAll(old(answers), resolvers[..w])
      {
        assert resolvers[..w + 1][..w] == resolvers[..w];
        answers := Settle(answers, resolvers[w], End);
      }
      assert resolvers[..|resolvers|] == resolvers;
    }

    /** The iterator: the first caller gets one, any other an error. */
    method Iterate() returns (ok: bool)
      modifies `iteratorCreated
      ensures ok == !old(iteratorCreated) && iteratorCreated
    {
      ok := !iteratorCreated;
      iteratorCreated := true;
    }

    /** The event at hand, the end of the stream, or None: the promise settles later. */
    method Next() returns (result: Option<Option<T>>)
      requires Valid()
      modifies `queued, `waiters, `answers, `promises
      ensures Valid() && View() == Asked(old(View()))
      ensures result == if old(queued) != [] then Some(Some(old(queued)[0])) else if closed then Some(None) else None
    {
      NextKeepsSound(View());
      promises := promises + 1;
      if queued != [] {
        result := Some(Some(queued[0]));
        answers := answers + [Event(FirstQueued(View()))];
        queued := queued[1..];
        return;
      }
      if closed {
        answers := answers + [End];
        return Some(None);
      }
      waiters := waiters + [promises - 1];
      answers := answers + [Waiting];
      return None;
    }
  }
}
