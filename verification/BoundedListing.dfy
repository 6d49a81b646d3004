/** Bounded parallel bucket listing: workers that share an index, a result table and the first error. */
module BoundedListing {

  import opened Common

  type Bucket = string

  /** A thrown JavaScript value, by what `??=` and a truth test make of it. */
  datatype Thrown = Nullish | Falsy | Truthy(id: nat)

  /** How the server answers one request. */
  datatype Answer = Reply(buckets: seq<Bucket>) | Failure(error: Thrown)

  datatype Worker = Ready | Awaiting(index: nat) | Stopped

  const CONCURRENCY: nat := 8

  /** `arrivals` lists the requests in the order their answers came back. */
  datatype State = State(
    nextIndex: nat, results: map<nat, seq<Bucket>>, firstError: Thrown,
    workers: seq<Worker>, aborted: bool, arrivals: seq<nat>)

  datatype Event = Turn(worker: nat) | AnswerArrives(worker: nat) | Abort

  function WorkerCount(n: nat): nat {
    if n < CONCURRENCY then n else CONCURRENCY
  }

  function Start(n: nat): State {
    State(0, map[], Nullish, seq(WorkerCount(n), _ => Ready), false, [])
  }

  /** The head of a worker's loop: stop, or take the next index. */
  function AfterTurn(s: State, n: nat, w: nat): State
    requires w < |s.workers|
  {
    if s.firstError.Truthy? || s.aborted then s.(workers := s.workers[w := Stopped])
    else
      s.(nextIndex := s.nextIndex + 1,
         workers := s.workers[w := if s.nextIndex >= n then Stopped else Awaiting(s.nextIndex)])
  }

  function AfterAnswer(s: State, answers: seq<Answer>, w: nat): State
    requires w < |s.workers| && s.workers[w].Awaiting? && s.workers[w].index < |answers|
  {
    var index := s.workers[w].index;
    var next := s.(workers := s.workers[w := Ready], arrivals := s.arrivals + [index]);
    match answers[index]
    case Reply(buckets) => next.(results := s.results[index := buckets])
    case Failure(error) => next.(firstError := if s.firstError.Nullish? then error else s.firstError)
  }

  function Step(s: State, answers: seq<Answer>, e: Event): State {
    match e
    case Turn(w) => if w < |s.workers| && s.workers[w].Ready? then AfterTurn(s, |answers|, w) else s
    case AnswerArrives(w) =>
      if w < |s.workers| && s.workers[w].Awaiting? && s.workers[w].index < |answers| then AfterAnswer(s, answers, w)
      else s
    case Abort => s.(aborted := true)
  }

  function Run(s: State, answers: seq<Answer>, events: seq<Event>): State
    decreases |events|
  {
    if events == [] then s else Run(Step(s, answers, events[0]), answers, events[1..])
  }

  predicate AllStopped(s: State) {
    forall w :: 0 <= w < |s.workers| ==> s.workers[w].Stopped?
  }

  datatype Outcome = Listed(buckets: seq<Bucket>) | Threw(error: Thrown) | AbortedListing

  function Flat(results: map<nat, seq<Bucket>>, n: nat): seq<Bucket> {
    if n == 0 then [] else Flat(results, n - 1) + if n - 1 in results then results[n - 1] else []
  }

  /** What the listing returns once its workers have stopped. */
  function Finish(s: State, n: nat): Outcome {
    if s.firstError.Truthy? then Threw(s.firstError)
    else if s.aborted then AbortedListing
    else Listed(Flat(s.results, n))
  }

  // ---- The sequential reference ----

  /** The replies in request order; a failed request contributes nothing. */
  function Replies(answers: seq<Answer>, n: nat): seq<Bucket>
    requires n <= |answers|
  {
    if n == 0 then []
    else Replies(answers, n - 1) + if answers[n - 1].Reply? then answers[n - 1].buckets else []
  }

  /** The first error in arrival order that `??=` records. */
  function FirstRecorded(answers: seq<Answer>, arrivals: seq<nat>): Thrown {
    if arrivals == [] then Nullish
    else
      var earlier := FirstRecorded(answers, arrivals[..|arrivals| - 1]);
      var last := arrivals[|arrivals| - 1];
      if earlier.Nullish? && last < |answers| && answers[last].Failure? then answers[last].error else earlier
  }

  // ---- What every interleaving keeps ----

  predicate Held(workers: seq<Worker>, index: nat) {
    exists w :: 0 <= w < |workers| && workers[w] == Awaiting(index)
  }

  /** An index that was handed out is with one worker or answered; none is handed out twice. */
  ghost predicate IndicesCovered(s: State, n: nat) {
    && (forall i: nat :: i < n && i < s.nextIndex ==> Held(s.workers, i) || i in s.arrivals)
    && (forall w :: 0 <= w < |s.workers| && s.workers[w].Awaiting? ==>
          s.workers[w].index < n && s.workers[w].index < s.nextIndex && s.workers[w].index !in s.arrivals)
    && (forall v, w :: 0 <= v < w < |s.workers| && s.workers[v].Awaiting? ==> s.workers[v] != s.workers[w])
    && (forall k :: 0 <= k < |s.arrivals| ==> s.arrivals[k] < n && s.arrivals[k] < s.nextIndex)
    && (forall k, l :: 0 <= k < l < |s.arrivals| ==> s.arrivals[k] != s.arrivals[l])
  }

  ghost predicate AnswersKept(s: State, answers: seq<Answer>) {
    && (forall i :: i in s.results <==> i in s.arrivals && i < |answers| && answers[i].Reply?)
    && (forall i :: i in s.results ==> s.results[i] == answers[i].buckets)
    && s.firstError == FirstRecorded(answers, s.arrivals)
  }

  predicate StoppedForReason(s: State, n: nat) {
    (exists w :: 0 <= w < |s.workers| && s.workers[w].Stopped?) ==>
      s.firstError.Truthy? || s.aborted || s.nextIndex >= n
  }

  ghost predicate Inv(s: State, answers: seq<Answer>) {
    && |s.workers| == WorkerCount(|answers|)
    && IndicesCovered(s, |answers|) && AnswersKept(s, answers) && StoppedForReason(s, |answers|)
  }

  lemma TurnKeepsInv(s: State, answers: seq<Answer>, w: nat)
    requires Inv(s, answers) && w < |s.workers| && s.workers[w].Ready?
    ensures Inv(AfterTurn(s, |answers|, w), answers)
  {
    var t := AfterTurn(s, |answers|, w);
    forall i: nat | i < |answers| && i < t.nextIndex ensures Held(t.workers, i) || i in t.arrivals {
      if i < s.nextIndex {
        if Held(s.workers, i) {
          var v :| 0 <= v < |s.workers| && s.workers[v] == Awaiting(i);
          assert t.workers[v] == Awaiting(i);
        }
      } else {
        assert t.workers[w] == Awaiting(i);
      }
    }
  }

  lemma AnswerKeepsIndices(s: State, answers: seq<Answer>, w: nat)
    requires IndicesCovered(s, |answers|) && w < |s.workers| && s.workers[w].Awaiting?
    ensures IndicesCovered(AfterAnswer(s, answers, w), |answers|)
  {
    var t := AfterAnswer(s, answers, w);
    var index := s.workers[w].index;
    assert forall i :: i in t.arrivals <==> i in s.arrivals || i == index;
    forall i: nat | i < |answers| && i < t.nextIndex ensures Held(t.workers, i) || i in t.arrivals {
      if i !in s.arrivals && i != index {
        var v :| 0 <= v < |s.workers| && s.workers[v] == Awaiting(i);
        assert t.workers[v] == Awaiting(i);
      }
    }
    forall v | 0 <= v < |t.workers| && t.workers[v].Awaiting? ensures t.workers[v].index !in t.arrivals {
      assert t.workers[v] == s.workers[v] && v != w;
      assert if v < w then s.workers[v] != s.workers[w] else s.workers[w] != s.workers[v];
    }
  }

  lemma AnswerKeepsAnswers(s: State, answers: seq<Answer>, w: nat)
    requires AnswersKept(s, answers) && w < |s.workers| && s.workers[w].Awaiting? && s.workers[w].index < |answers|
    requires s.workers[w].index !in s.arrivals
    ensures AnswersKept(AfterAnswer(s, answers, w), answers)
  {
    var t := AfterAnswer(s, answers, w);
    var index := s.workers[w].index;
    assert t.arrivals[..|s.arrivals|] == s.arrivals && t.arrivals[|s.arrivals|] == index;
    assert forall i :: i in t.arrivals <==> i in s.arrivals || i == index;
  }

  lemma AnswerKeepsInv(s: State, answers: seq<Answer>, w: nat)
    requires Inv(s, answers) && w < |s.workers| && s.workers[w].Awaiting?
    ensures Inv(AfterAnswer(s, answers, w), answers)
  {
    AnswerKeepsIndices(s, answers, w);
    AnswerKeepsAnswers(s, answers, w);
    AnswerKeepsReason(s, answers, w);
    hide AnswersKept, IndicesCovered, StoppedForReason;
  }

  lemma AnswerKeepsReason(s: State, answers: seq<Answer>, w: nat)
    requires StoppedForReason(s, |answers|)
    requires w < |s.workers| && s.workers[w].Awaiting? && s.workers[w].index < |answers|
    ensures StoppedForReason(AfterAnswer(s, answers, w), |answers|)
  {
    var t := AfterAnswer(s, answers, w);
    assert forall v :: 0 <= v < |t.workers| && t.workers[v].Stopped? ==> s.workers[v].Stopped?;
  }

  lemma StepKeepsInv(s: State, answers: seq<Answer>, e: Event)
    requires Inv(s, answers)
    ensures Inv(Step(s, answers, e), answers)
  {
    match e {
      case Turn(w) =>
        if w < |s.workers| && s.workers[w].Ready? { TurnKeepsInv(s, answers, w); }
      case AnswerArrives(w) =>
        if w < |s.workers| && s.workers[w].Awaiting? { AnswerKeepsInv(s, answers, w); }
      case Abort =>
    }
  }

  lemma {:induction false} RunKeepsInv(s: State, answers: seq<Answer>, events: seq<Event>)
    requires Inv(s, answers)
    ensures Inv(Run(s, answers, events), answers)
    decreases |events|
  {
    if events != [] {
      StepKeepsInv(s, answers, events[0]);
      RunKeepsInv(Step(s, answers, events[0]), answers, events[1..]);
    }
  }

  // ---- Main results ----

  /** In every interleaving no request is handed to two workers or answered twice, and at most 8 are in flight. */
  lemma IssuedOnceAndBounded(answers: seq<Answer>, events: seq<Event>)
    ensures var s := Run(Start(|answers|), answers, events);
            && |s.workers| <= CONCURRENCY && |s.workers| <= |answers|
            && IndicesCovered(s, |answers|)
  {
    RunKeepsInv(Start(|answers|), answers, events);
  }

  /** Once a truthy error is recorded, it stays, and no further request is issued. */
  lemma {:induction false} NothingIssuedAfterError(s: State, answers: seq<Answer>, events: seq<Event>)
    requires s.firstError.Truthy?
    ensures Run(s, answers, events).firstError == s.firstError
    ensures Run(s, answers, events).nextIndex == s.nextIndex
    decreases |events|
  {
    if events != [] {
      NothingIssuedAfterError(Step(s, answers, events[0]), answers, events[1..]);
    }
  }

  lemma {:induction false} AbortedIff(s: State, answers: seq<Answer>, events: seq<Event>)
    ensures Run(s, answers, events).aborted <==> s.aborted || Abort in events
    decreases |events|
  {
    if events != [] {
      AbortedIff(Step(s, answers, events[0]), answers, events[1..]);
    }
  }

  /** So it is after an abort. */
  lemma {:induction false} NothingIssuedAfterAbort(s: State, answers: seq<Answer>, events: seq<Event>)
    requires s.aborted
    ensures Run(s, answers, events).aborted && Run(s, answers, events).nextIndex == s.nextIndex
    decreases |events|
  {
    if events != [] {
      NothingIssuedAfterAbort(Step(s, answers, events[0]), answers, events[1..]);
    }
  }

  lemma {:induction false} FlatIsReplies(results: map<nat, seq<Bucket>>, answers: seq<Answer>, n: nat)
    requires n <= |answers|
    requires forall i: nat :: i < n ==> (i in results <==> answers[i].Reply?)
    requires forall i: nat :: i < n && i in results ==> results[i] == answers[i].buckets
    ensures Flat(results, n) == Replies(answers, n)
  {
    if n > 0 {
      FlatIsReplies(results, answers, n - 1);
    }
  }

  /** A listing that ends without a truthy error or an abort has had an answer to every request. */
  lemma AllAnswered(s: State, answers: seq<Answer>)
    requires Inv(s, answers) && AllStopped(s) && !s.firstError.Truthy? && !s.aborted
    ensures forall i: nat :: i < |answers| ==> i in s.arrivals
  {
    if |answers| > 0 {
      assert s.workers[0].Stopped?;
    }
    forall i: nat | i < |answers| ensures i in s.arrivals {
      assert !Held(s.workers, i);
    }
  }

  /**
   * What a finished listing returns, in every interleaving: it throws exactly when the first recorded error is
   * truthy, and then that error; failing that it reports an abort; otherwise it returns the replies of all
   * requests in request order, with nothing for a request whose error was not truthy.
   */
  lemma FinishedListing(answers: seq<Answer>, events: seq<Event>)
    requires AllStopped(Run(Start(|answers|), answers, events))
    ensures var s := Run(Start(|answers|), answers, events);
            var first := FirstRecorded(answers, s.arrivals);
            Finish(s, |answers|) ==
            if first.Truthy? then Threw(first)
            else if Abort in events then AbortedListing
            else Listed(Replies(answers, |answers|))
  {
    hide Run, IndicesCovered, StoppedForReason;
    AbortedIff(Start(|answers|), answers, events);
    var s := Run(Start(|answers|), answers, events);
    RunKeepsInv(Start(|answers|), answers, events);
    if !s.firstError.Truthy? && !s.aborted {
      AllAnswered(s, answers);
      FlatIsReplies(s.results, answers, |answers|);
    }
  }

  predicate ErrorsAreTruthy(answers: seq<Answer>) {
    forall i :: 0 <= i < |answers| && answers[i].Failure? ==> answers[i].error.Truthy?
  }

  lemma {:induction false} TruthyFailureIsRecorded(answers: seq<Answer>, arrivals: seq<nat>)
    requires ErrorsAreTruthy(answers)
    ensures FirstRecorded(answers, arrivals).Truthy? <==>
            exists k :: 0 <= k < |arrivals| && arrivals[k] < |answers| && answers[arrivals[k]].Failure?
    ensures !FirstRecorded(answers, arrivals).Falsy?
    decreases |arrivals|
  {
    if arrivals != [] {
      var front := arrivals[..|arrivals| - 1];
      TruthyFailureIsRecorded(answers, front);
      assert forall k :: 0 <= k < |front| ==> front[k] == arrivals[k];
    }
  }

  /**
   * When every error is truthy, a listing that returns has had every request succeed, so it is the sequential
   * listing; and a failed request makes it throw.
   */
  lemma ReturnsOnlyCompleteListings(answers: seq<Answer>, events: seq<Event>)
    requires ErrorsAreTruthy(answers)
    requires AllStopped(Run(Start(|answers|), answers, events))
    ensures var s := Run(Start(|answers|), answers, events);
            && (Finish(s, |answers|).Listed? ==> forall i :: 0 <= i < |answers| ==> answers[i].Reply?)
            && ((exists k :: 0 <= k < |s.arrivals| && s.arrivals[k] < |answers| && answers[s.arrivals[k]].Failure?) ==>
                  Finish(s, |answers|).Threw?)
  {
    var s := Run(Start(|answers|), answers, events);
    RunKeepsInv(Start(|answers|), answers, events);
    FinishedListing(answers, events);
    TruthyFailureIsRecorded(answers, s.arrivals);
    if Finish(s, |answers|).Listed? {
      AllAnswered(s, answers);
      forall i: nat | i < |answers| ensures answers[i].Reply? {
        assert i in s.arrivals;
      }
    }
  }

  // ---- When every listing that returns is complete ----

  predicate AllReplied(answers: seq<Answer>) {
    forall i :: 0 <= i < |answers| ==> answers[i].Reply?
  }

  /** The requests before number `n` that fail with a truthy error. */
  function TruthyBefore(answers: seq<Answer>, n: nat): set<nat>
    requires n <= |answers|
  {
    set i: nat | i < n && answers[i].Failure? && answers[i].error.Truthy?
  }

  predicate FalsyUnguarded(answers: seq<Answer>, k: nat) {
    k < |answers| && answers[k] == Failure(Falsy) && |TruthyBefore(answers, k)| < CONCURRENCY
  }

  /**
   * A failure comes with a truthy one, and a falsy failure has so many truthy ones before it that one of them
   * must have come back before the falsy request is made.
   */
  predicate NoFailureCanHide(answers: seq<Answer>) {
    && (AllReplied(answers) || TruthyBefore(answers, |answers|) != {})
    && forall k :: 0 <= k < |answers| ==> !FalsyUnguarded(answers, k)
  }

  /** These events carry a listing through to its end, where it returns. */
  predicate Returns(answers: seq<Answer>, events: seq<Event>) {
    var s := Run(Start(|answers|), answers, events);
    AllStopped(s) && Finish(s, |answers|).Listed?
  }

  function HeldIndices(workers: seq<Worker>): (held: set<nat>)
    ensures |held| <= |workers|
    ensures forall i :: i in held <==> Held(workers, i)
  {
    if workers == [] then {}
    else
      var last := |workers| - 1;
      var front := HeldIndices(workers[..last]);
      assert forall i :: Held(workers, i) <==> Held(workers[..last], i) || workers[last] == Awaiting(i);
      if workers[last].Awaiting? then front + {workers[last].index} else front
  }

  lemma {:induction false} AllHoldApart(workers: seq<Worker>)
    requires forall w :: 0 <= w < |workers| ==> workers[w].Awaiting?
    requires forall v, w :: 0 <= v < w < |workers| ==> workers[v] != workers[w]
    ensures |HeldIndices(workers)| == |workers|
    decreases |workers|
  {
    if workers != [] {
      var last := |workers| - 1;
      AllHoldApart(workers[..last]);
      assert workers[last].index !in HeldIndices(workers[..last]);
    }
  }

  lemma {:induction false} NothingRecorded(answers: seq<Answer>, arrivals: seq<nat>)
    requires FirstRecorded(answers, arrivals).Nullish?
    ensures forall i :: i in arrivals && i < |answers| && answers[i].Failure? ==> answers[i].error.Nullish?
    decreases |arrivals|
  {
    if arrivals != [] {
      NothingRecorded(answers, arrivals[..|arrivals| - 1]);
      assert arrivals == arrivals[..|arrivals| - 1] + [arrivals[|arrivals| - 1]];
    }
  }

  /** A falsy error is recorded only when fewer truthy failures precede its request than there are workers. */
  lemma FalsyAnswerIsUnguarded(s: State, answers: seq<Answer>, w: nat)
    requires Inv(s, answers) && w < |s.workers| && s.workers[w].Awaiting?
    requires s.firstError.Nullish? && answers[s.workers[w].index] == Failure(Falsy)
    ensures FalsyUnguarded(answers, s.workers[w].index)
  {
    var k := s.workers[w].index;
    NothingRecorded(answers, s.arrivals);
    var truthy := TruthyBefore(answers, k);
    forall i | i in truthy + {k} ensures i in HeldIndices(s.workers) {
      assert i == k ==> s.workers[w] == Awaiting(i);
    }
    SubsetSize(truthy + {k}, HeldIndices(s.workers));
    SizeAfterInsert(truthy, k);
  }

  lemma {:induction false} RecordedFalsyIsUnguarded(s: State, answers: seq<Answer>, events: seq<Event>)
    requires Inv(s, answers)
    requires s.firstError.Falsy? ==> exists k :: FalsyUnguarded(answers, k)
    ensures Run(s, answers, events).firstError.Falsy? ==> exists k :: FalsyUnguarded(answers, k)
    decreases |events|
  {
    if events != [] {
      var e := events[0];
      if e.AnswerArrives? && e.worker < |s.workers| && s.workers[e.worker].Awaiting? && s.firstError.Nullish? {
        if answers[s.workers[e.worker].index] == Failure(Falsy) {
          FalsyAnswerIsUnguarded(s, answers, e.worker);
        }
      }
      hide Inv, FalsyUnguarded;
      StepKeepsInv(s, answers, e);
      RecordedFalsyIsUnguarded(Step(s, answers, e), answers, events[1..]);
    }
  }

  lemma ReturnedIsComplete(answers: seq<Answer>, events: seq<Event>)
    requires NoFailureCanHide(answers) && Returns(answers, events)
    ensures AllReplied(answers)
  {
    var s := Run(Start(|answers|), answers, events);
    RunKeepsInv(Start(|answers|), answers, events);
    RecordedFalsyIsUnguarded(Start(|answers|), answers, events);
    AllAnswered(s, answers);
    NothingRecorded(answers, s.arrivals);
    hide Run, FirstRecorded;
  }

  // ---- A listing that hides a failure ----

  function Weight(workers: seq<Worker>): nat {
    if workers == [] then 0
    else
      var last := workers[|workers| - 1];
      Weight(workers[..|workers| - 1]) + if last.Stopped? then 0 else if last.Ready? then 1 else 2
  }

  lemma {:induction false} WeightDrops(workers: seq<Worker>, w: nat, next: Worker)
    requires w < |workers|
    ensures Weight(workers[w := next]) - Weight(workers) == Weight([next]) - Weight([workers[w]])
    decreases |workers|
  {
    var last := |workers| - 1;
    assert [next][..0] == [] && [workers[w]][..0] == [];
    if w == last {
      assert workers[w := next][..last] == workers[..last];
    } else {
      WeightDrops(workers[..last], w, next);
      assert workers[w := next][..last] == workers[..last][w := next];
    }
  }

  lemma WeightOfOne(w: Worker)
    ensures Weight([w]) == if w.Stopped? then 0 else if w.Ready? then 1 else 2
  {
    assert [w][..0] == [];
  }

  /** How much is left to do before every worker stops. */
  function Remaining(s: State, n: nat): nat {
    3 * (if s.nextIndex < n then n - s.nextIndex else 0) + Weight(s.workers)
  }

  lemma RemainingDrops(s: State, answers: seq<Answer>, e: Event)
    requires !e.Abort? && e.worker < |s.workers|
    requires match e
             case Turn(w) => s.workers[w].Ready?
             case AnswerArrives(w) => s.workers[w].Awaiting? && s.workers[w].index < |answers|
    ensures Remaining(Step(s, answers, e), |answers|) < Remaining(s, |answers|)
  {
    var t, w := Step(s, answers, e), e.worker;
    assert t.workers == s.workers[w := t.workers[w]];
    WeightDrops(s.workers, w, t.workers[w]);
    WeightOfOne(s.workers[w]);
    WeightOfOne(t.workers[w]);
  }

  /** From every reachable state some order of answers brings the listing to its end. */
  lemma {:induction false} CanFinish(s: State, answers: seq<Answer>) returns (events: seq<Event>)
    requires Inv(s, answers) && !s.aborted
    ensures var end := Run(s, answers, events);
            && AllStopped(end) && !end.aborted
            && (!s.firstError.Nullish? ==> end.firstError == s.firstError)
    decreases Remaining(s, |answers|)
  {
    if w :| 0 <= w < |s.workers| && !s.workers[w].Stopped? {
      var e := if s.workers[w].Ready? then Turn(w) else AnswerArrives(w);
      RemainingDrops(s, answers, e);
      StepKeepsInv(s, answers, e);
      var rest := CanFinish(Step(s, answers, e), answers);
      events := [e] + rest;
      assert events[1..] == rest;
    } else {
      events := [];
    }
  }

  /** Every worker is between requests or waits for a request that fails with a truthy error. */
  predicate OnlyTruthyHeld(s: State, answers: seq<Answer>) {
    && s.firstError.Nullish? && !s.aborted
    && forall w :: 0 <= w < |s.workers| ==>
         || s.workers[w].Ready?
         || (s.workers[w].Awaiting? && s.workers[w].index < |answers| &&
             answers[s.workers[w].index].Failure? && answers[s.workers[w].index].error.Truthy?)
  }

  lemma SomeoneIsReady(s: State, answers: seq<Answer>, k: nat) returns (w: nat)
    requires Inv(s, answers) && OnlyTruthyHeld(s, answers) && s.nextIndex <= k && FalsyUnguarded(answers, k)
    ensures w < |s.workers| && s.workers[w].Ready?
  {
    if forall v :: 0 <= v < |s.workers| ==> s.workers[v].Awaiting? {
      AllHoldApart(s.workers);
      var truthy := TruthyBefore(answers, k);
      forall i | i in HeldIndices(s.workers) ensures i in truthy {
        var v :| 0 <= v < |s.workers| && s.workers[v] == Awaiting(i);
      }
      SubsetSize(HeldIndices(s.workers), truthy);
      SizeOfTruthyBefore(answers, k);
      assert false;
    } else {
      w :| 0 <= w < |s.workers| && !s.workers[w].Awaiting?;
    }
  }

  lemma {:induction false} SizeOfTruthyBefore(answers: seq<Answer>, k: nat)
    requires k <= |answers|
    ensures |TruthyBefore(answers, k)| <= k
    decreases k
  {
    if k > 0 {
      SizeOfTruthyBefore(answers, k - 1);
      SubsetSize(TruthyBefore(answers, k), TruthyBefore(answers, k - 1) + {k - 1});
      SizeAfterInsert(TruthyBefore(answers, k - 1), k - 1);
    } else {
      assert TruthyBefore(answers, 0) == {};
    }
  }

  /** The next request goes out; unless it fails with a truthy error, its answer comes back at once. */
  function NextEvents(s: State, answers: seq<Answer>, w: nat): seq<Event>
    requires s.nextIndex < |answers|
  {
    var answer := answers[s.nextIndex];
    if answer.Failure? && answer.error.Truthy? then [Turn(w)] else [Turn(w), AnswerArrives(w)]
  }

  lemma RunNext(s: State, answers: seq<Answer>, w: nat)
    requires Inv(s, answers) && OnlyTruthyHeld(s, answers) && s.nextIndex < |answers|
    requires w < |s.workers| && s.workers[w].Ready?
    ensures var t := Run(s, answers, NextEvents(s, answers, w));
            && Inv(t, answers) && t.nextIndex == s.nextIndex + 1
            && (if answers[s.nextIndex] == Failure(Falsy) then t.firstError.Falsy? && !t.aborted
                else OnlyTruthyHeld(t, answers))
  {
    RunKeepsInv(s, answers, NextEvents(s, answers, w));
    hide Inv;
    var t := Step(s, answers, Turn(w));
    assert [Turn(w), AnswerArrives(w)][1..] == [AnswerArrives(w)];
    assert Run(t, answers, [AnswerArrives(w)]) == Step(t, answers, AnswerArrives(w));
    assert Run(s, answers, [Turn(w)]) == t;
  }

  lemma {:induction false} RunTwice(s: State, answers: seq<Answer>, first: seq<Event>, second: seq<Event>)
    ensures Run(s, answers, first + second) == Run(Run(s, answers, first), answers, second)
    decreases |first|
  {
    if first == [] {
      assert first + second == second;
    } else {
      assert (first + second)[1..] == first[1..] + second;
      RunTwice(Step(s, answers, first[0]), answers, first[1..], second);
    }
  }

  /** Leaving the truthy failures under way and answering the rest lets the first falsy failure be recorded. */
  lemma {:induction false} ReachFalsy(s: State, answers: seq<Answer>, k: nat) returns (events: seq<Event>)
    requires Inv(s, answers) && OnlyTruthyHeld(s, answers) && s.nextIndex <= k && FalsyUnguarded(answers, k)
    requires forall i :: 0 <= i < k ==> answers[i] != Failure(Falsy)
    ensures var end := Run(s, answers, events);
            AllStopped(end) && !end.aborted && end.firstError.Falsy?
    decreases k - s.nextIndex
  {
    hide Inv, OnlyTruthyHeld, Run, AllStopped;
    var w := SomeoneIsReady(s, answers, k);
    var next := NextEvents(s, answers, w);
    var t := Run(s, answers, next);
    RunNext(s, answers, w);
    var rest: seq<Event>;
    if s.nextIndex == k {
      rest := CanFinish(t, answers);
    } else {
      rest := ReachFalsy(t, answers, k);
    }
    events := next + rest;
    RunTwice(s, answers, next, rest);
  }

  lemma FirstFalsy(answers: seq<Answer>, k: nat) returns (first: nat)
    requires FalsyUnguarded(answers, k)
    ensures FalsyUnguarded(answers, first) && forall i :: 0 <= i < first ==> answers[i] != Failure(Falsy)
    decreases k
  {
    if i :| 0 <= i < k && answers[i] == Failure(Falsy) {
      SubsetSize(TruthyBefore(answers, i), TruthyBefore(answers, k));
      first := FirstFalsy(answers, i);
    } else {
      first := k;
    }
  }

  lemma {:induction false} NothingTruthyRecorded(answers: seq<Answer>, arrivals: seq<nat>)
    requires TruthyBefore(answers, |answers|) == {}
    ensures !FirstRecorded(answers, arrivals).Truthy?
    decreases |arrivals|
  {
    if arrivals != [] {
      NothingTruthyRecorded(answers, arrivals[..|arrivals| - 1]);
      var last := arrivals[|arrivals| - 1];
      assert last !in TruthyBefore(answers, |answers|);
    }
  }

  lemma SomeFailureHides(answers: seq<Answer>) returns (events: seq<Event>)
    requires !NoFailureCanHide(answers)
    ensures Returns(answers, events) && !AllReplied(answers)
  {
    var start := Start(|answers|);
    if TruthyBefore(answers, |answers|) == {} && !AllReplied(answers) {
      events := CanFinish(start, answers);
      RunKeepsInv(start, answers, events);
      NothingTruthyRecorded(answers, Run(start, answers, events).arrivals);
    } else {
      var k :| 0 <= k < |answers| && FalsyUnguarded(answers, k);
      var first := FirstFalsy(answers, k);
      events := ReachFalsy(start, answers, first);
    }
  }

  /**
   * Whatever the interleaving, a listing that returns has every bucket: this holds exactly of the answers in
   * which no failure can hide.
   */
  lemma EveryReturnIsCompleteIff(answers: seq<Answer>)
    ensures (forall events :: Returns(answers, events) ==> AllReplied(answers)) <==> NoFailureCanHide(answers)
  {
    if NoFailureCanHide(answers) {
      forall events | Returns(answers, events) ensures AllReplied(answers) {
        ReturnedIsComplete(answers, events);
      }
    } else {
      var events := SomeFailureHides(answers);
      assert Returns(answers, events);
    }
  }

  /** A rejection with a falsy value is swallowed: the listing returns, without that request's buckets. */
  lemma FalsyErrorIsSwallowed(error: Thrown)
    requires !error.Truthy?
    ensures var answers := [Failure(error)];
            var s := Run(Start(1), answers, [Turn(0), AnswerArrives(0), Turn(0)]);
            AllStopped(s) && Finish(s, 1) == Listed([])
  {
    var answers := [Failure(error)];
    RunThree(Start(1), answers, Turn(0), AnswerArrives(0), Turn(0));
    hide Run;
    assert Start(1).workers == [Ready];
    var s1 := Step(Start(1), answers, Turn(0));
    assert s1 == State(1, map[], Nullish, [Awaiting(0)], false, []);
    var s2 := Step(s1, answers, AnswerArrives(0));
    assert s2 == State(1, map[], error, [Ready], false, [0]);
    var s3 := Step(s2, answers, Turn(0));
    assert s3 == State(2, map[], error, [Stopped], false, [0]);
    assert Flat(map[], 1) == Flat(map[], 0) + [];
  }

  lemma RunThree(s: State, answers: seq<Answer>, a: Event, b: Event, c: Event)
    ensures Run(s, answers, [a, b, c]) == Step(Step(Step(s, answers, a), answers, b), answers, c)
  {
    hide Step;
    var t := Step(s, answers, a);
    var u := Step(t, answers, b);
    assert [a, b, c][1..] == [b, c] && [b, c][1..] == [c] && [c][1..] == [];
    assert Run(u, answers, [c]) == Step(u, answers, c);
    assert Run(t, answers, [b, c]) == Run(u, answers, [c]);
  }

  // ---- The shared variables ----

  /** The variables the workers close over. Each method is the code of one worker between two awaits. */
  class Listing {
    var nextIndex: nat
    var results: map<nat, seq<Bucket>>
    var firstError: Thrown
    var workers: seq<Worker>
    var aborted: bool
    var arrivals: seq<nat>

    function View(): State
      reads this
    {
      State(nextIndex, results, firstError, workers, aborted, arrivals)
    }

    constructor (requests: nat)
      ensures View() == Start(requests)
    {
      nextIndex, results, firstError, aborted, arrivals := 0, map[], Nullish, false, [];
      workers := seq(WorkerCount(requests), _ => Ready);
    }

    method LoopHead(w: nat, answers: seq<Answer>)
      requires w < |workers| && workers[w].Ready?
      modifies this
      ensures View() == Step(old(View()), answers, Turn(w))
    {
      if firstError.Truthy? || aborted {
        workers := workers[w := Stopped];
        return;
      }
      var index := nextIndex;
      nextIndex := nextIndex + 1;
      if index >= |answers| {
        workers := workers[w := Stopped];
        return;
      }
      workers := workers[w := Awaiting(index)];
    }

    method AfterRequest(w: nat, answers: seq<Answer>)
      requires w < |workers| && workers[w].Awaiting? && workers[w].index < |answers|
      modifies this
      ensures View() == Step(old(View()), answers, AnswerArrives(w))
    {
      var index := workers[w].index;
      match answers[index] {
        case Reply(buckets) => results := results[index := buckets];
        case Failure(error) =>
          if firstError.Nullish? {
            firstError := error;
          }
      }
      arrivals := arrivals + [index];
      workers := workers[w := Ready];
    }

    /** After `Promise.all`: throw, report the abort, or flatten the table in index order. */
    method Collect(n: nat) returns (outcome: Outcome)
      ensures outcome == Finish(View(), n)
    {
      if firstError.Truthy? {
        return Threw(firstError);
      }
      if aborted {
        return AbortedListing;
      }
      var buckets: seq<Bucket> := [];
      for i := 0 to n
        invariant buckets == Flat(results, i)
      {
        buckets := buckets + if i in results then results[i] else [];
      }
      outcome := Listed(buckets);
    }
  }
}
