/** The retry loop of OAuth dependencies and the circuit breaker its runs share; times in milliseconds. */
module DependencyCircuit {
  import opened Common

  datatype Reason = Timeout | NetworkError | HttpStatus | Redirect | InvalidResponse | RequestAborted | OpenCircuit

  datatype Error = Dependency(reason: Reason, retryAfterSeconds: Option<nat>) | OAuth | Unexpected

  datatype Policy = Policy(maxRetries: nat, circuitFailures: nat, circuitOpenMs: nat)

  datatype Circuit = Circuit(failures: nat, openedUntilMs: nat)

  predicate IsRetryable(e: Error) {
    e.Dependency? && (e.reason.Timeout? || e.reason.NetworkError? || e.reason.HttpStatus?)
  }

  // ---- One run: attempts until success, a final error, or no attempts left ----

  datatype Outcome = Succeeded | Threw(error: Error)

  /** How a run ends: what it throws, if anything, and whether it is a failure the circuit records. */
  datatype Ending = Done | Recorded(error: Error) | Unrecorded(error: Error)

  predicate GoesOn(o: Outcome, delayAborted: bool) {
    o.Threw? && IsRetryable(o.error) && !delayAborted
  }

  /** What the last attempt means for the run. */
  function EndingOf(o: Outcome, attempt: nat, maxAttempts: nat): Ending {
    match o
    case Succeeded => Done
    case Threw(e) =>
      if e.OAuth? then Unrecorded(e)
      else if e.Unexpected? then Unrecorded(OAuth)
      else if e.reason.RequestAborted? then Unrecorded(e)
      else if attempt >= maxAttempts || !IsRetryable(e) then Recorded(e)
      else Unrecorded(Dependency(RequestAborted, None))
  }

  /**
   * The retry loop against any outcomes of its attempts; `delayAborted[i]` says that the request is aborted
   * during the delay after attempt i + 1.
   */
  method RunAttempts(policy: Policy, outcomes: seq<Outcome>, delayAborted: seq<bool>)
    returns (ending: Ending, attempts: nat)
    requires |outcomes| == |delayAborted| == policy.maxRetries + 1
    ensures 1 <= attempts <= policy.maxRetries + 1
    ensures forall i :: 0 <= i < attempts - 1 ==> GoesOn(outcomes[i], delayAborted[i])
    ensures ending == EndingOf(outcomes[attempts - 1], attempts, policy.maxRetries + 1)
    ensures attempts <= policy.maxRetries ==> !GoesOn(outcomes[attempts - 1], delayAborted[attempts - 1])
  {
    var maxAttempts := policy.maxRetries + 1;
    attempts := 1;
    while attempts <= maxAttempts
      invariant 1 <= attempts <= maxAttempts
      invariant forall i :: 0 <= i < attempts - 1 ==> GoesOn(outcomes[i], delayAborted[i])
      decreases maxAttempts - attempts
    {
      match outcomes[attempts - 1] {
        case Succeeded =>
          return Done, attempts;
        case Threw(error) =>
          if error.OAuth? {
            return Unrecorded(error), attempts;
          }
          if error.Unexpected? {
            return Unrecorded(OAuth), attempts;
          }
          if error.reason.RequestAborted? {
            return Unrecorded(error), attempts;
          }
          if attempts >= maxAttempts || !IsRetryable(error) {
            return Recorded(error), attempts;
          }
          if delayAborted[attempts - 1] {
            return Unrecorded(Dependency(RequestAborted, None)), attempts;
          }
      }
      attempts := attempts + 1;
    }
  }

  /** The failures of the dependency that another attempt may get past. */
  lemma GoesOnExactly(o: Outcome, delayAborted: bool)
    ensures GoesOn(o, delayAborted) <==>
              && o.Threw? && o.error.Dependency? && !delayAborted
              && o.error.reason in {Timeout, NetworkError, HttpStatus}
  {
  }

  /**
   * A run is recorded as a failure exactly when the dependency itself failed it: not when the caller went away,
   * nor when the error is none of the dependency's, nor while another attempt was still to come.
   */
  lemma RecordedExactly(o: Outcome, attempt: nat, maxAttempts: nat)
    ensures var ending := EndingOf(o, attempt, maxAttempts);
            && (ending.Done? <==> o.Succeeded?)
            && (forall e :: ending == Recorded(e) <==>
                  && o == Threw(e) && e.Dependency? && e.reason != RequestAborted
                  && (attempt >= maxAttempts || e.reason !in {Timeout, NetworkError, HttpStatus}))
            && (ending.Unrecorded? ==>
                  if o.error.Dependency? then ending.error.Dependency? && ending.error.reason == RequestAborted
                  else ending.error == OAuth)
  {
  }

  // ---- The circuit ----

  /** Whole seconds until `untilMs`, at least one. */
  function RetryAfter(untilMs: nat, nowMs: nat): nat
    requires untilMs > nowMs
  {
    (untilMs - nowMs + 999) / 1000
  }

  /** `None` admits the run. */
  function Refusal(c: Option<Circuit>, nowMs: nat): Option<nat> {
    if c.None? || c.value.openedUntilMs <= nowMs then None else Some(RetryAfter(c.value.openedUntilMs, nowMs))
  }

  function AfterFailure(c: Option<Circuit>, policy: Policy, nowMs: nat): Circuit {
    var state := if c.None? then Circuit(0, 0) else c.value;
    var failures := state.failures + 1;
    Circuit(failures, if failures >= policy.circuitFailures then nowMs + policy.circuitOpenMs else state.openedUntilMs)
  }

  function Surfaced(c: Circuit, error: Error, nowMs: nat): Error {
    if c.openedUntilMs > nowMs then Dependency(OpenCircuit, Some(RetryAfter(c.openedUntilMs, nowMs))) else error
  }

  function AfterRun(c: Option<Circuit>, policy: Policy, ending: Ending, nowMs: nat): Option<Circuit> {
    match ending
    case Done => None
    case Recorded(_) => Some(AfterFailure(c, policy, nowMs))
    case Unrecorded(_) => c
  }

  /** The circuit table shared by all runs. */
  class Circuits {
    var circuits: map<string, Circuit>

    function Of(key: string): Option<Circuit>
      reads this
    {
      if key in circuits then Some(circuits[key]) else None
    }

    method AssertClosed(key: string, nowMs: nat) returns (refusal: Option<Error>)
      ensures refusal == match Refusal(Of(key), nowMs)
                         case None => None
                         case Some(seconds) => Some(Dependency(OpenCircuit, Some(seconds)))
    {
      if key !in circuits || circuits[key].openedUntilMs <= nowMs {
        return None;
      }
      refusal := Some(Dependency(OpenCircuit, Some(RetryAfter(circuits[key].openedUntilMs, nowMs))));
    }

    method NoteSuccess(key: string)
      modifies this
      ensures circuits == old(circuits) - {key}
    {
      circuits := circuits - {key};
    }

    method NoteFailure(key: string, policy: Policy, error: Error, nowMs: nat) returns (surfaced: Error)
      modifies this
      ensures circuits == old(circuits)[key := AfterFailure(old(Of(key)), policy, nowMs)]
      ensures surfaced == Surfaced(circuits[key], error, nowMs)
    {
      var state := if key in circuits then circuits[key] else Circuit(0, 0);
      var failures := state.failures + 1;
      var openedUntilMs := if failures >= policy.circuitFailures then nowMs + policy.circuitOpenMs
                           else state.openedUntilMs;
      circuits := circuits[key := Circuit(failures, openedUntilMs)];
      if openedUntilMs > nowMs {
        return Dependency(OpenCircuit, Some(RetryAfter(openedUntilMs, nowMs)));
      }
      surfaced := error;
    }

    /** What a finished run does to the table: nothing but its own circuit changes. */
    method FinishRun(key: string, policy: Policy, ending: Ending, nowMs: nat)
      modifies this
      ensures Of(key) == AfterRun(old(Of(key)), policy, ending, nowMs)
      ensures circuits - {key} == old(circuits) - {key}
    {
      match ending {
        case Done => NoteSuccess(key);
        case Recorded(error) => var _ := NoteFailure(key, policy, error, nowMs);
        case Unrecorded(_) =>
      }
      assert circuits - {key} == old(circuits) - {key};
    }
  }

  /** A run that the caller aborted, or that failed on its own account, leaves the circuit as it is. */
  lemma AbortedRunsDoNotCount(c: Option<Circuit>, policy: Policy, o: Outcome, attempt: nat, nowMs: nat)
    requires o.Threw? && (!o.error.Dependency? || o.error.reason == RequestAborted)
    ensures AfterRun(c, policy, EndingOf(o, attempt, policy.maxRetries + 1), nowMs) == c
  {
    RecordedExactly(o, attempt, policy.maxRetries + 1);
  }

  // ---- The circuit as a function of history ----

  /** A run that ended, and when; concurrent runs may end in any order. */
  datatype Finish = Finish(ending: Ending, nowMs: nat)

  function Replay(policy: Policy, history: seq<Finish>): Option<Circuit> {
    if history == [] then None
    else
      var last := history[|history| - 1];
      AfterRun(Replay(policy, history[..|history| - 1]), policy, last.ending, last.nowMs)
  }

  /** The recorded failures since the last success, oldest first. */
  function FailureTimes(history: seq<Finish>): seq<nat> {
    if history == [] then []
    else
      var last := history[|history| - 1];
      var earlier := FailureTimes(history[..|history| - 1]);
      match last.ending
      case Done => []
      case Recorded(_) => earlier + [last.nowMs]
      case Unrecorded(_) => earlier
  }

  /**
   * The stored state after any history of ended runs: no state exactly when nothing failed since the last
   * success; otherwise the count of those failures, and once it reaches the threshold the circuit is open for
   * the open interval after the last of them, whether or not an earlier opening had expired.
   */
  lemma {:induction false} CircuitIsFunctionOfHistory(policy: Policy, history: seq<Finish>)
    ensures var times := FailureTimes(history);
            Replay(policy, history) ==
            if times == [] then None
            else Some(Circuit(|times|,
                              if |times| >= policy.circuitFailures then times[|times| - 1] + policy.circuitOpenMs
                              else 0))
    decreases |history|
  {
    if history != [] {
      CircuitIsFunctionOfHistory(policy, history[..|history| - 1]);
    }
  }

  /**
   * A run is refused exactly while the threshold is reached and the last failure is less than the open
   * interval ago, and the retry hint is long enough: after that many seconds a run would be admitted.
   */
  lemma RefusedExactlyWhileOpen(policy: Policy, history: seq<Finish>, nowMs: nat)
    ensures var times := FailureTimes(history);
            var refusal := Refusal(Replay(policy, history), nowMs);
            && (refusal.Some? <==>
                  times != [] && |times| >= policy.circuitFailures &&
                  nowMs < times[|times| - 1] + policy.circuitOpenMs)
            && (refusal.Some? ==>
                  refusal.value >= 1 &&
                  Refusal(Replay(policy, history), nowMs + 1000 * refusal.value).None? &&
                  Refusal(Replay(policy, history), nowMs + 1000 * (refusal.value - 1)).Some?)
  {
    CircuitIsFunctionOfHistory(policy, history);
  }

  /**
   * The run whose failure opens the circuit, or keeps it open, is told so, with the hint that a run refused at
   * that moment gets; below the threshold, or with no open interval, it gets its own error.
   */
  lemma OpeningIsSurfaced(policy: Policy, history: seq<Finish>, error: Error, nowMs: nat)
    ensures var surfaced := Surfaced(AfterFailure(Replay(policy, history), policy, nowMs), error, nowMs);
            var refusal := Refusal(Replay(policy, history + [Finish(Recorded(error), nowMs)]), nowMs);
            && (refusal.Some? <==> |FailureTimes(history)| + 1 >= policy.circuitFailures && policy.circuitOpenMs > 0)
            && surfaced == if refusal.Some? then Dependency(OpenCircuit, refusal) else error
  {
    var longer := history + [Finish(Recorded(error), nowMs)];
    assert longer[..|history|] == history;
    CircuitIsFunctionOfHistory(policy, longer);
    RefusedExactlyWhileOpen(policy, longer, nowMs);
  }

  /** After the threshold has been reached one more failure reopens the circuit for the whole interval. */
  lemma OneFailureReopens(policy: Policy, history: seq<Finish>, error: Error, nowMs: nat, later: nat)
    requires |FailureTimes(history)| >= policy.circuitFailures && nowMs <= later < nowMs + policy.circuitOpenMs
    ensures Refusal(Replay(policy, history + [Finish(Recorded(error), nowMs)]), later).Some?
  {
    var longer := history + [Finish(Recorded(error), nowMs)];
    assert longer[..|history|] == history;
    CircuitIsFunctionOfHistory(policy, longer);
    RefusedExactlyWhileOpen(policy, longer, later);
  }
}
