/**
 * The definitive-status marker of the B2 transports: one context object per outer request, written by every
 * attempt of the retry layer and by every read of an error body, taken when the outer request fails.
 */
module DefinitiveStatus {
  import opened Common

  predicate Successful(status: int) {
    200 <= status < 300
  }

  /** Attempts are numbered from 0; a read settles the body of an attempt that returned `status`. */
  datatype Event =
    | Start
    | Returned(attempt: nat, status: int)
    | Threw(attempt: nat)
    | ReadOk(attempt: nat, status: int)
    | ReadFailed(attempt: nat, status: int)

  /** What one event does to the marker. */
  function Apply(marker: Option<int>, e: Event): Option<int> {
    match e
    case Start => None
    case Returned(_, status) => if Successful(status) then None else Some(status)
    case Threw(_) => marker
    case ReadOk(_, status) => if Successful(status) then marker else None
    case ReadFailed(_, status) => if Successful(status) then marker else Some(status)
  }

  /** How a failed outer request is reported. */
  datatype Failure = Failure(interruption: bool, abort: bool)
  datatype Report = Observed(status: int) | OperationStatusUnknown | AbortException | Rethrown(failure: Failure)

  function Classify(marker: Option<int>, noReplay: bool, failure: Failure): Report {
    if marker.Some? then Observed(marker.value)
    else if noReplay && failure.interruption then OperationStatusUnknown
    else if failure.abort then AbortException
    else Rethrown(failure)
  }

  class BodyReadContext {
    var error: Option<int>

    constructor ()
      ensures error == None
    {
      error := None;
    }

    /** An attempt enters the shared-budget transport. */
    method StartAttempt()
      modifies this
      ensures error == Apply(old(error), Start)
    {
      error := None;
    }

    /** The attempt got a response: a non-2xx status is recorded before the response is handed on. */
    method Return(attempt: nat, status: int)
      modifies this
      ensures error == Apply(old(error), Returned(attempt, status))
    {
      if Successful(status) {
        error := None;
        return;
      }
      error := Some(status);
    }

    /** Reading the body of a returned response; only non-2xx responses are wrapped. */
    method ReadBody(attempt: nat, status: int, ok: bool)
      modifies this
      ensures error == Apply(old(error), if ok then ReadOk(attempt, status) else ReadFailed(attempt, status))
    {
      if !Successful(status) {
        if ok {
          error := None;
        } else {
          error := Some(status);
        }
      }
    }

    /** The outer request failed: take the marker and report. */
    method Catch(noReplay: bool, failure: Failure) returns (report: Report)
      modifies this
      ensures error == None && report == Classify(old(error), noReplay, failure)
    {
      var taken := error;
      error := None;
      if taken.Some? {
        return Observed(taken.value);
      }
      if noReplay {
        if failure.interruption {
          return OperationStatusUnknown;
        }
      }
      if failure.abort {
        return AbortException;
      }
      report := Rethrown(failure);
    }
  }

  // ---- Histories of one outer request ----

  function Marker(h: seq<Event>): Option<int> {
    if h == [] then None else Apply(Marker(h[..|h| - 1]), h[|h| - 1])
  }

  function Attempts(h: seq<Event>): nat {
    if h == [] then 0 else Attempts(h[..|h| - 1]) + if h[|h| - 1].Start? then 1 else 0
  }

  /** The status the latest attempt has returned, if it has returned one. */
  function LatestStatus(h: seq<Event>): Option<int> {
    if h == [] then None
    else
      match h[|h| - 1]
      case Start => None
      case Returned(_, status) => Some(status)
      case _ => LatestStatus(h[..|h| - 1])
  }

  /** Whether the body of the latest attempt has been read successfully. */
  predicate LatestRead(h: seq<Event>) {
    h != [] && !h[|h| - 1].Start? &&
    ((h[|h| - 1].ReadOk? && h[|h| - 1].attempt == Attempts(h) - 1) || LatestRead(h[..|h| - 1]))
  }

  /**
   * The status a failure should surface: the one of the latest attempt, when it returned a non-2xx response
   * whose body has not been read successfully.
   */
  function Definitive(h: seq<Event>): Option<int> {
    var status := LatestStatus(h);
    if status.Some? && !Successful(status.value) && !LatestRead(h) then status else None
  }

  /** Whether the latest attempt has returned or thrown. */
  predicate Settled(h: seq<Event>) {
    h != [] && !h[|h| - 1].Start? && (h[|h| - 1].Returned? || h[|h| - 1].Threw? || Settled(h[..|h| - 1]))
  }

  /** Attempts run one after another, each settles once, and only bodies of returned responses are read. */
  predicate CanFollow(h: seq<Event>, e: Event) {
    match e
    case Start => Attempts(h) == 0 || Settled(h)
    case Returned(a, _) => a == Attempts(h) - 1 && !Settled(h)
    case Threw(a) => a == Attempts(h) - 1 && !Settled(h)
    case ReadOk(a, status) => Returned(a, status) in h
    case ReadFailed(a, status) => Returned(a, status) in h
  }

  predicate Legal(h: seq<Event>) {
    h == [] || (Legal(h[..|h| - 1]) && CanFollow(h[..|h| - 1], h[|h| - 1]))
  }

  /**
   * A read that spoils the marker: of an older attempt's body (unless it happens to write what is there), or
   * a failing read of a body that was read before.
   */
  predicate Stale(h: seq<Event>, e: Event) {
    match e
    case ReadOk(a, status) => !Successful(status) && a != Attempts(h) - 1 && Definitive(h).Some?
    case ReadFailed(a, status) =>
      !Successful(status) && if a == Attempts(h) - 1 then LatestRead(h) else Definitive(h) != Some(status)
    case _ => false
  }

  predicate Clean(h: seq<Event>) {
    h == [] || (Clean(h[..|h| - 1]) && !Stale(h[..|h| - 1], h[|h| - 1]))
  }

  /** All of the above, one event further. */
  lemma Extend(h: seq<Event>, e: Event)
    ensures Marker(h + [e]) == Apply(Marker(h), e)
    ensures Attempts(h + [e]) == Attempts(h) + if e.Start? then 1 else 0
    ensures LatestStatus(h + [e]) == if e.Start? then None else if e.Returned? then Some(e.status) else LatestStatus(h)
    ensures LatestRead(h + [e]) == (!e.Start? && ((e.ReadOk? && e.attempt == Attempts(h) - 1) || LatestRead(h)))
    ensures Settled(h + [e]) == (!e.Start? && (e.Returned? || e.Threw? || Settled(h)))
    ensures Legal(h + [e]) == (Legal(h) && CanFollow(h, e))
  {
    assert (h + [e])[..|h|] == h;
  }

  // ---- What a legal history knows about its latest attempt ----

  lemma {:induction false} ReturnsAreOfStarted(h: seq<Event>, e: Event)
    requires Legal(h) && e in h && e.Returned?
    ensures e.attempt < Attempts(h)
  {
    var before := h[..|h| - 1];
    if e in before {
      ReturnsAreOfStarted(before, e);
    }
  }

  /** The latest attempt's returned status is the only one recorded under its number. */
  lemma {:induction false} LatestStatusIsUnique(h: seq<Event>, status: int)
    requires Legal(h) && Attempts(h) > 0
    ensures Returned(Attempts(h) - 1, status) in h <==> LatestStatus(h) == Some(status)
    ensures LatestStatus(h).Some? ==> Settled(h)
    ensures !Settled(h) ==> !LatestRead(h)
  {
    var before, e := h[..|h| - 1], h[|h| - 1];
    assert h == before + [e];
    if e.Start? {
      if Returned(Attempts(h) - 1, status) in before {
        ReturnsAreOfStarted(before, Returned(Attempts(h) - 1, status));
      }
    } else {
      LatestStatusIsUnique(before, status);
      if e.ReadOk? {
        LatestStatusIsUnique(before, e.status);
      }
    }
  }

  // ---- The theorems ----

  /** An event keeps the marker right exactly when it is not a stale read. */
  lemma StepAgreesIff(h: seq<Event>, e: Event)
    requires Legal(h + [e]) && Marker(h) == Definitive(h)
    ensures Marker(h + [e]) == Definitive(h + [e]) <==> !Stale(h, e)
  {
    assert (h + [e])[..|h|] == h;
    if Attempts(h) > 0 && (e.ReadOk? || e.ReadFailed?) {
      LatestStatusIsUnique(h, e.status);
    }
    if Attempts(h) > 0 {
      LatestStatusIsUnique(h, 0);
    }
  }

  /**
   * In every run whose reads are not stale, the marker is set exactly when the latest attempt returned a
   * non-2xx response whose body has not been read successfully, and holds that status.
   */
  lemma {:induction false} MarkerIsDefinitive(h: seq<Event>)
    requires Legal(h) && Clean(h)
    ensures Marker(h) == Definitive(h)
  {
    if h != [] {
      var before := h[..|h| - 1];
      MarkerIsDefinitive(before);
      assert h == before + [h[|h| - 1]];
      StepAgreesIff(before, h[|h| - 1]);
    }
  }

  /** The marker is right after every event of the run. */
  predicate AlwaysRight(h: seq<Event>) {
    forall k :: 0 <= k <= |h| ==> RightAfter(h, k)
  }

  predicate RightAfter(h: seq<Event>, k: nat)
    requires k <= |h|
  {
    Marker(h[..k]) == Definitive(h[..k])
  }

  lemma AlwaysRightBefore(h: seq<Event>)
    requires h != []
    ensures AlwaysRight(h) <==> AlwaysRight(h[..|h| - 1]) && Marker(h) == Definitive(h)
  {
    hide Marker, Definitive;
    var before := h[..|h| - 1];
    forall k | 0 <= k <= |before| ensures RightAfter(before, k) == RightAfter(h, k) {
      assert before[..k] == h[..k];
    }
    assert RightAfter(h, |h|) == (Marker(h) == Definitive(h)) by {
      assert h[..|h|] == h;
    }
    hide RightAfter;
  }

  /** The marker is right throughout a run exactly when none of its reads is stale. */
  lemma {:induction false} AlwaysRightIff(h: seq<Event>)
    requires Legal(h)
    ensures Clean(h) <==> AlwaysRight(h)
  {
    hide AlwaysRight, Marker, Definitive, Stale, CanFollow;
    if h == [] {
      StartsRight();
    } else {
      var before, e := h[..|h| - 1], h[|h| - 1];
      AlwaysRightIff(before);
      AlwaysRightBefore(h);
      if Clean(before) {
        MarkerIsDefinitive(before);
        assert h == before + [e];
        StepAgreesIff(before, e);
      }
    }
  }

  lemma StartsRight()
    ensures AlwaysRight([])
  {
  }

  /** Reading only the latest response, and not again once that succeeded, is clean. */
  predicate ReadsInTurn(h: seq<Event>) {
    h == [] ||
    (ReadsInTurn(h[..|h| - 1]) &&
     (h[|h| - 1].ReadOk? || h[|h| - 1].ReadFailed? ==>
        h[|h| - 1].attempt == Attempts(h) - 1 && !LatestRead(h[..|h| - 1])))
  }

  lemma {:induction false} InTurnIsClean(h: seq<Event>)
    requires ReadsInTurn(h)
    ensures Clean(h)
  {
    if h != [] {
      InTurnIsClean(h[..|h| - 1]);
    }
  }

  /**
   * A failure in the window surfaces the observed status and never `operation_status_unknown`; outside it
   * nothing is reported as observed, and the status is unknown only for interrupted no-replay writes.
   */
  lemma FailureSurfacesDefinitiveStatus(h: seq<Event>, noReplay: bool, failure: Failure)
    requires Legal(h) && Clean(h)
    ensures var report := Classify(Marker(h), noReplay, failure);
            && (forall status :: report == Observed(status) <==> Definitive(h) == Some(status))
            && (forall status :: report == Observed(status) <==>
                  LatestStatus(h) == Some(status) && !LatestRead(h) && (status < 200 || 300 <= status))
            && (report == OperationStatusUnknown <==> Definitive(h) == None && noReplay && failure.interruption)
            && (report == AbortException <==>
                  Definitive(h) == None && failure.abort && !(noReplay && failure.interruption))
            && (forall f :: report == Rethrown(f) <==>
                  Definitive(h) == None && !failure.abort && !(noReplay && failure.interruption) && f == failure)
  {
    MarkerIsDefinitive(h);
  }

  /** Whatever stale reads did before, a response decides the marker anew, and an attempt that throws leaves it. */
  lemma ResponseDecides(h: seq<Event>, attempt: nat, status: int)
    ensures Marker(h + [Returned(attempt, status)]) == if 200 <= status < 300 then None else Some(status)
    ensures Marker(h + [Threw(attempt)]) == Marker(h)
  {
    Extend(h, Returned(attempt, status));
    Extend(h, Threw(attempt));
  }

  /** A cancellation that wins right after a non-2xx response arrived, before anything is read. */
  lemma AbortAfterResponse(h: seq<Event>, status: int, failure: Failure)
    requires Legal(h + [Start, Returned(Attempts(h), status)]) && !Successful(status)
    ensures Classify(Marker(h + [Start, Returned(Attempts(h), status)]), true, failure) == Observed(status)
  {
    var h' := h + [Start, Returned(Attempts(h), status)];
    assert h'[|h'| - 1] == Returned(Attempts(h), status);
  }

  /** A late read of an older attempt's body clears or sets the marker of the attempt that is running. */
  lemma LateReadSpoilsMarker()
    ensures exists h :: Legal(h) && Definitive(h) == Some(500) && Marker(h) == None
    ensures exists h :: Legal(h) && Definitive(h) == None && Marker(h) == Some(503)
  {
    var h2 := [] + [Start] + [Returned(0, 503)] + [Start];
    Extend([], Start);
    Extend([] + [Start], Returned(0, 503));
    Extend([] + [Start] + [Returned(0, 503)], Start);
    var h3 := h2 + [Returned(1, 500)];
    Extend(h2, Returned(1, 500));
    Extend(h3, ReadOk(0, 503));
    assert Legal(h3 + [ReadOk(0, 503)]);
    Extend(h2, ReadFailed(0, 503));
    assert Legal(h2 + [ReadFailed(0, 503)]);
  }

  /** A failing second read of a body that was read before sets the marker again. */
  lemma SecondReadSpoilsMarker()
    ensures exists h :: Legal(h) && Attempts(h) == 1 && Definitive(h) == None && Marker(h) == Some(503)
  {
    var h1 := [] + [Start] + [Returned(0, 503)];
    Extend([], Start);
    Extend([] + [Start], Returned(0, 503));
    Extend(h1, ReadOk(0, 503));
    Extend(h1 + [ReadOk(0, 503)], ReadFailed(0, 503));
    assert Legal(h1 + [ReadOk(0, 503)] + [ReadFailed(0, 503)]);
  }
}
