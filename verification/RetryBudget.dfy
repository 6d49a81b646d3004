/** The process-wide retry budget, a token bucket, and the transport that charges re-sent requests to it. */
module RetryBudget {
  import opened Common

  const BUDGET_TOKENS: real := 100.0
  const BUDGET_WINDOW_MS: int := 10_000

  /** Tokens that `elapsed` milliseconds bring back: the whole budget in one window. */
  function Refill(elapsed: int): real {
    elapsed as real / 100.0
  }

  datatype Bucket = Bucket(tokens: real, lastRefill: int)

  function Refilled(b: Bucket, now: int): Bucket {
    if now <= b.lastRefill then b
    else Bucket(Min(BUDGET_TOKENS, b.tokens + Refill(now - b.lastRefill)), now)
  }

  function Consume(b: Bucket, now: int): (Bucket, bool) {
    var r := Refilled(b, now);
    if r.tokens >= 1.0 then (r.(tokens := r.tokens - 1.0), true) else (r, false)
  }

  predicate Sound(b: Bucket) {
    0.0 <= b.tokens <= BUDGET_TOKENS
  }

  /** The module-level budget. */
  class Budget {
    var tokens: real
    var lastRefill: int

    function View(): Bucket
      reads this
    {
      Bucket(tokens, lastRefill)
    }

    constructor (now: int)
      ensures View() == Bucket(BUDGET_TOKENS, now)
    {
      tokens, lastRefill := BUDGET_TOKENS, now;
    }

    method ConsumeRetryBudgetToken(now: int) returns (ok: bool)
      modifies this
      ensures (View(), ok) == Consume(old(View()), now)
    {
      var elapsed := now - lastRefill;
      if elapsed > 0 {
        var more := tokens + Refill(elapsed);
        tokens := if BUDGET_TOKENS <= more then BUDGET_TOKENS else more;
        lastRefill := now;
      }
      if tokens >= 1.0 {
        tokens := tokens - 1.0;
        return true;
      }
      ok := false;
    }
  }

  // ---- Runs of the bucket, under any clock ----

  function After(b: Bucket, times: seq<int>): Bucket {
    if times == [] then b else Consume(After(b, times[..|times| - 1]), times[|times| - 1]).0
  }

  /** How many of the calls at `times` are granted a token. */
  function Grants(b: Bucket, times: seq<int>): nat {
    if times == [] then 0
    else
      Grants(b, times[..|times| - 1]) +
      if Consume(After(b, times[..|times| - 1]), times[|times| - 1]).1 then 1 else 0
  }

  /** Tokens are conserved: what is granted and what is left never exceed what was there and what came back. */
  lemma {:induction false} TokensAreConserved(b: Bucket, times: seq<int>)
    requires Sound(b)
    ensures var a := After(b, times);
            && Sound(a) && a.lastRefill >= b.lastRefill
            && Grants(b, times) as real + a.tokens <= b.tokens + Refill(a.lastRefill - b.lastRefill)
  {
    if times != [] {
      TokensAreConserved(b, times[..|times| - 1]);
    }
  }

  lemma {:induction false} LastRefillBounded(b: Bucket, times: seq<int>, bound: int)
    requires b.lastRefill <= bound && forall i :: 0 <= i < |times| ==> times[i] <= bound
    ensures After(b, times).lastRefill <= bound
  {
    if times != [] {
      LastRefillBounded(b, times[..|times| - 1], bound);
    }
  }

  lemma {:induction false} NoRefillBefore(b: Bucket, times: seq<int>)
    requires forall i :: 0 <= i < |times| ==> times[i] <= b.lastRefill
    ensures After(b, times).lastRefill == b.lastRefill
  {
    if times != [] {
      NoRefillBefore(b, times[..|times| - 1]);
    }
  }

  lemma {:induction false} RunsCompose(b: Bucket, first: seq<int>, second: seq<int>)
    ensures After(b, first + second) == After(After(b, first), second)
    ensures Grants(b, first + second) == Grants(b, first) + Grants(After(b, first), second)
    decreases |second|
  {
    if second == [] {
      assert first + second == first;
    } else {
      assert (first + second)[..|first + second| - 1] == first + second[..|second| - 1];
      RunsCompose(b, first, second[..|second| - 1]);
    }
  }

  /**
   * Wherever a stretch of calls lies in a run, if the clock moves by at most `span` over it, at most the whole
   * budget and what `span` brings back are granted: 200 within one window.
   */
  lemma GrantsWithinSpan(b: Bucket, before: seq<int>, times: seq<int>, start: int, span: nat)
    requires Sound(b) && Within(times, start, span)
    ensures Grants(After(b, before), times) as real <= BUDGET_TOKENS + Refill(span)
    ensures span == BUDGET_WINDOW_MS ==> Grants(After(b, before), times) <= 200
  {
    var a := After(b, before);
    TokensAreConserved(b, before);
    if times != [] {
      GrantsAfterStart(a, times, start, span);
    }
  }

  /** Refilling first at `start` changes nothing that a call at or after `start` sees. */
  lemma {:induction false} RefillFirst(b: Bucket, times: seq<int>, start: int)
    requires times != [] && start <= times[0]
    ensures Refilled(Refilled(b, start), times[0]).lastRefill == Refilled(b, times[0]).lastRefill
    ensures Refilled(Refilled(b, start), times[0]).tokens == Refilled(b, times[0]).tokens
  {
  }

  lemma {:induction false} SameFromStart(b: Bucket, times: seq<int>, start: int)
    requires times != [] && start <= times[0]
    ensures After(Refilled(b, start), times) == After(b, times)
    ensures Grants(Refilled(b, start), times) == Grants(b, times)
    decreases |times|
  {
    var init := times[..|times| - 1];
    if init == [] {
      RefillFirst(b, times, start);
      assert times == [times[0]];
    } else {
      SameFromStart(b, init, start);
    }
  }

  lemma GrantsAfterStart(b: Bucket, times: seq<int>, start: int, span: nat)
    requires Sound(b) && times != [] && Within(times, start, span)
    ensures Grants(b, times) as real <= BUDGET_TOKENS + Refill(span)
    ensures span == BUDGET_WINDOW_MS ==> Grants(b, times) <= 200
  {
    var r := Refilled(b, start);
    SameFromStart(b, times, start);
    TokensAreConserved(r, times);
    if r.lastRefill <= start + span {
      LastRefillBounded(r, times, start + span);
    } else {
      NoRefillBefore(r, times);
    }
  }

  // ---- The bound is attained ----

  function Repeat(t: int, n: nat): (r: seq<int>)
    ensures |r| == n && forall i :: 0 <= i < n ==> r[i] == t
  {
    seq(n, _ => t)
  }

  lemma {:induction false} BurstIsGranted(b: Bucket, t: int, n: nat)
    requires b.tokens >= n as real && t <= b.lastRefill
    ensures Grants(b, Repeat(t, n)) == n && After(b, Repeat(t, n)) == Bucket(b.tokens - n as real, b.lastRefill)
  {
    if n > 0 {
      BurstIsGranted(b, t, n - 1);
      assert Repeat(t, n)[..n - 1] == Repeat(t, n - 1);
    }
  }

  predicate Within(times: seq<int>, start: int, span: nat) {
    forall i :: 0 <= i < |times| ==> start <= times[i] <= start + span
  }

  /** What is there at `start` and what `span` brings back, in whole tokens. */
  function Capacity(b: Bucket, start: int, span: nat): int {
    (Refilled(b, start).tokens + Refill(span)).Floor
  }

  /** The calls that use it up: one burst at the start and one at the end. */
  function TwoBursts(b: Bucket, start: int, span: nat): seq<int>
    requires Sound(b) && span <= BUDGET_WINDOW_MS
  {
    SecondBurst(Refilled(b, start).tokens, span);
    var first := Refilled(b, start).tokens.Floor;
    Repeat(start, first) + Repeat(start + span, Capacity(b, start, span) - first)
  }

  lemma RefillTwice(b: Bucket, start: int, later: int)
    requires Sound(b) && b.lastRefill <= start <= later
    ensures Refilled(Refilled(b, start), later) == Refilled(b, later)
    ensures Refilled(b, later) == Bucket(Min(BUDGET_TOKENS, Refilled(b, start).tokens + Refill(later - start)), later)
  {
  }

  lemma BurstAt(b: Bucket, t: int, n: nat)
    requires Sound(b) && b.lastRefill <= t && n as real <= Refilled(b, t).tokens
    ensures var a := After(b, Repeat(t, n));
            && Grants(b, Repeat(t, n)) == n && Sound(a) && a.lastRefill <= t
            && Refilled(a, t) == Bucket(Refilled(b, t).tokens - n as real, t)
  {
    RefillTwice(b, t, t);
    if n > 0 {
      BurstIsGranted(Refilled(b, t), t, n);
      SameFromStart(b, Repeat(t, n), t);
    }
  }

  lemma SecondBurst(tokens: real, span: nat)
    requires 0.0 <= tokens <= BUDGET_TOKENS && span <= BUDGET_WINDOW_MS
    ensures var first := tokens.Floor;
            var second := (tokens + Refill(span)).Floor - first;
            && 0 <= first && 0 <= second
            && second as real <= Min(BUDGET_TOKENS, tokens - first as real + Refill(span))
  {
  }

  lemma BurstsAreGranted(b: Bucket, start: int, span: nat, first: nat, second: nat)
    requires Sound(b) && b.lastRefill <= start && first as real <= Refilled(b, start).tokens
    requires second as real <= Min(BUDGET_TOKENS, Refilled(b, start).tokens - first as real + Refill(span))
    ensures Grants(b, Repeat(start, first) + Repeat(start + span, second)) == first + second
  {
    hide After, Grants, Consume, Refilled, Repeat, Refill;
    var later := start + span;
    BurstAt(b, start, first);
    var rest := After(b, Repeat(start, first));
    RefillTwice(rest, start, later);
    BurstAt(rest, later, second);
    RunsCompose(b, Repeat(start, first), Repeat(later, second));
  }

  lemma TwoBurstsAreGranted(b: Bucket, start: int, span: nat)
    requires Sound(b) && b.lastRefill <= start && span <= BUDGET_WINDOW_MS
    ensures Within(TwoBursts(b, start, span), start, span)
    ensures Grants(b, TwoBursts(b, start, span)) == Capacity(b, start, span)
  {
    var tokens := Refilled(b, start).tokens;
    SecondBurst(tokens, span);
    var first := tokens.Floor;
    var second := Capacity(b, start, span) - first;
    BurstsAreGranted(b, start, span, first, second);
    hide Refilled, Consume, Refill, Grants, Capacity;
    assert TwoBursts(b, start, span) == Repeat(start, first) + Repeat(start + span, second);
  }

  /**
   * The most that a span of up to one window can grant is exactly the whole tokens of what is there at its
   * start and of what it brings back: no calls get more, and some calls get that many.
   */
  lemma CapacityIsMaximum(b: Bucket, start: int, span: nat, n: nat)
    requires Sound(b) && b.lastRefill <= start && span <= BUDGET_WINDOW_MS
    ensures (forall times :: Within(times, start, span) ==> Grants(b, times) <= n) <==> Capacity(b, start, span) <= n
  {
    TwoBurstsAreGranted(b, start, span);
    forall times | Within(times, start, span) ensures Grants(b, times) <= Capacity(b, start, span) {
      GrantsWithinCapacity(b, times, start, span);
    }
    var best := TwoBursts(b, start, span);
    assert Within(best, start, span) && Grants(b, best) == Capacity(b, start, span);
  }

  lemma GrantsWithinCapacity(b: Bucket, times: seq<int>, start: int, span: nat)
    requires Sound(b) && b.lastRefill <= start && Within(times, start, span)
    ensures Grants(b, times) <= Capacity(b, start, span)
  {
    var r := Refilled(b, start);
    if times != [] {
      SameFromStart(b, times, start);
      TokensAreConserved(r, times);
      LastRefillBounded(r, times, start + span);
    }
  }

  /**
   * The documented bound, at most 100 retries within a window, holds for every schedule of calls exactly when
   * less than one token is there at the start of the window.
   */
  lemma DocumentedBoundIff(b: Bucket, start: int)
    requires Sound(b) && b.lastRefill <= start
    ensures (forall times :: Within(times, start, BUDGET_WINDOW_MS) ==> Grants(b, times) <= 100) <==>
            Refilled(b, start).tokens < 1.0
  {
    CapacityIsMaximum(b, start, BUDGET_WINDOW_MS, 100);
  }

  /** A full bucket grants up to 200 calls within one window, twice what the budget's description allows. */
  lemma WindowGrantsTwiceTheBudget(t: int, n: nat)
    ensures (forall times :: Within(times, t, BUDGET_WINDOW_MS) ==> Grants(Bucket(BUDGET_TOKENS, t), times) <= n)
            <==> n >= 200
  {
    CapacityIsMaximum(Bucket(BUDGET_TOKENS, t), t, BUDGET_WINDOW_MS, n);
  }

  // ---- The transport that shares the budget ----

  /** Keys stand for a signal, a method, an address and a body. */
  datatype Event =
    | Send(key: string, now: int)
    | Returned(key: string, retryable: bool)
    | Threw(key: string, abort: bool)

  /** `issued` and `firsts` count the sends passed on, and those of them that were first attempts. */
  datatype Transport = Transport(attempts: map<string, nat>, bucket: Bucket, issued: nat, firsts: nat, granted: nat)

  function Attempt(t: Transport, key: string): nat {
    if key in t.attempts then t.attempts[key] else 0
  }

  function Step(t: Transport, e: Event): Transport {
    match e
    case Send(key, now) =>
      var attempt := Attempt(t, key);
      var counted := t.(attempts := t.attempts[key := attempt + 1]);
      if attempt == 0 then counted.(issued := t.issued + 1, firsts := t.firsts + 1)
      else
        var (bucket, ok) := Consume(t.bucket, now);
        if ok then counted.(bucket := bucket, issued := t.issued + 1, granted := t.granted + 1)
        else counted.(bucket := bucket)
    case Returned(key, retryable) => if retryable then t else t.(attempts := t.attempts - {key})
    case Threw(key, abort) => if abort then t.(attempts := t.attempts - {key}) else t
  }

  /** The shared transport around the budget; one call of `send` is a method up to its first await and one after. */
  class SharedRetryBudgetTransport {
    var attempts: map<string, nat>
    const budget: Budget
    ghost var issued: nat
    ghost var firsts: nat
    ghost var granted: nat

    ghost function View(): Transport
      reads this, budget
    {
      Transport(attempts, budget.View(), issued, firsts, granted)
    }

    constructor (now: int)
      ensures View() == Fresh(Bucket(BUDGET_TOKENS, now)) && fresh(budget)
    {
      attempts, issued, firsts, granted := map[], 0, 0, 0;
      budget := new Budget(now);
    }

    /** The attempt is counted whether or not the budget lets it through. */
    method Begin(key: string, now: int) returns (passedOn: bool)
      modifies this, budget
      ensures View() == Step(old(View()), Send(key, now))
      ensures passedOn <==> issued == old(issued) + 1
    {
      var attempt := if key in attempts then attempts[key] else 0;
      attempts := attempts[key := attempt + 1];
      if attempt > 0 {
        var ok := budget.ConsumeRetryBudgetToken(now);
        if !ok {
          return false;
        }
        granted := granted + 1;
      } else {
        firsts := firsts + 1;
      }
      issued := issued + 1;
      passedOn := true;
    }

    method Respond(key: string, retryable: bool)
      modifies this`attempts
      ensures View() == Step(old(View()), Returned(key, retryable))
    {
      if !retryable {
        attempts := attempts - {key};
      }
    }

    method Fail(key: string, abort: bool)
      modifies this`attempts
      ensures View() == Step(old(View()), Threw(key, abort))
    {
      if abort {
        attempts := attempts - {key};
      }
    }
  }

  function Run(t: Transport, events: seq<Event>): Transport {
    if events == [] then t else Step(Run(t, events[..|events| - 1]), events[|events| - 1])
  }

  function Fresh(b: Bucket): Transport {
    Transport(map[], b, 0, 0, 0)
  }

  /** An event that ends the series of attempts of a key: a final response or an abort. */
  predicate Ends(e: Event, key: string) {
    (e.Returned? && e.key == key && !e.retryable) || (e.Threw? && e.key == key && e.abort)
  }

  /** Sends of `key`, refused ones included, since its last final response or abort. */
  function SendsSince(events: seq<Event>, key: string): nat {
    if events == [] then 0
    else
      var e := events[|events| - 1];
      if Ends(e, key) then 0
      else SendsSince(events[..|events| - 1], key) + if e.Send? && e.key == key then 1 else 0
  }

  /** The times at which the budget was asked: the sends that are not first attempts. */
  function Charges(events: seq<Event>): seq<int> {
    if events == [] then []
    else
      var before := events[..|events| - 1];
      var e := events[|events| - 1];
      Charges(before) + if e.Send? && SendsSince(before, e.key) > 0 then [e.now] else []
  }

  lemma {:induction false} AttemptsAreSends(b: Bucket, events: seq<Event>, key: string)
    ensures Attempt(Run(Fresh(b), events), key) == SendsSince(events, key)
  {
    hide Consume;
    if events != [] {
      AttemptsAreSends(b, events[..|events| - 1], key);
    }
  }

  lemma OneMoreCall(b: Bucket, times: seq<int>, now: int)
    ensures After(b, times + [now]) == Consume(After(b, times), now).0
    ensures Grants(b, times + [now]) == Grants(b, times) + if Consume(After(b, times), now).1 then 1 else 0
  {
    hide Consume;
    assert (times + [now])[..|times|] == times;
  }

  /** The transport as a function of its history. */
  lemma {:induction false} TransportIsFunctionOfHistory(b: Bucket, events: seq<Event>, key: string)
    ensures var t := Run(Fresh(b), events);
            && Attempt(t, key) == SendsSince(events, key)
            && t.bucket == After(b, Charges(events))
            && t.granted == Grants(b, Charges(events))
            && t.issued == t.firsts + t.granted
  {
    AttemptsAreSends(b, events, key);
    if events != [] {
      var before, e := events[..|events| - 1], events[|events| - 1];
      TransportIsFunctionOfHistory(b, before, key);
      hide Consume, After, Grants, Attempt, SendsSince;
      if e.Send? {
        AttemptsAreSends(b, before, e.key);
        OneMoreCall(b, Charges(before), e.now);
      }
      assert Charges(before) + [] == Charges(before);
    } else {
      assert Charges(events) == [];
    }
  }

  /** A first attempt is never refused; a re-sent request is passed on exactly when the budget grants it a token. */
  lemma FirstAttemptsAreFree(b: Bucket, events: seq<Event>, key: string, now: int)
    ensures var t := Run(Fresh(b), events);
            var t' := Step(t, Send(key, now));
            && (SendsSince(events, key) == 0 ==> t'.issued == t.issued + 1 && t'.bucket == t.bucket)
            && (SendsSince(events, key) > 0 ==> (t'.issued == t.issued + 1 <==> Consume(t.bucket, now).1))
  {
    TransportIsFunctionOfHistory(b, events, key);
  }

  /** Over any run the re-sent requests are at most the whole budget and what the clock brought back. */
  lemma ResendsBounded(start: int, events: seq<Event>, span: nat)
    requires forall i :: 0 <= i < |events| && events[i].Send? ==> start <= events[i].now <= start + span
    ensures var t := Run(Fresh(Bucket(BUDGET_TOKENS, start)), events);
            (t.issued - t.firsts) as real <= BUDGET_TOKENS + Refill(span)
  {
    var b := Bucket(BUDGET_TOKENS, start);
    TransportIsFunctionOfHistory(b, events, "");
    ChargesAreSends(events, start, start + span);
    GrantsWithinSpan(b, [], Charges(events), start, span);
  }

  lemma {:induction false} ChargesAreSends(events: seq<Event>, low: int, high: int)
    requires forall i :: 0 <= i < |events| && events[i].Send? ==> low <= events[i].now <= high
    ensures forall i :: 0 <= i < |Charges(events)| ==> low <= Charges(events)[i] <= high
  {
    if events != [] {
      ChargesAreSends(events[..|events| - 1], low, high);
    }
  }
}
