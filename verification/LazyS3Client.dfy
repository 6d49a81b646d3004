/**
 * The lazy S3 facade: one shared authorization, a cached peer client, leased fallback peers, and teardown.
 * A step runs from one `await` to the next; a promise's `finally` is a step of its own.
 */
module LazyS3Client {
  import opened Common

  /** Peers are numbered in the order they are built. */
  type Peer = nat

  /** What an authorization yields: the cached peer, or an error; an untrusted endpoint is not masked. */
  datatype Result = Built(peer: Peer) | Rejected(untrusted: bool)

  /** The shared promise; `teardown` says that `destroy()` hooked onto it. */
  datatype Inflight =
    | Idle
    | Authorizing(teardown: bool)
    | Settled(result: Result, teardown: bool)

  datatype Op =
    | Waiting                            // awaits the shared promise
    | Resumable(result: Result)          // that promise is settled, the operation has not run on
    | Using(peer: Peer, leased: bool)
    | Finished

  datatype State = State(
    client: Option<Peer>, inflight: Inflight, closed: bool,
    ops: map<nat, Op>, built: nat, destroyed: set<Peer>, authorizedBuilt: nat)

  const START := State(None, Idle, false, map[], 0, {}, 0)

  /** How the authorize call ends, and whether its endpoint is one a client may be built for. */
  datatype Authorize = Fails | Untrusted | Succeeds

  datatype Event =
    | Call(op: nat)
    | AuthorizeEnds(outcome: Authorize)
    | FinallyRuns
    | Resume(op: nat, fallbackBuilds: bool)
    | OperationEnds(op: nat)
    | Destroy

  function AfterCall(s: State, op: nat): State {
    if op in s.ops then s
    else if s.closed then s.(ops := s.ops[op := Finished])
    else if s.client.Some? then s.(ops := s.ops[op := Using(s.client.value, false)])
    else s.(ops := s.ops[op := Waiting], inflight := if s.inflight.Idle? then Authorizing(false) else s.inflight)
  }

  function AfterAuthorize(s: State, outcome: Authorize): State
    requires s.inflight.Authorizing?
  {
    var teardown := s.inflight.teardown;
    match outcome
    case Fails => s.(inflight := Settled(Rejected(false), teardown))
    case Untrusted => s.(inflight := Settled(Rejected(true), teardown))
    case Succeeds =>
      var peer := s.built;
      var next := s.(built := s.built + 1, authorizedBuilt := s.authorizedBuilt + 1);
      if s.closed then next.(destroyed := s.destroyed + {peer}, inflight := Settled(Rejected(false), teardown))
      else next.(client := Some(peer), inflight := Settled(Built(peer), teardown))
  }

  function Woken(ops: map<nat, Op>, result: Result): map<nat, Op> {
    map id | id in ops :: if ops[id].Waiting? then Resumable(result) else ops[id]
  }

  function AfterFinally(s: State): State
    requires s.inflight.Settled?
  {
    var result := s.inflight.result;
    s.(inflight := Idle, ops := Woken(s.ops, result),
       destroyed := s.destroyed + if s.inflight.teardown && result.Built? then {result.peer} else {})
  }

  function AfterResume(s: State, op: nat, fallbackBuilds: bool): State
    requires op in s.ops && s.ops[op].Resumable?
  {
    match s.ops[op].result
    case Built(peer) => s.(ops := s.ops[op := Using(peer, false)])
    case Rejected(untrusted) =>
      if s.closed || untrusted || !fallbackBuilds then s.(ops := s.ops[op := Finished])
      else s.(ops := s.ops[op := Using(s.built, true)], built := s.built + 1)
  }

  function AfterOperation(s: State, op: nat): State
    requires op in s.ops && s.ops[op].Using?
  {
    var u := s.ops[op];
    s.(ops := s.ops[op := Finished], destroyed := s.destroyed + if u.leased then {u.peer} else {})
  }

  function AfterDestroy(s: State): State {
    s.(closed := true, client := None,
       destroyed := s.destroyed + (if s.client.Some? then {s.client.value} else {}),
       inflight := if s.inflight.Idle? then Idle else s.inflight.(teardown := true))
  }

  /** An event that is not due changes nothing. */
  function Step(s: State, e: Event): State {
    match e
    case Call(op) => AfterCall(s, op)
    case AuthorizeEnds(outcome) => if s.inflight.Authorizing? then AfterAuthorize(s, outcome) else s
    case FinallyRuns => if s.inflight.Settled? then AfterFinally(s) else s
    case Resume(op, fallbackBuilds) =>
      if op in s.ops && s.ops[op].Resumable? then AfterResume(s, op, fallbackBuilds) else s
    case OperationEnds(op) => if op in s.ops && s.ops[op].Using? then AfterOperation(s, op) else s
    case Destroy => AfterDestroy(s)
  }

  function Run(s: State, events: seq<Event>): State
    decreases |events|
  {
    if events == [] then s else Run(Step(s, events[0]), events[1..])
  }

  // ---- Every peer is accounted for ----

  predicate Leases(ops: map<nat, Op>, op: nat, peer: Peer) {
    op in ops && ops[op] == Using(peer, true)
  }

  ghost predicate Leased(s: State, peer: Peer) {
    exists op :: Leases(s.ops, op, peer)
  }

  /** A peer is destroyed, or cached, or leased to a running operation. */
  ghost predicate Accounted(s: State, peer: Peer) {
    peer in s.destroyed || s.client == Some(peer) || Leased(s, peer)
  }

  ghost predicate PeersAccounted(s: State) {
    forall peer: Peer :: peer < s.built ==> Accounted(s, peer)
  }

  /** Leases are exclusive: one operation each, of a live peer other than the cached one. */
  ghost predicate LeasesExclusive(s: State) {
    && (forall op: nat, peer: Peer :: Leases(s.ops, op, peer) ==>
          peer < s.built && peer !in s.destroyed && s.client != Some(peer))
    && (forall op: nat, other: nat, peer: Peer :: Leases(s.ops, op, peer) && Leases(s.ops, other, peer) ==> op == other)
  }

  /** The cache and the shared promise. */
  predicate CacheCoherent(s: State) {
    && (s.client.Some? ==> s.client.value < s.built && s.client.value !in s.destroyed && !s.closed)
    && (forall peer :: peer in s.destroyed ==> peer < s.built)
    && s.authorizedBuilt <= 1
    && (s.client.Some? ==> s.authorizedBuilt == 1)
    && (s.authorizedBuilt == 1 ==> (s.client.Some? || s.closed) && !s.inflight.Authorizing?)
    && (s.inflight.Settled? && s.inflight.result.Built? ==>
          s.authorizedBuilt == 1 && s.inflight.result.peer < s.built &&
          (s.client == Some(s.inflight.result.peer) || s.inflight.result.peer in s.destroyed))
    && (!s.inflight.Idle? && s.inflight.teardown ==> s.closed)
    && (s.closed && s.inflight.Settled? && s.inflight.result.Built? ==> s.inflight.teardown)
    && (s.inflight.Idle? ==> forall op :: op in s.ops ==> !s.ops[op].Waiting?)
  }

  ghost predicate Inv(s: State) {
    PeersAccounted(s) && LeasesExclusive(s) && CacheCoherent(s)
  }

  lemma AccountedStep(s: State, e: Event, peer: Peer)
    requires Inv(s) && peer < Step(s, e).built
    ensures Accounted(Step(s, e), peer)
  {
    var t := Step(s, e);
    if peer < s.built {
      assert Accounted(s, peer);
      if Leased(s, peer) {
        var op :| Leases(s.ops, op, peer);
        assert peer in t.destroyed || Leases(t.ops, op, peer);
      }
    } else if e.Resume? {
      assert Leases(t.ops, e.op, peer);
    }
  }

  lemma LeasesStep(s: State, e: Event)
    requires Inv(s)
    ensures LeasesExclusive(Step(s, e))
  {
    var t := Step(s, e);
    forall op: nat, peer: Peer | Leases(t.ops, op, peer)
      ensures Leases(s.ops, op, peer) || (e.Resume? && e.op == op && peer == s.built && t.built == s.built + 1)
      ensures peer !in t.destroyed && t.client != Some(peer) && peer < t.built
    {
      if Leases(s.ops, op, peer) && e.OperationEnds? && e.op in s.ops && s.ops[e.op].Using? && e.op != op {
        assert s.ops[e.op].leased ==> Leases(s.ops, e.op, s.ops[e.op].peer);
      }
    }
  }

  lemma CacheStep(s: State, e: Event)
    requires Inv(s)
    ensures CacheCoherent(Step(s, e))
  {
    if e.OperationEnds? && e.op in s.ops && s.ops[e.op].Using? && s.ops[e.op].leased {
      assert Leases(s.ops, e.op, s.ops[e.op].peer);
    }
  }

  lemma StepKeepsInv(s: State, e: Event)
    requires Inv(s)
    ensures Inv(Step(s, e))
  {
    forall peer: Peer | peer < Step(s, e).built ensures Accounted(Step(s, e), peer) {
      AccountedStep(s, e, peer);
    }
    LeasesStep(s, e);
    CacheStep(s, e);
  }

  lemma {:induction false} RunKeepsInv(s: State, events: seq<Event>)
    requires Inv(s)
    ensures Inv(Run(s, events))
    decreases |events|
  {
    if events != [] {
      StepKeepsInv(s, events[0]);
      RunKeepsInv(Step(s, events[0]), events[1..]);
    }
  }

  // ---- Main results ----

  /**
   * Over every interleaving of calls, authorization outcomes and teardown: every peer ever built is cached,
   * leased to exactly one running fallback operation, or destroyed, and only one of these; and at most one
   * authorized peer is ever built.
   */
  lemma NoPeerLeaks(events: seq<Event>, peer: Peer)
    requires peer < Run(START, events).built
    ensures var s := Run(START, events);
            && s.authorizedBuilt <= 1
            && (peer in s.destroyed || s.client == Some(peer) || Leased(s, peer))
            && !(peer in s.destroyed && s.client == Some(peer))
            && !(peer in s.destroyed && Leased(s, peer))
            && !(s.client == Some(peer) && Leased(s, peer))
            && (forall op: nat, other: nat :: Leases(s.ops, op, peer) && Leases(s.ops, other, peer) ==> op == other)
  {
    RunKeepsInv(START, events);
    assert Accounted(Run(START, events), peer);
  }

  predicate Quiescent(s: State) {
    s.inflight.Idle? && forall op :: op in s.ops ==> s.ops[op].Finished?
  }

  /** After `destroy()`, once the authorization and every operation have settled, every peer is destroyed. */
  lemma DestroyedAfterTeardown(events: seq<Event>, peer: Peer)
    requires var s := Run(START, events); s.closed && Quiescent(s) && peer < s.built
    ensures peer in Run(START, events).destroyed
  {
    RunKeepsInv(START, events);
    assert Accounted(Run(START, events), peer);
  }

  /** Closing is permanent, and from then on nothing new is built but by an authorization already under way. */
  lemma {:induction false} NothingBuiltAfterTeardown(s: State, events: seq<Event>)
    requires s.closed && Inv(s)
    ensures Run(s, events).closed
    ensures Run(s, events).built <= s.built + if s.inflight.Authorizing? then 1 else 0
    decreases |events|
  {
    if events != [] {
      StepKeepsInv(s, events[0]);
      NothingBuiltAfterTeardown(Step(s, events[0]), events[1..]);
    }
  }

  // ---- What an operation gets ----

  predicate ResumeOf(e: Event, op: nat) {
    e.Resume? && e.op == op
  }

  lemma {:induction false} WaiterStays(s: State, op: nat, events: seq<Event>)
    requires op in s.ops && s.ops[op].Waiting? && s.inflight.Settled? && FinallyRuns !in events
    ensures var t := Run(s, events);
            && op in t.ops && t.ops[op].Waiting?
            && t.inflight.Settled? && t.inflight.result == s.inflight.result
    decreases |events|
  {
    if events != [] {
      WaiterStays(Step(s, events[0]), op, events[1..]);
    }
  }

  lemma {:induction false} ResumableStays(s: State, op: nat, events: seq<Event>)
    requires op in s.ops && s.ops[op].Resumable? && forall i :: 0 <= i < |events| ==> !ResumeOf(events[i], op)
    ensures var t := Run(s, events); op in t.ops && t.ops[op] == s.ops[op]
    decreases |events|
  {
    if events != [] {
      assert !ResumeOf(events[0], op);
      ResumableStays(Step(s, events[0]), op, events[1..]);
    }
  }

  /**
   * An operation that waits gets what the authorization it waits for yields, whatever happens until it resumes:
   * the peer that was built for all; after an outage a fallback of its own, if that builds and the facade is
   * still open; and an error otherwise, above all when the endpoint is not to be trusted.
   */
  lemma WaiterGetsOutcome(
      s: State, outcome: Authorize, between: seq<Event>, later: seq<Event>, op: nat, fallbackBuilds: bool)
    requires op in s.ops && s.ops[op].Waiting? && s.inflight.Authorizing? && FinallyRuns !in between
    requires forall i :: 0 <= i < |later| ==> !ResumeOf(later[i], op)
    ensures var settled := Run(Step(s, AuthorizeEnds(outcome)), between);
            var t := Run(Step(settled, FinallyRuns), later);
            var u := Step(t, Resume(op, fallbackBuilds));
            && op in u.ops
            && match outcome
               case Untrusted => u.ops[op].Finished? && u.built == t.built
               case Succeeds => u.ops[op] == if s.closed then Finished else Using(s.built, false)
               case Fails => u.ops[op] == if t.closed || !fallbackBuilds then Finished else Using(t.built, true)
  {
    var first := Step(s, AuthorizeEnds(outcome));
    WaiterStays(first, op, between);
    var settled := Run(first, between);
    if s.closed {
      ClosedStays(first, between);
      ClosedStays(Step(settled, FinallyRuns), later);
    }
    ResumableStays(Step(settled, FinallyRuns), op, later);
  }

  lemma {:induction false} ClosedStays(s: State, events: seq<Event>)
    requires s.closed
    ensures Run(s, events).closed
    decreases |events|
  {
    if events != [] {
      ClosedStays(Step(s, events[0]), events[1..]);
    }
  }

  /** Once an authorization is over, the next call that finds no peer starts a new one. */
  lemma NextCallAuthorizesAnew(s: State, op: nat)
    requires s.inflight.Settled? && s.client.None? && !s.closed && op !in s.ops
    ensures var t := Step(Step(s, FinallyRuns), Call(op)); t.inflight == Authorizing(false) && t.ops[op].Waiting?
  {
  }

  lemma {:induction false} UserStays(s: State, op: nat, events: seq<Event>)
    requires op in s.ops && s.ops[op].Using? && OperationEnds(op) !in events
    ensures var t := Run(s, events); op in t.ops && t.ops[op] == s.ops[op]
    decreases |events|
  {
    if events != [] {
      UserStays(Step(s, events[0]), op, events[1..]);
    }
  }

  lemma {:induction false} ClientStays(s: State, peer: Peer, events: seq<Event>)
    requires Inv(s) && s.client == Some(peer) && Destroy !in events
    ensures Run(s, events).client == Some(peer)
    decreases |events|
  {
    if events != [] {
      StepKeepsInv(s, events[0]);
      ClientStays(Step(s, events[0]), peer, events[1..]);
    }
  }

  /**
   * An operation keeps its peer until it ends: a leased one is not destroyed before that, whatever happens, and
   * then it is; the shared one is not destroyed by it, nor by anything but `destroy()`.
   */
  lemma PeerLivesThroughOperation(s: State, op: nat, events: seq<Event>)
    requires Inv(s) && op in s.ops && s.ops[op].Using? && OperationEnds(op) !in events
    ensures var t := Run(s, events);
            var u := Step(t, OperationEnds(op));
            var peer := s.ops[op].peer;
            && op in u.ops && u.ops[op].Finished?
            && (s.ops[op].leased ==> peer !in t.destroyed && peer in u.destroyed)
            && (!s.ops[op].leased && s.client == Some(peer) && Destroy !in events ==> peer !in u.destroyed)
  {
    var t := Run(s, events);
    RunKeepsInv(s, events);
    UserStays(s, op, events);
    if s.ops[op].leased {
      assert Leases(t.ops, op, s.ops[op].peer);
    } else if s.client == Some(s.ops[op].peer) && Destroy !in events {
      ClientStays(s, s.ops[op].peer, events);
    }
  }

  /** After an outage a fallback does get used, and destroyed when its operation ends. */
  lemma FallbackIsUsed()
    ensures var s := Run(START, [Call(0), AuthorizeEnds(Fails), FinallyRuns, Resume(0, true)]);
            s.ops == map[0 := Using(0, true)] && s.client == None && s.built == 1 && s.destroyed == {}
  {
    var e0, e1, e2, e3 := Call(0), AuthorizeEnds(Fails), FinallyRuns, Resume(0, true);
    var s1 := Step(START, e0);
    var s2 := Step(s1, e1);
    var s3 := Step(s2, e2);
    RunFrom(START, e0, [e1, e2, e3]);
    RunFrom(s1, e1, [e2, e3]);
    RunFrom(s2, e2, [e3]);
    RunFrom(s3, e3, []);
  }

  lemma RunFrom(s: State, e: Event, events: seq<Event>)
    ensures Run(s, [e] + events) == Run(Step(s, e), events)
  {
    assert ([e] + events)[1..] == events;
  }

  /** No operation holds a fallback or is about to get one, unless the facade is closed. */
  predicate NoFallback(s: State) {
    && (forall op :: op in s.ops ==> !(s.ops[op].Using? && s.ops[op].leased))
    && (!s.closed ==>
          && (s.inflight.Settled? ==> s.inflight.result != Rejected(false))
          && forall op :: op in s.ops ==> s.ops[op] != Resumable(Rejected(false)))
  }

  /** Without an outage of the authorization no fallback is ever built, however many operations are refused. */
  lemma {:induction false} NoFallbackWithoutOutage(s: State, events: seq<Event>)
    requires NoFallback(s) && AuthorizeEnds(Fails) !in events
    ensures NoFallback(Run(s, events))
    decreases |events|
  {
    if events != [] {
      assert NoFallback(Step(s, events[0]));
      NoFallbackWithoutOutage(Step(s, events[0]), events[1..]);
    }
  }

  /**
   * A call is refused once closed, is given the cached peer if there is one, and otherwise waits for the one
   * authorization under way, which it starts if there is none.
   */
  lemma CallOutcome(events: seq<Event>, op: nat)
    requires op !in Run(START, events).ops
    ensures var s := Run(START, events);
            var t := Step(s, Call(op));
            && op in t.ops && t.built == s.built
            && (t.ops[op].Finished? <==> s.closed)
            && (t.ops[op].Waiting? <==> !s.closed && s.client.None?)
            && (t.ops[op].Waiting? ==> !t.inflight.Idle? && (!s.inflight.Idle? ==> t.inflight == s.inflight))
            && (s.client.Some? ==> t.ops[op] == Using(s.client.value, false) && t.inflight == s.inflight)
  {
    RunKeepsInv(START, events);
  }

  // ---- The facade object ----

  /** The closure variables of the facade, with the peers it has built and destroyed. */
  class Facade {
    var client: Option<Peer>
    var inflight: Inflight
    var closed: bool
    var ops: map<nat, Op>
    var built: nat
    var destroyed: set<Peer>
    var authorizedBuilt: nat

    function View(): State
      reads this
    {
      State(client, inflight, closed, ops, built, destroyed, authorizedBuilt)
    }

    constructor ()
      ensures View() == START
    {
      client, inflight, closed, ops, built, destroyed, authorizedBuilt := None, Idle, false, map[], 0, {}, 0;
    }

    method BuildPeer() returns (peer: Peer)
      modifies this`built
      ensures peer == old(built) && built == old(built) + 1
    {
      peer := built;
      built := built + 1;
    }

    /** The synchronous part of an operation: `getClient` up to its first await. */
    method Begin(op: nat)
      requires op !in ops
      modifies this
      ensures View() == Step(old(View()), Call(op))
    {
      if closed {
        ops := ops[op := Finished];
        return;
      }
      if client.Some? {
        ops := ops[op := Using(client.value, false)];
        return;
      }
      if inflight.Idle? {
        inflight := Authorizing(false);
      }
      ops := ops[op := Waiting];
    }

    /** `buildAuthorizedClient` after the authorize call has settled. */
    method BuildAuthorizedClient(outcome: Authorize)
      requires inflight.Authorizing?
      modifies this
      ensures View() == Step(old(View()), AuthorizeEnds(outcome))
    {
      var teardown := inflight.teardown;
      match outcome {
        case Fails => inflight := Settled(Rejected(false), teardown);
        case Untrusted => inflight := Settled(Rejected(true), teardown);
        case Succeeds =>
          var next := BuildPeer();
          authorizedBuilt := authorizedBuilt + 1;
          if closed {
            destroyed := destroyed + {next};
            inflight := Settled(Rejected(false), teardown);
            return;
          }
          client := Some(next);
          inflight := Settled(Built(next), teardown);
      }
    }

    /** The promise's `finally`, the waiters it wakes, and the hook that `destroy()` left on it. */
    method ClearInflight()
      requires inflight.Settled?
      modifies this
      ensures View() == Step(old(View()), FinallyRuns)
    {
      var settled := inflight;
      inflight := Idle;
      ops := Woken(ops, settled.result);
      if settled.teardown && settled.result.Built? {
        destroyed := destroyed + {settled.result.peer};
      }
    }

    /** A waiting operation goes on, with the cached peer or with a fallback of its own. */
    method Continue(op: nat, fallbackBuilds: bool)
      requires op in ops && ops[op].Resumable?
      modifies this
      ensures View() == Step(old(View()), Resume(op, fallbackBuilds))
    {
      match ops[op].result {
        case Built(peer) => ops := ops[op := Using(peer, false)];
        case Rejected(untrusted) =>
          if closed || untrusted || !fallbackBuilds {
            ops := ops[op := Finished];
            return;
          }
          var fallback := BuildPeer();
          ops := ops[op := Using(fallback, true)];
      }
    }

    /** The `finally` of an operation: a leased peer is destroyed. */
    method ReleaseClient(op: nat)
      requires op in ops && ops[op].Using?
      modifies this
      ensures View() == Step(old(View()), OperationEnds(op))
    {
      var lease := ops[op];
      ops := ops[op := Finished];
      if lease.leased {
        destroyed := destroyed + {lease.peer};
      }
    }

    method DestroyAll()
      modifies this
      ensures View() == Step(old(View()), Destroy)
    {
      closed := true;
      var current := client;
      client := None;
      if current.Some? {
        destroyed := destroyed + {current.value};
      }
      if !inflight.Idle? {
        inflight := inflight.(teardown := true);
      }
    }
  }
}
