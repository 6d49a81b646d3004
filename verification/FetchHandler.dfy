/**
 * The life of an HTTP request inside the fetch handler, as a transition system whose steps run from one
 * `await` to the next, and the handler object that carries those steps out.
 */
module FetchHandler {
  import opened InFlight

  /** Where a request stands between two steps. */
  datatype Phase =
    | ReadingBody
    | Discovering(verifying: bool)       // waiting for capabilities, perhaps with a verification permit
    | Dispatching(discoveryMode: bool)   // waiting for the MCP handler
    | Streaming                          // a response with a body is out and its cleanup has not run
    | Finalizing                         // the cleanup has started and is closing the request's servers
    | Done
    | Escaped                            // the rejection of an un-awaited discovery dispatch left the handler

  /** `limitKey` is the key the permit is held under; `givenBack` records the keys released for this request. */
  datatype Req = Req(limitKey: string, phase: Phase, givenBack: seq<string>)

  datatype BodyOutcome =
    | Rejected                            // too large, refused by a check, or an exception answered with 500
    | ProtocolOnly
    | DiscoveryMode(rateOk: bool)
    | Resolved(cacheKey: string, rateOk: bool, verify: bool, verifyRateOk: bool)

  datatype CapabilityOutcome = Found | Downgraded(rateOk: bool) | Failed

  datatype DispatchOutcome = WithBody | WithoutBody | Throws

  datatype Event =
    | Arrive(id: nat, key: string, rateOk: bool)
    | BodyRead(id: nat, body: BodyOutcome)
    | CapabilitiesSettled(id: nat, capabilities: CapabilityOutcome)
    | Dispatched(id: nat, dispatch: DispatchOutcome)
    | StreamSettled(id: nat)              // the body ended, failed or was cancelled
    | ServersClosed(id: nat)
    | Drain
    | ForcedTimer
    | Close

  /** The two limiters: the global one and the one for fresh credential verification. */
  datatype Slots = Slots(inFlight: Permits, verification: Permits)

  datatype Gate = Gate(shuttingDown: bool, closed: bool, timerArmed: bool, closings: nat)

  datatype State = State(slots: Slots, requests: map<nat, Req>, gate: Gate)

  const START := State(Slots(NO_PERMITS, NO_PERMITS), map[], Gate(false, false, false, 0))

  const DISCOVERY_LIMIT_KEY := "http-discovery:credential-unavailable"
  const VERIFICATION_LIMIT_KEY := "http-auth:credential-verification"

  // ---- One request between two awaits ----

  /** Move the request's permit to `key`; a refusal leaves it where it is. */
  function MovePermit(p: Slots, limits: Limits, r: Req, key: string): (Slots, Req, Verdict) {
    var (permits, verdict) := Rekey(p.inFlight, limits, r.limitKey, key);
    (p.(inFlight := permits), if verdict.Allowed? then r.(limitKey := key) else r, verdict)
  }

  function EnterDiscoveryMode(p: Slots, limits: Limits, r: Req, rateOk: bool): (Slots, Req) {
    var (moved, r', verdict) := MovePermit(p, limits, r, DISCOVERY_LIMIT_KEY);
    (moved, r'.(phase := if verdict.Allowed? && rateOk then Dispatching(true) else Streaming))
  }

  function Verify(p: Slots, limits: Limits, r: Req, rateOk: bool): (Slots, Req) {
    var (permits, verdict) := Acquire(p.verification, limits, VERIFICATION_LIMIT_KEY);
    if verdict.Refused? then (p, r.(phase := Streaming))
    else if !rateOk then
      (p.(verification := Release(permits, VERIFICATION_LIMIT_KEY)), r.(phase := Streaming))
    else (p.(verification := permits), r.(phase := Discovering(true)))
  }

  function AfterBody(p: Slots, limits: Limits, r: Req, body: BodyOutcome): (Slots, Req) {
    match body
    case Rejected => (p, r.(phase := Streaming))
    case ProtocolOnly => (p, r.(phase := Dispatching(false)))
    case DiscoveryMode(rateOk) => EnterDiscoveryMode(p, limits, r, rateOk)
    case Resolved(cacheKey, rateOk, verify, verifyRateOk) =>
      var (moved, r', verdict) := MovePermit(p, limits, r, cacheKey);
      if verdict.Refused? || !rateOk then (moved, r'.(phase := Streaming))
      else if verify then Verify(moved, limits, r', verifyRateOk)
      else (moved, r'.(phase := Discovering(false)))
  }

  /** The `finally` gives a held verification permit back after everything else. */
  function AfterCapabilities(p: Slots, limits: Limits, r: Req, capabilities: CapabilityOutcome): (Slots, Req) {
    var (next, r') := match capabilities
      case Found => (p, r.(phase := Dispatching(false)))
      case Downgraded(rateOk) => EnterDiscoveryMode(p, limits, r, rateOk)
      case Failed => (p, r.(phase := Streaming));
    (if r.phase == Discovering(true)
     then next.(verification := Release(next.verification, VERIFICATION_LIMIT_KEY)) else next, r')
  }

  function AfterDispatch(r: Req, dispatch: DispatchOutcome): Req {
    match dispatch
    case WithBody => r.(phase := Streaming)
    case WithoutBody => r.(phase := Finalizing)
    case Throws => r.(phase := if r.phase == Dispatching(true) then Escaped else Streaming)
  }

  /** `finalize` gives the permit back unless the key is the empty (falsy) string. */
  function AfterServersClosed(p: Slots, r: Req): (Slots, Req) {
    if r.limitKey == "" then (p, r.(phase := Done))
    else (p.(inFlight := Release(p.inFlight, r.limitKey)),
          r.(phase := Done, givenBack := r.givenBack + [r.limitKey]))
  }

  /** What an event does to the request it names; an event the request is not waiting for does nothing. */
  function Advance(p: Slots, limits: Limits, r: Req, e: Event): (Slots, Req) {
    match e
    case BodyRead(_, body) => if r.phase.ReadingBody? then AfterBody(p, limits, r, body) else (p, r)
    case CapabilitiesSettled(_, capabilities) =>
      if r.phase.Discovering? then AfterCapabilities(p, limits, r, capabilities) else (p, r)
    case Dispatched(_, dispatch) => (p, if r.phase.Dispatching? then AfterDispatch(r, dispatch) else r)
    case StreamSettled(_) => (p, if r.phase.Streaming? then r.(phase := Finalizing) else r)
    case ServersClosed(_) => if r.phase.Finalizing? then AfterServersClosed(p, r) else (p, r)
    case _ => (p, r)
  }

  // ---- The whole handler ----

  function CloseHandler(g: Gate): Gate {
    if g.closed then g else g.(closed := true, timerArmed := false, closings := g.closings + 1)
  }

  function CloseIfDrained(g: Gate, active: nat): Gate {
    if g.shuttingDown && active == 0 then CloseHandler(g) else g
  }

  function StartDrain(g: Gate, active: nat): Gate {
    if g.shuttingDown then g else CloseIfDrained(g.(shuttingDown := true, timerArmed := true), active)
  }

  function Admit(s: State, limits: Limits, id: nat, key: string, rateOk: bool): State {
    if s.gate.shuttingDown || id in s.requests then s
    else
      var (permits, verdict) := Acquire(s.slots.inFlight, limits, key);
      if verdict.Refused? then s
      else State(s.slots.(inFlight := permits),
                 s.requests[id := Req(key, if rateOk then ReadingBody else Streaming, [])], s.gate)
  }

  function Step(s: State, limits: Limits, e: Event): State {
    match e
    case Arrive(id, key, rateOk) => Admit(s, limits, id, key, rateOk)
    case Drain => s.(gate := StartDrain(s.gate, s.slots.inFlight.active))
    case ForcedTimer => s.(gate := if s.gate.timerArmed then CloseHandler(s.gate) else s.gate)
    case Close => s.(gate := CloseHandler(StartDrain(s.gate, s.slots.inFlight.active)))
    case _ =>
      if e.id !in s.requests then s
      else
        var (slots, r) := Advance(s.slots, limits, s.requests[e.id], e);
        State(slots, s.requests[e.id := r],
              if r.phase.Done? && !s.requests[e.id].phase.Done? then CloseIfDrained(s.gate, slots.inFlight.active)
              else s.gate)
  }

  function Run(s: State, limits: Limits, events: seq<Event>): State
    decreases |events|
  {
    if events == [] then s else Run(Step(s, limits, events[0]), limits, events[1..])
  }

  // ---- What every run keeps ----

  /** Requests the handler still owes a cleanup. */
  predicate IsLive(r: Req) {
    !r.phase.Done? && !r.phase.Escaped?
  }

  /** A request that left without giving its permit back. */
  predicate IsLost(r: Req) {
    r.phase.Escaped? || (r.phase.Done? && r.limitKey == "")
  }

  predicate IsVerifying(r: Req) {
    r.phase == Discovering(true)
  }

  function Live(requests: map<nat, Req>): set<nat> {
    set id | id in requests && IsLive(requests[id])
  }

  function Lost(requests: map<nat, Req>): set<nat> {
    set id | id in requests && IsLost(requests[id])
  }

  function Holders(requests: map<nat, Req>): map<nat, string> {
    map id | id in requests && (IsLive(requests[id]) || IsLost(requests[id])) :: requests[id].limitKey
  }

  function Verifiers(requests: map<nat, Req>): map<nat, string> {
    map id | id in requests && IsVerifying(requests[id]) :: VERIFICATION_LIMIT_KEY
  }

  function WithHolder(h: map<nat, string>, id: nat, r: Req): map<nat, string> {
    if IsLive(r) || IsLost(r) then h[id := r.limitKey] else h - {id}
  }

  function WithVerifier(v: map<nat, string>, id: nat, r: Req): map<nat, string> {
    if IsVerifying(r) then v[id := VERIFICATION_LIMIT_KEY] else v - {id}
  }

  lemma HoldersAfterSet(requests: map<nat, Req>, id: nat, r: Req)
    ensures Holders(requests[id := r]) == WithHolder(Holders(requests), id, r)
    ensures Verifiers(requests[id := r]) == WithVerifier(Verifiers(requests), id, r)
  {
  }

  lemma HoldersOfCurrent(requests: map<nat, Req>, id: nat)
    requires id in requests
    ensures WithHolder(Holders(requests), id, requests[id]) == Holders(requests)
    ensures WithVerifier(Verifiers(requests), id, requests[id]) == Verifiers(requests)
  {
    assert requests[id := requests[id]] == requests;
    HoldersAfterSet(requests, id, requests[id]);
  }

  /** Both limiters' accounts, when request `id` stands as `r` and the others as `h` and `v` say. */
  ghost predicate Tallied(p: Slots, limits: Limits, h: map<nat, string>, v: map<nat, string>, id: nat, r: Req) {
    && Accounts(p.inFlight, limits, WithHolder(h, id, r))
    && Accounts(p.verification, limits, WithVerifier(v, id, r))
  }

  lemma MovePermitTallies(
      p: Slots, limits: Limits, h: map<nat, string>, v: map<nat, string>, id: nat, r: Req, key: string)
    requires Tallied(p, limits, h, v, id, r) && IsLive(r)
    ensures Tallied(MovePermit(p, limits, r, key).0, limits, h, v, id, MovePermit(p, limits, r, key).1)
  {
    hide Accounts, Rekey;
    RekeyAccounts(p.inFlight, limits, key, WithHolder(h, id, r), id);
    assert WithHolder(h, id, r)[id := key] == h[id := key];
  }

  lemma DiscoveryModeTallies(
      p: Slots, limits: Limits, h: map<nat, string>, v: map<nat, string>, id: nat, r: Req, rateOk: bool)
    requires Tallied(p, limits, h, v, id, r) && IsLive(r) && !IsVerifying(r)
    ensures var (p', r') := EnterDiscoveryMode(p, limits, r, rateOk);
            Tallied(p', limits, h, v, id, r')
  {
    MovePermitTallies(p, limits, h, v, id, r, DISCOVERY_LIMIT_KEY);
  }

  lemma VerifyTallies(
      p: Slots, limits: Limits, h: map<nat, string>, v: map<nat, string>, id: nat, r: Req, rateOk: bool)
    requires Tallied(p, limits, h, v, id, r) && IsLive(r) && !IsVerifying(r)
    ensures var (p', r') := Verify(p, limits, r, rateOk);
            Tallied(p', limits, h, v, id, r')
  {
    hide Accounts, Acquire, Release;
    var others := v - {id};
    var (permits, verdict) := Acquire(p.verification, limits, VERIFICATION_LIMIT_KEY);
    AcquireAccounts(p.verification, limits, VERIFICATION_LIMIT_KEY, others, id);
    if verdict.Allowed? {
      var holding := others[id := VERIFICATION_LIMIT_KEY];
      ReleaseAccounts(permits, limits, holding, id);
      assert holding - {id} == others;
      assert holding == v[id := VERIFICATION_LIMIT_KEY];
    }
  }

  lemma BodyTallies(
      p: Slots, limits: Limits, h: map<nat, string>, v: map<nat, string>, id: nat, r: Req, body: BodyOutcome)
    requires Tallied(p, limits, h, v, id, r) && r.phase.ReadingBody?
    ensures var (p', r') := AfterBody(p, limits, r, body);
            Tallied(p', limits, h, v, id, r')
  {
    hide Accounts, Verify, EnterDiscoveryMode;
    match body {
      case Rejected =>
      case ProtocolOnly =>
      case DiscoveryMode(rateOk) => DiscoveryModeTallies(p, limits, h, v, id, r, rateOk);
      case Resolved(cacheKey, rateOk, verify, verifyRateOk) =>
        MovePermitTallies(p, limits, h, v, id, r, cacheKey);
        var (moved, r', verdict) := MovePermit(p, limits, r, cacheKey);
        VerifyTallies(moved, limits, h, v, id, r', verifyRateOk);
    }
  }

  /** Giving the verification permit back and leaving the waiting phase in any way keeps both accounts. */
  lemma CapabilitiesTally(
      p: Slots, limits: Limits, h: map<nat, string>, v: map<nat, string>, id: nat, r: Req,
      capabilities: CapabilityOutcome)
    requires Tallied(p, limits, h, v, id, r) && r.phase.Discovering?
    ensures var (p', r') := AfterCapabilities(p, limits, r, capabilities);
            Tallied(p', limits, h, v, id, r')
  {
    hide Accounts, MovePermit, Release;
    if IsVerifying(r) {
      var holding := v[id := VERIFICATION_LIMIT_KEY];
      ReleaseAccounts(p.verification, limits, holding, id);
      assert holding - {id} == v - {id};
    }
    var released := if IsVerifying(r) then Release(p.verification, VERIFICATION_LIMIT_KEY) else p.verification;
    var freed := p.(verification := released);
    assert Tallied(freed, limits, h, v, id, r.(phase := Discovering(false)));
    if capabilities.Downgraded? {
      DiscoveryModeTallies(freed, limits, h, v, id, r.(phase := Discovering(false)), capabilities.rateOk);
      MovePermitIgnoresVerification(p, limits, r, released, DISCOVERY_LIMIT_KEY);
    }
  }

  lemma MovePermitIgnoresVerification(p: Slots, limits: Limits, r: Req, verification: Permits, key: string)
    ensures var (p1, r1, v1) := MovePermit(p, limits, r, key);
            var (p2, r2, v2) :=
              MovePermit(p.(verification := verification), limits, r.(phase := Discovering(false)), key);
            && p1.inFlight == p2.inFlight && p1.verification == p.verification && p2.verification == verification
            && r2 == r1.(phase := Discovering(false)) && v1 == v2
  {
  }

  lemma ServersClosedTallies(p: Slots, limits: Limits, h: map<nat, string>, v: map<nat, string>, id: nat, r: Req)
    requires Tallied(p, limits, h, v, id, r) && r.phase.Finalizing?
    ensures var (p', r') := AfterServersClosed(p, r);
            Tallied(p', limits, h, v, id, r')
  {
    hide Accounts, Release;
    if r.limitKey != "" {
      var holding := h[id := r.limitKey];
      ReleaseAccounts(p.inFlight, limits, holding, id);
      assert holding - {id} == h - {id};
      var (p', r') := AfterServersClosed(p, r);
      assert WithHolder(h, id, r') == h - {id} && WithVerifier(v, id, r') == v - {id} == WithVerifier(v, id, r);
      assert p'.verification == p.verification && p'.inFlight == Release(p.inFlight, r.limitKey);
    }
  }

  lemma AdvanceTallies(
      p: Slots, limits: Limits, h: map<nat, string>, v: map<nat, string>, id: nat, r: Req, e: Event)
    requires Tallied(p, limits, h, v, id, r)
    ensures var (p', r') := Advance(p, limits, r, e);
            Tallied(p', limits, h, v, id, r')
  {
    hide Accounts, AfterBody, AfterCapabilities, AfterServersClosed;
    match e {
      case BodyRead(_, body) =>
        if r.phase.ReadingBody? { BodyTallies(p, limits, h, v, id, r, body); }
      case CapabilitiesSettled(_, capabilities) =>
        if r.phase.Discovering? { CapabilitiesTally(p, limits, h, v, id, r, capabilities); }
      case ServersClosed(_) =>
        if r.phase.Finalizing? { ServersClosedTallies(p, limits, h, v, id, r); }
      case _ =>
    }
  }

  predicate GaveBackOnce(r: Req) {
    r.givenBack == if r.phase.Done? && r.limitKey != "" then [r.limitKey] else []
  }

  /** How the shutdown flags, the forced-close timer and the closing of the handler hang together. */
  predicate Ordered(g: Gate, active: nat) {
    && g.closings == (if g.closed then 1 else 0)
    && (g.closed ==> g.shuttingDown)
    && (g.timerArmed <==> g.shuttingDown && !g.closed)
    && (g.shuttingDown && active == 0 ==> g.closed)
  }

  /**
   * The events that lose a permit: the rejection of a discovery dispatch, which leaves the handler, and the
   * end of a request that holds its permit under the empty key, which `finalize` takes for no key.
   */
  predicate LosesRequest(r: Req, e: Event) {
    || (e.Dispatched? && e.dispatch.Throws? && r.phase == Dispatching(true))
    || (e.ServersClosed? && r.phase.Finalizing? && r.limitKey == "")
  }

  /** No key that the event brings in is empty. */
  predicate NamesKeys(e: Event) {
    && (e.Arrive? ==> e.key != "")
    && (e.BodyRead? && e.body.Resolved? ==> e.body.cacheKey != "")
  }

  /** How an event may change the request it names, and the in-flight total with it. */
  lemma AdvanceFollows(p: Slots, limits: Limits, r: Req, e: Event)
    ensures var (p', r') := Advance(p, limits, r, e);
            && (!r'.phase.Done? ==> p'.inFlight.active == p.inFlight.active)
            && (r.phase.Done? ==> p' == p && r' == r)
            && (r.phase.Escaped? ==> r' == r)
            && (GaveBackOnce(r) ==> GaveBackOnce(r'))
            && (IsLost(r') <==> IsLost(r) || LosesRequest(r, e))
            && (NamesKeys(e) && r.limitKey != "" ==> r'.limitKey != "")
  {
    match e {
      case BodyRead(_, body) =>
      case CapabilitiesSettled(_, capabilities) =>
      case _ =>
    }
  }

  ghost predicate Inv(s: State, limits: Limits) {
    && Accounts(s.slots.inFlight, limits, Holders(s.requests))
    && Accounts(s.slots.verification, limits, Verifiers(s.requests))
    && (forall id :: id in s.requests ==> GaveBackOnce(s.requests[id]))
    && Ordered(s.gate, s.slots.inFlight.active)
  }

  lemma AdmitKeepsInv(s: State, limits: Limits, id: nat, key: string, rateOk: bool)
    requires Inv(s, limits)
    ensures Inv(Admit(s, limits, id, key, rateOk), limits)
  {
    hide Accounts, Acquire, Holders, Verifiers;
    if !s.gate.shuttingDown && id !in s.requests {
      NotAHolder(s.requests, id);
      AcquireAccounts(s.slots.inFlight, limits, key, Holders(s.requests), id);
      AcquireCounts(s.slots.inFlight, limits, key);
      var r := Req(key, if rateOk then ReadingBody else Streaming, []);
      HoldersAfterSet(s.requests, id, r);
      var (permits, verdict) := Acquire(s.slots.inFlight, limits, key);
      if verdict.Allowed? {
        var t := Admit(s, limits, id, key, rateOk);
        assert t.requests == s.requests[id := r] && t.slots.inFlight == permits;
        assert Holders(t.requests) == Holders(s.requests)[id := key];
        assert Verifiers(t.requests) == Verifiers(s.requests);
      }
    }
  }

  lemma AcquireCounts(p: Permits, limits: Limits, key: string)
    ensures var (p', v) := Acquire(p, limits, key);
            p'.active == p.active + if v.Allowed? then 1 else 0
  {
  }

  lemma NotAHolder(requests: map<nat, Req>, id: nat)
    requires id !in requests
    ensures id !in Holders(requests) && Verifiers(requests) - {id} == Verifiers(requests)
  {
  }

  lemma StepKeepsInv(s: State, limits: Limits, e: Event)
    requires Inv(s, limits)
    ensures Inv(Step(s, limits, e), limits)
  {
    hide Accounts, Admit, Advance, GaveBackOnce, Holders, Verifiers;
    match e {
      case Arrive(id, key, rateOk) => AdmitKeepsInv(s, limits, id, key, rateOk);
      case Drain =>
      case ForcedTimer =>
      case Close =>
      case _ =>
        if e.id in s.requests {
          var (slots, r) := Advance(s.slots, limits, s.requests[e.id], e);
          HoldersOfCurrent(s.requests, e.id);
          AdvanceTallies(s.slots, limits, Holders(s.requests), Verifiers(s.requests), e.id, s.requests[e.id], e);
          HoldersAfterSet(s.requests, e.id, r);
          AdvanceFollows(s.slots, limits, s.requests[e.id], e);
        }
    }
  }

  lemma {:induction false} RunKeepsInv(s: State, limits: Limits, events: seq<Event>)
    requires Inv(s, limits)
    ensures Inv(Run(s, limits, events), limits)
    decreases |events|
  {
    if events != [] {
      StepKeepsInv(s, limits, events[0]);
      RunKeepsInv(Step(s, limits, events[0]), limits, events[1..]);
    }
  }

  lemma StartInv(limits: Limits)
    ensures Inv(START, limits)
  {
    assert Holders(START.requests) == map[] == Verifiers(START.requests);
    forall key ensures CountsKey(NO_PERMITS, map[], key) {
      assert Under(map[], key) == {};
    }
  }

  // ---- Lost permits ----

  /** An event that loses the request it names. */
  predicate Loses(s: State, e: Event) {
    (e.Dispatched? || e.ServersClosed?) && e.id in s.requests && LosesRequest(s.requests[e.id], e)
  }

  predicate NeverLoses(s: State, limits: Limits, events: seq<Event>)
    decreases |events|
  {
    events == [] || (!Loses(s, events[0]) && NeverLoses(Step(s, limits, events[0]), limits, events[1..]))
  }

  /** One event loses a request exactly when it is one of those, and no event finds one again. */
  lemma StepLoses(s: State, limits: Limits, e: Event)
    ensures Lost(s.requests) <= Lost(Step(s, limits, e).requests)
    ensures Lost(Step(s, limits, e).requests) == Lost(s.requests) <==> !Loses(s, e)
  {
    hide Advance;
    var t := Step(s, limits, e);
    if !e.Arrive? && !e.Drain? && !e.ForcedTimer? && !e.Close? && e.id in s.requests {
      AdvanceFollows(s.slots, limits, s.requests[e.id], e);
      assert t.requests[e.id] == Advance(s.slots, limits, s.requests[e.id], e).1;
      if Loses(s, e) {
        assert e.id in Lost(t.requests) && e.id !in Lost(s.requests);
      }
    }
  }

  /** Nothing is lost in a run exactly when nothing was lost before it and none of its events loses a request. */
  lemma {:induction false} NothingLostIff(s: State, limits: Limits, events: seq<Event>)
    ensures Lost(Run(s, limits, events).requests) == {} <==>
            Lost(s.requests) == {} && NeverLoses(s, limits, events)
    decreases |events|
  {
    hide Step, Loses, Lost;
    if events != [] {
      StepLoses(s, limits, events[0]);
      NothingLostIff(Step(s, limits, events[0]), limits, events[1..]);
    }
  }

  /** The rejection of a discovery dispatch. */
  predicate Escapes(s: State, e: Event) {
    e.Dispatched? && e.dispatch.Throws? && e.id in s.requests && s.requests[e.id].phase == Dispatching(true)
  }

  predicate NeverEscapes(s: State, limits: Limits, events: seq<Event>)
    decreases |events|
  {
    events == [] || (!Escapes(s, events[0]) && NeverEscapes(Step(s, limits, events[0]), limits, events[1..]))
  }

  ghost predicate KeysNamed(requests: map<nat, Req>) {
    forall id :: id in requests ==> requests[id].limitKey != ""
  }

  lemma StepKeepsKeysNamed(s: State, limits: Limits, e: Event)
    requires KeysNamed(s.requests) && NamesKeys(e)
    ensures KeysNamed(Step(s, limits, e).requests)
  {
    hide Advance;
    if !e.Arrive? && !e.Drain? && !e.ForcedTimer? && !e.Close? && e.id in s.requests {
      AdvanceFollows(s.slots, limits, s.requests[e.id], e);
    }
  }

  /** While no key is empty, the rejections of discovery dispatches are all that can lose a request. */
  lemma {:induction false} NothingElseLoses(s: State, limits: Limits, events: seq<Event>)
    requires KeysNamed(s.requests) && forall i :: 0 <= i < |events| ==> NamesKeys(events[i])
    ensures NeverLoses(s, limits, events) <==> NeverEscapes(s, limits, events)
    decreases |events|
  {
    hide Step;
    if events != [] {
      StepKeepsKeysNamed(s, limits, events[0]);
      NothingElseLoses(Step(s, limits, events[0]), limits, events[1..]);
    }
  }

  /** Whatever happens later, the request stays lost and its permit stays taken under the same key. */
  predicate StaysLost(s: State, limits: Limits, id: nat, events: seq<Event>) {
    && id in Lost(s.requests)
    && id in Lost(Run(s, limits, events).requests)
    && Run(s, limits, events).requests[id] == s.requests[id]
  }

  lemma {:induction false} LostForever(s: State, limits: Limits, id: nat, events: seq<Event>)
    requires id in Lost(s.requests)
    ensures StaysLost(s, limits, id, events)
    decreases |events|
  {
    if events != [] {
      var t := Step(s, limits, events[0]);
      assert t.requests.Keys >= s.requests.Keys && t.requests[id] == s.requests[id] by {
        hide Advance;
        var e := events[0];
        if !e.Arrive? && !e.Drain? && !e.ForcedTimer? && !e.Close? && e.id == id {
          AdvanceFollows(s.slots, limits, s.requests[id], e);
        }
      }
      LostForever(t, limits, id, events[1..]);
    }
  }

  // ---- Main results ----

  lemma HoldersSplit(requests: map<nat, Req>)
    ensures |Holders(requests)| == |Live(requests)| + |Lost(requests)|
  {
    assert Holders(requests).Keys == Live(requests) + Lost(requests);
    assert Live(requests) !! Lost(requests);
  }

  /**
   * Conservation over every interleaving: the in-flight count is the number of live requests plus the lost
   * ones, so it equals the live requests exactly when no event of the run loses one; each key counts the
   * requests that hold it; no bound is exceeded; and every finished request gave back one permit, under the
   * key it then held.
   */
  lemma Conservation(limits: Limits, events: seq<Event>)
    ensures var s := Run(START, limits, events);
            var active := s.slots.inFlight.active;
            && active == |Live(s.requests)| + |Lost(s.requests)|
            && (active == |Live(s.requests)| <==> NeverLoses(START, limits, events))
            && (forall key :: Held(s.slots.inFlight, key) == |Under(Holders(s.requests), key)|)
            && active <= limits.maxTotal
            && (forall key :: Held(s.slots.inFlight, key) <= limits.maxPerKey)
            && (forall id :: id in s.requests ==> GaveBackOnce(s.requests[id]))
            && s.slots.verification.active == |Verifiers(s.requests)|
  {
    var s := Run(START, limits, events);
    StartInv(limits);
    RunKeepsInv(START, limits, events);
    HoldersSplit(s.requests);
    assert Lost(START.requests) == {};
    NothingLostIff(START, limits, events);
    forall key ensures Held(s.slots.inFlight, key) == |Under(Holders(s.requests), key)| {
      assert CountsKey(s.slots.inFlight, Holders(s.requests), key);
    }
  }

  /** The permit of a lost request is never given back: its key counts it in every later state. */
  lemma LostPermitStaysTaken(s: State, limits: Limits, id: nat, events: seq<Event>)
    requires Inv(s, limits) && id in Lost(s.requests)
    ensures var t := Run(s, limits, events);
            t.slots.inFlight.active >= 1 && Held(t.slots.inFlight, s.requests[id].limitKey) >= 1
  {
    hide Run, Step;
    var t := Run(s, limits, events);
    var key := s.requests[id].limitKey;
    RunKeepsInv(s, limits, events);
    LostForever(s, limits, id, events);
    assert CountsKey(t.slots.inFlight, Holders(t.requests), key);
    assert id in Under(Holders(t.requests), key);
    assert id in Holders(t.requests).Keys;
  }

  /** A dispatch that throws is caught, but for the discovery dispatch that is returned without `await`. */
  lemma CaughtFailureIsFinalized(s: State, limits: Limits, id: nat)
    requires id in s.requests && s.requests[id].phase == Dispatching(false)
    ensures !Loses(s, Dispatched(id, Throws))
    ensures Step(s, limits, Dispatched(id, Throws)).requests[id] == s.requests[id].(phase := Streaming)
  {
  }

  /** A rejection inside a discovery dispatch strands the permit. */
  lemma EscapeStrandsThePermit(s: State, limits: Limits, id: nat, events: seq<Event>)
    requires id in s.requests && s.requests[id].phase == Dispatching(true)
    ensures var t := Step(s, limits, Dispatched(id, Throws));
            t.slots == s.slots && StaysLost(t, limits, id, events)
  {
    LostForever(Step(s, limits, Dispatched(id, Throws)), limits, id, events);
  }

  /** So does closing the servers of a request that holds its permit under the empty key. */
  lemma EmptyKeyStrandsThePermit(s: State, limits: Limits, id: nat, events: seq<Event>)
    requires id in s.requests && s.requests[id].phase == Finalizing && s.requests[id].limitKey == ""
    ensures var t := Step(s, limits, ServersClosed(id));
            t.slots == s.slots && StaysLost(t, limits, id, events)
  {
    LostForever(Step(s, limits, ServersClosed(id)), limits, id, events);
  }

  /**
   * Both happen, from the start of a handler that admits anything at all: the second when a credential provider
   * resolves a request to the empty key.
   */
  lemma BothLossesAreReachable(limits: Limits)
    requires limits.maxTotal >= 1 && limits.maxPerKey >= 1
    ensures var s := Run(START, limits,
                         [Arrive(0, "http:a", true), BodyRead(0, DiscoveryMode(true)), Dispatched(0, Throws)]);
            s.slots.inFlight.active == 1 && Live(s.requests) == {} && Lost(s.requests) == {0}
    ensures var s := Run(START, limits,
                         [Arrive(0, "http:a", true), BodyRead(0, Resolved("", false, false, false)),
                          StreamSettled(0), ServersClosed(0)]);
            s.slots.inFlight.active == 1 && Live(s.requests) == {} && Lost(s.requests) == {0}
  {
    var first := Arrive(0, "http:a", true);
    var s := Step(START, limits, first);
    FirstArrival(limits);
    hide Step;
    RejectedDiscoveryRun(s, limits);
    RunAfter(START, limits, first, [BodyRead(0, DiscoveryMode(true)), Dispatched(0, Throws)]);
    EmptyKeyRun(s, limits);
    RunAfter(START, limits, first,
             [BodyRead(0, Resolved("", false, false, false)), StreamSettled(0), ServersClosed(0)]);
  }

  lemma FirstArrival(limits: Limits)
    requires limits.maxTotal >= 1 && limits.maxPerKey >= 1
    ensures var s := Step(START, limits, Arrive(0, "http:a", true));
            && s.requests == map[0 := Req("http:a", ReadingBody, [])]
            && s.slots.inFlight == Permits(1, map["http:a" := 1]) && s.gate == START.gate
  {
  }

  lemma RunAfter(s: State, limits: Limits, e: Event, events: seq<Event>)
    ensures Run(s, limits, [e] + events) == Run(Step(s, limits, e), limits, events)
  {
    assert ([e] + events)[1..] == events;
  }

  lemma RejectedDiscoveryRun(s: State, limits: Limits)
    requires limits.maxPerKey >= 1 && s.requests == map[0 := Req("http:a", ReadingBody, [])]
    requires s.slots.inFlight == Permits(1, map["http:a" := 1]) && !s.gate.shuttingDown
    ensures var t := Run(s, limits, [BodyRead(0, DiscoveryMode(true)), Dispatched(0, Throws)]);
            t.slots.inFlight.active == 1 && Live(t.requests) == {} && Lost(t.requests) == {0}
  {
    var d1, d2: Event := BodyRead(0, DiscoveryMode(true)), Dispatched(0, Throws);
    RunAfter(s, limits, d1, [d2]);
    var t1 := Step(s, limits, d1);
    assert t1.requests == map[0 := Req(DISCOVERY_LIMIT_KEY, Dispatching(true), [])] && t1.slots.inFlight.active == 1;
    RunAfter(t1, limits, d2, []);
    assert [d1] + [d2] == [d1, d2] && [d2] + [] == [d2];
    assert Step(t1, limits, d2).requests == map[0 := Req(DISCOVERY_LIMIT_KEY, Escaped, [])];
  }

  lemma EmptyKeyRun(s: State, limits: Limits)
    requires limits.maxPerKey >= 1 && s.requests == map[0 := Req("http:a", ReadingBody, [])]
    requires s.slots.inFlight == Permits(1, map["http:a" := 1]) && !s.gate.shuttingDown
    ensures var t := Run(s, limits,
                         [BodyRead(0, Resolved("", false, false, false)), StreamSettled(0), ServersClosed(0)]);
            t.slots.inFlight.active == 1 && Live(t.requests) == {} && Lost(t.requests) == {0}
  {
    var d1, d2, d3: Event := BodyRead(0, Resolved("", false, false, false)), StreamSettled(0), ServersClosed(0);
    RunOfThree(s, limits, d1, d2, d3);
    var t1 := Step(s, limits, d1);
    assert t1.requests == map[0 := Req("", Streaming, [])] && t1.slots.inFlight.active == 1;
    var t2 := Step(t1, limits, d2);
    assert t2.requests == map[0 := Req("", Finalizing, [])];
    var t3 := Step(t2, limits, d3);
    assert t3.requests == map[0 := Req("", Done, [])];
  }

  lemma RunOfThree(s: State, limits: Limits, a: Event, b: Event, c: Event)
    ensures Run(s, limits, [a, b, c]) == Step(Step(Step(s, limits, a), limits, b), limits, c)
  {
    hide Step;
    var t := Step(s, limits, a);
    assert [a, b, c][1..] == [b, c] && [b, c][1..] == [c] && [c][1..] == [];
    assert Run(s, limits, [a, b, c]) == Run(t, limits, [b, c]) == Run(Step(t, limits, b), limits, [c]);
  }

  // ---- Who gets in, by the number of requests that hold a permit ----

  /** The request may move its permit to `key`: it is there already, or too few requests hold that key. */
  predicate MayHold(s: State, limits: Limits, id: nat, key: string)
    requires id in s.requests
  {
    s.requests[id].limitKey == key || |Under(Holders(s.requests), key)| < limits.maxPerKey
  }

  lemma MoveAllowedIff(s: State, limits: Limits, id: nat, key: string)
    requires Inv(s, limits) && id in s.requests && IsLive(s.requests[id])
    ensures Rekey(s.slots.inFlight, limits, s.requests[id].limitKey, key).1 ==
            if MayHold(s, limits, id, key) then Allowed else Refused(429)
  {
    RekeyKeepsBalance(s.slots.inFlight, limits, key, Holders(s.requests), id);
  }

  /** The requests that wait with a verification permit all hold it under one key. */
  lemma VerificationAllowedIff(s: State, limits: Limits)
    requires Inv(s, limits)
    ensures Acquire(s.slots.verification, limits, VERIFICATION_LIMIT_KEY).1.Allowed? <==>
            |Verifiers(s.requests)| < limits.maxTotal && |Verifiers(s.requests)| < limits.maxPerKey
  {
    var verifiers := Verifiers(s.requests);
    assert CountsKey(s.slots.verification, verifiers, VERIFICATION_LIMIT_KEY);
    assert Under(verifiers, VERIFICATION_LIMIT_KEY) == verifiers.Keys;
    assert |verifiers.Keys| == |verifiers|;
  }

  /**
   * A new request is let in exactly when the handler is not draining and the permits that are out are below
   * both bounds; with a spent rate it is only answered.
   */
  lemma ArrivalAdmittedIff(limits: Limits, events: seq<Event>, id: nat, key: string, rateOk: bool)
    requires id !in Run(START, limits, events).requests
    ensures var s := Run(START, limits, events);
            var t := Step(s, limits, Arrive(id, key, rateOk));
            var admitted := !s.gate.shuttingDown && |Holders(s.requests)| < limits.maxTotal &&
                            |Under(Holders(s.requests), key)| < limits.maxPerKey;
            && t.gate == s.gate
            && t.requests == if admitted then s.requests[id := Req(key, if rateOk then ReadingBody else Streaming, [])]
                             else s.requests
  {
    hide Run;
    var s := Run(START, limits, events);
    StartInv(limits);
    RunKeepsInv(START, limits, events);
    NotAHolder(s.requests, id);
    AcquireKeepsBalance(s.slots.inFlight, limits, key, Holders(s.requests), id);
  }

  /**
   * A resolved credential goes on to the capability lookup exactly when its key may be held, its rate is not
   * spent, and, if it has to be verified, neither is that rate and the verifying requests are below both bounds.
   * It then holds that key, and a verification permit exactly when it is verified; otherwise it is answered.
   */
  lemma CredentialAdmittedIff(
      limits: Limits, events: seq<Event>, id: nat, key: string, rateOk: bool, verify: bool, verifyRateOk: bool)
    requires var s := Run(START, limits, events); id in s.requests && s.requests[id].phase.ReadingBody?
    ensures var s := Run(START, limits, events);
            var t := Step(s, limits, BodyRead(id, Resolved(key, rateOk, verify, verifyRateOk)));
            var verified := verifyRateOk && |Verifiers(s.requests)| < limits.maxTotal &&
                            |Verifiers(s.requests)| < limits.maxPerKey;
            var admitted := MayHold(s, limits, id, key) && rateOk && (verify ==> verified);
            var limitKey := if MayHold(s, limits, id, key) then key else s.requests[id].limitKey;
            && t.gate == s.gate
            && t.requests == s.requests[id := s.requests[id].(
                 limitKey := limitKey, phase := if admitted then Discovering(verify) else Streaming)]
  {
    hide Run, Inv, Rekey, Acquire, Release;
    var s := Run(START, limits, events);
    StartInv(limits);
    RunKeepsInv(START, limits, events);
    MoveAllowedIff(s, limits, id, key);
    VerificationAllowedIff(s, limits);
  }

  /**
   * Discovery mode is entered, from either side, exactly when the discovery key may be held and its rate is not
   * spent. A verification permit is given back whatever comes of it.
   */
  lemma DiscoveryModeEnteredIff(limits: Limits, events: seq<Event>, id: nat, rateOk: bool)
    requires var s := Run(START, limits, events); id in s.requests && IsLive(s.requests[id])
    ensures var s := Run(START, limits, events);
            var r := s.requests[id];
            var e := if r.phase.ReadingBody? then BodyRead(id, DiscoveryMode(rateOk))
                     else CapabilitiesSettled(id, Downgraded(rateOk));
            var t := Step(s, limits, e);
            var mayHold := MayHold(s, limits, id, DISCOVERY_LIMIT_KEY);
            var next := r.(limitKey := if mayHold then DISCOVERY_LIMIT_KEY else r.limitKey,
                           phase := if mayHold && rateOk then Dispatching(true) else Streaming);
            r.phase.ReadingBody? || r.phase.Discovering? ==>
              && t.gate == s.gate && t.requests == s.requests[id := next]
              && Verifiers(t.requests) == Verifiers(s.requests) - {id}
  {
    hide Run, Inv, Rekey, Release;
    var s := Run(START, limits, events);
    StartInv(limits);
    RunKeepsInv(START, limits, events);
    MoveAllowedIff(s, limits, id, DISCOVERY_LIMIT_KEY);
  }

  predicate Awaited(r: Req, e: Event) {
    (r.phase.ReadingBody? && e.BodyRead?) || (r.phase.Discovering? && e.CapabilitiesSettled?)
  }

  /**
   * A request reaches the MCP handler outside discovery mode exactly by a message that needs no credential or by
   * the capabilities of the credential it was admitted with, under the key it had. Any other outcome of the body
   * or the capability lookup leads to the lookup, to discovery mode, or to a response whose cleanup is pending;
   * and an outcome the request does not wait for changes nothing.
   */
  lemma DispatchedIff(s: State, limits: Limits, id: nat, e: Event)
    requires (e.BodyRead? || e.CapabilitiesSettled?) && e.id == id && id in s.requests
    ensures var r, r' := s.requests[id], Step(s, limits, e).requests[id];
            if !Awaited(r, e) then Step(s, limits, e) == s
            else
              && (r'.phase == Dispatching(false) <==>
                    e == BodyRead(id, ProtocolOnly) || e == CapabilitiesSettled(id, Found))
              && (r'.phase == Dispatching(true) ==>
                    e == BodyRead(id, DiscoveryMode(true)) || e == CapabilitiesSettled(id, Downgraded(true)))
              && (r'.phase.Discovering? ==> e.BodyRead? && e.body.Resolved?)
              && (r'.phase.Dispatching? || r'.phase.Discovering? || r'.phase.Streaming?)
              && (r'.limitKey != r.limitKey ==>
                    if e.BodyRead? then e.body.DiscoveryMode? || e.body.Resolved? else e.capabilities.Downgraded?)
  {
  }

  // ---- How long a permit is held ----

  lemma {:induction false} StreamingStays(s: State, limits: Limits, id: nat, events: seq<Event>)
    requires id in s.requests && s.requests[id].phase.Streaming? && StreamSettled(id) !in events
    ensures var t := Run(s, limits, events); id in Live(t.requests) && t.requests[id] == s.requests[id]
    decreases |events|
  {
    if events != [] {
      StreamingStays(Step(s, limits, events[0]), limits, id, events[1..]);
    }
  }

  lemma {:induction false} FinalizingStays(s: State, limits: Limits, id: nat, events: seq<Event>)
    requires id in s.requests && s.requests[id].phase.Finalizing? && ServersClosed(id) !in events
    ensures var t := Run(s, limits, events); id in Live(t.requests) && t.requests[id] == s.requests[id]
    decreases |events|
  {
    if events != [] {
      FinalizingStays(Step(s, limits, events[0]), limits, id, events[1..]);
    }
  }

  /** A response with a body keeps its permit until that body has settled, whatever else happens. */
  lemma PermitHeldWhileBodyStreams(s: State, limits: Limits, id: nat, events: seq<Event>)
    requires id in s.requests && s.requests[id].phase.Dispatching? && StreamSettled(id) !in events
    ensures var t := Run(Step(s, limits, Dispatched(id, WithBody)), limits, events);
            id in Live(t.requests) && t.requests[id].limitKey == s.requests[id].limitKey
  {
    hide Run, Live;
    StreamingStays(Step(s, limits, Dispatched(id, WithBody)), limits, id, events);
  }

  /** One without a body keeps it only until its servers are closed. */
  lemma BodilessEndsWithItsServers(s: State, limits: Limits, id: nat, events: seq<Event>)
    requires id in s.requests && s.requests[id].phase.Dispatching? && ServersClosed(id) !in events
    ensures var t := Run(Step(s, limits, Dispatched(id, WithoutBody)), limits, events);
            id in Live(t.requests) && Step(t, limits, ServersClosed(id)).requests[id].phase.Done?
  {
    hide Run;
    FinalizingStays(Step(s, limits, Dispatched(id, WithoutBody)), limits, id, events);
  }

  /** Once draining, always draining, and the set of admitted requests never grows again. */
  lemma {:induction false} NothingAdmittedAfterDrain(s: State, limits: Limits, events: seq<Event>)
    requires s.gate.shuttingDown
    ensures Run(s, limits, events).gate.shuttingDown
    ensures Run(s, limits, events).requests.Keys == s.requests.Keys
    decreases |events|
  {
    if events != [] {
      assert Step(s, limits, events[0]).requests.Keys == s.requests.Keys by {
        hide Advance;
      }
      assert Step(s, limits, events[0]).gate.shuttingDown by {
        hide Advance;
      }
      NothingAdmittedAfterDrain(Step(s, limits, events[0]), limits, events[1..]);
    }
  }

  /**
   * The underlying handler is closed at most once in any run; a step other than the forced timer or `close()`
   * closes it only when no request is live; and a drained handler with no permit out is closed.
   */
  lemma ClosedOnceAndOnlyWhenIdle(limits: Limits, events: seq<Event>, e: Event)
    ensures var s := Run(START, limits, events);
            var t := Step(s, limits, e);
            && s.gate.closings <= 1
            && (s.gate.closings == 1 <==> s.gate.closed)
            && (s.gate.closed ==> t.gate.closed && s.gate.shuttingDown)
            && (!s.gate.closed && t.gate.closed && e != ForcedTimer && e != Close ==>
                  t.gate.shuttingDown && Live(t.requests) == {} && Lost(t.requests) == {})
            && (s.gate.shuttingDown && Live(s.requests) == {} && Lost(s.requests) == {} ==> s.gate.closed)
  {
    hide Advance, WithinLimits, CountsKey, GaveBackOnce, Acquire;
    var s := Run(START, limits, events);
    var t := Step(s, limits, e);
    StartInv(limits);
    RunKeepsInv(START, limits, events);
    StepKeepsInv(s, limits, e);
    HoldersSplit(s.requests);
    HoldersSplit(t.requests);
    assert e.Arrive? ==> t.gate == s.gate;
  }

  /** Draining starts with a drain or a close and with nothing else; a close, and the timer of a drain, close. */
  lemma ShutdownSteps(limits: Limits, events: seq<Event>, e: Event)
    ensures var s := Run(START, limits, events);
            var t := Step(s, limits, e);
            && (t.gate.shuttingDown <==> s.gate.shuttingDown || e == Drain || e == Close)
            && (e == Close ==> t.gate.closed)
            && (e == ForcedTimer ==> (t.gate.closed <==> s.gate.shuttingDown))
  {
    hide Advance, WithinLimits, CountsKey, GaveBackOnce, Acquire;
    StartInv(limits);
    RunKeepsInv(START, limits, events);
  }

  // ---- The handler object ----

  /** The closure of the fetch handler. Each method is the code between two awaits of one request. */
  class Pipeline {
    const inFlight: InFlightLimiter
    const verification: InFlightLimiter
    var requests: map<nat, Req>
    var shuttingDown: bool
    var closed: bool
    var timerArmed: bool
    var closings: nat

    ghost predicate Valid()
      reads this
    {
      inFlight != verification && inFlight.limits == verification.limits
    }

    function SlotsView(): Slots
      reads this, inFlight, verification
    {
      Slots(inFlight.View(), verification.View())
    }

    function GateView(): Gate
      reads this
    {
      Gate(shuttingDown, closed, timerArmed, closings)
    }

    function View(): State
      reads this, inFlight, verification
    {
      State(SlotsView(), requests, GateView())
    }

    constructor (limits: Limits)
      ensures Valid() && fresh(inFlight) && fresh(verification)
      ensures inFlight.limits == limits && View() == START
    {
      inFlight := new InFlightLimiter(limits);
      verification := new InFlightLimiter(limits);
      requests, shuttingDown, closed, timerArmed, closings := map[], false, false, false, 0;
    }

    method CloseMcpHandler()
      requires Valid()
      modifies this`closed, this`timerArmed, this`closings
      ensures GateView() == CloseHandler(old(GateView()))
    {
      if closed {
        return;
      }
      closed := true;
      timerArmed := false;
      closings := closings + 1;
    }

    method MaybeCloseAfterDrain()
      requires Valid()
      modifies this`closed, this`timerArmed, this`closings
      ensures GateView() == CloseIfDrained(old(GateView()), inFlight.active)
    {
      if shuttingDown && inFlight.active == 0 {
        CloseMcpHandler();
      }
    }

    method DispatchDiscoveryMode(r: Req, rateOk: bool) returns (r': Req)
      requires Valid()
      modifies inFlight
      ensures (SlotsView(), r') == EnterDiscoveryMode(old(SlotsView()), inFlight.limits, r, rateOk)
    {
      var permit := inFlight.Move(r.limitKey, DISCOVERY_LIMIT_KEY);
      if permit.Refused? {
        return r.(phase := Streaming);
      }
      r' := r.(limitKey := DISCOVERY_LIMIT_KEY);
      if !rateOk {
        return r'.(phase := Streaming);
      }
      r' := r'.(phase := Dispatching(true));
    }

    /** From the arrival of a request to the read of its body. */
    method Fetch(id: nat, key: string, rateOk: bool)
      requires Valid() && id !in requests
      modifies this`requests, inFlight
      ensures View() == Step(old(View()), inFlight.limits, Arrive(id, key, rateOk))
    {
      if shuttingDown {
        return;
      }
      var permit := inFlight.Take(key);
      if permit.Refused? {
        return;
      }
      requests := requests[id := Req(key, if rateOk then ReadingBody else Streaming, [])];
    }

    method Admission(r: Req, cacheKey: string, rateOk: bool, verify: bool, verifyRateOk: bool) returns (r': Req)
      requires Valid()
      modifies inFlight, verification
      ensures (SlotsView(), r') ==
              AfterBody(old(SlotsView()), inFlight.limits, r, Resolved(cacheKey, rateOk, verify, verifyRateOk))
    {
      var permit := inFlight.Move(r.limitKey, cacheKey);
      if permit.Refused? {
        return r.(phase := Streaming);
      }
      r' := r.(limitKey := cacheKey);
      if !rateOk {
        return r'.(phase := Streaming);
      }
      if verify {
        var verificationPermit := verification.Take(VERIFICATION_LIMIT_KEY);
        if verificationPermit.Refused? {
          return r'.(phase := Streaming);
        }
        if !verifyRateOk {
          verification.GiveBack(VERIFICATION_LIMIT_KEY);
          return r'.(phase := Streaming);
        }
      }
      r' := r'.(phase := Discovering(verify));
    }

    /** From the body to the capability lookup or the dispatch. */
    method ResumeWithBody(id: nat, body: BodyOutcome)
      requires Valid() && id in requests && requests[id].phase.ReadingBody?
      modifies this`requests, inFlight, verification
      ensures View() == Step(old(View()), inFlight.limits, BodyRead(id, body))
    {
      var r := requests[id];
      match body {
        case Rejected => r := r.(phase := Streaming);
        case ProtocolOnly => r := r.(phase := Dispatching(false));
        case DiscoveryMode(rateOk) => r := DispatchDiscoveryMode(r, rateOk);
        case Resolved(cacheKey, rateOk, verify, verifyRateOk) =>
          r := Admission(r, cacheKey, rateOk, verify, verifyRateOk);
      }
      requests := requests[id := r];
      AdvanceFollows(old(SlotsView()), inFlight.limits, old(requests)[id], BodyRead(id, body));
    }

    /** From the capability lookup to the dispatch, with the `finally` that gives a verification permit back. */
    method ResumeWithCapabilities(id: nat, capabilities: CapabilityOutcome)
      requires Valid() && id in requests && requests[id].phase.Discovering?
      modifies this`requests, inFlight, verification
      ensures View() == Step(old(View()), inFlight.limits, CapabilitiesSettled(id, capabilities))
    {
      var r := requests[id];
      var held := r.phase.verifying;
      match capabilities {
        case Found => r := r.(phase := Dispatching(false));
        case Downgraded(rateOk) => r := DispatchDiscoveryMode(r, rateOk);
        case Failed => r := r.(phase := Streaming);
      }
      if held {
        verification.GiveBack(VERIFICATION_LIMIT_KEY);
      }
      requests := requests[id := r];
    }

    /** From the MCP response to the wrapped response. */
    method ResumeWithResponse(id: nat, dispatch: DispatchOutcome)
      requires Valid() && id in requests && requests[id].phase.Dispatching?
      modifies this`requests
      ensures View() == Step(old(View()), inFlight.limits, Dispatched(id, dispatch))
    {
      var r := requests[id];
      match dispatch {
        case WithBody => r := r.(phase := Streaming);
        case WithoutBody => r := r.(phase := Finalizing);
        case Throws => r := r.(phase := if r.phase.discoveryMode then Escaped else Streaming);
      }
      requests := requests[id := r];
    }

    /** The cleanup of a response body; only its first call does anything. */
    method RunCleanup(id: nat)
      requires Valid() && id in requests
      modifies this`requests
      ensures View() == Step(old(View()), inFlight.limits, StreamSettled(id))
    {
      var r := requests[id];
      requests := requests[id := if r.phase.Streaming? then r.(phase := Finalizing) else r];
    }

    /** The `finally` of `finalize`, after the request's servers are closed. */
    method Finalize(id: nat)
      requires Valid() && id in requests && requests[id].phase.Finalizing?
      modifies this`requests, this`closed, this`timerArmed, this`closings, inFlight
      ensures View() == Step(old(View()), inFlight.limits, ServersClosed(id))
    {
      var r := requests[id];
      if r.limitKey != "" {
        inFlight.GiveBack(r.limitKey);
        requests := requests[id := r.(phase := Done, givenBack := r.givenBack + [r.limitKey])];
      } else {
        requests := requests[id := r.(phase := Done)];
      }
      MaybeCloseAfterDrain();
    }

    method BeginDrain()
      requires Valid()
      modifies this`shuttingDown, this`closed, this`timerArmed, this`closings
      ensures View() == Step(old(View()), inFlight.limits, Drain)
    {
      if shuttingDown {
        return;
      }
      shuttingDown := true;
      timerArmed := true;
      MaybeCloseAfterDrain();
    }

    method OnForcedTimer()
      requires Valid() && timerArmed
      modifies this`closed, this`timerArmed, this`closings
      ensures View() == Step(old(View()), inFlight.limits, ForcedTimer)
    {
      CloseMcpHandler();
    }

    method CloseNow()
      requires Valid()
      modifies this`shuttingDown, this`closed, this`timerArmed, this`closings
      ensures View() == Step(old(View()), inFlight.limits, Close)
    {
      BeginDrain();
      CloseMcpHandler();
    }
  }
}
